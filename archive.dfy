/**
 * Archive extraction: the reader chosen by the archive's extension, the
 * member loop of the zip reader and the unpacking of a gzip-compressed tar
 * into a destination directory. Decoding is a parameter: a reader turns the
 * archive's bytes into the members it can deliver, in archive order, with
 * their paths already made relative and safe.
 */
module Archive {
  import opened Wrappers
  import opened Text
  import opened Fs

  datatype EntryKind = DirEntry | FileEntry(content: string)

  /** An archive member: where it goes below the destination, and what it holds. */
  datatype Entry = Entry(path: Path, kind: EntryKind)

  /** The members a reader delivers, in order, and the error that stopped it, if one did. */
  datatype Decoded = Decoded(entries: seq<Entry>, failure: Option<string>)

  /** A gzip-compressed tar reader; it reads lazily, so its errors arise while unpacking. */
  type TarReader = string -> Decoded

  /** A zip reader; the central directory is read on opening and may be unreadable. */
  type ZipReader = string -> Result<Decoded, string>

  const Unsupported: string := "Unsupported archive format"

  // ---------------------------------------------------------------- extension

  /**
   * `Path::extension` of a file name: the text after its last '.', unless
   * there is no '.', or the only '.' starts the name, or the name is "..".
   */
  function Extension(name: string): (r: Option<string>)
    ensures '.' !in name ==> r.None?
    ensures r.Some? ==>
      && '.' !in r.value && |r.value| + 1 < |name|
      && name[|name| - |r.value| - 1] == '.' && name[|name| - |r.value|..] == r.value
  {
    if name == ".." then None
    else match RSplitOnce(name, '.')
      case None => None
      case Some((before, after)) =>
        assert name[|before| + 1..] == after;
        if before == "" then None else Some(after)
  }

  /** A name made of a non-empty stem, a '.' and a dot-free suffix has that suffix as its extension. */
  lemma ExtensionOfName(stem: string, ext: string)
    requires stem != "" && '.' !in ext && stem + "." + ext != ".."
    ensures Extension(stem + "." + ext) == Some(ext)
  {
    RSplitOnceUnique(stem, '.', ext);
    assert stem + "." + ext == stem + ['.'] + ext;
  }

  /** The extension `extract` dispatches on: that of the last component, "" when there is none. */
  function ArchiveExtension(archive: Path): string {
    if archive == [] then "" else Extension(archive[|archive| - 1]).UnwrapOr("")
  }

  // ---------------------------------------------------------------- placement

  /** Where a member lands: the destination joined with its path. */
  function Target(dest: Path, e: Entry): Path {
    dest + e.path
  }

  /**
   * One member written out: a directory member is created with its
   * ancestors; a file member gets its parent created, then is created or
   * truncated and written as `File::create` does.
   */
  function PlaceEntry(t: Tree, dest: Path, e: Entry): (s: Step)
    ensures Wf(t) ==> Wf(s.tree)
    ensures Grows(t, s.tree)
  {
    var target := Target(dest, e);
    match e.kind
    case DirEntry =>
      CreateDirAllGrows(t, target);
      CreateDirAllStep(t, target)
    case FileEntry(content) =>
      var s1 := if target != [] then CreateDirAllStep(t, Parent(target)) else Step(Ok(()), t);
      CreateDirAllGrows(t, Parent(target));
      if s1.result.Err? then s1
      else
        WriteFileGrows(s1.tree, target, content);
        WriteFileStep(s1.tree, target, content)
  }

  /** The members written out in order; the first failure stops the loop. */
  function Unpack(t: Tree, dest: Path, entries: seq<Entry>): (s: Step)
    ensures Wf(t) ==> Wf(s.tree)
    ensures Grows(t, s.tree)
  {
    if entries == [] then Step(Ok(()), t)
    else
      var s1 := Unpack(t, dest, entries[..|entries| - 1]);
      if s1.result.Err? then s1
      else
        var s2 := PlaceEntry(s1.tree, dest, entries[|entries| - 1]);
        GrowsTrans(t, s1.tree, s2.tree);
        s2
  }

  lemma UnpackNext(t: Tree, dest: Path, entries: seq<Entry>, i: nat)
    requires i < |entries| && Unpack(t, dest, entries[..i]).result.Ok?
    ensures Unpack(t, dest, entries[..i + 1]) == PlaceEntry(Unpack(t, dest, entries[..i]).tree, dest, entries[i])
  {
    assert entries[..i + 1][..i] == entries[..i];
    assert entries[..i + 1][i] == entries[i];
  }

  /** The next member written out: the unpacking goes on, or stops with this member's failure. */
  lemma UnpackOne(t: Tree, dest: Path, entries: seq<Entry>, i: nat, u: Tree, s: Step)
    requires i < |entries| && Unpack(t, dest, entries[..i]) == Step(Ok(()), u)
    requires s == PlaceEntry(u, dest, entries[i])
    ensures s.result.Ok? ==> Unpack(t, dest, entries[..i + 1]) == s
    ensures s.result.Err? ==> Unpack(t, dest, entries) == s
  {
    UnpackNext(t, dest, entries, i);
    if s.result.Err? {
      UnpackStops(t, dest, entries, i + 1);
    }
  }

  /** Once a member fails, the rest are not written. */
  lemma {:induction false} UnpackStops(t: Tree, dest: Path, entries: seq<Entry>, k: nat)
    requires k <= |entries| && Unpack(t, dest, entries[..k]).result.Err?
    ensures Unpack(t, dest, entries) == Unpack(t, dest, entries[..k])
    decreases |entries| - k
  {
    if k < |entries| {
      var init := entries[..|entries| - 1];
      assert init[..k] == entries[..k];
      UnpackStops(t, dest, init, k);
    } else {
      assert entries[..k] == entries;
    }
  }

  /** The member is where it belongs: a directory, or a readable regular file. */
  predicate Placed(t: Tree, dest: Path, e: Entry) {
    match e.kind
    case DirEntry => IsDir(t, Target(dest, e))
    case FileEntry(_) => ReadFile(t, Target(dest, e)).Ok?
  }

  lemma PlacedGrows(t: Tree, u: Tree, dest: Path, e: Entry)
    requires Grows(t, u) && Placed(t, dest, e)
    ensures Placed(u, dest, e)
  {
    ResolveGrows(t, u, Target(dest, e));
  }

  lemma PlaceEntryPlaces(t: Tree, dest: Path, e: Entry)
    requires PlaceEntry(t, dest, e).result.Ok?
    ensures Placed(PlaceEntry(t, dest, e).tree, dest, e)
  {
  }

  /**
   * When every member was written out, each one is at its own path below the
   * destination; nothing is dropped and no leading directory is stripped.
   */
  lemma UnpackPlaces(t: Tree, dest: Path, entries: seq<Entry>)
    requires Unpack(t, dest, entries).result.Ok?
    ensures forall i :: 0 <= i < |entries| ==> Placed(Unpack(t, dest, entries).tree, dest, entries[i])
  {
    forall i | 0 <= i < |entries|
      ensures Placed(Unpack(t, dest, entries).tree, dest, entries[i])
    {
      UnpackPlaced(t, dest, entries, i);
    }
  }

  /** The member at `i` is placed once every member is written out. */
  lemma {:induction false} UnpackPlaced(t: Tree, dest: Path, entries: seq<Entry>, i: nat)
    requires i < |entries| && Unpack(t, dest, entries).result.Ok?
    ensures Placed(Unpack(t, dest, entries).tree, dest, entries[i])
  {
    UnpackLastPlaces(t, dest, entries);
    if i < |entries| - 1 {
      var init := entries[..|entries| - 1];
      assert entries[i] == init[i];
      UnpackPlaced(t, dest, init, i);
      PlacedGrows(Unpack(t, dest, init).tree, Unpack(t, dest, entries).tree, dest, init[i]);
    }
  }

  /** The last member is placed, and what was placed before it stays. */
  lemma UnpackLastPlaces(t: Tree, dest: Path, entries: seq<Entry>)
    requires entries != [] && Unpack(t, dest, entries).result.Ok?
    ensures Unpack(t, dest, entries[..|entries| - 1]).result.Ok?
    ensures Grows(Unpack(t, dest, entries[..|entries| - 1]).tree, Unpack(t, dest, entries).tree)
    ensures Placed(Unpack(t, dest, entries).tree, dest, entries[|entries| - 1])
  {
    var s1 := Unpack(t, dest, entries[..|entries| - 1]);
    PlaceEntryPlaces(s1.tree, dest, entries[|entries| - 1]);
  }

  /** After a complete unpacking, a file member that comes last holds exactly its content. */
  lemma LastFileContent(t: Tree, dest: Path, entries: seq<Entry>)
    requires entries != [] && entries[|entries| - 1].kind.FileEntry?
    requires Unpack(t, dest, entries).result.Ok?
    ensures ReadFile(Unpack(t, dest, entries).tree, Target(dest, entries[|entries| - 1]))
            == Ok(entries[|entries| - 1].kind.content)
  {
  }

  /**
   * Of two file members at the same path, one right after the other, only
   * the later one counts: the earlier is truncated away.
   */
  lemma LaterFileWins(t: Tree, dest: Path, before: seq<Entry>, p: Path, first: string, second: string)
    requires Wf(t)
    ensures Unpack(t, dest, before + [Entry(p, FileEntry(first)), Entry(p, FileEntry(second))])
         == Unpack(t, dest, before + [Entry(p, FileEntry(second))])
  {
    var e1, e2 := Entry(p, FileEntry(first)), Entry(p, FileEntry(second));
    var both, one := before + [e1, e2], before + [e2];
    assert both[..|both| - 1] == before + [e1];
    assert (before + [e1])[..|before|] == before;
    assert one[..|one| - 1] == before;
    var s0 := Unpack(t, dest, before);
    if s0.result.Ok? {
      SameFileTwice(s0.tree, dest, e1, e2);
    }
  }

  lemma SameFileTwice(t: Tree, dest: Path, e1: Entry, e2: Entry)
    requires Wf(t)
    requires e1.path == e2.path && e1.kind.FileEntry? && e2.kind.FileEntry?
    ensures var s1 := PlaceEntry(t, dest, e1);
      (if s1.result.Err? then s1 else PlaceEntry(s1.tree, dest, e2)) == PlaceEntry(t, dest, e2)
  {
    var target := Target(dest, e1);
    var s1 := PlaceEntry(t, dest, e1);
    if s1.result.Ok? {
      if target == [] {
        assert false;
      }
      var u := CreateDirAllStep(t, Parent(target)).tree;
      var w := s1.tree;
      assert w == WriteFileStep(u, target, e1.kind.content).tree;
      WfParent(w, target);
      assert Resolve(w, Parent(target)) == Ok(Parent(target));
      assert CreateDirAllStep(w, Parent(target)) == Step(Ok(()), w);
      WriteTwice(u, target, e1.kind.content, e2.kind.content);
    }
  }

  // ---------------------------------------------------------------- readers

  /** The outcome of unpacking, followed by the reader's own failure, if it had one. */
  function Finish(s: Step, failure: Option<string>): (c: Change)
    ensures c.tree == s.tree
    ensures c.result.Ok? <==> s.result.Ok? && failure.None?
  {
    if s.result.Err? then Lift(s)
    else if failure.Some? then Change(Err(failure.value), s.tree)
    else Change(Ok(()), s.tree)
  }

  /**
   * `extract_tar_gz`: open the archive, create the destination, then unpack
   * the members while reading the archive.
   */
  function ExtractTarGzSpec(t: Tree, archive: Path, dest: Path, untar: TarReader): Change {
    match Resolve(t, archive)
    case Err(e) => Change(Err(Describe(e)), t)
    case Ok(_) =>
      var s := CreateDirAllStep(t, dest);
      if s.result.Err? then Lift(s)
      else
        match ReadFile(s.tree, archive)
        case Err(e) => Change(Err(Describe(e)), s.tree)
        case Ok(bytes) =>
          var d := untar(bytes);
          Finish(Unpack(s.tree, dest, d.entries), d.failure)
  }

  /**
   * `extract_zip`: open and read the archive's directory, create the
   * destination, then write the members out in index order.
   */
  function ExtractZipSpec(t: Tree, archive: Path, dest: Path, unzip: ZipReader): Change {
    match ReadFile(t, archive)
    case Err(e) => Change(Err(Describe(e)), t)
    case Ok(bytes) =>
      match unzip(bytes)
      case Err(msg) => Change(Err(msg), t)
      case Ok(d) =>
        var s := CreateDirAllStep(t, dest);
        if s.result.Err? then Lift(s)
        else Finish(Unpack(s.tree, dest, d.entries), d.failure)
  }

  /** `extract`: the reader is chosen by the archive's extension. */
  function ExtractSpec(t: Tree, archive: Path, dest: Path, untar: TarReader, unzip: ZipReader): Change {
    match ArchiveExtension(archive)
    case "gz" => ExtractTarGzSpec(t, archive, dest, untar)
    case "zip" => ExtractZipSpec(t, archive, dest, unzip)
    case _ => Change(Err(Unsupported), t)
  }

  /** Writing members out makes no links. */
  lemma PlaceEntryLinks(t: Tree, dest: Path, e: Entry)
    ensures NoNewLinks(t, PlaceEntry(t, dest, e).tree)
  {
    var target := Target(dest, e);
    CreateDirAllGrows(t, target);
    if target != [] {
      CreateDirAllGrows(t, Parent(target));
      if e.kind.FileEntry? {
        WriteFileGrows(CreateDirAllStep(t, Parent(target)).tree, target, e.kind.content);
      }
    } else if e.kind.FileEntry? {
      WriteFileGrows(t, target, e.kind.content);
    }
  }

  lemma {:induction false} UnpackLinks(t: Tree, dest: Path, entries: seq<Entry>)
    ensures NoNewLinks(t, Unpack(t, dest, entries).tree)
  {
    if entries != [] {
      var init := entries[..|entries| - 1];
      UnpackLinks(t, dest, init);
      PlaceEntryLinks(Unpack(t, dest, init).tree, dest, entries[|entries| - 1]);
    }
  }

  /** Extraction keeps the tree well formed, keeps what was there, and makes no links. */
  lemma ExtractFrame(t: Tree, archive: Path, dest: Path, untar: TarReader, unzip: ZipReader)
    requires Wf(t)
    ensures Wf(ExtractSpec(t, archive, dest, untar, unzip).tree)
    ensures Grows(t, ExtractSpec(t, archive, dest, untar, unzip).tree)
    ensures NoNewLinks(t, ExtractSpec(t, archive, dest, untar, unzip).tree)
  {
    match ArchiveExtension(archive)
    case "gz" => TarFrame(t, archive, dest, untar);
    case "zip" => ZipFrame(t, archive, dest, unzip);
    case _ =>
  }

  lemma TarFrame(t: Tree, archive: Path, dest: Path, untar: TarReader)
    requires Wf(t)
    ensures Wf(ExtractTarGzSpec(t, archive, dest, untar).tree)
    ensures Grows(t, ExtractTarGzSpec(t, archive, dest, untar).tree)
    ensures NoNewLinks(t, ExtractTarGzSpec(t, archive, dest, untar).tree)
  {
    CreateDirAllGrows(t, dest);
    var u := CreateDirAllStep(t, dest).tree;
    if ReadFile(u, archive).Ok? {
      var es := untar(ReadFile(u, archive).value).entries;
      GrowsTrans(t, u, Unpack(u, dest, es).tree);
      UnpackLinks(u, dest, es);
    }
  }

  lemma ZipFrame(t: Tree, archive: Path, dest: Path, unzip: ZipReader)
    requires Wf(t)
    ensures Wf(ExtractZipSpec(t, archive, dest, unzip).tree)
    ensures Grows(t, ExtractZipSpec(t, archive, dest, unzip).tree)
    ensures NoNewLinks(t, ExtractZipSpec(t, archive, dest, unzip).tree)
  {
    CreateDirAllGrows(t, dest);
    var u := CreateDirAllStep(t, dest).tree;
    if ReadFile(t, archive).Ok? && unzip(ReadFile(t, archive).value).Ok? {
      var es := unzip(ReadFile(t, archive).value).value.entries;
      GrowsTrans(t, u, Unpack(u, dest, es).tree);
      UnpackLinks(u, dest, es);
    }
  }

  /** Any other extension, or none, is refused without touching the file system. */
  lemma UnsupportedFormat(t: Tree, archive: Path, dest: Path, untar: TarReader, unzip: ZipReader)
    requires ArchiveExtension(archive) != "gz" && ArchiveExtension(archive) != "zip"
    ensures ExtractSpec(t, archive, dest, untar, unzip) == Change(Err(Unsupported), t)
  {
  }

  /** A missing archive is an error found on opening, before the destination is created. */
  lemma MissingArchive(t: Tree, archive: Path, dest: Path, untar: TarReader, unzip: ZipReader)
    requires !Exists(t, archive)
    ensures ExtractSpec(t, archive, dest, untar, unzip).result.Err?
    ensures ExtractSpec(t, archive, dest, untar, unzip).tree == t
  {
  }

  /**
   * A readable archive (for zip: with a readable directory) gets its
   * destination created, with any missing ancestors, whatever happens to the
   * members afterwards.
   */
  lemma DestinationCreated(t: Tree, archive: Path, dest: Path, untar: TarReader, unzip: ZipReader)
    requires ArchiveExtension(archive) == "gz" || ArchiveExtension(archive) == "zip"
    requires ReadFile(t, archive).Ok?
    requires ArchiveExtension(archive) == "zip" ==> unzip(ReadFile(t, archive).value).Ok?
    requires CreateDirAllStep(t, dest).result.Ok?
    ensures IsDir(ExtractSpec(t, archive, dest, untar, unzip).tree, dest)
  {
    var s := CreateDirAllStep(t, dest);
    ResolveGrows(t, s.tree, archive);
    assert ReadFile(s.tree, archive) == ReadFile(t, archive);
    var bytes := ReadFile(t, archive).value;
    if ArchiveExtension(archive) == "gz" {
      ResolveGrows(s.tree, Unpack(s.tree, dest, untar(bytes).entries).tree, dest);
    } else {
      ResolveGrows(s.tree, Unpack(s.tree, dest, unzip(bytes).value.entries).tree, dest);
    }
  }

  /** A successful extraction leaves every member the reader delivered at its own path below the destination. */
  lemma ExtractPlaces(t: Tree, archive: Path, dest: Path, untar: TarReader, unzip: ZipReader)
    requires ExtractSpec(t, archive, dest, untar, unzip).result.Ok?
    ensures ReadFile(t, archive).Ok?
    ensures IsDir(ExtractSpec(t, archive, dest, untar, unzip).tree, dest)
    ensures ArchiveExtension(archive) == "gz" ==> UnpackedAll(ExtractSpec(t, archive, dest, untar, unzip).tree, dest, untar(ReadFile(t, archive).value))
    ensures ArchiveExtension(archive) == "zip" ==> UnpackedAll(ExtractSpec(t, archive, dest, untar, unzip).tree, dest, unzip(ReadFile(t, archive).value).value)
  {
    var s := CreateDirAllStep(t, dest);
    ResolveGrows(t, s.tree, archive);
    assert ReadFile(s.tree, archive) == ReadFile(t, archive);
    if ArchiveExtension(archive) == "gz" {
      ReaderPlaces(s.tree, dest, untar(ReadFile(t, archive).value));
    } else {
      ReaderPlaces(s.tree, dest, unzip(ReadFile(t, archive).value).value);
    }
  }

  /** Every member the reader delivered is placed. */
  predicate UnpackedAll(t: Tree, dest: Path, d: Decoded) {
    forall i :: 0 <= i < |d.entries| ==> Placed(t, dest, d.entries[i])
  }

  lemma ReaderPlaces(t: Tree, dest: Path, d: Decoded)
    requires IsDir(t, dest) && Finish(Unpack(t, dest, d.entries), d.failure).result.Ok?
    ensures IsDir(Unpack(t, dest, d.entries).tree, dest)
    ensures UnpackedAll(Unpack(t, dest, d.entries).tree, dest, d)
  {
    UnpackPlaces(t, dest, d.entries);
    ResolveGrows(t, Unpack(t, dest, d.entries).tree, dest);
  }

  // ---------------------------------------------------------------- methods

  /** Writes the members out, in order, stopping at the first failure (the loop of `extract_zip`). */
  method PlaceEntries(fs: FileSystem, dest: Path, entries: seq<Entry>) returns (r: Result<(), IoError>)
    modifies fs
    ensures Step(r, fs.tree) == Unpack(old(fs.tree), dest, entries)
  {
    ghost var t := fs.tree;
    r := Ok(());
    for i := 0 to |entries|
      invariant Step(Ok(()), fs.tree) == Unpack(t, dest, entries[..i])
    {
      var placed := PlaceNext(fs, dest, entries, i, t);
      if placed.Err? {
        return placed;
      }
    }
    PrefixAll(entries);
  }

  /** The member after the first `i`, written out once those are. */
  method PlaceNext(fs: FileSystem, dest: Path, entries: seq<Entry>, i: nat, ghost t: Tree) returns (r: Result<(), IoError>)
    requires i < |entries| && Unpack(t, dest, entries[..i]) == Step(Ok(()), fs.tree)
    modifies fs
    ensures r.Ok? ==> Unpack(t, dest, entries[..i + 1]) == Step(Ok(()), fs.tree)
    ensures r.Err? ==> Unpack(t, dest, entries) == Step(r, fs.tree)
  {
    ghost var before := fs.tree;
    r := PlaceOne(fs, dest, entries[i]);
    UnpackOne(t, dest, entries, i, before, Step(r, fs.tree));
    if r.Ok? {
      OkUnit(r);
    }
  }

  /** One member written out, as `PlaceEntry` describes. */
  method PlaceOne(fs: FileSystem, dest: Path, e: Entry) returns (r: Result<(), IoError>)
    modifies fs
    ensures Step(r, fs.tree) == PlaceEntry(old(fs.tree), dest, e)
  {
    var target := Target(dest, e);
    match e.kind
    case DirEntry =>
      r := fs.CreateDirAll(target);
    case FileEntry(content) =>
      r := Ok(());
      if target != [] {
        r := fs.CreateDirAll(Parent(target));
      }
      if r.Ok? {
        r := fs.WriteFile(target, content);
      }
  }

  method ExtractTarGz(fs: FileSystem, archive: Path, dest: Path, untar: TarReader) returns (r: Result<(), string>)
    modifies fs
    ensures Change(r, fs.tree) == ExtractTarGzSpec(old(fs.tree), archive, dest, untar)
  {
    var handle := Resolve(fs.tree, archive);
    if handle.Err? {
      return Err(Describe(handle.error));
    }
    var created := fs.CreateDirAll(dest);
    if created.Err? {
      return Lift(Step(created, fs.tree)).result;
    }
    var bytes := ReadFile(fs.tree, archive);
    if bytes.Err? {
      return Err(Describe(bytes.error));
    }
    var d := untar(bytes.value);
    var placed := PlaceEntries(fs, dest, d.entries);
    r := Finish(Step(placed, fs.tree), d.failure).result;
  }

  method ExtractZip(fs: FileSystem, archive: Path, dest: Path, unzip: ZipReader) returns (r: Result<(), string>)
    modifies fs
    ensures Change(r, fs.tree) == ExtractZipSpec(old(fs.tree), archive, dest, unzip)
  {
    var bytes := ReadFile(fs.tree, archive);
    if bytes.Err? {
      return Err(Describe(bytes.error));
    }
    var reader := unzip(bytes.value);
    if reader.Err? {
      return Err(reader.error);
    }
    var created := fs.CreateDirAll(dest);
    if created.Err? {
      return Lift(Step(created, fs.tree)).result;
    }
    var placed := PlaceEntries(fs, dest, reader.value.entries);
    r := Finish(Step(placed, fs.tree), reader.value.failure).result;
  }

  method Extract(fs: FileSystem, archive: Path, dest: Path, untar: TarReader, unzip: ZipReader) returns (r: Result<(), string>)
    modifies fs
    ensures Change(r, fs.tree) == ExtractSpec(old(fs.tree), archive, dest, untar, unzip)
  {
    var ext := ArchiveExtension(archive);
    if ext == "gz" {
      r := ExtractTarGz(fs, archive, dest, untar);
    } else if ext == "zip" {
      r := ExtractZip(fs, archive, dest, unzip);
    } else {
      r := Err(Unsupported);
    }
  }
}
