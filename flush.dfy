/**
 * `sdk flush [target]`: empties the download scratch directory and the
 * metadata cache by removing and recreating them, or removes the cached
 * version file, and reports what held something.
 */
module Flush {
  import opened Wrappers
  import opened Text
  import opened Fs
  import opened Store

  function TmpDir(root: Path): Path {
    root + ["tmp"]
  }

  function MetadataDir(root: Path): Path {
    root + ["var", "metadata"]
  }

  function VersionCache(root: Path): Path {
    root + ["var", "version"]
  }

  /** How many entries `read_dir(p)` yields; 0 when it fails. */
  function EntryCount(t: Tree, p: Path): nat {
    match ListDir(t, p)
    case Ok(names) => |names|
    case Err(_) => 0
  }

  function Report(name: Name, count: nat): string {
    name + " (" + NatToString(count) + " items)"
  }

  /** The file system after a flush step and the reports it adds. */
  datatype Swept = Swept(tree: Tree, reports: seq<string>)

  /**
   * `flush_dir`: a missing directory is left alone; otherwise it is removed
   * and created again, both best effort, and reported by its last segment
   * with the entry count it had, when that was not zero.
   */
  function FlushDirSpec(t: Tree, p: Path): Swept
    requires p != []
  {
    if !Exists(t, p) then Swept(t, [])
    else
      var count := EntryCount(t, p);
      var u := RemoveDirAllStep(t, p).tree;
      var w := CreateDirAllStep(u, p).tree;
      Swept(w, if count > 0 then [Report(p[|p| - 1], count)] else [])
  }

  method FlushDir(fs: FileSystem, p: Path, flushed: seq<string>) returns (out: seq<string>)
    requires p != []
    modifies fs
    ensures fs.tree == FlushDirSpec(old(fs.tree), p).tree
    ensures out == flushed + FlushDirSpec(old(fs.tree), p).reports
  {
    if !Exists(fs.tree, p) {
      return flushed;
    }
    var entries := fs.ReadDir(p);
    var count := if entries.Ok? then |entries.value| else 0;
    var _ := fs.RemoveDirAll(p);
    var _ := fs.CreateDirAll(p);
    out := flushed;
    if count > 0 {
      out := out + [Report(p[|p| - 1], count)];
    }
  }

  /**
   * The effect of `flush_dir`: a missing path or a file is left as it is
   * and reported by nobody; a directory, or a link, is replaced by an empty
   * directory, and reported exactly when it had entries, with their number.
   */
  lemma FlushDirEffect(t: Tree, p: Path)
    requires Wf(t) && p != []
    ensures var s := FlushDirSpec(t, p);
      && Wf(s.tree)
      && (!Exists(t, p) || t[p].File? ==> s == Swept(t, []))
      && (Exists(t, p) && !t[p].File? ==>
            && s.tree == Prune(t, p)[p := Dir]
            && ListDir(s.tree, p) == Ok({})
            && (s.reports != [] <==> EntryCount(t, p) > 0)
            && (s.reports != [] ==> s.reports == [Report(p[|p| - 1], EntryCount(t, p))]))
  {
    if Exists(t, p) {
      if t[p].File? {
        assert ListDir(t, p).Err?;
      } else {
        var u := RemoveDirAllStep(t, p).tree;
        WfParent(t, p);
        assert IsRealDir(u, Parent(p));
        assert p[..|p|] == p;
        assert p !in u;
        var w := u[p := Dir];
        assert CreateDirAllStep(u, p).tree == w;
        assert Entries(w, p) == {};
      }
    }
  }

  /** Nothing but `p` and what lies inside it changes. */
  lemma FlushDirFrame(t: Tree, p: Path)
    requires Wf(t) && p != []
    ensures var u := FlushDirSpec(t, p).tree;
      && (forall q :: q in t && !Under(q, p) ==> q in u && u[q] == t[q])
      && (forall q :: q in u && q !in t ==> Under(q, p))
  {
    FlushDirEffect(t, p);
    assert p[..|p|] == p;
  }

  /** `Flushed: ...` or `Nothing to flush`. */
  function FlushMessage(flushed: seq<string>): (m: string)
    ensures m == "Nothing to flush" <==> flushed == []
  {
    if flushed == [] then "Nothing to flush"
    else
      assert ("Flushed: " + Join(flushed, ", "))[0] == 'F';
      "Flushed: " + Join(flushed, ", ")
  }

  /** `Flush::run`. */
  function FlushSpec(t: Tree, root: Path, target: Option<string>): Outcome {
    match target
    case Some("tmp") => FlushOne(t, TmpDir(root))
    case Some("temp") => FlushOne(t, TmpDir(root))
    case Some("metadata") => FlushOne(t, MetadataDir(root))
    case Some("version") =>
      var file := VersionCache(root);
      if !Exists(t, file) then Outcome(Ok(FlushMessage([])), t)
      else
        var s := RemoveFileStep(t, file);
        if s.result.Err? then Outcome(Err("Failed to remove version file: " + Describe(s.result.error)), s.tree)
        else Outcome(Ok(FlushMessage(["version file"])), s.tree)
    case _ =>
      var first := FlushDirSpec(t, TmpDir(root));
      var second := FlushDirSpec(first.tree, MetadataDir(root));
      Outcome(Ok(FlushMessage(first.reports + second.reports)), second.tree)
  }

  function FlushOne(t: Tree, p: Path): Outcome
    requires p != []
  {
    var s := FlushDirSpec(t, p);
    Outcome(Ok(FlushMessage(s.reports)), s.tree)
  }

  method Flush(fs: FileSystem, root: Path, target: Option<string>) returns (r: Result<string, string>)
    modifies fs
    ensures Outcome(r, fs.tree) == FlushSpec(old(fs.tree), root, target)
  {
    var flushed: seq<string> := [];
    match target {
      case Some("tmp") =>
        flushed := FlushDir(fs, TmpDir(root), flushed);
      case Some("temp") =>
        flushed := FlushDir(fs, TmpDir(root), flushed);
      case Some("metadata") =>
        flushed := FlushDir(fs, MetadataDir(root), flushed);
      case Some("version") =>
        var file := VersionCache(root);
        if Exists(fs.tree, file) {
          var removed := fs.RemoveFile(file);
          if removed.Err? {
            return Err("Failed to remove version file: " + Describe(removed.error));
          }
          flushed := flushed + ["version file"];
        }
      case _ =>
        flushed := FlushDir(fs, TmpDir(root), flushed);
        flushed := FlushDir(fs, MetadataDir(root), flushed);
    }
    r := Ok(FlushMessage(flushed));
  }

  /** The scratch directory and the metadata cache lie apart, as does each from the version file. */
  lemma CachesApart(root: Path)
    ensures Disjoint(TmpDir(root), MetadataDir(root))
    ensures Disjoint(TmpDir(root), VersionCache(root))
    ensures Disjoint(MetadataDir(root), VersionCache(root))
  {
    var a, b, c := TmpDir(root), MetadataDir(root), VersionCache(root);
    assert a[|root|] == "tmp" && b[|root|] == "var" && c[|root|] == "var";
    assert b[|root| + 1] == "metadata" && c[|root| + 1] == "version";
    assert b[..|c|] == b && c[..|b|] == c;
  }

  /** `u` is `t` changed only at or inside the paths `ps`. */
  ghost predicate Confined(t: Tree, u: Tree, ps: set<Path>) {
    && (forall q :: q in t && (forall p :: p in ps ==> !Under(q, p)) ==> q in u && u[q] == t[q])
    && (forall q :: q in u && q !in t ==> exists p :: p in ps && Under(q, p))
  }

  lemma FlushDirConfined(t: Tree, p: Path)
    requires Wf(t) && p != []
    ensures Wf(FlushDirSpec(t, p).tree) && Confined(t, FlushDirSpec(t, p).tree, {p})
  {
    FlushDirFrame(t, p);
    FlushDirEffect(t, p);
  }

  lemma FlushBothConfined(t: Tree, root: Path)
    requires Wf(t)
    ensures var u := FlushDirSpec(FlushDirSpec(t, TmpDir(root)).tree, MetadataDir(root)).tree;
      Wf(u) && Confined(t, u, {TmpDir(root), MetadataDir(root)})
  {
    var tmp, meta := TmpDir(root), MetadataDir(root);
    var first := FlushDirSpec(t, tmp).tree;
    FlushDirConfined(t, tmp);
    FlushDirConfined(first, meta);
    var u := FlushDirSpec(first, meta).tree;
    forall q | q in u && q !in t ensures exists p :: p in {tmp, meta} && Under(q, p) {
      if q in first {
        assert Under(q, tmp);
      } else {
        assert Under(q, meta);
      }
    }
  }

  lemma FlushVersionConfined(t: Tree, root: Path)
    requires Wf(t)
    ensures var o := FlushSpec(t, root, Some("version"));
      Wf(o.tree) && Confined(t, o.tree, {VersionCache(root)})
  {
    var file := VersionCache(root);
    assert file[..|file|] == file;
  }

  /**
   * Each target touches only its own place: `tmp`/`temp` the scratch
   * directory, `metadata` the metadata cache, `version` the version file,
   * anything else both directories; the result is an error only for a
   * version file that cannot be removed.
   */
  lemma FlushScope(t: Tree, root: Path, target: Option<string>)
    requires Wf(t)
    ensures var o := FlushSpec(t, root, target);
      && Wf(o.tree)
      && (o.result.Err? ==> target == Some("version"))
      && match target
         case Some("tmp") => Confined(t, o.tree, {TmpDir(root)})
         case Some("temp") => Confined(t, o.tree, {TmpDir(root)})
         case Some("metadata") => Confined(t, o.tree, {MetadataDir(root)})
         case Some("version") => Confined(t, o.tree, {VersionCache(root)})
         case _ => Confined(t, o.tree, {TmpDir(root), MetadataDir(root)})
  {
    match target
    case Some("tmp") => FlushDirConfined(t, TmpDir(root));
    case Some("temp") => FlushDirConfined(t, TmpDir(root));
    case Some("metadata") => FlushDirConfined(t, MetadataDir(root));
    case Some("version") => FlushVersionConfined(t, root);
    case _ => FlushBothConfined(t, root);
  }

  /** Flushing `p` leaves a directory apart from it, and what it holds, as they were. */
  lemma FlushDirElsewhere(t: Tree, p: Path, x: Path)
    requires Wf(t) && p != [] && Disjoint(p, x) && IsRealDir(t, x)
    ensures var u := FlushDirSpec(t, p).tree;
      IsRealDir(u, x) && Entries(u, x) == Entries(t, x) && ListDir(u, x) == ListDir(t, x)
  {
    var u := FlushDirSpec(t, p).tree;
    FlushDirFrame(t, p);
    forall n ensures x + [n] in u <==> x + [n] in t {
      AncestorOfChild(p, x, n);
    }
  }

  /**
   * With no target, two existing cache directories both end up empty, and
   * the message lists exactly those that held entries, the scratch
   * directory first.
   */
  lemma FlushAllEmpties(t: Tree, root: Path)
    requires Wf(t) && IsRealDir(t, TmpDir(root)) && IsRealDir(t, MetadataDir(root))
    ensures var o := FlushSpec(t, root, None);
      var tmp, meta := EntryCount(t, TmpDir(root)), EntryCount(t, MetadataDir(root));
      && ListDir(o.tree, TmpDir(root)) == Ok({})
      && ListDir(o.tree, MetadataDir(root)) == Ok({})
      && o.result == Ok(FlushMessage(
           (if tmp > 0 then [Report("tmp", tmp)] else []) + (if meta > 0 then [Report("metadata", meta)] else [])))
  {
    var a, b := TmpDir(root), MetadataDir(root);
    CachesApart(root);
    FlushDirEffect(t, a);
    var first := FlushDirSpec(t, a);
    FlushDirElsewhere(t, a, b);
    FlushDirEffect(first.tree, b);
    var second := FlushDirSpec(first.tree, b);
    FlushDirElsewhere(first.tree, b, a);
    assert a[|a| - 1] == "tmp" && b[|b| - 1] == "metadata";
    assert EntryCount(first.tree, b) == EntryCount(t, b);
    assert FlushSpec(t, root, None) == Outcome(Ok(FlushMessage(first.reports + second.reports)), second.tree);
  }

  /**
   * The `version` target: a missing file is nothing to flush; a file (or
   * link) there is removed and reported; a directory there cannot be
   * removed and is an error that changes nothing.
   */
  lemma FlushVersionEffect(t: Tree, root: Path)
    ensures var o := FlushSpec(t, root, Some("version"));
      var file := VersionCache(root);
      && (!Exists(t, file) ==> o == Outcome(Ok("Nothing to flush"), t))
      && (Exists(t, file) && !t[file].Dir? ==>
            o == Outcome(Ok("Flushed: " + "version file"), t - {file}))
      && (Exists(t, file) && t[file].Dir? ==>
            o == Outcome(Err("Failed to remove version file: " + Describe(IsADirectory)), t))
  {
    assert Join(["version file"], ", ") == "version file";
  }
}
