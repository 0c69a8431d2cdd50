/**
 * `sdk env`: the project file `.sdkmanrc` in the working directory. `init`
 * writes it from the versions in use, `install` reports on it, `load`
 * activates what it declares and `clear` removes those activations.
 */
module EnvCommand {
  import opened Wrappers
  import opened Text
  import opened Fs
  import opened Store
  import opened Sdkmanrc

  function SdkmanrcPath(dir: Path): Path {
    dir + [".sdkmanrc"]
  }

  function CwdFailed(e: string): string {
    "Failed to get current directory: " + e
  }

  /**
   * The two comment lines every file written by `env init` starts with,
   * "# Enable auto-env through the sdkman_auto_env config" and
   * "# Add key=value pairs of SDKs to use below", written in short pieces
   * so that their characters can be inspected one piece at a time.
   */
  const HeaderEnable: string := "# Enable " + "auto-env " + "through " + "the " + "sdkman_" + "auto_env " + "config"
  const HeaderAdd: string := "# Add " + "key=value " + "pairs " + "of SDKs " + "to use " + "below"
  const InitHeader: seq<string> := [HeaderEnable, HeaderAdd]

  const InitExists: string := ".sdkmanrc already exists in current directory"
  const LoadMissing: string := "Could not find .sdkmanrc in current directory"
  const InstallMissing: string := "Could not find .sdkmanrc in current directory. Run 'sdk env init' to create it."

  // ------------------------------------------------------------- reading

  /** `parse_sdkmanrc`: the declarations of the file at `path`, or why it could not be read. */
  function ParseSdkmanrc(t: Tree, path: Path): Result<map<string, string>, string> {
    match ReadFile(t, path)
    case Err(e) => Err("Failed to read .sdkmanrc: " + Describe(e))
    case Ok(content) => Ok(ParseContent(content))
  }

  /**
   * What `install`, `load` and `clear` start from: the working directory
   * must be known and hold a `.sdkmanrc` (`missing` is the message when it
   * does not), which is then parsed.
   */
  function Declared(t: Tree, cwd: Result<Path, string>, missing: string): Result<map<string, string>, string> {
    match cwd
    case Err(e) => Err(CwdFailed(e))
    case Ok(dir) =>
      if !Exists(t, SdkmanrcPath(dir)) then Err(missing) else ParseSdkmanrc(t, SdkmanrcPath(dir))
  }

  /** Locates, reads and parses `.sdkmanrc`, as `install`, `load` and `clear` begin. */
  method ReadDeclarations(fs: FileSystem, cwd: Result<Path, string>, missing: string)
    returns (r: Result<map<string, string>, string>)
    ensures r == Declared(fs.tree, cwd, missing)
  {
    if cwd.Err? {
      return Err(CwdFailed(cwd.error));
    }
    var path := SdkmanrcPath(cwd.value);
    if !Exists(fs.tree, path) {
      return Err(missing);
    }
    match ReadFile(fs.tree, path)
    case Err(e) =>
      r := Err("Failed to read .sdkmanrc: " + Describe(e));
    case Ok(content) =>
      var versions := ParseSdkmanrcContent(content);
      r := Ok(versions);
  }

  // ---------------------------------------------------------------- init

  /** The lines `env init` writes when it visits the entries `names` of the candidates directory in this order. */
  function InitLines(t: Tree, root: Path, family: Family, names: seq<Name>): seq<string> {
    if names == [] then InitHeader
    else
      var rest := InitLines(t, root, family, names[..|names| - 1]);
      var c := names[|names| - 1];
      match Recorded(t, root, family, c)
      case None => rest
      case Some(v) => rest + [DeclarationLine(c, v)]
  }

  /** `env_init`, for the entries of the candidates directory visited in the order `names`. */
  function InitSpec(t: Tree, root: Path, cwd: Result<Path, string>, family: Family, names: seq<Name>): Outcome {
    match cwd
    case Err(e) => Outcome(Err(CwdFailed(e)), t)
    case Ok(dir) =>
      var path := SdkmanrcPath(dir);
      if Exists(t, path) then Outcome(Err(InitExists), t)
      else
        var s := WriteFileStep(t, path, Terminated(InitLines(t, root, family, names)));
        match s.result
        case Err(e) => Outcome(Err("Failed to create .sdkmanrc: " + Describe(e)), s.tree)
        case Ok(_) => Outcome(Ok("Created .sdkmanrc in " + PathString(dir)), s.tree)
  }

  /** Entry `c` adds its declaration line, if it records a version. */
  lemma InitLinesSnoc(t: Tree, root: Path, family: Family, names: seq<Name>, c: Name)
    ensures InitLines(t, root, family, names + [c]) ==
      match Recorded(t, root, family, c)
      case None => InitLines(t, root, family, names)
      case Some(v) => InitLines(t, root, family, names) + [DeclarationLine(c, v)]
  {
    assert (names + [c])[..|names|] == names;
  }

  /** The content `env init` writes for the entries `names`, built line by line. */
  method InitContent(fs: FileSystem, root: Path, family: Family, names: seq<Name>) returns (content: string)
    ensures content == Terminated(InitLines(fs.tree, root, family, names))
  {
    content := HeaderEnable + "\n";
    content := content + HeaderAdd + "\n";
    TerminatedPair(HeaderEnable, HeaderAdd);
    for i := 0 to |names|
      invariant content == Terminated(InitLines(fs.tree, root, family, names[..i]))
    {
      PrefixSnoc(names, i);
      InitLinesSnoc(fs.tree, root, family, names[..i], names[i]);
      var c := names[i];
      if IsDir(fs.tree, CandidateHome(root, c)) {
        var version := GetCurrentVersion(fs.tree, root, c, family);
        if version.Some? {
          TerminatedSnoc(InitLines(fs.tree, root, family, names[..i]), DeclarationLine(c, version.value));
          content := content + DeclarationLine(c, version.value) + "\n";
        }
      }
    }
    PrefixAll(names);
  }

  /**
   * Writes `.sdkmanrc` from the versions in use, visiting the candidates
   * directory in the order the file system lists it.
   */
  method EnvInit(fs: FileSystem, root: Path, cwd: Result<Path, string>, family: Family)
    returns (r: Result<string, string>)
    modifies fs
    ensures exists names :: Lists(names, ListedNames(old(fs.tree), CandidatesDir(root)))
                            && Outcome(r, fs.tree) == InitSpec(old(fs.tree), root, cwd, family, names)
  {
    ghost var t := fs.tree;
    var base := CandidatesDir(root);
    ListingExists(ListedNames(t, base));
    ghost var any :| Lists(any, ListedNames(t, base));
    if cwd.Err? {
      r := Err(CwdFailed(cwd.error));
      assert Outcome(r, fs.tree) == InitSpec(t, root, cwd, family, any);
      return;
    }
    var path := SdkmanrcPath(cwd.value);
    if Exists(fs.tree, path) {
      r := Err(InitExists);
      assert Outcome(r, fs.tree) == InitSpec(t, root, cwd, family, any);
      return;
    }
    var names: seq<Name> := [];
    if Exists(fs.tree, base) {
      var entries := fs.ReadDir(base);
      if entries.Ok? {
        names := entries.value;
      }
    }
    assert Lists(names, ListedNames(t, base));
    var content := InitContent(fs, root, family, names);
    var written := fs.WriteFile(path, content);
    if written.Err? {
      r := Err("Failed to create .sdkmanrc: " + Describe(written.error));
    } else {
      r := Ok("Created .sdkmanrc in " + PathString(cwd.value));
    }
    assert Outcome(r, fs.tree) == InitSpec(t, root, cwd, family, names);
  }

  /** A comment line declares nothing. */
  lemma CommentIgnored(l: string)
    requires l != [] && l[0] == '#' && !IsWhitespace(l[|l| - 1])
    ensures Ignored(l)
  {
    TrimFixedPoint(l);
  }

  lemma HeaderEnableIsLine()
    ensures '\n' !in HeaderEnable
  {
    assert '\n' !in "# Enable ";
    assert '\n' !in "auto-env ";
    assert '\n' !in "through ";
    assert '\n' !in "the ";
    assert '\n' !in "sdkman_";
    assert '\n' !in "auto_env ";
    assert '\n' !in "config";
  }

  lemma HeaderAddIsLine()
    ensures '\n' !in HeaderAdd
  {
    assert '\n' !in "# Add ";
    assert '\n' !in "key=value ";
    assert '\n' !in "pairs ";
    assert '\n' !in "of SDKs ";
    assert '\n' !in "to use ";
    assert '\n' !in "below";
  }

  /** The two comment lines declare nothing and are lines of their own. */
  lemma HeaderIgnored()
    ensures forall i :: 0 <= i < |InitHeader| ==> Ignored(InitHeader[i])
    ensures forall i :: 0 <= i < |InitHeader| ==> '\n' !in InitHeader[i]
    ensures forall i :: 0 <= i < |InitHeader| ==> StripCarriageReturn(InitHeader[i]) == InitHeader[i]
  {
    assert HeaderEnable[0] == '#' && HeaderEnable[|HeaderEnable| - 1] == 'g';
    assert HeaderAdd[0] == '#' && HeaderAdd[|HeaderAdd| - 1] == 'w';
    CommentIgnored(HeaderEnable);
    CommentIgnored(HeaderAdd);
    HeaderEnableIsLine();
    HeaderAddIsLine();
  }

  /** Every entry recorded holds a plain key and a plain value. */
  ghost predicate PlainRecords(t: Tree, root: Path, family: Family, names: seq<Name>) {
    forall i :: 0 <= i < |names| && Recorded(t, root, family, names[i]).Some? ==>
      PlainKey(names[i]) && PlainValue(Recorded(t, root, family, names[i]).value)
  }

  /** The lines `env init` writes are lines of their own. */
  lemma {:induction false} InitLinesAreLines(t: Tree, root: Path, family: Family, names: seq<Name>)
    requires PlainRecords(t, root, family, names)
    ensures OwnLines(InitLines(t, root, family, names))
  {
    if names == [] {
      HeaderIgnored();
    } else {
      var init := names[..|names| - 1];
      var c := names[|names| - 1];
      assert names == init + [c];
      assert forall i :: 0 <= i < |init| ==> init[i] == names[i];
      InitLinesAreLines(t, root, family, init);
      InitLinesSnoc(t, root, family, init, c);
      match Recorded(t, root, family, c)
      case None =>
      case Some(v) =>
        DeclarationLineIsLine(c, v);
        OwnLinesSnoc(InitLines(t, root, family, init), DeclarationLine(c, v));
    }
  }

  /** The recorded versions of the entries `names`. */
  function RecordedMap(t: Tree, root: Path, family: Family, names: seq<Name>): map<string, string> {
    map c | c in names && Recorded(t, root, family, c).Some? :: Recorded(t, root, family, c).value
  }

  lemma RecordedMapSnoc(t: Tree, root: Path, family: Family, names: seq<Name>, c: Name)
    ensures RecordedMap(t, root, family, names + [c]) ==
      match Recorded(t, root, family, c)
      case None => RecordedMap(t, root, family, names)
      case Some(v) => RecordedMap(t, root, family, names)[c := v]
  {
  }

  /** The lines `env init` writes declare exactly the recorded versions, whatever the order. */
  lemma {:induction false} InitLinesRead(t: Tree, root: Path, family: Family, names: seq<Name>)
    requires PlainRecords(t, root, family, names)
    ensures ParseLines(InitLines(t, root, family, names)) == RecordedMap(t, root, family, names)
  {
    if names == [] {
      HeaderIgnored();
      OnlyIgnored(InitHeader);
    } else {
      var init := names[..|names| - 1];
      var c := names[|names| - 1];
      assert names == init + [c];
      assert forall i :: 0 <= i < |init| ==> init[i] == names[i];
      InitLinesRead(t, root, family, init);
      InitLinesSnoc(t, root, family, init, c);
      RecordedMapSnoc(t, root, family, init, c);
      match Recorded(t, root, family, c)
      case None =>
      case Some(v) =>
        DeclarationRoundTrip(c, v);
        ParseLinesSnoc(InitLines(t, root, family, init), DeclarationLine(c, v));
    }
  }

  /** Plain versions in use of the listed candidates are plain records of the listing. */
  lemma VersionsPlain(t: Tree, root: Path, family: Family, names: seq<Name>)
    requires Lists(names, ListedNames(t, CandidatesDir(root)))
    requires forall c :: c in CurrentVersions(t, root, family) ==> PlainKey(c) && PlainValue(CurrentVersions(t, root, family)[c])
    ensures PlainRecords(t, root, family, names)
  {
    var m := CurrentVersions(t, root, family);
    forall i | 0 <= i < |names| && Recorded(t, root, family, names[i]).Some?
      ensures PlainKey(names[i]) && PlainValue(Recorded(t, root, family, names[i]).value)
    {
      assert names[i] in ListedNames(t, CandidatesDir(root));
      assert names[i] in m && m[names[i]] == Recorded(t, root, family, names[i]).value;
    }
  }

  /**
   * What `env init` writes parses back to exactly the versions in use of the
   * candidate directories, whatever order they were listed in (as long as
   * candidate names and versions can be written on a line).
   */
  lemma InitRoundTrip(t: Tree, root: Path, family: Family, names: seq<Name>)
    requires Lists(names, ListedNames(t, CandidatesDir(root)))
    requires forall c :: c in CurrentVersions(t, root, family) ==> PlainKey(c) && PlainValue(CurrentVersions(t, root, family)[c])
    ensures ParseContent(Terminated(InitLines(t, root, family, names))) == CurrentVersions(t, root, family)
  {
    VersionsPlain(t, root, family, names);
    InitLinesAreLines(t, root, family, names);
    ReadTerminated(InitLines(t, root, family, names));
    InitLinesRead(t, root, family, names);
    assert RecordedMap(t, root, family, names) == CurrentVersions(t, root, family);
  }

  /**
   * `env init` fails, changing nothing, unless the working directory is
   * known and `.sdkmanrc` does not resolve there; it then writes the file
   * where `File::create` lands and changes nothing else: at `.sdkmanrc`
   * itself when nothing is there and the directory exists, or at the
   * missing path a dangling `.sdkmanrc` link names, the link staying.
   */
  lemma InitOutcome(t: Tree, root: Path, cwd: Result<Path, string>, family: Family, names: seq<Name>)
    ensures var o := InitSpec(t, root, cwd, family, names);
      && (cwd.Err? ==> o == Outcome(Err(CwdFailed(cwd.error)), t))
      && (o.result.Err? ==> o.tree == t)
      && (cwd.Ok? ==>
            var path := SdkmanrcPath(cwd.value);
            var text := Terminated(InitLines(t, root, family, names));
            && (Exists(t, path) ==> o.result == Err(InitExists))
            && (o.result.Ok? <==> !Exists(t, path) && OpenTarget(t, path).Some? && Fillable(t, OpenTarget(t, path).value))
            && (o.result.Ok? ==> o.tree == t[OpenTarget(t, path).value := File(text)])
            && (path !in t ==> (o.result.Ok? <==> IsRealDir(t, cwd.value)))
            && (o.result.Ok? && path !in t ==> o.tree == t[path := File(text)])
            && (o.result.Ok? && path in t ==> path in o.tree && o.tree[path] == t[path]))
  {
    if cwd.Ok? {
      assert Parent(SdkmanrcPath(cwd.value)) == cwd.value;
    }
  }

  /**
   * After a successful `env init`, `load`, `install` and `clear` read back
   * exactly the versions that were in use.
   */
  lemma InitThenDeclared(t: Tree, root: Path, cwd: Result<Path, string>, family: Family, names: seq<Name>, missing: string)
    requires Lists(names, ListedNames(t, CandidatesDir(root)))
    requires forall c :: c in CurrentVersions(t, root, family) ==> PlainKey(c) && PlainValue(CurrentVersions(t, root, family)[c])
    requires InitSpec(t, root, cwd, family, names).result.Ok?
    ensures Declared(InitSpec(t, root, cwd, family, names).tree, cwd, missing) == Ok(CurrentVersions(t, root, family))
  {
    InitOutcome(t, root, cwd, family, names);
    InitRoundTrip(t, root, family, names);
    var path := SdkmanrcPath(cwd.value);
    var text := Terminated(InitLines(t, root, family, names));
    var u := InitSpec(t, root, cwd, family, names).tree;
    assert u == WriteFileStep(t, path, text).tree;
    assert ReadFile(u, path) == Ok(text);
  }

  // ------------------------------------------------------------- install

  function AlreadyInstalled(c: string, v: string): string {
    c + " " + v + " already installed"
  }

  function WouldInstall(c: string, v: string): string {
    "Would install " + c + " " + v + " (install command not called from env)"
  }

  /** What `env install` says about the declaration `c=v`. */
  function InstallReport(t: Tree, root: Path, c: Name, v: Name): string {
    if IsInstalled(t, root, c, v) then AlreadyInstalled(c, v) else WouldInstall(c, v)
  }

  /** The reports for the declarations, in the order the map yields them. */
  function InstallReports(t: Tree, root: Path, pairs: seq<(string, string)>): (rs: seq<string>)
    ensures |rs| == |pairs|
  {
    seq(|pairs|, i requires 0 <= i < |pairs| => InstallReport(t, root, pairs[i].0, pairs[i].1))
  }

  /** The loop of `env_install` over the declarations in the order `pairs`. */
  method InstallLoop(fs: FileSystem, root: Path, pairs: seq<(string, string)>) returns (results: seq<string>)
    ensures results == InstallReports(fs.tree, root, pairs)
  {
    results := [];
    for i := 0 to |pairs|
      invariant |results| == i
      invariant forall j :: 0 <= j < i ==> results[j] == InstallReport(fs.tree, root, pairs[j].0, pairs[j].1)
    {
      var (c, v) := pairs[i];
      if IsInstalled(fs.tree, root, c, v) {
        results := results + [AlreadyInstalled(c, v)];
      } else {
        results := results + [WouldInstall(c, v)];
      }
    }
  }

  /** `env_install`: reports, for each declaration, whether it is installed; it installs nothing. */
  method EnvInstall(fs: FileSystem, root: Path, cwd: Result<Path, string>) returns (r: Result<string, string>)
    ensures Declared(fs.tree, cwd, InstallMissing).Err? ==> r == Err(Declared(fs.tree, cwd, InstallMissing).error)
    ensures Declared(fs.tree, cwd, InstallMissing).Ok? ==>
      exists pairs :: Lists(pairs, Declared(fs.tree, cwd, InstallMissing).value.Items)
                      && r == Ok(Join(InstallReports(fs.tree, root, pairs), "\n"))
  {
    var declared := ReadDeclarations(fs, cwd, InstallMissing);
    if declared.Err? {
      return Err(declared.error);
    }
    var pairs := Enumerate(declared.value.Items);
    assert Lists(pairs, declared.value.Items);
    var results := InstallLoop(fs, root, pairs);
    r := Ok(Join(results, "\n"));
  }

  /** A listing of a map's entries names each key once, with its value. */
  lemma ItemsListed(versions: map<string, string>, pairs: seq<(string, string)>)
    requires Lists(pairs, versions.Items)
    ensures forall i :: 0 <= i < |pairs| ==> pairs[i].0 in versions && versions[pairs[i].0] == pairs[i].1
    ensures forall i, j :: 0 <= i < j < |pairs| ==> pairs[i].0 != pairs[j].0
    ensures forall c :: c in versions ==> (c, versions[c]) in pairs
  {
    forall i | 0 <= i < |pairs|
      ensures pairs[i].0 in versions && versions[pairs[i].0] == pairs[i].1
    {
      assert pairs[i] in versions.Items;
    }
    forall c | c in versions
      ensures (c, versions[c]) in pairs
    {
      assert (c, versions[c]) in versions.Items;
    }
  }

  /**
   * `env install` gives every declaration exactly one report line, saying
   * "already installed" exactly when its version is installed.
   */
  lemma InstallReportsCover(t: Tree, root: Path, versions: map<string, string>, pairs: seq<(string, string)>, c: string)
    requires Lists(pairs, versions.Items) && c in versions
    ensures exists i :: 0 <= i < |pairs| && pairs[i].0 == c
    ensures forall i, j :: 0 <= i < j < |pairs| ==> pairs[i].0 != pairs[j].0
    ensures forall i :: 0 <= i < |pairs| && pairs[i].0 == c ==>
      InstallReports(t, root, pairs)[i] ==
        if IsInstalled(t, root, c, versions[c]) then AlreadyInstalled(c, versions[c]) else WouldInstall(c, versions[c])
  {
    ItemsListed(versions, pairs);
    var i :| 0 <= i < |pairs| && pairs[i] == (c, versions[c]);
  }

  // ---------------------------------------------------------------- load

  /** The messages gathered so far and the file system, or the error that stopped the loop. */
  datatype Progress = Progress(messages: Result<seq<string>, string>, tree: Tree)

  function NotInstalledMessage(c: string, v: string): string {
    c + " " + v + " not installed"
  }

  function UsingMessage(c: string, v: string): string {
    "Using " + c + " " + v
  }

  /** One iteration of `env_load`: report a missing version, or activate it globally. */
  function LoadStep(p: Progress, root: Path, family: Family, c: Name, v: Name): Progress {
    if p.messages.Err? then p
    else if !IsInstalled(p.tree, root, c, v) then Progress(Ok(p.messages.value + [NotInstalledMessage(c, v)]), p.tree)
    else
      var s := SetCurrent(p.tree, root, c, v, family);
      if s.result.Err? then Progress(Err("Failed to set " + c + ": " + s.result.error), s.tree)
      else Progress(Ok(p.messages.value + [UsingMessage(c, v)]), s.tree)
  }

  /** The loop of `env_load` over the declarations in the order `pairs`. */
  function LoadSteps(t: Tree, root: Path, family: Family, pairs: seq<(string, string)>): Progress {
    if pairs == [] then Progress(Ok([]), t)
    else
      var last := pairs[|pairs| - 1];
      LoadStep(LoadSteps(t, root, family, pairs[..|pairs| - 1]), root, family, last.0, last.1)
  }

  function Finish(p: Progress): Outcome {
    Outcome(if p.messages.Ok? then Ok(Join(p.messages.value, "\n")) else Err(p.messages.error), p.tree)
  }

  lemma LoadStepsSnoc(t: Tree, root: Path, family: Family, pairs: seq<(string, string)>, c: Name, v: Name)
    ensures LoadSteps(t, root, family, pairs + [(c, v)]) == LoadStep(LoadSteps(t, root, family, pairs), root, family, c, v)
  {
    assert (pairs + [(c, v)])[..|pairs|] == pairs;
  }

  /** Once an activation has failed, the remaining declarations are not visited. */
  lemma {:induction false} LoadStopped(t: Tree, root: Path, family: Family, pairs: seq<(string, string)>, k: nat)
    requires k <= |pairs| && LoadSteps(t, root, family, pairs[..k]).messages.Err?
    ensures LoadSteps(t, root, family, pairs) == LoadSteps(t, root, family, pairs[..k])
    decreases |pairs|
  {
    if k < |pairs| {
      var init := pairs[..|pairs| - 1];
      assert init[..k] == pairs[..k];
      LoadStopped(t, root, family, init, k);
    } else {
      assert pairs[..k] == pairs;
    }
  }

  /**
   * A declaration `env load` can act on as the store is left by this
   * program: a version other than "current", whose directory (when there)
   * is not a link, over a tidy marker; on Windows a version without
   * surrounding blanks, since the marker file is read back trimmed.
   */
  predicate Activatable(t: Tree, root: Path, family: Family, c: Name, v: Name) {
    && v != "current"
    && (CandidateDir(root, c, v) in t ==> !t[CandidateDir(root, c, v)].Link?)
    && Tidy(t, root, c)
    && (family.Windows? ==> IsTrimmed(v))
  }

  /** No candidate is declared twice. */
  predicate KeysDistinct(pairs: seq<(string, string)>) {
    forall i, j :: 0 <= i < j < |pairs| ==> pairs[i].0 != pairs[j].0
  }

  /** The messages `env load` prints for `pairs` when no activation fails. */
  function LoadMessages(t: Tree, root: Path, pairs: seq<(string, string)>): (ms: seq<string>)
    ensures |ms| == |pairs|
  {
    if pairs == [] then []
    else
      var last := pairs[|pairs| - 1];
      LoadMessages(t, root, pairs[..|pairs| - 1])
        + [if IsInstalled(t, root, last.0, last.1) then UsingMessage(last.0, last.1) else NotInstalledMessage(last.0, last.1)]
  }

  /** The candidates of `pairs` whose declared version is installed. */
  function ActiveKeys(t: Tree, root: Path, pairs: seq<(string, string)>): (keys: set<Name>)
    ensures forall c :: c in keys ==> exists i :: 0 <= i < |pairs| && pairs[i].0 == c
  {
    if pairs == [] then {}
    else
      var last := pairs[|pairs| - 1];
      var rest := ActiveKeys(t, root, pairs[..|pairs| - 1]);
      assert forall c :: c in rest ==> exists i :: 0 <= i < |pairs| && pairs[i].0 == c by {
        forall c | c in rest ensures exists i :: 0 <= i < |pairs| && pairs[i].0 == c {
          var i :| 0 <= i < |pairs| - 1 && pairs[..|pairs| - 1][i].0 == c;
          assert pairs[i].0 == c;
        }
      }
      if IsInstalled(t, root, last.0, last.1) then rest + {last.0} else rest
  }

  /** For an activatable declaration, installed means its directory is in the tree. */
  lemma InstalledIffPresent(t: Tree, root: Path, family: Family, c: Name, v: Name)
    requires Activatable(t, root, family, c, v)
    ensures IsInstalled(t, root, c, v) <==> CandidateDir(root, c, v) in t
  {
  }

  /**
   * `p` is what `env load` leaves after the declarations `pairs`: no
   * failure, one message each, every installed one settled at its declared
   * version, and nothing changed outside the markers of those.
   */
  ghost predicate LoadedAs(t: Tree, root: Path, family: Family, pairs: seq<(string, string)>, p: Progress) {
    && Wf(p.tree)
    && p.messages == Ok(LoadMessages(t, root, pairs))
    && KeptOutside(t, p.tree, root, ActiveKeys(t, root, pairs))
    && (forall i :: 0 <= i < |pairs| && IsInstalled(t, root, pairs[i].0, pairs[i].1) ==>
          Settled(p.tree, root, pairs[i].0, pairs[i].1, family))
  }

  /** One more declaration adds one message and, when installed, one active key. */
  lemma PairsSnoc(t: Tree, root: Path, init: seq<(string, string)>, c: Name, v: Name)
    ensures LoadMessages(t, root, init + [(c, v)]) == LoadMessages(t, root, init)
      + [if IsInstalled(t, root, c, v) then UsingMessage(c, v) else NotInstalledMessage(c, v)]
    ensures ActiveKeys(t, root, init + [(c, v)]) ==
      if IsInstalled(t, root, c, v) then ActiveKeys(t, root, init) + {c} else ActiveKeys(t, root, init)
  {
    assert (init + [(c, v)])[..|init|] == init;
  }

  /** A declaration whose version is missing adds its message and changes nothing. */
  lemma LoadSkips(t: Tree, root: Path, family: Family, init: seq<(string, string)>, p0: Progress, c: Name, v: Name)
    requires LoadedAs(t, root, family, init, p0) && !IsInstalled(t, root, c, v)
    requires IsInstalled(p0.tree, root, c, v) == IsInstalled(t, root, c, v)
    ensures LoadedAs(t, root, family, init + [(c, v)], LoadStep(p0, root, family, c, v))
  {
    var pairs := init + [(c, v)];
    assert pairs[..|init|] == init;
    forall i | 0 <= i < |pairs| && IsInstalled(t, root, pairs[i].0, pairs[i].1)
      ensures Settled(p0.tree, root, pairs[i].0, pairs[i].1, family)
    {
      assert i < |init| && pairs[i] == init[i];
    }
  }

  /** A declaration whose version is installed, over a tidy marker, is settled and touches only its marker. */
  lemma LoadSets(t: Tree, root: Path, family: Family, init: seq<(string, string)>, p0: Progress, c: Name, v: Name)
    requires LoadedAs(t, root, family, init, p0) && IsInstalled(t, root, c, v)
    requires c !in ActiveKeys(t, root, init)
    requires forall i :: 0 <= i < |init| ==> init[i].0 != c
    requires Activatable(p0.tree, root, family, c, v) && CandidateDir(root, c, v) in p0.tree
    ensures LoadedAs(t, root, family, init + [(c, v)], LoadStep(p0, root, family, c, v))
  {
    var k0 := ActiveKeys(t, root, init);
    SetSettles(p0.tree, root, c, v, family);
    var s := SetCurrent(p0.tree, root, c, v, family);
    assert LoadStep(p0, root, family, c, v) == Progress(Ok(LoadMessages(t, root, init) + [UsingMessage(c, v)]), s.tree);
    KeptOne(p0.tree, s.tree, root, c);
    KeptOutsideTrans(t, p0.tree, s.tree, root, k0, {c});
    SettledCarried(t, root, family, init, p0.tree, s.tree, c);
    LoadedAsSnoc(t, root, family, init, c, v, s.tree);
  }

  /** The invariant of `env load` after one more installed declaration, activated in `w`. */
  lemma LoadedAsSnoc(t: Tree, root: Path, family: Family, init: seq<(string, string)>, c: Name, v: Name, w: Tree)
    requires IsInstalled(t, root, c, v) && Wf(w)
    requires KeptOutside(t, w, root, ActiveKeys(t, root, init) + {c})
    requires forall i :: 0 <= i < |init| && IsInstalled(t, root, init[i].0, init[i].1) ==>
      Settled(w, root, init[i].0, init[i].1, family)
    requires Settled(w, root, c, v, family)
    ensures LoadedAs(t, root, family, init + [(c, v)], Progress(Ok(LoadMessages(t, root, init) + [UsingMessage(c, v)]), w))
  {
    PairsSnoc(t, root, init, c, v);
    SettledSnoc(t, root, family, init, w, c, v);
  }

  lemma SettledSnoc(t: Tree, root: Path, family: Family, init: seq<(string, string)>, w: Tree, c: Name, v: Name)
    requires forall i :: 0 <= i < |init| && IsInstalled(t, root, init[i].0, init[i].1) ==>
      Settled(w, root, init[i].0, init[i].1, family)
    requires Settled(w, root, c, v, family)
    ensures var pairs := init + [(c, v)];
      forall i :: 0 <= i < |pairs| && IsInstalled(t, root, pairs[i].0, pairs[i].1) ==>
        Settled(w, root, pairs[i].0, pairs[i].1, family)
  {
    var pairs := init + [(c, v)];
    forall i | 0 <= i < |pairs| && IsInstalled(t, root, pairs[i].0, pairs[i].1)
      ensures Settled(w, root, pairs[i].0, pairs[i].1, family)
    {
      if i < |init| {
        assert pairs[i] == init[i];
      } else {
        assert pairs[i] == (c, v);
      }
    }
  }

  /** Setting the marker of `c` keeps every other candidate settled. */
  lemma SettledCarried(t: Tree, root: Path, family: Family, init: seq<(string, string)>, u: Tree, w: Tree, c: Name)
    requires Kept(u, w, CandidateCurrent(root, c))
    requires forall i :: 0 <= i < |init| ==> init[i].0 != c
    requires forall i :: 0 <= i < |init| && IsInstalled(t, root, init[i].0, init[i].1) ==>
      Settled(u, root, init[i].0, init[i].1, family)
    ensures forall i :: 0 <= i < |init| && IsInstalled(t, root, init[i].0, init[i].1) ==>
      Settled(w, root, init[i].0, init[i].1, family)
  {
    forall i | 0 <= i < |init| && IsInstalled(t, root, init[i].0, init[i].1)
      ensures Settled(w, root, init[i].0, init[i].1, family)
    {
      KeptApart(u, w, root, init[i].0, c, init[i].1, family);
    }
  }

  /**
   * `env load` over activatable declarations of distinct candidates never
   * fails; it reports each one, leaves every installed one settled at its
   * declared version, and changes nothing outside the markers of those.
   */
  lemma {:induction false} LoadOutcome(t: Tree, root: Path, family: Family, pairs: seq<(string, string)>)
    requires Wf(t) && KeysDistinct(pairs)
    requires forall i :: 0 <= i < |pairs| ==> Activatable(t, root, family, pairs[i].0, pairs[i].1)
    ensures LoadedAs(t, root, family, pairs, LoadSteps(t, root, family, pairs))
    decreases |pairs|
  {
    if pairs == [] {
      KeptNothing(t, root);
    } else {
      var init := pairs[..|pairs| - 1];
      var (c, v) := pairs[|pairs| - 1];
      assert pairs == init + [(c, v)];
      LoadOutcome(t, root, family, init);
      var p0 := LoadSteps(t, root, family, init);
      var k0 := ActiveKeys(t, root, init);
      assert forall i :: 0 <= i < |init| ==> init[i].0 != c;
      KeptAway(t, p0.tree, root, k0, c, v, family);
      InstalledIffPresent(t, root, family, c, v);
      InstalledIffPresent(p0.tree, root, family, c, v);
      if IsInstalled(t, root, c, v) {
        LoadSets(t, root, family, init, p0, c, v);
      } else {
        LoadSkips(t, root, family, init, p0, c, v);
      }
    }
  }

  /**
   * `env load` of the declarations `versions`, listed in any order, when each
   * is activatable: no failure, one message per declaration, every installed
   * declared version reads back as current, and nothing outside the markers
   * of the declared candidates changes.
   */
  lemma LoadActivates(t: Tree, root: Path, family: Family, versions: map<string, string>, pairs: seq<(string, string)>)
    requires Wf(t) && Lists(pairs, versions.Items)
    requires forall c :: c in versions ==> Activatable(t, root, family, c, versions[c])
    ensures var p := LoadSteps(t, root, family, pairs);
      && Wf(p.tree)
      && p.messages == Ok(LoadMessages(t, root, pairs))
      && (forall c :: c in versions && IsInstalled(t, root, c, versions[c]) ==>
            GetCurrentVersion(p.tree, root, c, family) == Some(versions[c]))
      && KeptOutside(t, p.tree, root, versions.Keys)
  {
    ItemsListed(versions, pairs);
    LoadOutcome(t, root, family, pairs);
    var p := LoadSteps(t, root, family, pairs);
    forall c | c in versions && IsInstalled(t, root, c, versions[c])
      ensures GetCurrentVersion(p.tree, root, c, family) == Some(versions[c])
    {
      var i :| 0 <= i < |pairs| && pairs[i] == (c, versions[c]);
      SettledReads(p.tree, root, c, versions[c], family);
    }
    KeptOutsideWider(t, p.tree, root, ActiveKeys(t, root, pairs), versions.Keys);
  }

  /** The loop of `env_load` over the declarations in the order `pairs`. */
  method LoadLoop(fs: FileSystem, root: Path, family: Family, pairs: seq<(string, string)>)
    returns (r: Result<seq<string>, string>)
    modifies fs
    ensures Progress(r, fs.tree) == LoadSteps(old(fs.tree), root, family, pairs)
  {
    ghost var t := fs.tree;
    var results: seq<string> := [];
    for i := 0 to |pairs|
      invariant LoadSteps(t, root, family, pairs[..i]) == Progress(Ok(results), fs.tree)
    {
      PrefixSnoc(pairs, i);
      var (c, v) := pairs[i];
      LoadStepsSnoc(t, root, family, pairs[..i], c, v);
      if !IsInstalled(fs.tree, root, c, v) {
        results := results + [NotInstalledMessage(c, v)];
      } else {
        var placed := SetCurrentVersion(fs, root, c, v, family);
        if placed.Err? {
          r := Err("Failed to set " + c + ": " + placed.error);
          LoadStopped(t, root, family, pairs, i + 1);
          return;
        }
        results := results + [UsingMessage(c, v)];
      }
    }
    PrefixAll(pairs);
    r := Ok(results);
  }

  /** `env_load`: activates globally each declaration whose version is installed, and reports the others. */
  method EnvLoad(fs: FileSystem, root: Path, cwd: Result<Path, string>, family: Family) returns (r: Result<string, string>)
    modifies fs
    ensures Declared(old(fs.tree), cwd, LoadMissing).Err? ==>
      r == Err(Declared(old(fs.tree), cwd, LoadMissing).error) && fs.tree == old(fs.tree)
    ensures Declared(old(fs.tree), cwd, LoadMissing).Ok? ==>
      exists pairs :: Lists(pairs, Declared(old(fs.tree), cwd, LoadMissing).value.Items)
                      && Outcome(r, fs.tree) == Finish(LoadSteps(old(fs.tree), root, family, pairs))
  {
    var declared := ReadDeclarations(fs, cwd, LoadMissing);
    if declared.Err? {
      return Err(declared.error);
    }
    var pairs := Enumerate(declared.value.Items);
    assert Lists(pairs, declared.value.Items);
    var messages := LoadLoop(fs, root, family, pairs);
    r := if messages.Ok? then Ok(Join(messages.value, "\n")) else Err(messages.error);
  }
  // --------------------------------------------------------------- clear

  const ClearedMessage := "Cleared environment"

  /** One iteration of `env_clear`: remove the marker of `c` when it exists, ignoring a failure. */
  function ClearStep(t: Tree, root: Path, c: Name): Tree {
    var m := CandidateCurrent(root, c);
    if Exists(t, m) then RemoveDirAllStep(t, m).tree else t
  }

  /** The loop of `env_clear` over the declarations in the order `pairs`. */
  function ClearSteps(t: Tree, root: Path, pairs: seq<(string, string)>): Tree {
    if pairs == [] then t
    else ClearStep(ClearSteps(t, root, pairs[..|pairs| - 1]), root, pairs[|pairs| - 1].0)
  }

  lemma ClearStepsSnoc(t: Tree, root: Path, pairs: seq<(string, string)>, c: Name, v: Name)
    ensures ClearSteps(t, root, pairs + [(c, v)]) == ClearStep(ClearSteps(t, root, pairs), root, c)
  {
    assert (pairs + [(c, v)])[..|pairs|] == pairs;
  }

  /** The loop of `env_clear` over the declarations in the order `pairs`. */
  method ClearLoop(fs: FileSystem, root: Path, pairs: seq<(string, string)>)
    modifies fs
    ensures fs.tree == ClearSteps(old(fs.tree), root, pairs)
  {
    ghost var t := fs.tree;
    for i := 0 to |pairs|
      invariant fs.tree == ClearSteps(t, root, pairs[..i])
    {
      PrefixSnoc(pairs, i);
      var (c, v) := pairs[i];
      ClearStepsSnoc(t, root, pairs[..i], c, v);
      var current := CandidateCurrent(root, c);
      if Exists(fs.tree, current) {
        var _ := fs.RemoveDirAll(current);
      }
    }
    PrefixAll(pairs);
  }

  /** `env_clear`: removes the global marker of every declared candidate. */
  method EnvClear(fs: FileSystem, root: Path, cwd: Result<Path, string>) returns (r: Result<string, string>)
    modifies fs
    ensures Declared(old(fs.tree), cwd, LoadMissing).Err? ==>
      r == Err(Declared(old(fs.tree), cwd, LoadMissing).error) && fs.tree == old(fs.tree)
    ensures Declared(old(fs.tree), cwd, LoadMissing).Ok? ==>
      && r == Ok(ClearedMessage)
      && exists pairs :: Lists(pairs, Declared(old(fs.tree), cwd, LoadMissing).value.Items)
                         && fs.tree == ClearSteps(old(fs.tree), root, pairs)
  {
    var declared := ReadDeclarations(fs, cwd, LoadMissing);
    if declared.Err? {
      return Err(declared.error);
    }
    var pairs := Enumerate(declared.value.Items);
    assert Lists(pairs, declared.value.Items);
    ClearLoop(fs, root, pairs);
    r := Ok(ClearedMessage);
  }

  /** A marker that reads as nothing and stays so while nodes are only removed: missing, unresolvable, or a plain file. */
  predicate Unset(t: Tree, m: Path) {
    !Exists(t, m) || (m in t && t[m].File?)
  }

  lemma UnsetShrinks(u: Tree, t: Tree, m: Path)
    requires SubTree(u, t) && Unset(t, m)
    ensures Unset(u, m)
  {
    FollowSubTree(u, t, m, MaxHops);
  }

  lemma UnsetReads(t: Tree, root: Path, c: Name, family: Family)
    requires Wf(t) && Unset(t, CandidateCurrent(root, c))
    ensures GetCurrentVersion(t, root, c, family) == None
  {
    var m := CandidateCurrent(root, c);
    if family.Windows? && m in t && t[m].File? {
      assert VersionFile(m) !in t;
    }
  }

  /** The candidates declared in `pairs`. */
  function KeysOf(pairs: seq<(string, string)>): (keys: set<Name>)
    ensures forall i :: 0 <= i < |pairs| ==> pairs[i].0 in keys
  {
    set i | 0 <= i < |pairs| :: pairs[i].0
  }

  lemma KeysOfSnoc(pairs: seq<(string, string)>, c: Name, v: Name)
    ensures KeysOf(pairs + [(c, v)]) == KeysOf(pairs) + {c}
  {
    var ps := pairs + [(c, v)];
    forall k | k in KeysOf(ps) ensures k in KeysOf(pairs) + {c} {
      var i :| 0 <= i < |ps| && ps[i].0 == k;
      if i < |pairs| {
        assert pairs[i] == ps[i];
      }
    }
    forall k | k in KeysOf(pairs) ensures k in KeysOf(ps) {
      var i :| 0 <= i < |pairs| && pairs[i].0 == k;
      assert ps[i] == pairs[i];
    }
    assert ps[|pairs|].0 == c;
  }

  /** One removal of `env clear` keeps the tree well formed, only removes, and unsets the marker of `c`. */
  lemma ClearStepOutcome(t: Tree, u0: Tree, root: Path, keys: set<Name>, c: Name)
    requires Wf(u0) && SubTree(u0, t) && KeptOutside(t, u0, root, keys)
    ensures var u := ClearStep(u0, root, c);
      && Wf(u) && SubTree(u, u0) && SubTree(u, t)
      && KeptOutside(t, u, root, keys + {c})
      && Unset(u, CandidateCurrent(root, c))
  {
  }

  /** Removing nodes keeps every unset marker unset. */
  lemma UnsetCarried(u: Tree, u0: Tree, root: Path, pairs: seq<(string, string)>)
    requires SubTree(u, u0)
    requires forall i :: 0 <= i < |pairs| ==> Unset(u0, CandidateCurrent(root, pairs[i].0))
    ensures forall i :: 0 <= i < |pairs| ==> Unset(u, CandidateCurrent(root, pairs[i].0))
  {
    forall i | 0 <= i < |pairs|
      ensures Unset(u, CandidateCurrent(root, pairs[i].0))
    {
      UnsetShrinks(u, u0, CandidateCurrent(root, pairs[i].0));
    }
  }

  /** `env clear` only removes nodes, and only at or inside the markers of the declared candidates. */
  lemma {:induction false} ClearFrame(t: Tree, root: Path, pairs: seq<(string, string)>)
    requires Wf(t)
    ensures var u := ClearSteps(t, root, pairs);
      Wf(u) && SubTree(u, t) && KeptOutside(t, u, root, KeysOf(pairs))
    decreases |pairs|
  {
    if pairs == [] {
      KeptNothing(t, root);
    } else {
      var init := pairs[..|pairs| - 1];
      var (c, v) := pairs[|pairs| - 1];
      assert pairs == init + [(c, v)];
      ClearFrame(t, root, init);
      ClearStepOutcome(t, ClearSteps(t, root, init), root, KeysOf(init), c);
      KeysOfSnoc(init, c, v);
      ClearStepsSnoc(t, root, init, c, v);
    }
  }

  /**
   * `env clear` only removes nodes, and only at or inside the markers of the
   * declared candidates; afterwards every declared candidate's marker is unset.
   */
  lemma {:induction false} ClearOutcome(t: Tree, root: Path, pairs: seq<(string, string)>)
    requires Wf(t)
    ensures var u := ClearSteps(t, root, pairs);
      && Wf(u) && SubTree(u, t)
      && KeptOutside(t, u, root, KeysOf(pairs))
      && forall i :: 0 <= i < |pairs| ==> Unset(u, CandidateCurrent(root, pairs[i].0))
    decreases |pairs|
  {
    ClearFrame(t, root, pairs);
    if pairs != [] {
      var init := pairs[..|pairs| - 1];
      var (c, v) := pairs[|pairs| - 1];
      assert pairs == init + [(c, v)];
      ClearOutcome(t, root, init);
      var u0 := ClearSteps(t, root, init);
      ClearStepOutcome(t, u0, root, KeysOf(init), c);
      ClearStepsSnoc(t, root, init, c, v);
      var u := ClearStep(u0, root, c);
      UnsetCarried(u, u0, root, init);
      forall i | 0 <= i < |pairs|
        ensures Unset(u, CandidateCurrent(root, pairs[i].0))
      {
        if i < |init| {
          assert pairs[i] == init[i];
        }
      }
    }
  }

  /** After `env clear`, no declared candidate has a current version. */
  lemma ClearUnsets(t: Tree, root: Path, family: Family, pairs: seq<(string, string)>, c: Name)
    requires Wf(t) && exists i :: 0 <= i < |pairs| && pairs[i].0 == c
    ensures GetCurrentVersion(ClearSteps(t, root, pairs), root, c, family) == None
  {
    ClearOutcome(t, root, pairs);
    UnsetReads(ClearSteps(t, root, pairs), root, c, family);
  }

  /** `env clear` never touches an installed version directory. */
  lemma ClearKeepsVersions(t: Tree, root: Path, pairs: seq<(string, string)>, c: Name, v: Name)
    requires Wf(t) && v != "current" && CandidateDir(root, c, v) in t
    ensures var u := ClearSteps(t, root, pairs);
      CandidateDir(root, c, v) in u && u[CandidateDir(root, c, v)] == t[CandidateDir(root, c, v)]
  {
    ClearOutcome(t, root, pairs);
    LayoutShape(root, c, v);
    forall c2 ensures !Under(CandidateDir(root, c, v), CandidateCurrent(root, c2)) {
      if c2 != c {
        MarkerApart(root, c, c2, v);
      }
    }
  }

  // ------------------------------------------------------------ dispatch

  /** `sdk env [subcommand]`. */
  method EnvDispatch(fs: FileSystem, root: Path, cwd: Result<Path, string>, family: Family, subcommand: Option<string>)
    returns (r: Result<string, string>)
    modifies fs
    ensures subcommand.Some? && subcommand.value !in {"init", "install", "clear"} ==>
      r == Err("Unknown subcommand: " + subcommand.value) && fs.tree == old(fs.tree)
    ensures subcommand == Some("install") ==> fs.tree == old(fs.tree)
  {
    match subcommand
    case Some("init") => r := EnvInit(fs, root, cwd, family);
    case Some("install") => r := EnvInstall(fs, root, cwd);
    case Some("clear") => r := EnvClear(fs, root, cwd);
    case None => r := EnvLoad(fs, root, cwd, family);
    case Some(cmd) => r := Err("Unknown subcommand: " + cmd);
  }
}
