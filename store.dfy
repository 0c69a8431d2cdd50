/**
 * The on-disk version store: where each candidate version lives, the
 * `current` marker that says which version is in use (a symbolic link on
 * Unix, a directory holding a `.version` file on Windows), and the local
 * store a project directory may carry in `.sdkman`.
 */
module Store {
  import opened Wrappers
  import opened Text
  import opened Fs

  /** The outcome of a command: its message or error, and the file system after it. */
  datatype Outcome = Outcome(result: Result<string, string>, tree: Tree)

  /** The two target families the program is compiled for (`cfg(unix)`, `cfg(windows)`). */
  datatype Family = Unix | Windows

  // ---------------------------------------------------------------- platform

  /** The (os, arch) pairs the program can serve. */
  predicate Supported(os: string, arch: string) {
    && (os == "linux" || os == "macos" || os == "windows")
    && (arch == "x86_64" || arch == "aarch64")
    && !(os == "windows" && arch == "aarch64")
  }

  function OsToken(os: string): string {
    if os == "macos" then "darwin" else os
  }

  function ArchToken(arch: string): string {
    if arch == "x86_64" then "x64" else "arm64"
  }

  /** `detect_platform`, given the `std::env::consts` OS and ARCH. */
  function DetectPlatform(os: string, arch: string): (r: Result<string, string>)
    ensures r.Ok? <==> Supported(os, arch)
    ensures r.Ok? ==> r.value == OsToken(os) + ArchToken(arch)
    ensures r.Err? ==> r.error == "Unsupported platform: " + os + " " + arch
  {
    match (os, arch)
    case ("linux", "x86_64") => Ok("linuxx64")
    case ("linux", "aarch64") => Ok("linuxarm64")
    case ("macos", "x86_64") => Ok("darwinx64")
    case ("macos", "aarch64") => Ok("darwinarm64")
    case ("windows", "x86_64") => Ok("windowsx64")
    case _ => Err("Unsupported platform: " + os + " " + arch)
  }

  /** Different supported platforms get different tokens. */
  lemma PlatformTokensDistinct(os1: string, arch1: string, os2: string, arch2: string)
    requires DetectPlatform(os1, arch1).Ok? && DetectPlatform(os2, arch2).Ok?
    requires DetectPlatform(os1, arch1) == DetectPlatform(os2, arch2)
    ensures os1 == os2 && arch1 == arch2
  {
  }

  // ------------------------------------------------------------------ layout

  /**
   * `sdkman_dir`: the `SDKMAN_DIR` variable when it is set, else `.sdkman`
   * in the home directory, which may be unknown.
   */
  function SdkmanDir(sdkmanDirVar: Option<Path>, home: Option<Path>): (r: Result<Path, string>)
    ensures sdkmanDirVar.Some? ==> r == Ok(sdkmanDirVar.value)
    ensures sdkmanDirVar.None? && home.Some? ==> r == Ok(home.value + [".sdkman"])
    ensures sdkmanDirVar.None? && home.None? ==> r == Err("Could not find home directory")
  {
    match sdkmanDirVar
    case Some(dir) => Ok(dir)
    case None =>
      match home
      case Some(h) => Ok(h + [".sdkman"])
      case None => Err("Could not find home directory")
  }

  function CandidatesDir(root: Path): Path {
    root + ["candidates"]
  }

  /** The directory holding every version of candidate `c`. */
  function CandidateHome(root: Path, c: Name): Path {
    CandidatesDir(root) + [c]
  }

  function CandidateDir(root: Path, c: Name, v: Name): Path {
    CandidateHome(root, c) + [v]
  }

  function CandidateCurrent(root: Path, c: Name): Path {
    CandidateHome(root, c) + ["current"]
  }

  /** The `.version` file of a Windows marker directory. */
  function VersionFile(current: Path): Path {
    current + [".version"]
  }

  /** Installation directories and markers are siblings inside the candidate's directory. */
  lemma LayoutShape(root: Path, c: Name, v: Name)
    ensures Parent(CandidateDir(root, c, v)) == CandidateHome(root, c)
    ensures Parent(CandidateCurrent(root, c)) == CandidateHome(root, c)
    ensures CandidateDir(root, c, v) == CandidateCurrent(root, c) <==> v == "current"
    ensures Under(CandidateDir(root, c, v), CandidateCurrent(root, c)) <==> v == "current"
    ensures Under(CandidateCurrent(root, c), CandidateDir(root, c, v)) <==> v == "current"
  {
    var d := CandidateDir(root, c, v);
    var m := CandidateCurrent(root, c);
    assert d[|d| - 1] == v && m[|m| - 1] == "current";
    assert d[..|m|] == d && m[..|d|] == m;
  }

  /** Each (candidate, version) has its own directory, and each candidate its own marker. */
  lemma LayoutInjective(root: Path, c1: Name, v1: Name, c2: Name, v2: Name)
    ensures CandidateDir(root, c1, v1) == CandidateDir(root, c2, v2) <==> c1 == c2 && v1 == v2
    ensures CandidateCurrent(root, c1) == CandidateCurrent(root, c2) <==> c1 == c2
  {
    var d1, d2 := CandidateDir(root, c1, v1), CandidateDir(root, c2, v2);
    if d1 == d2 {
      assert d1[|root| + 1] == c1 && d2[|root| + 1] == c2;
      assert d1[|root| + 2] == v1 && d2[|root| + 2] == v2;
    }
    var m1, m2 := CandidateCurrent(root, c1), CandidateCurrent(root, c2);
    if m1 == m2 {
      assert m1[|root| + 1] == c1 && m2[|root| + 1] == c2;
    }
  }

  /** Two distinct nodes of the same depth lie outside each other. */
  lemma SameDepthDisjoint(p: Path, q: Path)
    requires |p| == |q| && p != q
    ensures Disjoint(p, q)
  {
    assert p[..|q|] == p && q[..|p|] == q;
  }

  // ------------------------------------------------------------------ queries

  /** `is_installed`: the version's directory exists (a link there is followed). */
  predicate IsInstalled(t: Tree, root: Path, c: Name, v: Name) {
    Exists(t, CandidateDir(root, c, v))
  }

  /**
   * `get_installed_versions`, as a set: the entries of the candidate's
   * directory that are directories (following links) and are not named
   * "current"; nothing when that directory is missing or unreadable.
   */
  function InstalledVersions(t: Tree, root: Path, c: Name): (vs: set<Name>)
    ensures forall n :: n in vs ==> n != "current" && IsDir(t, CandidateDir(root, c, n))
  {
    var base := CandidateHome(root, c);
    if !Exists(t, base) then {}
    else match ListDir(t, base)
      case Err(_) => {}
      case Ok(names) => set n | n in names && n != "current" && IsDir(t, base + [n])
  }

  /**
   * `get_installed_versions`: the installed versions in the order the
   * directory listing gives them, each once.
   */
  method GetInstalledVersions(fs: FileSystem, root: Path, c: Name) returns (vs: seq<Name>)
    ensures Distinct(vs)
    ensures forall n :: n in vs <==> n in InstalledVersions(fs.tree, root, c)
  {
    var base := CandidateHome(root, c);
    if !Exists(fs.tree, base) {
      return [];
    }
    var entries := fs.ReadDir(base);
    if entries.Err? {
      return [];
    }
    var names := entries.value;
    vs := [];
    for i := 0 to |names|
      invariant Distinct(vs)
      invariant forall n :: n in vs <==> n in names[..i] && n != "current" && IsDir(fs.tree, base + [n])
    {
      PrefixSnoc(names, i);
      var n := names[i];
      if n != "current" && IsDir(fs.tree, base + [n]) {
        vs := vs + [n];
      }
    }
    PrefixAll(names);
  }

  /** In a well-formed tree the installed versions are exactly the version directories. */
  lemma InstalledVersionsExactly(t: Tree, root: Path, c: Name, n: Name)
    requires Wf(t)
    ensures n in InstalledVersions(t, root, c) <==> n != "current" && IsDir(t, CandidateDir(root, c, n))
  {
    var base := CandidateHome(root, c);
    var d := CandidateDir(root, c, n);
    if n != "current" && IsDir(t, d) {
      assert Parent(d) == base;
      assert IsRealDir(t, base);
      assert Resolve(t, base) == Ok(base);
    }
  }

  /** A missing candidate directory has no installed versions. */
  lemma NoVersionsWithoutHome(t: Tree, root: Path, c: Name)
    requires !Exists(t, CandidateHome(root, c))
    ensures InstalledVersions(t, root, c) == {}
  {
  }

  /**
   * What a marker says: on Unix the last component of the link's target, on
   * Windows the trimmed content of its `.version` file; nothing when the
   * marker does not exist (a dangling link does not exist).
   */
  function ReadMarker(t: Tree, current: Path, family: Family): (r: Option<string>)
    ensures !Exists(t, current) ==> r.None?
    ensures r.Some? && family.Unix? ==>
      current in t && t[current].Link? && t[current].target != []
      && r.value == t[current].target[|t[current].target| - 1]
    ensures r.Some? && family.Windows? ==> IsTrimmed(r.value)
  {
    if !Exists(t, current) then None
    else match family
      case Unix =>
        (match ReadLink(t, current)
         case Ok(target) => if target == [] then None else Some(target[|target| - 1])
         case Err(_) => None)
      case Windows =>
        if !Exists(t, VersionFile(current)) then None
        else match ReadFile(t, VersionFile(current))
          case Ok(text) => TrimFixedPoint(text); Some(Trim(text))
          case Err(_) => None
  }

  /** `get_current_version`. */
  function GetCurrentVersion(t: Tree, root: Path, c: Name, family: Family): Option<string> {
    ReadMarker(t, CandidateCurrent(root, c), family)
  }

  // ------------------------------------------------------------ marker update

  /**
   * The marker update shared by `set_current_version` and
   * `set_local_current_version`: create the marker's parent, remove an
   * existing marker, then link it to `target` (Unix) or create it as a
   * directory with `version` in its `.version` file (Windows).
   */
  function PlaceMarker(t: Tree, target: Path, current: Path, version: string, family: Family): Step {
    var s1 := if current != [] then CreateDirAllStep(t, Parent(current)) else Step(Ok(()), t);
    if s1.result.Err? then s1
    else
      var s2 := if Exists(s1.tree, current) then RemoveDirAllStep(s1.tree, current) else s1;
      if s2.result.Err? then s2 else MarkerTail(s2.tree, target, current, version, family)
  }

  /** The marker itself: a link to `target`, or a directory holding `version` in `.version`. */
  function MarkerTail(t: Tree, target: Path, current: Path, version: string, family: Family): Step {
    match family
    case Unix => SymlinkStep(t, target, current)
    case Windows =>
      var s3 := CreateDirAllStep(t, current);
      if s3.result.Err? then s3 else WriteFileStep(s3.tree, VersionFile(current), version)
  }

  /** Placing a marker keeps the tree well formed, whichever step fails. */
  lemma PlaceMarkerWf(t: Tree, target: Path, current: Path, version: string, family: Family)
    requires Wf(t)
    ensures Wf(PlaceMarker(t, target, current, version, family).tree)
  {
    var s1 := if current != [] then CreateDirAllStep(t, Parent(current)) else Step(Ok(()), t);
    assert Wf(s1.tree);
    if s1.result.Ok? {
      var s2 := if Exists(s1.tree, current) then RemoveDirAllStep(s1.tree, current) else s1;
      assert Wf(s2.tree);
      if s2.result.Ok? && family.Windows? {
        assert Wf(CreateDirAllStep(s2.tree, current).tree);
      }
    }
  }

  /** A marker that can be replaced: missing, or existing and not a regular file; so never a dangling link. */
  predicate Replaceable(t: Tree, current: Path) {
    current !in t || (!t[current].File? && Exists(t, current))
  }

  /**
   * `u` differs from `t` only at or inside `m`, apart from directories added
   * on the way to `m`.
   */
  ghost predicate Framed(t: Tree, u: Tree, m: Path) {
    && (forall q :: q in t && !Under(q, m) ==> q in u && u[q] == t[q])
    && (forall q :: q in u && q !in t ==> Under(m, q) || Under(q, m))
  }

  lemma FramedTrans(t: Tree, u: Tree, w: Tree, m: Path)
    requires Framed(t, u, m) && Framed(u, w, m)
    ensures Framed(t, w, m)
  {
  }

  lemma FramedParentCreation(t: Tree, m: Path)
    requires m != []
    ensures Framed(t, CreateDirAllStep(t, Parent(m)).tree, m)
  {
    var u := CreateDirAllStep(t, Parent(m)).tree;
    forall q | q in u && q !in t
      ensures Under(m, q)
    {
      UnderParent(m, q);
    }
  }

  lemma FramedCreation(t: Tree, m: Path)
    ensures Framed(t, CreateDirAllStep(t, m).tree, m)
  {
  }

  lemma FramedRemoval(t: Tree, m: Path)
    ensures Framed(t, RemoveDirAllStep(t, m).tree, m)
  {
  }

  lemma FramedLink(t: Tree, target: Path, m: Path)
    ensures Framed(t, SymlinkStep(t, target, m).tree, m)
  {
  }

  /**
   * Whatever its outcome, the marker update keeps the tree well formed and
   * changes nothing outside the marker, except for the missing ancestor
   * directories it creates.
   */
  lemma PlaceMarkerFrame(t: Tree, target: Path, current: Path, version: string, family: Family)
    requires Wf(t) && current != []
    ensures Wf(PlaceMarker(t, target, current, version, family).tree)
    ensures Framed(t, PlaceMarker(t, target, current, version, family).tree, current)
  {
    var s1 := CreateDirAllStep(t, Parent(current));
    FramedParentCreation(t, current);
    if s1.result.Ok? {
      var s2 := if Exists(s1.tree, current) then RemoveDirAllStep(s1.tree, current) else s1;
      FramedRemoval(s1.tree, current);
      FramedTrans(t, s1.tree, s2.tree, current);
      if s2.result.Ok? {
        var s := PlaceMarker(t, target, current, version, family);
        assert s == MarkerTail(s2.tree, target, current, version, family);
        MarkerTailFrame(t, s1, s2, target, current, version, family);
        FramedTrans(t, s2.tree, s.tree, current);
      }
    }
  }

  /** The last part of the marker update, after the parent exists and an old marker is gone. */
  lemma MarkerTailFrame(t: Tree, s1: Step, s2: Step, target: Path, current: Path, version: string, family: Family)
    requires Wf(t) && current != []
    requires s1 == CreateDirAllStep(t, Parent(current)) && s1.result.Ok?
    requires s2 == (if Exists(s1.tree, current) then RemoveDirAllStep(s1.tree, current) else s1) && s2.result.Ok?
    ensures Wf(MarkerTail(s2.tree, target, current, version, family).tree)
    ensures Framed(s2.tree, MarkerTail(s2.tree, target, current, version, family).tree, current)
  {
    match family
    case Unix =>
      FramedLink(s2.tree, target, current);
    case Windows =>
      MarkerCleared(t, s1, s2, current);
      WindowsTailFrame(s2.tree, target, current, version);
  }

  /** Once the parent exists and an old marker is removed, no marker is found. */
  lemma MarkerCleared(t: Tree, s1: Step, s2: Step, current: Path)
    requires Wf(t) && current != []
    requires s1 == CreateDirAllStep(t, Parent(current)) && s1.result.Ok?
    requires s2 == (if Exists(s1.tree, current) then RemoveDirAllStep(s1.tree, current) else s1) && s2.result.Ok?
    ensures Wf(s2.tree) && !Exists(s2.tree, current)
  {
    if Exists(s1.tree, current) {
      assert current !in s2.tree;
    }
  }

  /** On Windows the marker directory and its `.version` file are made inside the marker only. */
  lemma WindowsTailFrame(u: Tree, target: Path, current: Path, version: string)
    requires Wf(u) && current != [] && !Exists(u, current)
    ensures Wf(MarkerTail(u, target, current, version, Windows).tree)
    ensures Framed(u, MarkerTail(u, target, current, version, Windows).tree, current)
  {
    var s3 := CreateDirAllStep(u, current);
    FramedCreation(u, current);
    if s3.result.Ok? {
      assert current !in u by {
        if current in u {
          assert false;
        }
      }
      WindowsMarkerFile(u, s3, current, version);
      FramedVersionFile(s3.tree, current, version);
      FramedTrans(u, s3.tree, WriteFileStep(s3.tree, VersionFile(current), version).tree, current);
    }
  }

  lemma FramedVersionFile(t: Tree, current: Path, version: string)
    requires WriteFileStep(t, VersionFile(current), version).tree == t[VersionFile(current) := File(version)]
    ensures Framed(t, WriteFileStep(t, VersionFile(current), version).tree, current)
  {
    assert Under(VersionFile(current), current);
  }

  /** On Windows the `.version` file is written to a fresh place inside the marker. */
  lemma WindowsMarkerFile(u: Tree, s3: Step, current: Path, version: string)
    requires Wf(u) && current != [] && current !in u
    requires s3 == CreateDirAllStep(u, current) && s3.result.Ok?
    ensures Wf(s3.tree)
    ensures VersionFile(current) !in s3.tree && IsRealDir(s3.tree, current)
    ensures WriteFileStep(s3.tree, VersionFile(current), version).result.Ok?
    ensures WriteFileStep(s3.tree, VersionFile(current), version).tree == s3.tree[VersionFile(current) := File(version)]
  {
    var f := VersionFile(current);
    assert Parent(f) == current;
    assert f !in u;
    assert !Under(current, f);
    assert IsRealDir(s3.tree, current);
  }

  /** When the marker's parent is a directory, the update succeeds exactly when the marker is replaceable. */
  lemma PlaceMarkerOutcome(t: Tree, target: Path, current: Path, version: string, family: Family)
    requires Wf(t) && current != [] && IsRealDir(t, Parent(current))
    ensures var s := PlaceMarker(t, target, current, version, family);
      && (s.result.Ok? <==> Replaceable(t, current))
      && (s.result.Ok? && family.Unix? ==> current in s.tree && s.tree[current] == Link(target))
      && (s.result.Ok? && family.Windows? ==>
            IsRealDir(s.tree, current) && VersionFile(current) in s.tree
            && s.tree[VersionFile(current)] == File(version))
  {
    var s1 := CreateDirAllStep(t, Parent(current));
    assert Resolve(t, Parent(current)) == Ok(Parent(current));
    assert s1 == Step(Ok(()), t);
    var s2 := if Exists(t, current) then RemoveDirAllStep(t, current) else s1;
    assert s2.result.Ok? <==> !(current in t && t[current].File?) by {
      if Exists(t, current) {
        assert current != [];
      }
    }
    if s2.result.Ok? {
      assert current in s2.tree <==> current in t && !Exists(t, current);
      if family.Windows? {
        var s3 := CreateDirAllStep(s2.tree, current);
        if current !in s2.tree {
          assert Parent(current) in s2.tree by {
            assert !Under(Parent(current), current);
          }
          assert s3.result.Ok?;
          WindowsMarkerFile(s2.tree, s3, current, version);
        } else {
          assert !IsDir(s2.tree, current);
        }
      }
    }
  }

  /**
   * `set_current_version`, as a function of the file system before it:
   * the version must exist; then the global marker is placed.
   */
  function SetCurrent(t: Tree, root: Path, c: Name, v: Name, family: Family): Change {
    if !IsInstalled(t, root, c, v) then Change(Err(NotInstalled(c, v)), t)
    else Lift(PlaceMarker(t, CandidateDir(root, c, v), CandidateCurrent(root, c), v, family))
  }

  function NotInstalled(c: string, v: string): string {
    c + " " + v + " is not installed"
  }

  /** `set_current_version` on a version that is not installed fails and changes nothing. */
  lemma SetCurrentNotInstalled(t: Tree, root: Path, c: Name, v: Name, family: Family)
    requires !IsInstalled(t, root, c, v)
    ensures SetCurrent(t, root, c, v, family) == Change(Err(NotInstalled(c, v)), t)
  {
  }

  /**
   * For an installed version, `set_current_version` succeeds exactly when
   * the marker is replaceable; it touches nothing outside the marker.
   */
  lemma SetCurrentOutcome(t: Tree, root: Path, c: Name, v: Name, family: Family)
    requires Wf(t) && IsInstalled(t, root, c, v)
    ensures var s := SetCurrent(t, root, c, v, family);
      var current := CandidateCurrent(root, c);
      && Wf(s.tree)
      && (s.result.Ok? <==> Replaceable(t, current))
      && (forall q :: q in t && !Under(q, current) ==> q in s.tree && s.tree[q] == t[q])
      && (forall q :: q in s.tree && q !in t ==> Under(q, current))
  {
    var target, current := CandidateDir(root, c, v), CandidateCurrent(root, c);
    LayoutShape(root, c, v);
    assert target in t;
    assert IsRealDir(t, Parent(current));
    PlaceMarkerOutcome(t, target, current, v, family);
    PlaceMarkerWf(t, target, current, v, family);
    SetCurrentNewNodes(t, root, c, v, family);
  }

  /** When the parent of `m` is a directory, a frame around `m` can only add nodes at or inside `m`. */
  lemma FramedAdds(t: Tree, u: Tree, m: Path)
    requires Wf(t) && m != [] && IsRealDir(t, Parent(m)) && Framed(t, u, m)
    ensures forall q :: q in u && q !in t ==> Under(q, m)
  {
    forall q | q in u && q !in t
      ensures Under(q, m)
    {
      if !Under(q, m) {
        assert Under(Parent(m), q);
        AncestorIn(t, Parent(m), q);
      }
    }
  }

  /** Everything `set_current_version` adds to an installed candidate's store lies at or inside the marker. */
  lemma SetCurrentNewNodes(t: Tree, root: Path, c: Name, v: Name, family: Family)
    requires Wf(t) && IsInstalled(t, root, c, v)
    ensures var s := SetCurrent(t, root, c, v, family);
      && (forall q :: q in t && !Under(q, CandidateCurrent(root, c)) ==> q in s.tree && s.tree[q] == t[q])
      && (forall q :: q in s.tree && q !in t ==> Under(q, CandidateCurrent(root, c)))
  {
    var target, current := CandidateDir(root, c, v), CandidateCurrent(root, c);
    LayoutShape(root, c, v);
    assert IsRealDir(t, Parent(current));
    var s := PlaceMarker(t, target, current, v, family);
    assert SetCurrent(t, root, c, v, family).tree == s.tree;
    PlaceMarkerFrame(t, target, current, v, family);
    FramedAdds(t, s.tree, current);
  }

  /** The only link a marker update can add is the marker itself. */
  lemma PlaceMarkerLinks(t: Tree, target: Path, current: Path, version: string, family: Family)
    ensures var u := PlaceMarker(t, target, current, version, family).tree;
      forall q :: q in u && u[q].Link? && q != current ==> q in t && t[q] == u[q]
  {
    var s1 := if current != [] then CreateDirAllStep(t, Parent(current)) else Step(Ok(()), t);
    if current != [] {
      CreateDirAllGrows(t, Parent(current));
    }
    var s2 := if Exists(s1.tree, current) then RemoveDirAllStep(s1.tree, current) else s1;
    RemoveDirAllLinks(s1.tree, current);
    LinksTrans(t, s1.tree, s2.tree);
    MarkerTailLinks(s2.tree, target, current, version, family);
  }

  /** The marker itself is the only link its last step can add. */
  lemma MarkerTailLinks(t: Tree, target: Path, current: Path, version: string, family: Family)
    ensures var u := MarkerTail(t, target, current, version, family).tree;
      forall q :: q in u && u[q].Link? && q != current ==> q in t && t[q] == u[q]
  {
    if family.Windows? {
      var s3 := CreateDirAllStep(t, current);
      CreateDirAllGrows(t, current);
      WriteFileGrows(s3.tree, VersionFile(current), version);
      LinksTrans(t, s3.tree, WriteFileStep(s3.tree, VersionFile(current), version).tree);
    }
  }

  /** The only link `set_current_version` can add is the candidate's marker. */
  lemma SetCurrentLinks(t: Tree, root: Path, c: Name, v: Name, family: Family)
    ensures var u := SetCurrent(t, root, c, v, family).tree;
      forall q :: q in u && u[q].Link? && q != CandidateCurrent(root, c) ==> q in t && t[q] == u[q]
  {
    PlaceMarkerLinks(t, CandidateDir(root, c, v), CandidateCurrent(root, c), v, family);
  }

  /**
   * Setting an installed version as current and reading the marker back
   * gives that version (on Windows the version must survive trimming).
   */
  lemma SetThenGet(t: Tree, root: Path, c: Name, v: Name, family: Family)
    requires Wf(t)
    requires CandidateDir(root, c, v) in t && !t[CandidateDir(root, c, v)].Link?
    requires v != "current"
    requires Replaceable(t, CandidateCurrent(root, c))
    requires family.Windows? ==> IsTrimmed(v)
    ensures SetCurrent(t, root, c, v, family).result.Ok?
    ensures GetCurrentVersion(SetCurrent(t, root, c, v, family).tree, root, c, family) == Some(v)
  {
    var target, current := CandidateDir(root, c, v), CandidateCurrent(root, c);
    LayoutShape(root, c, v);
    assert IsInstalled(t, root, c, v);
    SetCurrentOutcome(t, root, c, v, family);
    PlaceMarkerOutcome(t, target, current, v, family);
    var u := SetCurrent(t, root, c, v, family).tree;
    assert target in u && u[target] == t[target];
    match family
    case Unix =>
      assert Follow(u, target, MaxHops - 1) == Ok(target);
      assert Exists(u, current);
    case Windows =>
      assert Exists(u, current);
      assert Resolve(u, VersionFile(current)) == Ok(VersionFile(current));
      TrimFixedPoint(v);
  }

  /** After setting v1 and then v2, the current version is v2. */
  lemma SetTwice(t: Tree, root: Path, c: Name, v1: Name, v2: Name, family: Family)
    requires Wf(t)
    requires CandidateDir(root, c, v1) in t && !t[CandidateDir(root, c, v1)].Link?
    requires CandidateDir(root, c, v2) in t && !t[CandidateDir(root, c, v2)].Link?
    requires v1 != "current" && v2 != "current"
    requires Replaceable(t, CandidateCurrent(root, c))
    requires family.Windows? ==> IsTrimmed(v1) && IsTrimmed(v2)
    ensures var u := SetCurrent(t, root, c, v1, family).tree;
      SetCurrent(u, root, c, v2, family).result.Ok?
      && GetCurrentVersion(SetCurrent(u, root, c, v2, family).tree, root, c, family) == Some(v2)
  {
    var current := CandidateCurrent(root, c);
    SetThenGet(t, root, c, v1, family);
    SetCurrentOutcome(t, root, c, v1, family);
    var u := SetCurrent(t, root, c, v1, family).tree;
    LayoutShape(root, c, v2);
    assert CandidateDir(root, c, v2) in u && u[CandidateDir(root, c, v2)] == t[CandidateDir(root, c, v2)];
    assert Replaceable(u, current) by {
      assert Exists(u, current);
      PlaceMarkerOutcome(t, CandidateDir(root, c, v1), current, v1, family);
    }
    SetThenGet(u, root, c, v2, family);
  }

  /**
   * A marker left dangling (a link whose target is gone) blocks every later
   * `set_current_version`: it does not exist, so it is not removed, and the
   * new link cannot be created over it.
   */
  lemma DanglingMarkerBlocksSet(t: Tree, root: Path, c: Name, v: Name, family: Family)
    requires Wf(t) && IsInstalled(t, root, c, v)
    requires CandidateCurrent(root, c) in t && t[CandidateCurrent(root, c)].Link?
    requires !Exists(t, CandidateCurrent(root, c))
    ensures SetCurrent(t, root, c, v, family).result.Err?
    ensures SetCurrent(t, root, c, v, family).tree == t
  {
    var current := CandidateCurrent(root, c);
    LayoutShape(root, c, v);
    assert CandidateDir(root, c, v) in t;
    assert IsRealDir(t, Parent(current));
    SetCurrentOutcome(t, root, c, v, family);
    assert Resolve(t, Parent(current)) == Ok(Parent(current));
  }

  /** The version in use of the entry `c` of the candidates directory: none unless `c` is a directory. */
  function Recorded(t: Tree, root: Path, family: Family, c: Name): Option<string> {
    if IsDir(t, CandidateHome(root, c)) then GetCurrentVersion(t, root, c, family) else None
  }

  /** The version in use of every candidate directory that has one. */
  function CurrentVersions(t: Tree, root: Path, family: Family): (m: map<string, string>)
    ensures forall c :: c in m <==> c in ListedNames(t, CandidatesDir(root)) && Recorded(t, root, family, c).Some?
    ensures forall c :: c in m ==> m[c] == Recorded(t, root, family, c).value
  {
    map c | c in ListedNames(t, CandidatesDir(root)) && Recorded(t, root, family, c).Some? :: Recorded(t, root, family, c).value
  }

  // ------------------------------------------------------ markers in use

  /** `u` is `t` changed only at or inside `m`: the footprint of one marker update in an existing store. */
  ghost predicate Kept(t: Tree, u: Tree, m: Path) {
    && (forall q :: q in t && !Under(q, m) ==> q in u && u[q] == t[q])
    && (forall q :: q in u && q !in t ==> Under(q, m))
  }

  /**
   * The marker of `c` is as this program leaves it: missing, a directory, or
   * a link to a version directory of `c` that is there.
   */
  predicate Tidy(t: Tree, root: Path, c: Name) {
    var m := CandidateCurrent(root, c);
    || m !in t
    || t[m].Dir?
    || (&& t[m].Link? && t[m].target != []
        && var w := t[m].target[|t[m].target| - 1];
        && w != "current" && t[m].target == CandidateDir(root, c, w)
        && t[m].target in t && !t[t[m].target].Link?)
  }

  /** Candidate `c` is set to the installed version `v`, as a successful `set_current_version` leaves it. */
  predicate Settled(t: Tree, root: Path, c: Name, v: Name, family: Family) {
    var m := CandidateCurrent(root, c);
    var d := CandidateDir(root, c, v);
    && v != "current" && d in t && !t[d].Link?
    && match family
       case Unix => m in t && t[m] == Link(d)
       case Windows => IsRealDir(t, m) && VersionFile(m) in t && t[VersionFile(m)] == File(v) && IsTrimmed(v)
  }

  /** A settled candidate reads as its version, and its marker is tidy. */
  lemma SettledReads(t: Tree, root: Path, c: Name, v: Name, family: Family)
    requires Settled(t, root, c, v, family)
    ensures GetCurrentVersion(t, root, c, family) == Some(v)
    ensures Tidy(t, root, c)
  {
    var m, d := CandidateCurrent(root, c), CandidateDir(root, c, v);
    match family
    case Unix =>
      assert Follow(t, d, MaxHops - 1) == Ok(d);
      assert Exists(t, m);
      assert d[|d| - 1] == v;
    case Windows =>
      assert Exists(t, m);
      assert Resolve(t, VersionFile(m)) == Ok(VersionFile(m));
      TrimFixedPoint(v);
  }

  /** A tidy marker never blocks an update. */
  lemma TidyReplaceable(t: Tree, root: Path, c: Name)
    requires Tidy(t, root, c)
    ensures Replaceable(t, CandidateCurrent(root, c))
  {
    var m := CandidateCurrent(root, c);
    if m in t && t[m].Link? {
      assert Follow(t, t[m].target, MaxHops - 1) == Ok(t[m].target);
    }
  }

  /**
   * Setting a version whose directory is there (and is not itself a link)
   * over a tidy marker succeeds, changes only the marker and leaves the
   * candidate settled at that version.
   */
  lemma SetSettles(t: Tree, root: Path, c: Name, v: Name, family: Family)
    requires Wf(t) && Tidy(t, root, c) && v != "current"
    requires CandidateDir(root, c, v) in t && !t[CandidateDir(root, c, v)].Link?
    requires family.Windows? ==> IsTrimmed(v)
    ensures var s := SetCurrent(t, root, c, v, family);
      && s.result.Ok? && Wf(s.tree)
      && Kept(t, s.tree, CandidateCurrent(root, c))
      && Settled(s.tree, root, c, v, family)
  {
    var m, d := CandidateCurrent(root, c), CandidateDir(root, c, v);
    LayoutShape(root, c, v);
    assert IsInstalled(t, root, c, v);
    TidyReplaceable(t, root, c);
    SetCurrentOutcome(t, root, c, v, family);
    PlaceMarkerOutcome(t, d, m, v, family);
  }

  /** The places another candidate's marker exposes lie outside the marker of `c`. */
  lemma MarkerApart(root: Path, c: Name, c2: Name, x: Name)
    requires c != c2
    ensures !Under(CandidateCurrent(root, c), CandidateCurrent(root, c2))
    ensures !Under(CandidateDir(root, c, x), CandidateCurrent(root, c2))
    ensures !Under(VersionFile(CandidateCurrent(root, c)), CandidateCurrent(root, c2))
  {
    var m2 := CandidateCurrent(root, c2);
    assert CandidateCurrent(root, c)[|root| + 1] == c && m2[|root| + 1] == c2;
    assert CandidateDir(root, c, x)[|root| + 1] == c;
    assert VersionFile(CandidateCurrent(root, c))[|root| + 1] == c;
  }

  /** An update of another candidate's marker keeps `c` tidy and keeps it settled. */
  lemma KeptApart(t: Tree, u: Tree, root: Path, c: Name, c2: Name, v: Name, family: Family)
    requires Kept(t, u, CandidateCurrent(root, c2)) && c != c2
    ensures Tidy(t, root, c) ==> Tidy(u, root, c)
    ensures Settled(t, root, c, v, family) ==> Settled(u, root, c, v, family)
  {
    var m := CandidateCurrent(root, c);
    MarkerApart(root, c, c2, v);
    MarkerApart(root, c, c2, "current");
    if m in t && t[m].Link? && t[m].target != [] {
      MarkerApart(root, c, c2, t[m].target[|t[m].target| - 1]);
    }
  }

  /**
   * `u` is `t` changed only at or inside the markers of the candidates in
   * `keys`: the footprint of a series of marker updates and removals.
   */
  ghost predicate KeptOutside(t: Tree, u: Tree, root: Path, keys: set<Name>) {
    && (forall q :: q in t && (forall c :: c in keys ==> !Under(q, CandidateCurrent(root, c))) ==> q in u && u[q] == t[q])
    && (forall q :: q in u && q !in t ==> exists c :: c in keys && Under(q, CandidateCurrent(root, c)))
  }

  lemma KeptOne(t: Tree, u: Tree, root: Path, c: Name)
    requires Kept(t, u, CandidateCurrent(root, c))
    ensures KeptOutside(t, u, root, {c})
  {
  }

  lemma KeptNothing(t: Tree, root: Path)
    ensures KeptOutside(t, t, root, {})
  {
  }

  lemma KeptOutsideTrans(t: Tree, u: Tree, w: Tree, root: Path, k1: set<Name>, k2: set<Name>)
    requires KeptOutside(t, u, root, k1) && KeptOutside(u, w, root, k2)
    ensures KeptOutside(t, w, root, k1 + k2)
  {
    forall q | q in w && q !in t
      ensures exists c :: c in k1 + k2 && Under(q, CandidateCurrent(root, c))
    {
      if q in u {
        var c :| c in k1 && Under(q, CandidateCurrent(root, c));
        assert c in k1 + k2;
      } else {
        var c :| c in k2 && Under(q, CandidateCurrent(root, c));
        assert c in k1 + k2;
      }
    }
  }

  lemma KeptOutsideWider(t: Tree, u: Tree, root: Path, k1: set<Name>, k2: set<Name>)
    requires KeptOutside(t, u, root, k1) && k1 <= k2
    ensures KeptOutside(t, u, root, k2)
  {
    forall q | q in u && q !in t
      ensures exists c :: c in k2 && Under(q, CandidateCurrent(root, c))
    {
      var c :| c in k1 && Under(q, CandidateCurrent(root, c));
    }
  }

  /** Updates confined to other candidates' markers keep `c` tidy, settled, and its version directories as they were. */
  lemma KeptAway(t: Tree, u: Tree, root: Path, keys: set<Name>, c: Name, v: Name, family: Family)
    requires KeptOutside(t, u, root, keys) && c !in keys
    ensures Tidy(t, root, c) ==> Tidy(u, root, c)
    ensures Settled(t, root, c, v, family) ==> Settled(u, root, c, v, family)
    ensures CandidateDir(root, c, v) in u <==> CandidateDir(root, c, v) in t
    ensures CandidateDir(root, c, v) in t ==> u[CandidateDir(root, c, v)] == t[CandidateDir(root, c, v)]
  {
    var m := CandidateCurrent(root, c);
    var w := if m in t && t[m].Link? && t[m].target != [] then t[m].target[|t[m].target| - 1] else v;
    forall c2 | c2 in keys
      ensures !Under(m, CandidateCurrent(root, c2))
      ensures !Under(CandidateDir(root, c, v), CandidateCurrent(root, c2))
      ensures !Under(CandidateDir(root, c, w), CandidateCurrent(root, c2))
      ensures !Under(VersionFile(m), CandidateCurrent(root, c2))
    {
      MarkerApart(root, c, c2, v);
      MarkerApart(root, c, c2, w);
    }
  }

  /** Updates the global marker of candidate `c` to version `v`. */
  method SetCurrentVersion(fs: FileSystem, root: Path, c: Name, v: Name, family: Family)
    returns (r: Result<(), string>)
    modifies fs
    ensures Change(r, fs.tree) == SetCurrent(old(fs.tree), root, c, v, family)
  {
    var target := CandidateDir(root, c, v);
    if !Exists(fs.tree, target) {
      return Err(NotInstalled(c, v));
    }
    var placed := PlaceMarkerAt(fs, target, CandidateCurrent(root, c), v, family);
    r := Lift(Step(placed, fs.tree)).result;
  }

  /** Performs `PlaceMarker` on `fs`, one file-system call at a time. */
  method PlaceMarkerAt(fs: FileSystem, target: Path, current: Path, version: string, family: Family)
    returns (r: Result<(), IoError>)
    modifies fs
    ensures Step(r, fs.tree) == PlaceMarker(old(fs.tree), target, current, version, family)
  {
    if current != [] {
      r := fs.CreateDirAll(Parent(current));
      if r.Err? {
        return;
      }
    }
    if Exists(fs.tree, current) {
      r := fs.RemoveDirAll(current);
      if r.Err? {
        return;
      }
    }
    match family
    case Unix =>
      r := fs.Symlink(target, current);
    case Windows =>
      r := fs.CreateDirAll(current);
      if r.Err? {
        return;
      }
      r := fs.WriteFile(VersionFile(current), version);
  }

  // ----------------------------------------------------------- local store

  /** The working directory: `PWD` made canonical when that works, else the process's directory. */
  function WorkingDir(pwd: Option<Path>, cwd: Option<Path>): Option<Path> {
    if pwd.Some? then pwd else cwd
  }

  /** `local_sdkman_dir`: `.sdkman` in the working directory, if it exists. */
  function LocalSdkmanDir(t: Tree, pwd: Option<Path>, cwd: Option<Path>): (r: Option<Path>)
    ensures r.Some? ==> WorkingDir(pwd, cwd).Some? && Exists(t, r.value)
                        && r.value == WorkingDir(pwd, cwd).value + [".sdkman"]
  {
    match WorkingDir(pwd, cwd)
    case None => None
    case Some(dir) => if Exists(t, dir + [".sdkman"]) then Some(dir + [".sdkman"]) else None
  }

  /** `is_local_env`. */
  predicate IsLocalEnv(t: Tree, pwd: Option<Path>, cwd: Option<Path>) {
    WorkingDir(pwd, cwd).Some? && Exists(t, WorkingDir(pwd, cwd).value + [".sdkman"])
  }

  /** The working directory is a local environment exactly when it has a local store. */
  lemma LocalEnvIffLocalDir(t: Tree, pwd: Option<Path>, cwd: Option<Path>)
    ensures IsLocalEnv(t, pwd, cwd) <==> LocalSdkmanDir(t, pwd, cwd).Some?
  {
  }

  function LocalCurrent(local: Path, c: Name): Path {
    local + ["candidates", c, "current"]
  }

  /**
   * `set_local_current_version`: the marker of the local store is placed,
   * pointing at the global installation.
   */
  function SetLocalCurrent(t: Tree, root: Path, pwd: Option<Path>, cwd: Option<Path>, c: Name, v: Name, family: Family): Change {
    match LocalSdkmanDir(t, pwd, cwd)
    case None => Change(Err("No local .sdkman directory found"), t)
    case Some(local) =>
      if !IsInstalled(t, root, c, v) then Change(Err(NotInstalled(c, v)), t)
      else Lift(PlaceMarker(t, CandidateDir(root, c, v), LocalCurrent(local, c), v, family))
  }

  /** Without a local store, or without the global installation, nothing changes. */
  lemma SetLocalGuards(t: Tree, root: Path, pwd: Option<Path>, cwd: Option<Path>, c: Name, v: Name, family: Family)
    ensures !IsLocalEnv(t, pwd, cwd) ==>
      SetLocalCurrent(t, root, pwd, cwd, c, v, family) == Change(Err("No local .sdkman directory found"), t)
    ensures IsLocalEnv(t, pwd, cwd) && !IsInstalled(t, root, c, v) ==>
      SetLocalCurrent(t, root, pwd, cwd, c, v, family) == Change(Err(NotInstalled(c, v)), t)
  {
    LocalEnvIffLocalDir(t, pwd, cwd);
  }

  /**
   * A local activation changes only the local marker (adding missing
   * ancestors of it), and on Unix leaves it pointing at the global
   * installation of the version.
   */
  lemma SetLocalEffect(t: Tree, root: Path, pwd: Option<Path>, cwd: Option<Path>, c: Name, v: Name, family: Family)
    requires Wf(t)
    ensures var s := SetLocalCurrent(t, root, pwd, cwd, c, v, family);
      && Wf(s.tree)
      && (s.result.Ok? ==> IsLocalEnv(t, pwd, cwd) && IsInstalled(t, root, c, v))
      && (LocalSdkmanDir(t, pwd, cwd).Some? ==>
            var current := LocalCurrent(LocalSdkmanDir(t, pwd, cwd).value, c);
            && (forall q :: q in t && !Under(q, current) ==> q in s.tree && s.tree[q] == t[q])
            && (forall q :: q in s.tree && q !in t ==> Under(current, q) || Under(q, current))
            && (s.result.Ok? && family.Unix? ==> ReadLink(s.tree, current) == Ok(CandidateDir(root, c, v)))
            && (s.result.Ok? && family.Windows? ==>
                  IsRealDir(s.tree, current) && VersionFile(current) in s.tree && s.tree[VersionFile(current)] == File(v)))
  {
    LocalEnvIffLocalDir(t, pwd, cwd);
    if IsLocalEnv(t, pwd, cwd) && IsInstalled(t, root, c, v) {
      var local := LocalSdkmanDir(t, pwd, cwd).value;
      var current := LocalCurrent(local, c);
      var target := CandidateDir(root, c, v);
      PlaceMarkerFrame(t, target, current, v, family);
      var s := PlaceMarker(t, target, current, v, family);
      if s.result.Ok? && family.Unix? {
        PlacedLink(t, target, current, v);
      }
      if s.result.Ok? && family.Windows? {
        PlacedVersionFile(t, target, current, v);
      }
    }
  }

  /**
   * A successful Windows marker update leaves the marker a directory of
   * its own whose `.version` file holds the version.
   */
  lemma PlacedVersionFile(t: Tree, target: Path, current: Path, version: string)
    requires Wf(t) && PlaceMarker(t, target, current, version, Windows).result.Ok?
    ensures var u := PlaceMarker(t, target, current, version, Windows).tree;
      IsRealDir(u, current) && VersionFile(current) in u && u[VersionFile(current)] == File(version)
  {
    var s1 := if current != [] then CreateDirAllStep(t, Parent(current)) else Step(Ok(()), t);
    var s2 := if Exists(s1.tree, current) then RemoveDirAllStep(s1.tree, current) else s1;
    assert current != [];
    assert current !in s2.tree;
    var s3 := CreateDirAllStep(s2.tree, current);
    WindowsMarkerFile(s2.tree, s3, current, version);
  }

  /** A successful Unix marker update leaves the marker linked to the target. */
  lemma PlacedLink(t: Tree, target: Path, current: Path, version: string)
    requires PlaceMarker(t, target, current, version, Unix).result.Ok?
    ensures ReadLink(PlaceMarker(t, target, current, version, Unix).tree, current) == Ok(target)
  {
  }

  /** Updates the local marker of candidate `c` to the global installation of `v`. */
  method SetLocalCurrentVersion(fs: FileSystem, root: Path, pwd: Option<Path>, cwd: Option<Path>, c: Name, v: Name, family: Family)
    returns (r: Result<(), string>)
    modifies fs
    ensures Change(r, fs.tree) == SetLocalCurrent(old(fs.tree), root, pwd, cwd, c, v, family)
  {
    var local := LocalSdkmanDir(fs.tree, pwd, cwd);
    if local.None? {
      return Err("No local .sdkman directory found");
    }
    var target := CandidateDir(root, c, v);
    if !Exists(fs.tree, target) {
      return Err(NotInstalled(c, v));
    }
    var placed := PlaceMarkerAt(fs, target, LocalCurrent(local.value, c), v, family);
    r := Lift(Step(placed, fs.tree)).result;
  }
}
