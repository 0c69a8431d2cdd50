/**
 * The commands that read or move the marker of one candidate: `use`,
 * `default`, `uninstall`, `home` and `current`. Each is a guard followed by
 * at most a few file-system calls; each is given as a function of the file
 * system before it (the outcome and the file system after) and as a method
 * performing the calls one by one.
 */
module Commands {
  import opened Wrappers
  import opened Text
  import opened Fs
  import opened Store

  function InstallFirst(c: Name, v: Name): string {
    NotInstalled(c, v) + ". Run 'sdk install " + c + " " + v + "' first"
  }

  // ------------------------------------------------------------------ use

  /** `sdk use c v`: activates an installed version, in the local store when there is one. */
  function UseSpec(t: Tree, root: Path, pwd: Option<Path>, cwd: Option<Path>, c: Name, v: Name, family: Family): Outcome {
    if !IsInstalled(t, root, c, v) then Outcome(Err(InstallFirst(c, v)), t)
    else if IsLocalEnv(t, pwd, cwd) then
      var s := SetLocalCurrent(t, root, pwd, cwd, c, v, family);
      if s.result.Err? then Outcome(Err("Failed to set local current version: " + s.result.error), s.tree)
      else Outcome(Ok("Using " + c + " " + v + " (local)"), s.tree)
    else
      var s := SetCurrent(t, root, c, v, family);
      if s.result.Err? then Outcome(Err("Failed to set current version: " + s.result.error), s.tree)
      else Outcome(Ok("Using " + c + " " + v), s.tree)
  }

  method Use(fs: FileSystem, root: Path, pwd: Option<Path>, cwd: Option<Path>, c: Name, v: Name, family: Family)
    returns (r: Result<string, string>)
    modifies fs
    ensures Outcome(r, fs.tree) == UseSpec(old(fs.tree), root, pwd, cwd, c, v, family)
  {
    if !IsInstalled(fs.tree, root, c, v) {
      return Err(InstallFirst(c, v));
    }
    if IsLocalEnv(fs.tree, pwd, cwd) {
      var placed := SetLocalCurrentVersion(fs, root, pwd, cwd, c, v, family);
      if placed.Err? {
        return Err("Failed to set local current version: " + placed.error);
      }
      r := Ok("Using " + c + " " + v + " (local)");
    } else {
      var placed := SetCurrentVersion(fs, root, c, v, family);
      if placed.Err? {
        return Err("Failed to set current version: " + placed.error);
      }
      r := Ok("Using " + c + " " + v);
    }
  }

  /** A version that is not installed is refused, and neither marker changes. */
  lemma UseNotInstalled(t: Tree, root: Path, pwd: Option<Path>, cwd: Option<Path>, c: Name, v: Name, family: Family)
    requires !IsInstalled(t, root, c, v)
    ensures UseSpec(t, root, pwd, cwd, c, v, family) == Outcome(Err(InstallFirst(c, v)), t)
  {
  }

  /**
   * Outside a local environment, using an installed version (over a marker
   * this program left) succeeds, makes it the current version and changes
   * nothing but the global marker.
   */
  lemma UseGlobal(t: Tree, root: Path, pwd: Option<Path>, cwd: Option<Path>, c: Name, v: Name, family: Family)
    requires Wf(t) && !IsLocalEnv(t, pwd, cwd) && Tidy(t, root, c) && v != "current"
    requires CandidateDir(root, c, v) in t && !t[CandidateDir(root, c, v)].Link?
    requires family.Windows? ==> IsTrimmed(v)
    ensures var o := UseSpec(t, root, pwd, cwd, c, v, family);
      && o.result == Ok("Using " + c + " " + v)
      && GetCurrentVersion(o.tree, root, c, family) == Some(v)
      && Kept(t, o.tree, CandidateCurrent(root, c))
  {
    assert IsInstalled(t, root, c, v);
    SetSettles(t, root, c, v, family);
    SettledReads(SetCurrent(t, root, c, v, family).tree, root, c, v, family);
  }

  /** A local store apart from the global one: neither lies inside the other. */
  predicate Apart(t: Tree, root: Path, pwd: Option<Path>, cwd: Option<Path>) {
    LocalSdkmanDir(t, pwd, cwd).Some? ==> Disjoint(LocalSdkmanDir(t, pwd, cwd).value, root)
  }

  lemma MarkersApart(local: Path, root: Path, c: Name)
    requires Disjoint(local, root)
    ensures !Under(CandidateCurrent(root, c), LocalCurrent(local, c))
    ensures !Under(LocalCurrent(local, c), CandidateCurrent(root, c))
  {
    var g, l := CandidateCurrent(root, c), LocalCurrent(local, c);
    if |local| <= |root| {
      assert !Under(root, local);
      assert g[..|local|] == root[..|local|] && l[..|local|] == local;
    } else {
      assert !Under(local, root);
      assert l[..|root|] == local[..|root|] && g[..|root|] == root;
    }
  }

  /**
   * In a local environment apart from the global store, using an installed
   * version changes only the local marker, leaving the global one (and its
   * current version) as it was.
   */
  lemma UseLocal(t: Tree, root: Path, pwd: Option<Path>, cwd: Option<Path>, c: Name, v: Name, family: Family)
    requires Wf(t) && IsLocalEnv(t, pwd, cwd) && IsInstalled(t, root, c, v) && Apart(t, root, pwd, cwd)
    ensures var o := UseSpec(t, root, pwd, cwd, c, v, family);
      var global := CandidateCurrent(root, c);
      && (global in o.tree <==> global in t)
      && (global in t ==> o.tree[global] == t[global])
      && (o.result.Ok? ==> o.result.value == "Using " + c + " " + v + " (local)")
  {
    LocalEnvIffLocalDir(t, pwd, cwd);
    var local := LocalSdkmanDir(t, pwd, cwd).value;
    var lm := LocalCurrent(local, c);
    var global := CandidateCurrent(root, c);
    SetLocalEffect(t, root, pwd, cwd, c, v, family);
    MarkersApart(local, root, c);
  }

  // -------------------------------------------------------------- default

  /** `sdk default c [v]`: the version (the current one when omitted) becomes the global current version. */
  function DefaultSpec(t: Tree, root: Path, c: Name, version: Option<Name>, family: Family): Outcome {
    var target := if version.Some? then version else GetCurrentVersion(t, root, c, family);
    if target.None? then Outcome(Err("No current version set for " + c), t)
    else if !IsInstalled(t, root, c, target.value) then Outcome(Err(InstallFirst(c, target.value)), t)
    else
      var s := SetCurrent(t, root, c, target.value, family);
      if s.result.Err? then Outcome(Err("Failed to set default version: " + s.result.error), s.tree)
      else Outcome(Ok("Default " + c + " version set to " + target.value), s.tree)
  }

  method Default(fs: FileSystem, root: Path, c: Name, version: Option<Name>, family: Family) returns (r: Result<string, string>)
    modifies fs
    ensures Outcome(r, fs.tree) == DefaultSpec(old(fs.tree), root, c, version, family)
  {
    var target: Name;
    if version.Some? {
      target := version.value;
    } else {
      var current := GetCurrentVersion(fs.tree, root, c, family);
      if current.None? {
        return Err("No current version set for " + c);
      }
      target := current.value;
    }
    if !IsInstalled(fs.tree, root, c, target) {
      return Err(InstallFirst(c, target));
    }
    var placed := SetCurrentVersion(fs, root, c, target, family);
    if placed.Err? {
      return Err("Failed to set default version: " + placed.error);
    }
    r := Ok("Default " + c + " version set to " + target);
  }

  /** Without a version and without a current one, or with a version that is not installed, nothing changes. */
  lemma DefaultRefuses(t: Tree, root: Path, c: Name, version: Option<Name>, family: Family)
    ensures version.None? && GetCurrentVersion(t, root, c, family).None? ==>
      DefaultSpec(t, root, c, version, family) == Outcome(Err("No current version set for " + c), t)
    ensures version.Some? && !IsInstalled(t, root, c, version.value) ==>
      DefaultSpec(t, root, c, version, family) == Outcome(Err(InstallFirst(c, version.value)), t)
  {
  }

  /** Defaulting to an installed version over a marker this program left makes it the current version. */
  lemma DefaultSets(t: Tree, root: Path, c: Name, v: Name, family: Family)
    requires Wf(t) && Tidy(t, root, c) && v != "current"
    requires CandidateDir(root, c, v) in t && !t[CandidateDir(root, c, v)].Link?
    requires family.Windows? ==> IsTrimmed(v)
    ensures var o := DefaultSpec(t, root, c, Some(v), family);
      && o.result == Ok("Default " + c + " version set to " + v)
      && Settled(o.tree, root, c, v, family)
      && Kept(t, o.tree, CandidateCurrent(root, c))
  {
    assert IsInstalled(t, root, c, v);
    SetSettles(t, root, c, v, family);
  }

  /**
   * With the version omitted, `default` re-sets the version in use: the
   * candidate stays settled at it, so repeating the command changes nothing
   * that can be read.
   */
  lemma DefaultKeepsCurrent(t: Tree, root: Path, c: Name, v: Name, family: Family)
    requires Wf(t) && Settled(t, root, c, v, family)
    ensures var o := DefaultSpec(t, root, c, None, family);
      && o.result == Ok("Default " + c + " version set to " + v)
      && Settled(o.tree, root, c, v, family)
      && GetCurrentVersion(o.tree, root, c, family) == Some(v)
  {
    SettledReads(t, root, c, v, family);
    DefaultSets(t, root, c, v, family);
    assert DefaultSpec(t, root, c, None, family) == DefaultSpec(t, root, c, Some(v), family);
    SettledReads(DefaultSpec(t, root, c, Some(v), family).tree, root, c, v, family);
  }

  // ------------------------------------------------------------ uninstall

  function Uninstalled(c: Name, v: Name): string {
    c + " " + v + " uninstalled successfully"
  }

  /**
   * `sdk uninstall c v` as written: the installation is removed first, and
   * the marker afterwards only if it still reads as `v`.
   */
  function UninstallSpec(t: Tree, root: Path, c: Name, v: Name, family: Family): Outcome {
    if !IsInstalled(t, root, c, v) then Outcome(Err(NotInstalled(c, v)), t)
    else
      var s := RemoveDirAllStep(t, CandidateDir(root, c, v));
      if s.result.Err? then Outcome(Err("Failed to remove installation: " + Describe(s.result.error)), s.tree)
      else
        var u := s.tree;
        if GetCurrentVersion(u, root, c, family) == Some(v) then
          Outcome(Ok(Uninstalled(c, v)), RemoveDirAllStep(u, CandidateCurrent(root, c)).tree)
        else Outcome(Ok(Uninstalled(c, v)), u)
  }

  method Uninstall(fs: FileSystem, root: Path, c: Name, v: Name, family: Family) returns (r: Result<string, string>)
    modifies fs
    ensures Outcome(r, fs.tree) == UninstallSpec(old(fs.tree), root, c, v, family)
  {
    if !IsInstalled(fs.tree, root, c, v) {
      return Err(NotInstalled(c, v));
    }
    var removed := fs.RemoveDirAll(CandidateDir(root, c, v));
    if removed.Err? {
      return Err("Failed to remove installation: " + Describe(removed.error));
    }
    var current := GetCurrentVersion(fs.tree, root, c, family);
    if current == Some(v) {
      var _ := fs.RemoveDirAll(CandidateCurrent(root, c));
    }
    r := Ok(Uninstalled(c, v));
  }

  /**
   * What a successful uninstall leaves: the tree without the version's
   * directory, and also without the marker when that still read as the
   * version afterwards.
   */
  lemma UninstallTree(t: Tree, root: Path, c: Name, v: Name, family: Family)
    requires Wf(t) && UninstallSpec(t, root, c, v, family).result.Ok?
    ensures var o := UninstallSpec(t, root, c, v, family);
      var u := Prune(t, CandidateDir(root, c, v));
      && o.result.value == Uninstalled(c, v)
      && o.tree == if GetCurrentVersion(u, root, c, family) == Some(v) then Prune(u, CandidateCurrent(root, c)) else u
  {
    var u := RemoveDirAllStep(t, CandidateDir(root, c, v)).tree;
    var m := CandidateCurrent(root, c);
    if GetCurrentVersion(u, root, c, family) == Some(v) {
      MarkerRemovable(u, m, family);
    }
  }

  /**
   * Uninstalling a version that is not in use keeps the marker as it was,
   * so the version in use still reads back as current.
   */
  lemma UninstallKeepsCurrent(t: Tree, root: Path, c: Name, v: Name, w: Name, family: Family)
    requires Wf(t) && Settled(t, root, c, w, family) && w != v && v != "current"
    requires UninstallSpec(t, root, c, v, family).result.Ok?
    ensures var o := UninstallSpec(t, root, c, v, family);
      && CandidateCurrent(root, c) in o.tree && o.tree[CandidateCurrent(root, c)] == t[CandidateCurrent(root, c)]
      && GetCurrentVersion(o.tree, root, c, family) == Some(w)
  {
    var d, m := CandidateDir(root, c, v), CandidateCurrent(root, c);
    var u := Prune(t, d);
    LayoutShape(root, c, v);
    assert d[..|d|] == d;
    PruneKeepsVersion(t, root, c, v, w);
    assert !Under(m, d);
    if family.Windows? {
      assert !Under(VersionFile(m), d) by {
        assert VersionFile(m)[..|d|] == m;
      }
    }
    assert Settled(u, root, c, w, family);
    SettledReads(u, root, c, w, family);
    UninstallTree(t, root, c, v, family);
  }

  /** A marker that reads as a version is a link or a directory, so `remove_dir_all` takes it. */
  lemma MarkerRemovable(t: Tree, current: Path, family: Family)
    requires Wf(t) && ReadMarker(t, current, family).Some? && current != []
    ensures RemoveDirAllStep(t, current).result.Ok?
  {
    if family.Windows? {
      assert VersionFile(current) in t;
      assert current + [".version"] in t;
    }
  }

  /**
   * A successful uninstall removes the version, leaves it not current, and
   * only removes nodes: nothing outside the version's directory and the
   * candidate's marker changes. A version that is not installed is refused
   * with no change.
   */
  lemma UninstallEffect(t: Tree, root: Path, c: Name, v: Name, family: Family)
    requires Wf(t)
    ensures !IsInstalled(t, root, c, v) ==> UninstallSpec(t, root, c, v, family) == Outcome(Err(NotInstalled(c, v)), t)
    ensures var o := UninstallSpec(t, root, c, v, family);
      && Wf(o.tree) && SubTree(o.tree, t)
      && (o.result.Ok? ==>
            && o.result.value == Uninstalled(c, v)
            && !IsInstalled(o.tree, root, c, v)
            && GetCurrentVersion(o.tree, root, c, family) != Some(v)
            && forall q :: q in t && !Under(q, CandidateDir(root, c, v)) && !Under(q, CandidateCurrent(root, c)) ==>
                 q in o.tree && o.tree[q] == t[q])
  {
    var o := UninstallSpec(t, root, c, v, family);
    if o.result.Ok? {
      var d, m := CandidateDir(root, c, v), CandidateCurrent(root, c);
      UninstallTree(t, root, c, v, family);
      assert d[..|d|] == d && m[..|m|] == m;
      assert d !in o.tree;
      if m !in o.tree {
        assert !Exists(o.tree, m);
      }
    }
  }

  /** Uninstalling one version leaves the other versions of the candidate and every other candidate's marker alone. */
  lemma UninstallKeepsOthers(t: Tree, root: Path, c: Name, v: Name, family: Family, w: Name, c2: Name)
    requires Wf(t) && UninstallSpec(t, root, c, v, family).result.Ok?
    requires w != v && w != "current" && c2 != c
    ensures var u := UninstallSpec(t, root, c, v, family).tree;
      && (CandidateDir(root, c, w) in t ==> CandidateDir(root, c, w) in u && u[CandidateDir(root, c, w)] == t[CandidateDir(root, c, w)])
      && (CandidateCurrent(root, c2) in t ==> CandidateCurrent(root, c2) in u && u[CandidateCurrent(root, c2)] == t[CandidateCurrent(root, c2)])
  {
    UninstallEffect(t, root, c, v, family);
    LayoutShape(root, c, w);
    var dw, dv := CandidateDir(root, c, w), CandidateDir(root, c, v);
    assert dw[|dw| - 1] == w && dv[|dv| - 1] == v && |dw| == |dv|;
    assert !Under(dw, dv);
    MarkerApart(root, c2, c, v);
    var m2, dv2 := CandidateCurrent(root, c2), CandidateDir(root, c, v);
    assert m2[|root| + 1] == c2 && dv2[|root| + 1] == c;
    assert !Under(m2, dv2);
  }

  /** Removing one version directory and then the marker keeps every other version directory of the candidate. */
  lemma PruneKeepsVersion(t: Tree, root: Path, c: Name, v: Name, w: Name)
    requires w != v && w != "current" && CandidateDir(root, c, w) in t
    ensures var d, m, dw := CandidateDir(root, c, v), CandidateCurrent(root, c), CandidateDir(root, c, w);
      && dw in Prune(t, d) && Prune(t, d)[dw] == t[dw]
      && dw in Prune(Prune(t, d), m) && Prune(Prune(t, d), m)[dw] == t[dw]
  {
    LayoutShape(root, c, w);
    LayoutInjective(root, c, w, c, v);
    SameDepthDisjoint(CandidateDir(root, c, w), CandidateDir(root, c, v));
  }

  /** A settled version directory goes, and the marker, which lies beside it, stays. */
  lemma PruneKeepsMarker(t: Tree, root: Path, c: Name, v: Name, family: Family)
    requires Settled(t, root, c, v, family)
    ensures var d, m := CandidateDir(root, c, v), CandidateCurrent(root, c);
      && d !in Prune(t, d) && m in Prune(t, d) && Prune(t, d)[m] == t[m] && !t[m].File?
  {
    var d := CandidateDir(root, c, v);
    LayoutShape(root, c, v);
    assert d[..|d|] == d;
  }

  /**
   * The defect of `uninstall` on Unix: uninstalling the version in use
   * removes its directory first, so the marker link dangles, reads as no
   * version and is left in place; the next activation of another installed
   * version of the candidate then fails, since the dangling link is not
   * removed and the new link cannot be created over it.
   */
  lemma UninstallLeavesDanglingLink(t: Tree, root: Path, c: Name, v: Name, w: Name)
    requires Wf(t) && Settled(t, root, c, v, Unix) && t[CandidateDir(root, c, v)].Dir?
    requires w != v && w != "current" && CandidateDir(root, c, w) in t && !t[CandidateDir(root, c, w)].Link?
    ensures var o := UninstallSpec(t, root, c, v, Unix);
      && o.result == Ok(Uninstalled(c, v))
      && CandidateCurrent(root, c) in o.tree && o.tree[CandidateCurrent(root, c)] == Link(CandidateDir(root, c, v))
      && !Exists(o.tree, CandidateCurrent(root, c))
      && SetCurrent(o.tree, root, c, w, Unix).result.Err?
      && SetCurrent(o.tree, root, c, w, Unix).tree == o.tree
  {
    var d, m, dw := CandidateDir(root, c, v), CandidateCurrent(root, c), CandidateDir(root, c, w);
    assert IsInstalled(t, root, c, v);
    var u := RemoveDirAllStep(t, d).tree;
    PruneKeepsMarker(t, root, c, v, Unix);
    PruneKeepsVersion(t, root, c, v, w);
    assert Follow(u, m, MaxHops) == Follow(u, d, MaxHops - 1) == Err(NotFound);
    assert UninstallSpec(t, root, c, v, Unix) == Outcome(Ok(Uninstalled(c, v)), u);
    assert Follow(u, dw, MaxHops) == Ok(dw);
    DanglingMarkerBlocksSet(u, root, c, w, Unix);
  }

  /**
   * `uninstall` as intended: whether the version is in use is read before
   * its directory is removed, so the marker naming it goes too.
   */
  function UninstallFixedSpec(t: Tree, root: Path, c: Name, v: Name, family: Family): Outcome {
    if !IsInstalled(t, root, c, v) then Outcome(Err(NotInstalled(c, v)), t)
    else
      var wasCurrent := GetCurrentVersion(t, root, c, family) == Some(v);
      var s := RemoveDirAllStep(t, CandidateDir(root, c, v));
      if s.result.Err? then Outcome(Err("Failed to remove installation: " + Describe(s.result.error)), s.tree)
      else if wasCurrent then Outcome(Ok(Uninstalled(c, v)), RemoveDirAllStep(s.tree, CandidateCurrent(root, c)).tree)
      else Outcome(Ok(Uninstalled(c, v)), s.tree)
  }

  /** The corrected uninstall of the version in use removes the version directory and then the marker. */
  lemma UninstallFixedRemoves(t: Tree, root: Path, c: Name, v: Name, family: Family)
    requires Wf(t) && Settled(t, root, c, v, family) && t[CandidateDir(root, c, v)].Dir?
    ensures var o := UninstallFixedSpec(t, root, c, v, family);
      && o.result == Ok(Uninstalled(c, v))
      && Wf(o.tree)
      && o.tree == Prune(Prune(t, CandidateDir(root, c, v)), CandidateCurrent(root, c))
  {
    var d, m := CandidateDir(root, c, v), CandidateCurrent(root, c);
    SettledReads(t, root, c, v, family);
    assert IsInstalled(t, root, c, v);
    PruneKeepsMarker(t, root, c, v, family);
    var u := RemoveDirAllStep(t, d).tree;
    assert RemoveDirAllStep(u, m).result.Ok?;
  }

  /**
   * The corrected uninstall of the version in use removes the marker, after
   * which activating any other installed version succeeds and reads back.
   */
  lemma UninstallFixedClears(t: Tree, root: Path, c: Name, v: Name, w: Name, family: Family)
    requires Wf(t) && Settled(t, root, c, v, family) && t[CandidateDir(root, c, v)].Dir?
    requires w != v && w != "current" && CandidateDir(root, c, w) in t && !t[CandidateDir(root, c, w)].Link?
    requires family.Windows? ==> IsTrimmed(w)
    ensures var o := UninstallFixedSpec(t, root, c, v, family);
      && o.result == Ok(Uninstalled(c, v))
      && CandidateCurrent(root, c) !in o.tree
      && !IsInstalled(o.tree, root, c, v)
      && SetCurrent(o.tree, root, c, w, family).result.Ok?
      && GetCurrentVersion(SetCurrent(o.tree, root, c, w, family).tree, root, c, family) == Some(w)
  {
    var d, m := CandidateDir(root, c, v), CandidateCurrent(root, c);
    UninstallFixedRemoves(t, root, c, v, family);
    PruneKeepsVersion(t, root, c, v, w);
    var x := UninstallFixedSpec(t, root, c, v, family).tree;
    assert m[..|m|] == m && d[..|d|] == d;
    assert Tidy(x, root, c);
    SetSettles(x, root, c, w, family);
    SettledReads(SetCurrent(x, root, c, w, family).tree, root, c, w, family);
  }

  // ----------------------------------------------------------------- home

  /** `sdk home c v`: where an installed version lives. */
  function Home(t: Tree, root: Path, c: Name, v: Name): (r: Result<string, string>)
    ensures r.Ok? <==> IsInstalled(t, root, c, v)
    ensures r.Ok? ==> r.value == PathString(CandidateDir(root, c, v))
    ensures r.Err? ==> r.error == InstallFirst(c, v)
  {
    if !IsInstalled(t, root, c, v) then Err(InstallFirst(c, v)) else Ok(PathString(CandidateDir(root, c, v)))
  }

  // -------------------------------------------------------------- current

  /** What `sdk current` shows: one candidate's version, or every version in use. */
  datatype Current = Record(candidate: Name, version: string) | Records(items: seq<(Name, string)>)

  /** `show_current`. */
  function ShowCurrent(t: Tree, root: Path, c: Name, family: Family): (r: Result<Current, string>)
    ensures r.Ok? <==> GetCurrentVersion(t, root, c, family).Some?
    ensures r.Ok? ==> r.value == Record(c, GetCurrentVersion(t, root, c, family).value)
    ensures r.Err? ==> r.error == "No " + c + " version in use"
  {
    match GetCurrentVersion(t, root, c, family)
    case Some(v) => Ok(Record(c, v))
    case None => Err("No " + c + " version in use")
  }

  /**
   * `show_all_current`: one record per directory of the candidates
   * directory that has a version in use, in the order the listing gives;
   * read only.
   */
  method ShowAllCurrent(fs: FileSystem, root: Path, family: Family) returns (records: seq<(Name, string)>)
    ensures Distinct(records)
    ensures forall p :: p in records <==> p in CurrentVersions(fs.tree, root, family).Items
  {
    var base := CandidatesDir(root);
    if !Exists(fs.tree, base) {
      return [];
    }
    var entries := fs.ReadDir(base);
    if entries.Err? {
      return [];
    }
    var names := entries.value;
    records := [];
    for i := 0 to |names|
      invariant Distinct(records)
      invariant forall p :: p in records <==> p.0 in names[..i] && Recorded(fs.tree, root, family, p.0) == Some(p.1)
    {
      PrefixSnoc(names, i);
      var c := names[i];
      if IsDir(fs.tree, base + [c]) {
        var version := GetCurrentVersion(fs.tree, root, c, family);
        if version.Some? {
          records := records + [(c, version.value)];
        }
      }
    }
    PrefixAll(names);
    forall p ensures p in records <==> p in CurrentVersions(fs.tree, root, family).Items {
      var m := CurrentVersions(fs.tree, root, family);
      if p in m.Items {
        assert p.0 in m && m[p.0] == p.1;
      }
    }
  }

  /** `sdk current [c]`. */
  method ShowCurrentCommand(fs: FileSystem, root: Path, candidate: Option<Name>, family: Family) returns (r: Result<Current, string>)
    ensures candidate.Some? ==> r == ShowCurrent(fs.tree, root, candidate.value, family)
    ensures candidate.None? ==>
      && r.Ok? && r.value.Records?
      && Distinct(r.value.items)
      && forall p :: p in r.value.items <==> p in CurrentVersions(fs.tree, root, family).Items
  {
    if candidate.Some? {
      return ShowCurrent(fs.tree, root, candidate.value, family);
    }
    var records := ShowAllCurrent(fs, root, family);
    r := Ok(Records(records));
  }
}
