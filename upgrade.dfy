/**
 * `sdk upgrade [c]`: moves a candidate's current version to the API's
 * default version, installing it first when it is not in the store; with
 * no candidate, every candidate with a current version in turn.
 */
module Upgrade {
  import opened Wrappers
  import opened Text
  import opened Fs
  import opened Store
  import opened Install
  import opened InstallCommand
  import Api

  function NoCurrent(c: Name): string {
    "No " + c + " version currently in use"
  }

  function AtLatest(c: Name, latest: string): string {
    c + " is already at the latest version (" + latest + ")"
  }

  function Upgraded(c: Name, current: string, latest: string): string {
    "Upgraded " + c + " from " + current + " to " + latest
  }

  function LatestFailed(e: string): string {
    "Failed to get latest version: " + e
  }

  /**
   * What `upgrade_candidate` decides before it changes anything: refuse,
   * report that the current version is the latest, switch to an installed
   * latest version, or fetch the latest version and then switch.
   */
  datatype Plan =
    | Refuse(error: string)
    | UpToDate(current: string)
    | Switch(current: string, latest: Name)
    | Fetch(current: string, platform: string, latest: Name)

  function UpgradePlan(t: Tree, h: Host, root: Path, c: Name): (p: Plan)
    ensures GetCurrentVersion(t, root, c, h.family).None? ==> p == Refuse(NoCurrent(c))
    ensures GetCurrentVersion(t, root, c, h.family).Some? && DetectPlatform(h.os, h.arch).Err? ==>
      p == Refuse(DetectPlatform(h.os, h.arch).error)
    ensures && GetCurrentVersion(t, root, c, h.family).Some? && DetectPlatform(h.os, h.arch).Ok?
            && Api.GetDefaultVersion(h.http, c, DetectPlatform(h.os, h.arch).value).Err?
            ==> p == Refuse(LatestFailed(Api.GetDefaultVersion(h.http, c, DetectPlatform(h.os, h.arch).value).error))
    ensures !p.Refuse? ==>
      && GetCurrentVersion(t, root, c, h.family) == Some(p.current)
      && DetectPlatform(h.os, h.arch).Ok?
      && var latest := Api.GetDefaultVersion(h.http, c, DetectPlatform(h.os, h.arch).value);
      && latest.Ok?
      && (p.UpToDate? <==> latest.value == p.current)
      && (p.Switch? || p.Fetch? ==> p.latest == latest.value && p.latest != p.current)
      && (p.Switch? ==> IsInstalled(t, root, c, p.latest))
      && (p.Fetch? ==> !IsInstalled(t, root, c, p.latest) && p.platform == DetectPlatform(h.os, h.arch).value)
  {
    match GetCurrentVersion(t, root, c, h.family)
    case None => Refuse(NoCurrent(c))
    case Some(current) =>
      match DetectPlatform(h.os, h.arch)
      case Err(e) => Refuse(e)
      case Ok(platform) =>
        match Api.GetDefaultVersion(h.http, c, platform)
        case Err(e) => Refuse(LatestFailed(e))
        case Ok(latest) =>
          if current == latest then UpToDate(current)
          else if IsInstalled(t, root, c, latest) then Switch(current, latest)
          else Fetch(current, platform, latest)
  }

  /** Version `v` of `c` is in the store as a directory or file of its own, not as a link. */
  predicate StoredAt(t: Tree, root: Path, c: Name, v: Name) {
    CandidateDir(root, c, v) in t && !t[CandidateDir(root, c, v)].Link?
  }

  /** The switch of `upgrade_candidate` to an installed latest version. */
  function SwitchSpec(t: Tree, root: Path, c: Name, current: string, latest: Name, family: Family): Outcome {
    var s := SetCurrent(t, root, c, latest, family);
    if s.result.Err? then Outcome(Err(ActivationFailed(s.result.error)), s.tree)
    else Outcome(Ok(Upgraded(c, current, latest)), s.tree)
  }

  /**
   * Switching from a marker this program left to an installed latest
   * version succeeds, touches nothing but the marker, and leaves the latest
   * version current.
   */
  lemma SwitchSettles(t: Tree, root: Path, c: Name, current: string, latest: Name, family: Family)
    requires Wf(t) && Tidy(t, root, c) && latest != "current" && StoredAt(t, root, c, latest)
    requires family.Windows? ==> IsTrimmed(latest)
    ensures var o := SwitchSpec(t, root, c, current, latest, family);
      && o.result == Ok(Upgraded(c, current, latest))
      && Kept(t, o.tree, CandidateCurrent(root, c))
      && Settled(o.tree, root, c, latest, family)
      && GetCurrentVersion(o.tree, root, c, family) == Some(latest)
  {
    SetSettles(t, root, c, latest, family);
    SettledReads(SetCurrent(t, root, c, latest, family).tree, root, c, latest, family);
  }

  /**
   * Every scratch directory `upgrade_all` may use is clear: apart from the
   * version directory it fills, with no link where it unpacks.
   */
  ghost predicate Separate(t: Tree, temp: Path, root: Path) {
    forall c, v :: ScratchClear(t, temp, root, InstallPrefix, c, v)
  }

  /** Setting any marker of the store keeps every scratch directory clear. */
  lemma SetKeepsSeparate(t: Tree, temp: Path, root: Path, c: Name, v: Name, family: Family)
    requires Separate(t, temp, root)
    ensures Separate(SetCurrent(t, root, c, v, family).tree, temp, root)
  {
    forall x, y
      ensures ScratchClear(SetCurrent(t, root, c, v, family).tree, temp, root, InstallPrefix, x, y)
    {
      SetKeepsClear(t, temp, root, InstallPrefix, x, y, c, v, family);
    }
  }

  function UpgradeFailed(e: string): string {
    "Upgrade failed: " + e
  }

  /**
   * What the install of `latest` and the switch to it leave, `mid` being
   * the file system between the two when the install succeeded.
   */
  ghost predicate Fetched(t: Tree, mid: Option<Tree>, u: Tree, h: Host, root: Path, c: Name, current: string,
                          platform: string, latest: Name, r: Result<string, string>)
  {
    var s := InstallStage(t, h.http, h.temp, c, latest, platform, h.family, h.untar, h.unzip);
    var scratch, n := Scratch(h.temp, InstallPrefix, c, latest), CandidateDir(root, c, latest);
    && (s.result.Err? ==> r == Err(UpgradeFailed(s.result.error)) && u == s.tree && mid.None?)
    && (mid.None? ==> r.Err? && UpgradeFailed("") <= r.error && Spared(t, u, scratch, n) && NoNewLinks(t, u))
    && (mid.Some? ==>
          && s.result.Ok? && IsRealDir(mid.value, n)
          && Installed(s.tree, mid.value, Payload(s.tree, ExtractDir(scratch)), n, scratch)
          && Spared(t, mid.value, scratch, n)
          && Outcome(r, u) == SwitchSpec(mid.value, root, c, current, latest, h.family))
    && (&& h.family.Unix? && latest != "current" && current != latest
        && CandidateDir(root, c, current) != scratch && Settled(t, root, c, current, Unix)
        ==>
          && (r.Ok? ==> GetCurrentVersion(u, root, c, Unix) == Some(latest))
          && (r.Err? ==> Settled(u, root, c, current, Unix)))
  }

  /** `upgrade_candidate` from `t` to `u` with result `r`, plan by plan. */
  ghost predicate Upgrades(t: Tree, mid: Option<Tree>, u: Tree, h: Host, root: Path, c: Name, r: Result<string, string>) {
    var p := UpgradePlan(t, h, root, c);
    && (p.Refuse? ==> r == Err(p.error) && u == t)
    && (p.UpToDate? ==> r == Ok(AtLatest(c, p.current)) && u == t)
    && (p.Switch? ==> Outcome(r, u) == SwitchSpec(t, root, c, p.current, p.latest, h.family))
    && (&& p.Switch? && h.family.Unix? && p.latest != "current"
        && StoredAt(t, root, c, p.latest) && Settled(t, root, c, p.current, Unix)
        ==> r.Ok? && GetCurrentVersion(u, root, c, Unix) == Some(p.latest))
    && (p.Fetch? ==> Fetched(t, mid, u, h, root, c, p.current, p.platform, p.latest, r))
  }

  /** The scratch directory an upgrade of `c` would fetch into is clear. */
  ghost predicate FetchClear(t: Tree, h: Host, root: Path, c: Name) {
    var p := UpgradePlan(t, h, root, c);
    p.Fetch? ==> ScratchClear(t, h.temp, root, InstallPrefix, c, p.latest)
  }

  /**
   * `upgrade_candidate`: refuses without a current version, then compares
   * the current version with the API's default, and switches to it,
   * installing it first when it is not in the store.
   */
  method UpgradeCandidate(fs: FileSystem, h: Host, root: Path, c: Name)
    returns (r: Result<string, string>, ghost mid: Option<Tree>)
    requires Wf(fs.tree) && FetchClear(fs.tree, h, root, c)
    modifies fs
    ensures Wf(fs.tree)
    ensures Separate(old(fs.tree), h.temp, root) ==> Separate(fs.tree, h.temp, root)
    ensures Upgrades(old(fs.tree), mid, fs.tree, h, root, c, r)
  {
    mid := None;
    var plan := UpgradePlan(fs.tree, h, root, c);
    match plan
    case Refuse(e) =>
      r := Err(e);
    case UpToDate(current) =>
      r := Ok(AtLatest(c, current));
    case Switch(current, latest) =>
      r := SwitchTo(fs, h, root, c, current, latest);
    case Fetch(current, platform, latest) =>
      r, mid := FetchAndSwitch(fs, h, root, c, current, platform, latest);
  }

  /** The switch to an installed latest version, as `SwitchSpec` gives it. */
  method SwitchTo(fs: FileSystem, h: Host, root: Path, c: Name, current: string, latest: Name)
    returns (r: Result<string, string>)
    requires Wf(fs.tree)
    modifies fs
    ensures Wf(fs.tree)
    ensures Separate(old(fs.tree), h.temp, root) ==> Separate(fs.tree, h.temp, root)
    ensures Outcome(r, fs.tree) == SwitchSpec(old(fs.tree), root, c, current, latest, h.family)
    ensures && h.family.Unix? && latest != "current"
            && StoredAt(old(fs.tree), root, c, latest) && Settled(old(fs.tree), root, c, current, Unix)
            ==> r.Ok? && GetCurrentVersion(fs.tree, root, c, Unix) == Some(latest)
  {
    ghost var t := fs.tree;
    if Separate(t, h.temp, root) {
      SetKeepsSeparate(t, h.temp, root, c, latest, h.family);
    }
    if IsInstalled(t, root, c, latest) {
      SetCurrentOutcome(t, root, c, latest, h.family);
    } else {
      PlaceMarkerWf(t, CandidateDir(root, c, latest), CandidateCurrent(root, c), latest, h.family);
    }
    if h.family.Unix? && latest != "current" && StoredAt(t, root, c, latest) && Settled(t, root, c, current, Unix) {
      SettledReads(t, root, c, current, Unix);
      TidyReplaceable(t, root, c);
      SetThenGet(t, root, c, latest, Unix);
    }
    var activated := SetCurrentVersion(fs, root, c, latest, h.family);
    if activated.Err? {
      return Err(ActivationFailed(activated.error));
    }
    return Ok(Upgraded(c, current, latest));
  }

  /** A step that creates no links keeps every scratch directory clear. */
  lemma SeparateWithoutNewLinks(t: Tree, u: Tree, temp: Path, root: Path)
    requires Separate(t, temp, root) && NoNewLinks(t, u)
    ensures Separate(u, temp, root)
  {
    forall x, y
      ensures ScratchClear(u, temp, root, InstallPrefix, x, y)
    {
      ClearWithoutNewLinks(t, u, temp, root, InstallPrefix, x, y);
    }
  }

  /** A failed install of the latest version ends the upgrade with its error. */
  lemma FetchFailed(t: Tree, u: Tree, h: Host, root: Path, c: Name, current: string, platform: string, latest: Name,
                    e: string)
    requires ScratchClear(t, h.temp, root, InstallPrefix, c, latest)
    requires var s := InstallStage(t, h.http, h.temp, c, latest, platform, h.family, h.untar, h.unzip);
      s.result.Err? ==> Change(Err(e), u) == s
    requires Spared(t, u, Scratch(h.temp, InstallPrefix, c, latest), CandidateDir(root, c, latest))
    requires NoNewLinks(t, u)
    ensures Fetched(t, None, u, h, root, c, current, platform, latest, Err(UpgradeFailed(e)))
  {
    if && h.family.Unix? && latest != "current" && current != latest
       && CandidateDir(root, c, current) != Scratch(h.temp, InstallPrefix, c, latest)
       && Settled(t, root, c, current, Unix)
    {
      InstallKeepsSettled(t, u, h.temp, root, InstallPrefix, c, current, latest);
    }
  }

  /** An installed latest version followed by the switch to it ends the upgrade with the switch's result. */
  lemma FetchSwitched(t: Tree, u: Tree, w: Tree, h: Host, root: Path, c: Name, current: string, platform: string,
                      latest: Name, r: Result<string, string>)
    requires ScratchClear(t, h.temp, root, InstallPrefix, c, latest)
    requires var s := InstallStage(t, h.http, h.temp, c, latest, platform, h.family, h.untar, h.unzip);
      var scratch := Scratch(h.temp, InstallPrefix, c, latest);
      && s.result.Ok? && IsRealDir(u, CandidateDir(root, c, latest))
      && Installed(s.tree, u, Payload(s.tree, ExtractDir(scratch)), CandidateDir(root, c, latest), scratch)
      && Spared(t, u, scratch, CandidateDir(root, c, latest))
    requires Outcome(r, w) == SwitchSpec(u, root, c, current, latest, h.family)
    requires && h.family.Unix? && latest != "current"
             && StoredAt(u, root, c, latest) && Settled(u, root, c, current, Unix)
             ==> r.Ok? && GetCurrentVersion(w, root, c, Unix) == Some(latest)
    ensures Fetched(t, Some(u), w, h, root, c, current, platform, latest, r)
  {
    if && h.family.Unix? && latest != "current" && current != latest
       && CandidateDir(root, c, current) != Scratch(h.temp, InstallPrefix, c, latest)
       && Settled(t, root, c, current, Unix)
    {
      InstallKeepsSettled(t, u, h.temp, root, InstallPrefix, c, current, latest);
    }
  }

  /** The install of the latest version followed by the switch to it. */
  method FetchAndSwitch(fs: FileSystem, h: Host, root: Path, c: Name, current: string, platform: string, latest: Name)
    returns (r: Result<string, string>, ghost mid: Option<Tree>)
    requires Wf(fs.tree) && ScratchClear(fs.tree, h.temp, root, InstallPrefix, c, latest)
    modifies fs
    ensures Wf(fs.tree)
    ensures Separate(old(fs.tree), h.temp, root) ==> Separate(fs.tree, h.temp, root)
    ensures Fetched(old(fs.tree), mid, fs.tree, h, root, c, current, platform, latest, r)
  {
    ghost var t := fs.tree;
    mid := None;
    var installed := InstallCandidate(fs, h.http, h.temp, root, c, latest, platform, h.family, h.sameDevice,
                                      h.untar, h.unzip);
    ghost var u := fs.tree;
    if Separate(t, h.temp, root) {
      SeparateWithoutNewLinks(t, u, h.temp, root);
    }
    if installed.Err? {
      FetchFailed(t, u, h, root, c, current, platform, latest, installed.error);
      return Err(UpgradeFailed(installed.error)), mid;
    }
    mid := Some(u);
    r := SwitchTo(fs, h, root, c, current, latest);
    FetchSwitched(t, u, fs.tree, h, root, c, current, platform, latest, r);
  }

  /** One line of `upgrade_all`: the upgrade's message, or its error after the candidate's name. */
  function Line(c: Name, r: Result<string, string>): string {
    match r
    case Ok(m) => m
    case Err(e) => c + ": " + e
  }

  const NothingInstalled: string := "No candidates installed"

  datatype Report = Notice(text: string) | Lines(items: seq<string>)

  /** The lines of `upgrade_all` for the entries `names`, visited with results `visits`, in order. */
  function ReportLines(names: seq<Name>, visits: seq<Option<Result<string, string>>>): (lines: seq<string>)
    requires |names| == |visits|
    ensures |lines| <= |names|
    decreases |names|
  {
    if names == [] then []
    else
      var k := |names| - 1;
      ReportLines(names[..k], visits[..k]) + (if visits[k].Some? then [Line(names[k], visits[k].value)] else [])
  }

  /** An entry `upgrade_all` upgrades: a directory with a current version. */
  predicate Eligible(t: Tree, h: Host, root: Path, c: Name) {
    IsDir(t, CandidateHome(root, c)) && GetCurrentVersion(t, root, c, h.family).Some?
  }

  /** One turn of `upgrade_all` from `t` to `u`: an eligible entry is upgraded, any other passed over. */
  ghost predicate Visited(t: Tree, mid: Option<Tree>, u: Tree, h: Host, root: Path, c: Name,
                          r: Option<Result<string, string>>)
  {
    && (r.Some? <==> Eligible(t, h, root, c))
    && (r.None? ==> u == t)
    && (r.Some? ==> Upgrades(t, mid, u, h, root, c, r.value))
  }

  /**
   * `upgrade_all`: visits, one after the other, every entry of the
   * candidates directory in the order `names` the directory lists them;
   * `trees[i]` is the file system when entry `i` has its turn. Each
   * eligible entry is upgraded there and reports one line, a failing
   * upgrade its error, and the loop goes on.
   */
  method UpgradeAll(fs: FileSystem, h: Host, root: Path)
    returns (report: Report, ghost names: seq<Name>, ghost trees: seq<Tree>, ghost mids: seq<Option<Tree>>,
             ghost visits: seq<Option<Result<string, string>>>)
    requires Wf(fs.tree) && Separate(fs.tree, h.temp, root)
    modifies fs
    ensures Wf(fs.tree) && Separate(fs.tree, h.temp, root)
    ensures !Exists(old(fs.tree), CandidatesDir(root)) ==> report == Notice(NothingInstalled)
    ensures |trees| == |names| + 1 && |mids| == |names| && |visits| == |names|
    ensures Exists(old(fs.tree), CandidatesDir(root)) ==> report == Lines(ReportLines(names, visits))
    ensures ListDir(old(fs.tree), CandidatesDir(root)).Ok? ==> Lists(names, ListDir(old(fs.tree), CandidatesDir(root)).value)
    ensures ListDir(old(fs.tree), CandidatesDir(root)).Err? ==> names == []
    ensures trees[0] == old(fs.tree) && trees[|names|] == fs.tree
    ensures forall i :: 0 <= i < |names| ==> Visited(trees[i], mids[i], trees[i + 1], h, root, names[i], visits[i])
  {
    names, trees, mids, visits := [], [fs.tree], [], [];
    var base := CandidatesDir(root);
    if !Exists(fs.tree, base) {
      return Notice(NothingInstalled), names, trees, mids, visits;
    }
    var entries := fs.ReadDir(base);
    if entries.Err? {
      return Lines([]), names, trees, mids, visits;
    }
    var lines;
    names := entries.value;
    lines, trees, mids, visits := VisitAll(fs, h, root, entries.value);
    report := Lines(lines);
  }

  /** One more turn extends the record of the turns taken. */
  lemma VisitedSnoc(trees: seq<Tree>, mids: seq<Option<Tree>>, h: Host, root: Path, names: seq<Name>,
                    visits: seq<Option<Result<string, string>>>, u: Tree, mid: Option<Tree>, r: Option<Result<string, string>>)
    requires |trees| == |visits| + 1 && |mids| == |visits| && |visits| < |names|
    requires forall j :: 0 <= j < |visits| ==> Visited(trees[j], mids[j], trees[j + 1], h, root, names[j], visits[j])
    requires Visited(trees[|visits|], mid, u, h, root, names[|visits|], r)
    ensures forall j :: 0 <= j < |visits| + 1 ==>
      Visited((trees + [u])[j], (mids + [mid])[j], (trees + [u])[j + 1], h, root, names[j], (visits + [r])[j])
  {
    forall j | 0 <= j < |visits| + 1
      ensures Visited((trees + [u])[j], (mids + [mid])[j], (trees + [u])[j + 1], h, root, names[j], (visits + [r])[j])
    {
      if j < |visits| {
        assert (trees + [u])[j] == trees[j] && (trees + [u])[j + 1] == trees[j + 1];
        assert (mids + [mid])[j] == mids[j] && (visits + [r])[j] == visits[j];
      }
    }
  }

  /** The loop of `upgrade_all` over the entries `names`, in that order. */
  method VisitAll(fs: FileSystem, h: Host, root: Path, names: seq<Name>)
    returns (lines: seq<string>, ghost trees: seq<Tree>, ghost mids: seq<Option<Tree>>,
             ghost visits: seq<Option<Result<string, string>>>)
    requires Wf(fs.tree) && Separate(fs.tree, h.temp, root)
    modifies fs
    ensures Wf(fs.tree) && Separate(fs.tree, h.temp, root)
    ensures |trees| == |names| + 1 && |mids| == |names| && |visits| == |names|
    ensures trees[0] == old(fs.tree) && trees[|names|] == fs.tree
    ensures forall i :: 0 <= i < |names| ==> Visited(trees[i], mids[i], trees[i + 1], h, root, names[i], visits[i])
    ensures lines == ReportLines(names, visits)
  {
    lines, trees, mids, visits := [], [fs.tree], [], [];
    for i := 0 to |names|
      invariant Wf(fs.tree) && Separate(fs.tree, h.temp, root)
      invariant |trees| == i + 1 && |mids| == i && |visits| == i
      invariant trees[0] == old(fs.tree) && trees[i] == fs.tree
      invariant forall j :: 0 <= j < i ==> Visited(trees[j], mids[j], trees[j + 1], h, root, names[j], visits[j])
      invariant lines == ReportLines(names[..i], visits)
    {
      var r, mid := VisitCandidate(fs, h, root, names[i]);
      if r.Some? {
        lines := lines + [Line(names[i], r.value)];
      }
      assert names[..i + 1][..i] == names[..i] && (visits + [r])[..i] == visits;
      VisitedSnoc(trees, mids, h, root, names, visits, fs.tree, mid, r);
      trees, mids, visits := trees + [fs.tree], mids + [mid], visits + [r];
    }
    assert names[..|names|] == names;
  }

  /**
   * One turn of `upgrade_all`: an entry that is a directory and has a
   * current version is upgraded; any other entry is passed over untouched.
   */
  method VisitCandidate(fs: FileSystem, h: Host, root: Path, c: Name)
    returns (r: Option<Result<string, string>>, ghost mid: Option<Tree>)
    requires Wf(fs.tree) && (Eligible(fs.tree, h, root, c) ==> FetchClear(fs.tree, h, root, c))
    modifies fs
    ensures Wf(fs.tree)
    ensures Separate(old(fs.tree), h.temp, root) ==> Separate(fs.tree, h.temp, root)
    ensures Visited(old(fs.tree), mid, fs.tree, h, root, c, r)
  {
    mid := None;
    if IsDir(fs.tree, CandidatesDir(root) + [c]) && GetCurrentVersion(fs.tree, root, c, h.family).Some? {
      var u;
      u, mid := UpgradeCandidate(fs, h, root, c);
      return Some(u), mid;
    }
    return None, mid;
  }
}
