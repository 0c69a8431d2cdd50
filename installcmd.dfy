/**
 * `sdk install` and `sdk upgrade`: the commands that put a new version into
 * the store and then make it current. The version is resolved against the
 * API, installed through the pipeline of `Install`, and activated with
 * `set_current_version`.
 */
module InstallCommand {
  import opened Wrappers
  import opened Text
  import opened Fs
  import opened Store
  import opened Archive
  import opened Install
  import Api

  /**
   * What the process sees of its host: the API, the operating system and
   * architecture the binary was built for, the temporary directory, whether
   * it shares a device with the store, and the two archive readers.
   */
  datatype Host = Host(http: Api.Http, os: string, arch: string, temp: Path, family: Family,
                       sameDevice: bool, untar: TarReader, unzip: ZipReader)

  /**
   * What the install pipeline needs of the scratch directory of `c` at
   * version `v`: it lies apart from the version directory it fills, and
   * holds no link where the archive is unpacked (a scratch directory left
   * by an earlier attempt is reused as it is).
   */
  ghost predicate ScratchClear(t: Tree, temp: Path, root: Path, prefix: string, c: Name, v: Name) {
    && Disjoint(Scratch(temp, prefix, c, v), CandidateDir(root, c, v))
    && LinkFree(t, ExtractDir(Scratch(temp, prefix, c, v)))
  }

  /** The scratch prefix of `install_local` with `--local`, else of `install_candidate`. */
  function ScratchPrefix(local: Option<Path>): string {
    if local.Some? then LocalPrefix else InstallPrefix
  }

  /** The message prefix of a failed install, local or not. */
  function InstallFailed(local: Option<Path>): string {
    if local.Some? then "Local install failed: " else "Install failed: "
  }

  /** The stage before the move: `install_local` with `--local`, else `install_candidate`. */
  function Stage(t: Tree, h: Host, c: Name, v: Name, platform: string, local: Option<Path>): Change {
    if local.Some? then LocalStage(t, h.temp, c, v, local.value, h.untar, h.unzip)
    else InstallStage(t, h.http, h.temp, c, v, platform, h.family, h.untar, h.unzip)
  }

  function AlreadyInstalled(c: Name, v: Name): string {
    c + " " + v + " is already installed"
  }

  function InstalledMessage(c: Name, v: Name): string {
    c + " " + v + " installed successfully"
  }

  function DefaultFailed(e: string): string {
    "Failed to get default version: " + e
  }

  function ActivationFailed(e: string): string {
    "Failed to set current version: " + e
  }

  /**
   * The guards of `sdk install`, in order: the candidate is known, the
   * platform is supported, the version is given or the API's default, and
   * it is not installed yet. The result is the version to install.
   */
  function InstallTarget(t: Tree, h: Host, root: Path, c: Name, version: Option<Name>): (r: Result<Name, string>)
    ensures Api.ValidateCandidate(h.http, c).Err? ==> r == Err(Api.ValidateCandidate(h.http, c).error)
    ensures r.Ok? ==>
      && Api.ValidateCandidate(h.http, c).Ok?
      && DetectPlatform(h.os, h.arch).Ok?
      && !IsInstalled(t, root, c, r.value)
      && (version.Some? ==> r.value == version.value)
      && (version.None? ==> Api.GetDefaultVersion(h.http, c, DetectPlatform(h.os, h.arch).value) == Ok(r.value))
    ensures Api.ValidateCandidate(h.http, c).Ok? && DetectPlatform(h.os, h.arch).Err? ==>
      r == Err(DetectPlatform(h.os, h.arch).error)
    ensures && Api.ValidateCandidate(h.http, c).Ok? && DetectPlatform(h.os, h.arch).Ok?
            && version.Some?
            ==> r == if IsInstalled(t, root, c, version.value) then Err(AlreadyInstalled(c, version.value))
                     else Ok(version.value)
    ensures && Api.ValidateCandidate(h.http, c).Ok? && DetectPlatform(h.os, h.arch).Ok? && version.None?
            ==>
              var d := Api.GetDefaultVersion(h.http, c, DetectPlatform(h.os, h.arch).value);
              && (d.Err? ==> r == Err(DefaultFailed(d.error)))
              && (d.Ok? ==> r == if IsInstalled(t, root, c, d.value) then Err(AlreadyInstalled(c, d.value)) else Ok(d.value))
  {
    match Api.ValidateCandidate(h.http, c)
    case Err(e) => Err(e)
    case Ok(_) =>
      match DetectPlatform(h.os, h.arch)
      case Err(e) => Err(e)
      case Ok(platform) =>
        var target := match version
          case Some(v) => Ok(v)
          case None =>
            match Api.GetDefaultVersion(h.http, c, platform)
            case Err(e) => Err(DefaultFailed(e))
            case Ok(v) => Ok(v);
        if target.Err? then target
        else if IsInstalled(t, root, c, target.value) then Err(AlreadyInstalled(c, target.value))
        else target
  }

  /**
   * A clear scratch directory holds neither the marker of `c` nor any
   * version directory of `c` other than the scratch directory itself.
   */
  lemma StoreOutsideScratch(temp: Path, root: Path, prefix: string, c: Name, v: Name, w: Name)
    requires prefix == InstallPrefix || prefix == LocalPrefix
    requires Disjoint(Scratch(temp, prefix, c, v), CandidateDir(root, c, v))
    ensures !Under(CandidateCurrent(root, c), Scratch(temp, prefix, c, v))
    ensures CandidateDir(root, c, w) != Scratch(temp, prefix, c, v) ==>
            !Under(CandidateDir(root, c, w), Scratch(temp, prefix, c, v))
  {
    var s, n := Scratch(temp, prefix, c, v), CandidateDir(root, c, v);
    var m, d := CandidateCurrent(root, c), CandidateDir(root, c, w);
    assert !Under(n, s);
    if |s| <= |root| + 2 {
      assert m[..|s|] == n[..|s|] && d[..|s|] == n[..|s|];
    } else if |s| == |m| {
      assert s[|s| - 1][0] == 's';
      assert m[|m| - 1] == "current";
      assert m[..|s|] == m && d[..|s|] == d;
    }
  }

  /**
   * Nothing an install of `v` keeps intact is the Unix marker of `c` or the
   * directory it links to, so a marker settled on another version survives
   * the install, whether it fails or not, unless that version's directory is
   * the scratch directory itself.
   */
  lemma InstallKeepsSettled(t: Tree, u: Tree, temp: Path, root: Path, prefix: string, c: Name, current: string, v: Name)
    requires prefix == InstallPrefix || prefix == LocalPrefix
    requires Disjoint(Scratch(temp, prefix, c, v), CandidateDir(root, c, v))
    requires current != v && v != "current"
    requires CandidateDir(root, c, current) != Scratch(temp, prefix, c, v)
    requires Spared(t, u, Scratch(temp, prefix, c, v), CandidateDir(root, c, v))
    requires Settled(t, root, c, current, Unix)
    ensures Settled(u, root, c, current, Unix)
  {
    StoreOutsideScratch(temp, root, prefix, c, v, current);
    LayoutShape(root, c, v);
    LayoutInjective(root, c, current, c, v);
    SameDepthDisjoint(CandidateDir(root, c, current), CandidateDir(root, c, v));
  }

  /** No marker of the store lies where a clear scratch directory unpacks its archive. */
  lemma MarkerOutsideExtract(temp: Path, root: Path, prefix: string, c: Name, v: Name, x: Name)
    requires Disjoint(Scratch(temp, prefix, c, v), CandidateDir(root, c, v))
    ensures !Under(CandidateCurrent(root, x), ExtractDir(Scratch(temp, prefix, c, v)))
  {
    var s, n := Scratch(temp, prefix, c, v), CandidateDir(root, c, v);
    var e, m := ExtractDir(s), CandidateCurrent(root, x);
    assert !Under(n, s);
    if |e| <= |m| {
      assert e[..|s|] == s;
      assert m[..|e|][..|s|] == m[..|s|];
      if |s| <= |root| + 1 {
        assert m[..|s|] == n[..|s|];
      } else {
        assert m[|s|] == "current" && e[|s|] == "source";
        assert m[..|e|][|s|] == m[|s|];
      }
    }
  }

  /** A step that adds no link keeps a scratch directory clear. */
  lemma ClearWithoutNewLinks(t: Tree, u: Tree, temp: Path, root: Path, prefix: string, c: Name, v: Name)
    requires ScratchClear(t, temp, root, prefix, c, v) && NoNewLinks(t, u)
    ensures ScratchClear(u, temp, root, prefix, c, v)
  {
  }

  /** `set_current_version` on any candidate keeps every clear scratch directory clear. */
  lemma SetKeepsClear(t: Tree, temp: Path, root: Path, prefix: string, c: Name, v: Name, x: Name, y: Name, family: Family)
    requires ScratchClear(t, temp, root, prefix, c, v)
    ensures ScratchClear(SetCurrent(t, root, x, y, family).tree, temp, root, prefix, c, v)
  {
    SetCurrentLinks(t, root, x, y, family);
    MarkerOutsideExtract(temp, root, prefix, c, v, x);
  }

  /**
   * A successful `set_current_version` on a version installed as a real
   * directory reads back as that version, whatever the marker was before.
   */
  lemma ActivatedReads(t: Tree, root: Path, c: Name, v: Name, family: Family)
    requires Wf(t) && IsRealDir(t, CandidateDir(root, c, v)) && v != "current"
    requires family.Windows? ==> IsTrimmed(v)
    ensures SetCurrent(t, root, c, v, family).result.Ok? ==>
            GetCurrentVersion(SetCurrent(t, root, c, v, family).tree, root, c, family) == Some(v)
  {
    SetCurrentOutcome(t, root, c, v, family);
    if Replaceable(t, CandidateCurrent(root, c)) {
      SetThenGet(t, root, c, v, family);
    }
  }

  /** `install_local` with `--local`, else `install_candidate`, with the contract the two share. */
  method InstallVersion(fs: FileSystem, h: Host, root: Path, c: Name, v: Name, platform: string, local: Option<Path>)
    returns (r: Result<(), string>)
    requires Wf(fs.tree) && ScratchClear(fs.tree, h.temp, root, ScratchPrefix(local), c, v)
    modifies fs
    ensures Wf(fs.tree) && NoNewLinks(old(fs.tree), fs.tree)
    ensures var s := Stage(old(fs.tree), h, c, v, platform, local);
      s.result.Err? ==> Change(r, fs.tree) == s
    ensures var s := Stage(old(fs.tree), h, c, v, platform, local);
      var scratch := Scratch(h.temp, ScratchPrefix(local), c, v);
      r.Ok? ==> (s.result.Ok? && IsRealDir(fs.tree, CandidateDir(root, c, v))
                 && Installed(s.tree, fs.tree, Payload(s.tree, ExtractDir(scratch)), CandidateDir(root, c, v), scratch))
    ensures Spared(old(fs.tree), fs.tree, Scratch(h.temp, ScratchPrefix(local), c, v), CandidateDir(root, c, v))
  {
    if local.Some? {
      r := InstallLocal(fs, h.temp, root, c, v, local.value, h.sameDevice, h.untar, h.unzip);
    } else {
      r := InstallCandidate(fs, h.http, h.temp, root, c, v, platform, h.family, h.sameDevice, h.untar, h.unzip);
    }
  }

  /**
   * The install of version `v` and its activation with
   * `set_current_version`; `mid` is the file system between the two when
   * the install succeeded.
   */
  method InstallAndActivate(fs: FileSystem, h: Host, root: Path, c: Name, v: Name, platform: string, local: Option<Path>)
    returns (r: Result<string, string>, ghost mid: Option<Tree>)
    requires Wf(fs.tree) && ScratchClear(fs.tree, h.temp, root, ScratchPrefix(local), c, v)
    modifies fs
    ensures Wf(fs.tree)
    ensures var s := Stage(old(fs.tree), h, c, v, platform, local);
      var scratch := Scratch(h.temp, ScratchPrefix(local), c, v);
      && (s.result.Err? ==> r == Err(InstallFailed(local) + s.result.error) && fs.tree == s.tree && mid.None?)
      && (mid.None? ==>
            && r.Err? && InstallFailed(local) <= r.error
            && Spared(old(fs.tree), fs.tree, scratch, CandidateDir(root, c, v)) && NoNewLinks(old(fs.tree), fs.tree))
      && (mid.Some? ==>
            && s.result.Ok? && IsRealDir(mid.value, CandidateDir(root, c, v))
            && Installed(s.tree, mid.value, Payload(s.tree, ExtractDir(scratch)), CandidateDir(root, c, v), scratch)
            && Spared(old(fs.tree), mid.value, scratch, CandidateDir(root, c, v))
            && var a := SetCurrent(mid.value, root, c, v, h.family);
            && fs.tree == a.tree
            && r == (if a.result.Ok? then Ok(InstalledMessage(c, v)) else Err(ActivationFailed(a.result.error))))
    ensures forall cur :: && mid.None? && h.family.Unix? && v != "current" && cur != v
                          && CandidateDir(root, c, cur) != Scratch(h.temp, ScratchPrefix(local), c, v)
                          && Settled(old(fs.tree), root, c, cur, Unix)
                          ==> Settled(fs.tree, root, c, cur, Unix)
    ensures r.Ok? ==>
      && r.value == InstalledMessage(c, v)
      && (v != "current" ==> IsRealDir(fs.tree, CandidateDir(root, c, v)))
      && (v != "current" && (h.family.Windows? ==> IsTrimmed(v)) ==> GetCurrentVersion(fs.tree, root, c, h.family) == Some(v))
  {
    ghost var t := fs.tree;
    mid := None;
    var installed := InstallVersion(fs, h, root, c, v, platform, local);
    if installed.Err? {
      forall cur | && h.family.Unix? && v != "current" && cur != v
                   && CandidateDir(root, c, cur) != Scratch(h.temp, ScratchPrefix(local), c, v)
                   && Settled(t, root, c, cur, Unix)
        ensures Settled(fs.tree, root, c, cur, Unix)
      {
        InstallKeepsSettled(t, fs.tree, h.temp, root, ScratchPrefix(local), c, cur, v);
      }
      return Err(InstallFailed(local) + installed.error), mid;
    }
    ghost var u := fs.tree;
    mid := Some(u);
    SetCurrentOutcome(u, root, c, v, h.family);
    var activated := SetCurrentVersion(fs, root, c, v, h.family);
    if activated.Err? {
      return Err(ActivationFailed(activated.error)), mid;
    }
    if v != "current" {
      LayoutShape(root, c, v);
      assert !Under(CandidateDir(root, c, v), CandidateCurrent(root, c));
      if h.family.Windows? ==> IsTrimmed(v) {
        ActivatedReads(u, root, c, v, h.family);
      }
    }
    return Ok(InstalledMessage(c, v)), mid;
  }

  /**
   * `sdk install c [v] [--local path]`: resolves and guards the version,
   * then installs it from the API or from the local archive and makes it
   * current, as `InstallAndActivate` states.
   */
  method InstallCmd(fs: FileSystem, h: Host, root: Path, c: Name, version: Option<Name>, local: Option<Path>)
    returns (r: Result<string, string>, ghost mid: Option<Tree>)
    requires Wf(fs.tree)
    requires InstallTarget(fs.tree, h, root, c, version).Ok? ==>
      ScratchClear(fs.tree, h.temp, root, ScratchPrefix(local), c, InstallTarget(fs.tree, h, root, c, version).value)
    modifies fs
    ensures Wf(fs.tree)
    ensures InstallTarget(old(fs.tree), h, root, c, version).Err? ==>
      r == Err(InstallTarget(old(fs.tree), h, root, c, version).error) && fs.tree == old(fs.tree) && mid.None?
    ensures InstallTarget(old(fs.tree), h, root, c, version).Ok? ==>
      var v := InstallTarget(old(fs.tree), h, root, c, version).value;
      var s := Stage(old(fs.tree), h, c, v, DetectPlatform(h.os, h.arch).value, local);
      var scratch := Scratch(h.temp, ScratchPrefix(local), c, v);
      && (s.result.Err? ==> r == Err(InstallFailed(local) + s.result.error) && fs.tree == s.tree && mid.None?)
      && (mid.None? ==>
            && r.Err? && InstallFailed(local) <= r.error
            && Spared(old(fs.tree), fs.tree, scratch, CandidateDir(root, c, v)) && NoNewLinks(old(fs.tree), fs.tree))
      && (mid.Some? ==>
            && s.result.Ok? && IsRealDir(mid.value, CandidateDir(root, c, v))
            && Installed(s.tree, mid.value, Payload(s.tree, ExtractDir(scratch)), CandidateDir(root, c, v), scratch)
            && Spared(old(fs.tree), mid.value, scratch, CandidateDir(root, c, v))
            && var a := SetCurrent(mid.value, root, c, v, h.family);
            && fs.tree == a.tree
            && r == (if a.result.Ok? then Ok(InstalledMessage(c, v)) else Err(ActivationFailed(a.result.error))))
    ensures InstallTarget(old(fs.tree), h, root, c, version).Ok? ==>
      var v := InstallTarget(old(fs.tree), h, root, c, version).value;
      forall cur :: && mid.None? && h.family.Unix? && v != "current" && cur != v
                    && CandidateDir(root, c, cur) != Scratch(h.temp, ScratchPrefix(local), c, v)
                    && Settled(old(fs.tree), root, c, cur, Unix)
                    ==> Settled(fs.tree, root, c, cur, Unix)
    ensures r.Ok? ==>
      var v := InstallTarget(old(fs.tree), h, root, c, version).value;
      && InstallTarget(old(fs.tree), h, root, c, version).Ok?
      && r.value == InstalledMessage(c, v)
      && (v != "current" ==> IsRealDir(fs.tree, CandidateDir(root, c, v)))
      && (v != "current" && (h.family.Windows? ==> IsTrimmed(v)) ==> GetCurrentVersion(fs.tree, root, c, h.family) == Some(v))
  {
    mid := None;
    var target := InstallTarget(fs.tree, h, root, c, version);
    if target.Err? {
      return Err(target.error), mid;
    }
    var platform := DetectPlatform(h.os, h.arch).value;
    r, mid := InstallAndActivate(fs, h, root, c, target.value, platform, local);
  }
}
