/**
 * The file system the store lives in, as a map from absolute paths to nodes,
 * and the `std::fs` operations the program performs on it, with their Linux
 * semantics: a symbolic link at the last component of a path is followed by
 * the operations that follow links (`exists`, `is_dir`, `read_dir`, `open`),
 * and not by those that do not (`remove_dir_all`, `remove_file`, `read_link`,
 * `rename`, `symlink_metadata`).
 */
module Fs {
  import opened Wrappers
  import opened Text

  /** One path component: never empty, never "." or "..", never holding '/'. */
  type Name = string
  /** An absolute path, as the sequence of its components; `[]` is "/". */
  type Path = seq<Name>

  datatype Node = Dir | File(content: string) | Link(target: Path)

  type Tree = map<Path, Node>

  /** The `std::io::ErrorKind`s the operations below report. */
  datatype IoError =
    | NotFound
    | AlreadyExists
    | NotADirectory
    | IsADirectory
    | DirectoryNotEmpty
    | InvalidInput
    | CrossesDevices
    | ResourceBusy
    | FilesystemLoop
    | NotARegularFile

  /** How an `io::Error` prints on Linux. */
  function Describe(e: IoError): string {
    match e
    case NotFound => "No such file or directory (os error 2)"
    case AlreadyExists => "File exists (os error 17)"
    case NotADirectory => "Not a directory (os error 20)"
    case IsADirectory => "Is a directory (os error 21)"
    case DirectoryNotEmpty => "Directory not empty (os error 39)"
    case InvalidInput => "Invalid argument (os error 22)"
    case CrossesDevices => "Invalid cross-device link (os error 18)"
    case ResourceBusy => "Device or resource busy (os error 16)"
    case FilesystemLoop => "Too many levels of symbolic links (os error 40)"
    case NotARegularFile => "the source path is neither a regular file nor a symlink to a regular file"
  }

  /** The outcome of an operation that changes the file system, and the file system after it. */
  datatype Step = Step(result: Result<(), IoError>, tree: Tree)

  /** Linux gives up a path lookup after following this many links (ELOOP). */
  const MaxHops: nat := 40

  /** `p` is `q` or lies inside `q`. */
  predicate Under(p: Path, q: Path) {
    |q| <= |p| && p[..|q|] == q
  }

  /** Neither path lies inside the other. */
  predicate Disjoint(p: Path, q: Path) {
    !Under(p, q) && !Under(q, p)
  }

  /** `Path::parent`, with "/" its own parent. */
  function Parent(p: Path): (r: Path)
    ensures p != [] ==> p == r + [p[|p| - 1]]
  {
    if p == [] then [] else p[..|p| - 1]
  }

  /** A well-formed tree: "/" is a directory and the parent of every other node is a directory. */
  ghost predicate Wf(t: Tree) {
    && [] in t && t[[]].Dir?
    && forall p, n :: p + [n] in t ==> p in t && t[p].Dir?
  }

  lemma WfParent(t: Tree, q: Path)
    requires Wf(t) && q in t && q != []
    ensures IsRealDir(t, Parent(q))
  {
    assert Parent(q) + [q[|q| - 1]] in t;
  }

  /** `p` holds a directory itself, not through a link. */
  predicate IsRealDir(t: Tree, p: Path) {
    p in t && t[p].Dir?
  }

  lemma UnderParent(p: Path, q: Path)
    requires p != [] && Under(Parent(p), q)
    ensures Under(p, q)
  {
    assert p[..|q|] == Parent(p)[..|q|];
  }

  lemma ParentNotUnder(p: Path, q: Path)
    requires p != [] && !Under(p, q) && |q| <= |Parent(p)|
    ensures !Under(Parent(p), q)
  {
    if Under(Parent(p), q) {
      UnderParent(p, q);
    }
  }

  /** `Under` is transitive. */
  lemma UnderTrans(a: Path, b: Path, c: Path)
    ensures Under(a, b) && Under(b, c) ==> Under(a, c)
  {
    if |c| <= |b| <= |a| {
      assert a[..|b|][..|c|] == a[..|c|];
    }
  }

  /** Two paths a third lies inside are nested. */
  lemma UnderTotal(x: Path, a: Path, b: Path)
    ensures Under(x, a) && Under(x, b) ==> Under(a, b) || Under(b, a)
  {
    if |a| <= |b| <= |x| {
      assert x[..|b|][..|a|] == x[..|a|];
    }
    if |b| <= |a| <= |x| {
      assert x[..|a|][..|b|] == x[..|b|];
    }
  }

  /** `k` lies inside `dst + [n]` exactly when it lies beyond `dst` through `n`. */
  lemma UnderChild(k: Path, dst: Path, n: Name)
    ensures Under(k, dst + [n]) <==> Under(k, dst) && |k| > |dst| && k[|dst|] == n
  {
    if |k| > |dst| {
      assert k[..|dst| + 1] == k[..|dst|] + [k[|dst|]];
      assert (dst + [n])[..|dst|] == dst;
    }
  }

  /** An ancestor of `dst + [n]` is that path itself or an ancestor of `dst`. */
  lemma AncestorOfChild(k: Path, dst: Path, n: Name)
    ensures Under(dst + [n], k) ==> k == dst + [n] || Under(dst, k)
  {
    if |k| <= |dst| {
      assert dst[..|k|] == (dst + [n])[..|k|];
    }
  }

  /** In a well-formed tree every ancestor of a node is a directory. */
  lemma {:induction false} AncestorIsDir(t: Tree, p: Path, k: nat)
    requires Wf(t) && p in t && k < |p|
    ensures IsRealDir(t, p[..k])
    decreases |p|
  {
    assert Parent(p) in t;
    if k < |p| - 1 {
      AncestorIsDir(t, Parent(p), k);
      assert Parent(p)[..k] == p[..k];
    } else {
      assert Parent(p) == p[..k];
    }
  }

  /** In a well-formed tree every prefix of a node is a node. */
  lemma AncestorIn(t: Tree, p: Path, q: Path)
    requires Wf(t) && p in t
    ensures Under(p, q) ==> q in t
  {
    if Under(p, q) && |q| < |p| {
      AncestorIsDir(t, p, |q|);
      assert p[..|q|] == q;
    } else if Under(p, q) {
      assert p[..|p|] == p;
    }
  }

  /** A node strictly inside `q` lies in the entry of `q` it belongs to, or is that entry. */
  lemma EntryOf(t: Tree, p: Path, q: Path)
    requires Wf(t) && p in t
    ensures Under(p, q) && |p| > |q| ==>
      && IsRealDir(t, q) && q + [p[|q|]] in t
      && (p == q + [p[|q|]] || t[q + [p[|q|]]].Dir?)
  {
    if Under(p, q) && |p| > |q| {
      assert p[..|q| + 1] == q + [p[|q|]];
      if |p| > |q| + 1 {
        AncestorIsDir(t, p, |q| + 1);
      } else {
        assert p == p[..|q| + 1];
      }
    }
  }

  /**
   * Follows the link chain that starts at `p` for at most `hops` links; the
   * result is the node the chain ends at, which is not a link.
   */
  function Follow(t: Tree, p: Path, hops: nat): (r: Result<Path, IoError>)
    ensures r.Ok? ==> r.value in t && !t[r.value].Link?
    ensures r.Ok? && p in t && !t[p].Link? ==> r.value == p
    ensures p !in t ==> r == Err(NotFound)
    decreases hops
  {
    if p !in t then Err(NotFound)
    else match t[p]
      case Link(q) => if hops == 0 then Err(FilesystemLoop) else Follow(t, q, hops - 1)
      case _ => Ok(p)
  }

  /** `stat`: the last component of `p` is followed, up to the link limit. */
  function Resolve(t: Tree, p: Path): Result<Path, IoError> {
    Follow(t, p, MaxHops)
  }

  /** `Path::exists`. */
  predicate Exists(t: Tree, p: Path) {
    Resolve(t, p).Ok?
  }

  /** `Path::is_dir`. */
  predicate IsDir(t: Tree, p: Path) {
    Resolve(t, p).Ok? && t[Resolve(t, p).value].Dir?
  }

  /** The names directly inside `p`. */
  function Entries(t: Tree, p: Path): (names: set<Name>)
    ensures forall n :: n in names <==> p + [n] in t
  {
    var names := set q | q in t && |q| == |p| + 1 && q[..|p|] == p :: q[|p|];
    assert forall n :: p + [n] in t ==> n in names by {
      forall n | p + [n] in t ensures n in names {
        var q := p + [n];
        assert q[..|p|] == p && q[|p|] == n;
      }
    }
    assert forall n :: n in names ==> p + [n] in t by {
      forall n | n in names ensures p + [n] in t {
        var q :| q in t && |q| == |p| + 1 && q[..|p|] == p && q[|p|] == n;
        assert q == p + [n];
      }
    }
    names
  }

  /** Every node at or inside `p`. */
  function Subtree(t: Tree, p: Path): set<Path> {
    set q | q in t && Under(q, p)
  }

  /** The tree without `p` and everything inside it. */
  function Prune(t: Tree, p: Path): (r: Tree)
    ensures forall q :: q in r <==> q in t && !Under(q, p)
    ensures forall q :: q in r ==> r[q] == t[q]
  {
    map q | q in t && !Under(q, p) :: t[q]
  }

  lemma PruneWf(t: Tree, p: Path)
    requires Wf(t) && p != []
    ensures Wf(Prune(t, p))
  {
    var r := Prune(t, p);
    forall q | q in r && q != []
      ensures Parent(q) in r && r[Parent(q)].Dir?
    {
      if Under(Parent(q), p) {
        UnderParent(q, p);
      }
    }
  }

  /** `read_dir`: the entry names of the directory `p` names, following a link at `p`. */
  function ListDir(t: Tree, p: Path): (r: Result<set<Name>, IoError>)
    ensures r.Ok? <==> IsDir(t, p)
    ensures IsRealDir(t, p) ==> r == Ok(Entries(t, p))
  {
    match Resolve(t, p)
    case Err(e) => Err(e)
    case Ok(q) => if t[q].Dir? then Ok(Entries(t, q)) else Err(NotADirectory)
  }

  /** `read_to_string` and `File::open` followed by a read. */
  function ReadFile(t: Tree, p: Path): (r: Result<string, IoError>)
    ensures r.Ok? <==> Exists(t, p) && t[Resolve(t, p).value].File?
    ensures p in t && t[p].File? ==> r == Ok(t[p].content)
  {
    match Resolve(t, p)
    case Err(e) => Err(e)
    case Ok(q) => if t[q].File? then Ok(t[q].content) else Err(IsADirectory)
  }

  /** `read_link`. */
  function ReadLink(t: Tree, p: Path): (r: Result<Path, IoError>)
    ensures r.Ok? <==> p in t && t[p].Link?
    ensures r.Ok? ==> t[p] == Link(r.value)
  {
    if p !in t then Err(NotFound)
    else if t[p].Link? then Ok(t[p].target)
    else Err(InvalidInput)
  }

  /**
   * `create_dir_all`: creates `p` and its missing ancestors; succeeds at
   * once when `p` is already a directory, possibly through a link. Each
   * level first tries `mkdir(p)`: a `p` that is there but not a directory
   * gives `EEXIST`, a parent that is a file gives `ENOTDIR` and a parent
   * link that loops gives `ELOOP`, all at once; only a missing parent makes
   * it create the parent first.
   */
  function CreateDirAllStep(t: Tree, p: Path): (s: Step)
    ensures s.result.Ok? ==> IsDir(s.tree, p)
    ensures Wf(t) && !IsDir(t, Parent(p)) && p in t ==> s.result.Err?
    ensures p in t && !IsDir(t, p) ==> s == Step(Err(AlreadyExists), t)
    ensures p !in t && p != [] && Exists(t, Parent(p)) && !IsDir(t, Parent(p)) ==> s == Step(Err(NotADirectory), t)
    ensures p !in t && p != [] && Resolve(t, Parent(p)) == Err(FilesystemLoop) ==> s == Step(Err(FilesystemLoop), t)
    ensures forall q :: q in t ==> q in s.tree && s.tree[q] == t[q]
    ensures forall q :: q in s.tree && q !in t ==> Under(p, q) && s.tree[q].Dir?
    ensures IsDir(t, p) ==> s == Step(Ok(()), t)
    ensures Wf(t) ==> Wf(s.tree)
    decreases |p|
  {
    if IsDir(t, p) then Step(Ok(()), t)
    else if p in t then Step(Err(AlreadyExists), t)
    else if p == [] then Step(Err(NotFound), t)
    else if Resolve(t, Parent(p)) == Err(FilesystemLoop) then Step(Err(FilesystemLoop), t)
    else if Exists(t, Parent(p)) && !IsDir(t, Parent(p)) then Step(Err(NotADirectory), t)
    else
      var up := CreateDirAllStep(t, Parent(p));
      if up.result.Err? then up
      else if IsRealDir(up.tree, Parent(p)) then
        var r := Step(Ok(()), up.tree[p := Dir]);
        assert Follow(r.tree, p, MaxHops) == Ok(p);
        assert forall q :: q in r.tree && q !in t ==> Under(p, q) by {
          forall q | q in r.tree && q !in t ensures Under(p, q) {
            if q != p {
              assert Under(Parent(p), q);
              assert Parent(p)[..|q|] == p[..|q|];
            }
          }
        }
        r
      else Step(Err(NotFound), up.tree)
  }

  /**
   * When the nearest ancestor of `p` that is there is a file, `create_dir_all`
   * fails with `ENOTDIR` and changes nothing, however many levels are missing.
   */
  lemma {:induction false} FileAncestorBlocks(t: Tree, p: Path, q: Path)
    requires Under(p, q) && |q| < |p| && q in t && t[q].File?
    requires forall k :: Under(p, k) && |q| < |k| ==> k !in t
    ensures CreateDirAllStep(t, p) == Step(Err(NotADirectory), t)
    decreases |p|
  {
    assert Under(p, p);
    assert p !in t;
    assert Under(Parent(p), q) by {
      assert Parent(p)[..|q|] == p[..|q|];
    }
    if |Parent(p)| > |q| {
      forall k | Under(Parent(p), k) && |q| < |k|
        ensures k !in t
      {
        UnderTrans(p, Parent(p), k);
        assert Under(p, Parent(p));
      }
      assert Parent(p) !in t;
      FileAncestorBlocks(t, Parent(p), q);
    } else {
      assert Parent(p) == q;
    }
  }

  /** The creations of `CreateDirAll` lie on the way to `p`, outside anything disjoint from it. */
  lemma CreateDirAllInside(t: Tree, p: Path, x: Path)
    requires Disjoint(p, x)
    ensures forall q :: Under(q, x) && q in CreateDirAllStep(t, p).tree ==> q in t
  {
    var s := CreateDirAllStep(t, p);
    forall q | Under(q, x) && q in s.tree
      ensures q in t
    {
      if q !in t {
        assert false;
      }
    }
  }

  /**
   * `remove_dir_all`: removes the directory `p` with everything in it, or the
   * link `p` itself; a regular file or a missing path is an error.
   */
  function RemoveDirAllStep(t: Tree, p: Path): (s: Step)
    ensures s.result.Ok? <==> p in t && !t[p].File? && p != []
    ensures s.result.Ok? ==> s.tree == Prune(t, p)
    ensures s.result.Err? ==> s.tree == t
    ensures Wf(t) ==> Wf(s.tree)
  {
    if p !in t then Step(Err(NotFound), t)
    else if t[p].File? then Step(Err(NotADirectory), t)
    else if p == [] then Step(Err(ResourceBusy), t)
    else
      assert Wf(t) ==> Wf(Prune(t, p)) by {
        if Wf(t) { PruneWf(t, p); }
      }
      Step(Ok(()), Prune(t, p))
  }

  /** `remove_file`: removes a file or a link; a directory is an error. */
  function RemoveFileStep(t: Tree, p: Path): (s: Step)
    ensures s.result.Ok? <==> p in t && !t[p].Dir?
    ensures s.result.Ok? ==> s.tree == t - {p}
    ensures s.result.Err? ==> s.tree == t
    ensures Wf(t) ==> Wf(s.tree)
  {
    if p !in t then Step(Err(NotFound), t)
    else if t[p].Dir? then Step(Err(IsADirectory), t)
    else
      var r := t - {p};
      assert Wf(t) ==> Wf(r) by {
        if Wf(t) {
          forall q | q in r && q != [] ensures Parent(q) in r && r[Parent(q)].Dir? {
            assert Parent(q) != p;
          }
        }
      }
      Step(Ok(()), r)
  }

  /** `std::os::unix::fs::symlink(target, link)`: the link is created only where nothing is, not even a dangling link. */
  function SymlinkStep(t: Tree, target: Path, link: Path): (s: Step)
    ensures s.result.Ok? <==> link !in t && link != [] && IsRealDir(t, Parent(link))
    ensures s.result.Ok? ==> s.tree == t[link := Link(target)]
    ensures s.result.Err? ==> s.tree == t
    ensures Wf(t) ==> Wf(s.tree)
  {
    if link in t then Step(Err(AlreadyExists), t)
    else if link == [] then Step(Err(NotFound), t)
    else if Parent(link) !in t then Step(Err(NotFound), t)
    else if !t[Parent(link)].Dir? then Step(Err(NotADirectory), t)
    else Step(Ok(()), t[link := Link(target)])
  }

  /**
   * Where `open` with `O_CREAT` lands when it follows the link chain from
   * `p` for at most `hops` links: the first node that is not a link, or the
   * missing path a dangling link names; `None` when the chain is too long.
   */
  function ChainEnd(t: Tree, p: Path, hops: nat): (r: Option<Path>)
    ensures r.Some? ==> r.value !in t || !t[r.value].Link?
    ensures r.Some? && r.value in t <==> Follow(t, p, hops).Ok?
    ensures Follow(t, p, hops).Ok? ==> r == Some(Follow(t, p, hops).value)
    ensures r.None? <==> Follow(t, p, hops) == Err(FilesystemLoop)
    ensures p !in t ==> r == Some(p)
    decreases hops
  {
    if p !in t then Some(p)
    else match t[p]
      case Link(q) => if hops == 0 then None else ChainEnd(t, q, hops - 1)
      case _ => Some(p)
  }

  /** The node `File::create` on `p` writes, if the link chain from `p` ends within the link limit. */
  function OpenTarget(t: Tree, p: Path): Option<Path> {
    ChainEnd(t, p, MaxHops)
  }

  /** The end of a chain can take a file: it is a regular file, or it is missing and its parent is a directory. */
  predicate Fillable(t: Tree, q: Path) {
    if q in t then t[q].File? else q != [] && IsRealDir(t, Parent(q))
  }

  /**
   * `File::create` followed by a write of `content`, as `fs::write` does it:
   * the link chain from `p` is followed; an existing file at its end is
   * truncated and rewritten, a missing one (`p` itself, or the path a
   * dangling link names) is created in an existing directory.
   */
  function WriteFileStep(t: Tree, p: Path, content: string): (s: Step)
    ensures s.result.Ok? <==> OpenTarget(t, p).Some? && Fillable(t, OpenTarget(t, p).value)
    ensures s.result.Ok? ==> s.tree == t[OpenTarget(t, p).value := File(content)]
    ensures s.result.Ok? ==> ReadFile(s.tree, p) == Ok(content)
    ensures p !in t ==> (s.result.Ok? <==> p != [] && IsRealDir(t, Parent(p)))
    ensures s.result.Ok? && p !in t ==> s.tree == t[p := File(content)]
    ensures Exists(t, p) ==> (s.result.Ok? <==> t[Resolve(t, p).value].File?)
    ensures s.result.Ok? && Exists(t, p) ==> s.tree == t[Resolve(t, p).value := File(content)]
    ensures s.result.Err? ==> s.tree == t
    ensures Wf(t) ==> Wf(s.tree)
  {
    match OpenTarget(t, p)
    case None => Step(Err(FilesystemLoop), t)
    case Some(q) =>
      if q in t then
        if t[q].Dir? then Step(Err(IsADirectory), t)
        else
          var r := Step(Ok(()), t[q := File(content)]);
          FollowRewritten(t, p, q, content, MaxHops);
          r
      else if q == [] || Parent(q) !in t then Step(Err(NotFound), t)
      else if !t[Parent(q)].Dir? then Step(Err(NotADirectory), t)
      else
        var r := Step(Ok(()), t[q := File(content)]);
        FollowRewritten(t, p, q, content, MaxHops);
        r
  }

  /** Putting a file at the end of a link chain makes the chain lead to it. */
  lemma {:induction false} FollowRewritten(t: Tree, p: Path, q: Path, content: string, hops: nat)
    requires ChainEnd(t, p, hops) == Some(q) && (q !in t || t[q].File?)
    ensures Follow(t[q := File(content)], p, hops) == Ok(q)
    decreases hops
  {
    if p != q {
      FollowRewritten(t, t[p].target, q, content, hops - 1);
    }
  }

  /** Writing a file a second time leaves the file system as the second write alone would. */
  lemma WriteTwice(t: Tree, p: Path, first: string, second: string)
    requires WriteFileStep(t, p, first).result.Ok?
    ensures WriteFileStep(WriteFileStep(t, p, first).tree, p, second) == WriteFileStep(t, p, second)
  {
    var u := WriteFileStep(t, p, first).tree;
    var q := OpenTarget(t, p).value;
    FollowRewritten(t, p, q, first, MaxHops);
    assert Resolve(u, p) == Ok(q);
    assert u[q := File(second)] == t[q := File(second)];
  }

  /** `fs::copy`: the bytes of the file `src` leads to, written to `dst` as `WriteFile` does. */
  function CopyFileStep(t: Tree, src: Path, dst: Path): (s: Step)
    ensures s.result.Ok? ==> Exists(t, src) && t[Resolve(t, src).value].File?
    ensures s.result.Ok? ==> s.tree == WriteFileStep(t, dst, t[Resolve(t, src).value].content).tree
    ensures s.result.Err? ==> s.tree == t
    ensures Wf(t) ==> Wf(s.tree)
  {
    match Resolve(t, src)
    case Err(e) => Step(Err(e), t)
    case Ok(q) =>
      if t[q].File? then WriteFileStep(t, dst, t[q].content) else Step(Err(NotARegularFile), t)
  }

  /** `q`, a node at or inside `src`, carried to the same place relative to `dst`. */
  function Rebase(q: Path, src: Path, dst: Path): Path
    requires Under(q, src)
  {
    dst + q[|src|..]
  }

  /** A rebased path lies inside `dst`, and carrying it back gives the original. */
  lemma RebaseUnder(q: Path, src: Path, dst: Path)
    requires Under(q, src)
    ensures Under(Rebase(q, src, dst), dst) && src + Rebase(q, src, dst)[|dst|..] == q
  {
    var r := Rebase(q, src, dst);
    assert r[..|dst|] == dst;
    assert r[|dst|..] == q[|src|..];
    assert q == src + q[|src|..];
  }

  lemma RebaseInjective(q1: Path, q2: Path, src: Path, dst: Path)
    requires Under(q1, src) && Under(q2, src)
    requires Rebase(q1, src, dst) == Rebase(q2, src, dst)
    ensures q1 == q2
  {
    assert q1[|src|..] == Rebase(q1, src, dst)[|dst|..];
    assert q1 == src + q1[|src|..];
    assert q2 == src + q2[|src|..];
  }

  /** The subtree at `src` moved to `dst`, replacing whatever `dst` held. */
  function Move(t: Tree, src: Path, dst: Path): (r: Tree)
    ensures forall q :: q in t && !Under(q, src) && !Under(q, dst) ==> q in r && r[q] == t[q]
    ensures forall q :: q in t && Under(q, src) ==> Rebase(q, src, dst) in r && r[Rebase(q, src, dst)] == t[q]
    ensures forall q :: q in r ==> (q in t && !Under(q, src) && !Under(q, dst)) || Under(q, dst)
    ensures forall q :: q in r && Under(q, dst) ==> src + q[|dst|..] in t
  {
    var rest := map q | q in t && !Under(q, src) && !Under(q, dst) :: t[q];
    forall q1, q2 | Under(q1, src) && Under(q2, src) && Rebase(q1, src, dst) == Rebase(q2, src, dst)
      ensures q1 == q2
    {
      RebaseInjective(q1, q2, src, dst);
    }
    var moved := map q | q in t && Under(q, src) :: Rebase(q, src, dst) := t[q];
    assert forall q :: q in t && Under(q, src) ==> Rebase(q, src, dst) in moved && moved[Rebase(q, src, dst)] == t[q];
    forall q | q in moved
      ensures Under(q, dst) && src + q[|dst|..] in t
    {
      var q0 :| q0 in t && Under(q0, src) && Rebase(q0, src, dst) == q;
      RebaseUnder(q0, src, dst);
    }
    rest + moved
  }

  /**
   * `rename(src, dst)` with the rules of Linux rename(2): the node at `src`
   * (a link is moved as the link) replaces `dst`, which must be missing, an
   * empty directory when `src` is a directory, or a non-directory when it is
   * not; both must lie on one file system, and `dst` must not lie inside `src`.
   */
  function RenameStep(t: Tree, src: Path, dst: Path, sameDevice: bool): (s: Step)
    ensures s.result.Ok? ==> src in t && (src == dst || (!Under(dst, src) && s.tree == Move(t, src, dst)))
    ensures s.result.Ok? && src == dst ==> s.tree == t
    ensures !sameDevice || src !in t || (src != dst && Under(dst, src)) ==> s.result.Err?
    ensures s.result.Err? ==> s.tree == t
    ensures Wf(t) ==> Wf(s.tree)
  {
    if src !in t then Step(Err(NotFound), t)
    else if !sameDevice then Step(Err(CrossesDevices), t)
    else if src == dst then Step(Ok(()), t)
    else if Under(dst, src) then Step(Err(InvalidInput), t)
    else if dst !in t && (dst == [] || !IsRealDir(t, Parent(dst))) then Step(Err(NotFound), t)
    else if dst in t && t[src].Dir? && !t[dst].Dir? then Step(Err(NotADirectory), t)
    else if dst in t && t[src].Dir? && Entries(t, dst) != {} then Step(Err(DirectoryNotEmpty), t)
    else if dst in t && !t[src].Dir? && t[dst].Dir? then Step(Err(IsADirectory), t)
    else
      assert Wf(t) ==> Wf(Move(t, src, dst)) by {
        if Wf(t) {
          EntryOf(t, src, dst);
          if dst in t {
            WfParent(t, dst);
          }
          MoveWf(t, src, dst);
        }
      }
      Step(Ok(()), Move(t, src, dst))
  }

  /** Moving a subtree to a free place whose parent is a directory keeps the tree well formed. */
  lemma MoveWf(t: Tree, src: Path, dst: Path)
    requires Wf(t) && src in t && src != [] && dst != [] && !Under(dst, src) && !Under(src, dst)
    requires IsRealDir(t, Parent(dst))
    ensures Wf(Move(t, src, dst))
  {
    var r := Move(t, src, dst);
    assert [] in r && r[[]].Dir?;
    forall p, n | p + [n] in r
      ensures p in r && r[p].Dir?
    {
      var k := p + [n];
      assert Parent(k) == p;
      if Under(k, dst) {
        MovedParent(t, src, dst, k);
      } else {
        KeptParent(t, src, dst, k);
      }
    }
  }

  lemma MovedParent(t: Tree, src: Path, dst: Path, k: Path)
    requires Wf(t) && src in t && dst != [] && !Under(dst, src) && IsRealDir(t, Parent(dst))
    requires k in Move(t, src, dst) && Under(k, dst)
    ensures Parent(k) in Move(t, src, dst) && Move(t, src, dst)[Parent(k)].Dir?
  {
    var r := Move(t, src, dst);
    if |k| == |dst| {
      assert k == dst;
      if |src| <= |Parent(dst)| {
        ParentNotUnder(dst, src);
      }
      assert !Under(Parent(dst), dst);
    } else {
      var q := src + k[|dst|..];
      assert q in t && q != [];
      WfParent(t, q);
      RebaseParent(src, dst, k);
    }
  }

  /** The parent of a path strictly inside `dst` is the rebased parent of its origin inside `src`. */
  lemma RebaseParent(src: Path, dst: Path, k: Path)
    requires Under(k, dst) && |k| > |dst|
    ensures Under(Parent(src + k[|dst|..]), src) && Rebase(Parent(src + k[|dst|..]), src, dst) == Parent(k)
  {
    var q := src + k[|dst|..];
    assert Parent(q)[..|src|] == src;
    assert Parent(q)[|src|..] == Parent(k)[|dst|..];
    assert Parent(k) == dst + Parent(k)[|dst|..];
  }

  lemma KeptParent(t: Tree, src: Path, dst: Path, k: Path)
    requires Wf(t) && k != [] && k in t && !Under(k, src) && !Under(k, dst)
    ensures Parent(k) in Move(t, src, dst) && Move(t, src, dst)[Parent(k)].Dir?
  {
    WfParent(t, k);
    if |src| <= |Parent(k)| {
      ParentNotUnder(k, src);
    }
    if |dst| <= |Parent(k)| {
      ParentNotUnder(k, dst);
    }
  }

  /** The outcome of a command step: a message on failure, and the new file system. */
  datatype Change = Change(result: Result<(), string>, tree: Tree)

  function Lift(s: Step): (c: Change)
    ensures c.tree == s.tree && (c.result.Ok? <==> s.result.Ok?)
  {
    match s.result
    case Ok(_) => Change(Ok(()), s.tree)
    case Err(e) => Change(Err(Describe(e)), s.tree)
  }

  /** How `Path::display` shows an absolute path. */
  function PathString(p: Path): (s: string)
    ensures p == [] ==> s == "/"
  {
    if p == [] then "/" else "/" + Join(p, "/")
  }

  /**
   * `u` extends `t`: every node of `t` is still there, directories and links
   * unchanged, regular files still regular files (possibly rewritten).
   */
  ghost predicate Grows(t: Tree, u: Tree) {
    forall q :: q in t ==> q in u && (if t[q].File? then u[q].File? else u[q] == t[q])
  }

  /** `u` keeps every node of `t` as it was; it may only add nodes. */
  ghost predicate Extends(t: Tree, u: Tree) {
    forall q :: q in t ==> q in u && u[q] == t[q]
  }

  lemma ExtendsGrows(t: Tree, u: Tree)
    requires Extends(t, u)
    ensures Grows(t, u)
  {
  }

  /** Every link of `u` was already in `t`, as it is. */
  ghost predicate NoNewLinks(t: Tree, u: Tree) {
    forall q :: q in u && u[q].Link? ==> q in t && t[q] == u[q]
  }

  lemma LinksTrans(t: Tree, u: Tree, w: Tree)
    requires NoNewLinks(t, u) && NoNewLinks(u, w)
    ensures NoNewLinks(t, w)
  {
  }

  /** Every node of `u` is in `t` unchanged: `u` is `t` with some nodes removed. */
  ghost predicate SubTree(u: Tree, t: Tree) {
    forall q :: q in u ==> q in t && u[q] == t[q]
  }

  /** Removing nodes never makes a path resolve that did not. */
  lemma {:induction false} FollowSubTree(u: Tree, t: Tree, p: Path, hops: nat)
    requires SubTree(u, t)
    ensures Follow(u, p, hops).Ok? ==> Follow(t, p, hops) == Follow(u, p, hops)
    decreases hops
  {
    if p in u && u[p].Link? && hops > 0 {
      FollowSubTree(u, t, u[p].target, hops - 1);
    }
  }

  /** No symbolic link at or inside `p`. */
  ghost predicate LinkFree(t: Tree, p: Path) {
    forall q :: q in t && Under(q, p) ==> !t[q].Link?
  }

  lemma ProperSubsetSmaller<T>(a: set<T>, b: set<T>)
    requires a < b
    ensures |a| < |b|
  {
    var x :| x in b && x !in a;
    assert a <= b - {x};
    SubsetNotLarger(a, b - {x});
  }

  lemma SubsetNotLarger<T>(a: set<T>, b: set<T>)
    requires a <= b
    ensures |a| <= |b|
  {
    assert b == a + (b - a);
  }

  lemma GrowsTrans(t: Tree, u: Tree, w: Tree)
    requires Grows(t, u) && Grows(u, w)
    ensures Grows(t, w)
  {
  }

  /** Link resolution that succeeds in `t` ends at the same place in any extension of `t`. */
  lemma {:induction false} FollowGrows(t: Tree, u: Tree, p: Path, hops: nat)
    requires Grows(t, u) && Follow(t, p, hops).Ok?
    ensures Follow(u, p, hops) == Follow(t, p, hops)
    decreases hops
  {
    if t[p].Link? {
      FollowGrows(t, u, t[p].target, hops - 1);
    }
  }

  /** Existing paths and directories survive an extension. */
  lemma ResolveGrows(t: Tree, u: Tree, p: Path)
    requires Grows(t, u)
    ensures Exists(t, p) ==> Resolve(u, p) == Resolve(t, p)
    ensures IsDir(t, p) ==> IsDir(u, p)
    ensures Exists(t, p) ==> Exists(u, p)
  {
    if Exists(t, p) {
      FollowGrows(t, u, p, MaxHops);
    }
  }

  lemma CreateDirAllGrows(t: Tree, p: Path)
    ensures Grows(t, CreateDirAllStep(t, p).tree)
    ensures NoNewLinks(t, CreateDirAllStep(t, p).tree)
  {
  }

  lemma WriteFileGrows(t: Tree, p: Path, content: string)
    ensures Grows(t, WriteFileStep(t, p, content).tree)
    ensures NoNewLinks(t, WriteFileStep(t, p, content).tree)
  {
  }

  lemma CopyFileLinks(t: Tree, src: Path, dst: Path)
    ensures NoNewLinks(t, CopyFileStep(t, src, dst).tree)
  {
    if CopyFileStep(t, src, dst).result.Ok? {
      WriteFileGrows(t, dst, t[Resolve(t, src).value].content);
    }
  }

  lemma RemoveDirAllLinks(t: Tree, p: Path)
    ensures NoNewLinks(t, RemoveDirAllStep(t, p).tree)
  {
  }

  /** Moving a subtree without links creates none. */
  lemma MoveLinks(t: Tree, src: Path, dst: Path)
    requires LinkFree(t, src)
    ensures NoNewLinks(t, Move(t, src, dst))
  {
    var r := Move(t, src, dst);
    forall q | q in r && Under(q, dst)
      ensures !r[q].Link?
    {
      var q0 := src + q[|dst|..];
      RebaseUnder(q0, src, dst);
      assert q0[|src|..] == q[|dst|..];
      assert Rebase(q0, src, dst) == q;
    }
  }

  lemma RenameLinks(t: Tree, src: Path, dst: Path, sameDevice: bool)
    requires LinkFree(t, src)
    ensures NoNewLinks(t, RenameStep(t, src, dst, sameDevice).tree)
  {
    if RenameStep(t, src, dst, sameDevice).result.Ok? && src != dst {
      MoveLinks(t, src, dst);
    }
  }

  /** The file system a command works on. */
  class FileSystem {
    var tree: Tree

    ghost predicate Valid()
      reads this
    {
      Wf(tree)
    }

    constructor (t: Tree)
      ensures tree == t
    {
      tree := t;
    }

    method CreateDirAll(p: Path) returns (r: Result<(), IoError>)
      modifies this
      ensures Step(r, tree) == CreateDirAllStep(old(tree), p)
    {
      var s := CreateDirAllStep(tree, p);
      tree := s.tree;
      r := s.result;
    }

    method RemoveDirAll(p: Path) returns (r: Result<(), IoError>)
      modifies this
      ensures Step(r, tree) == RemoveDirAllStep(old(tree), p)
    {
      var s := RemoveDirAllStep(tree, p);
      tree := s.tree;
      r := s.result;
    }

    method RemoveFile(p: Path) returns (r: Result<(), IoError>)
      modifies this
      ensures Step(r, tree) == RemoveFileStep(old(tree), p)
    {
      var s := RemoveFileStep(tree, p);
      tree := s.tree;
      r := s.result;
    }

    method Symlink(target: Path, link: Path) returns (r: Result<(), IoError>)
      modifies this
      ensures Step(r, tree) == SymlinkStep(old(tree), target, link)
    {
      var s := SymlinkStep(tree, target, link);
      tree := s.tree;
      r := s.result;
    }

    method WriteFile(p: Path, content: string) returns (r: Result<(), IoError>)
      modifies this
      ensures Step(r, tree) == WriteFileStep(old(tree), p, content)
    {
      var s := WriteFileStep(tree, p, content);
      tree := s.tree;
      r := s.result;
    }

    method CopyFile(src: Path, dst: Path) returns (r: Result<(), IoError>)
      modifies this
      ensures Step(r, tree) == CopyFileStep(old(tree), src, dst)
    {
      var s := CopyFileStep(tree, src, dst);
      tree := s.tree;
      r := s.result;
    }

    method Rename(src: Path, dst: Path, sameDevice: bool) returns (r: Result<(), IoError>)
      modifies this
      ensures Step(r, tree) == RenameStep(old(tree), src, dst, sameDevice)
    {
      var s := RenameStep(tree, src, dst, sameDevice);
      tree := s.tree;
      r := s.result;
    }

    /**
     * `read_dir`: the entries of the directory `p` names, each once, in an
     * order the file system chooses.
     */
    method ReadDir(p: Path) returns (r: Result<seq<Name>, IoError>)
      ensures r.Err? <==> ListDir(tree, p).Err?
      ensures r.Ok? ==> (ListDir(tree, p).Ok? && Distinct(r.value) && |r.value| == |ListDir(tree, p).value|
                         && forall n :: n in r.value <==> n in ListDir(tree, p).value)
    {
      match ListDir(tree, p)
      case Err(e) => r := Err(e);
      case Ok(names) =>
        var order := Enumerate(names);
        r := Ok(order);
    }
  }

  /** One more element of a prefix. */
  lemma PrefixSnoc<T>(s: seq<T>, i: nat)
    requires i < |s|
    ensures s[..i + 1] == s[..i] + [s[i]]
  {
  }

  /** The prefix of full length. */
  lemma PrefixAll<T>(s: seq<T>)
    ensures s[..|s|] == s
  {
  }

  predicate Distinct<T(==)>(s: seq<T>) {
    forall i, j :: 0 <= i < j < |s| ==> s[i] != s[j]
  }

  /** Lists every element of `names` once, in an unspecified order. */
  method Enumerate<T(==)>(names: set<T>) returns (order: seq<T>)
    ensures Distinct(order)
    ensures forall n :: n in order <==> n in names
    ensures |order| == |names|
  {
    order := [];
    var left := names;
    while left != {}
      invariant left <= names
      invariant Distinct(order)
      invariant forall n :: n in order <==> n in names && n !in left
      invariant |order| + |left| == |names|
      decreases |left|
    {
      var n :| n in left;
      order := order + [n];
      left := left - {n};
    }
  }

  /** `order` lists every element of `names`, each once. */
  ghost predicate Lists<T(!new)>(order: seq<T>, names: set<T>) {
    Distinct(order) && forall n :: n in order <==> n in names
  }

  /** Every finite set has a listing. */
  lemma {:induction false} ListingExists<T(!new)>(names: set<T>)
    ensures exists order :: Lists(order, names)
    decreases |names|
  {
    if names == {} {
      assert Lists([], names);
    } else {
      var n :| n in names;
      ListingExists(names - {n});
      var rest :| Lists(rest, names - {n});
      assert Lists(rest + [n], names);
    }
  }

  /** What a loop over the entries of `read_dir(p)` visits: nothing when `p` is not a directory. */
  function ListedNames(t: Tree, p: Path): (names: set<Name>)
    ensures IsDir(t, p) ==> ListDir(t, p) == Ok(names)
    ensures !IsDir(t, p) ==> names == {}
  {
    if IsDir(t, p) then ListDir(t, p).value else {}
  }
}
