/**
 * The install pipeline: a scratch directory per installation, the download
 * of the archive into it, its extraction into `source`, and the move of the
 * payload into the candidate's version directory, falling back to a
 * recursive copy when the move is refused.
 */
module Install {
  import opened Wrappers
  import opened Text
  import opened Fs
  import opened Store
  import opened Archive
  import Api

  // ------------------------------------------------------------ recursive copy

  /** Nothing lies inside `dst`, and `dst` itself is missing or is not a directory. */
  ghost predicate Vacant(t: Tree, dst: Path) {
    && (dst in t ==> !IsDir(t, dst))
    && forall q :: q in t && Under(q, dst) ==> q == dst
  }

  /**
   * The node `copy_dir_recursive` makes of the node at `p`: a directory
   * stays a directory and a file keeps its content; a link, which is not
   * followed when the entry's type is asked, is copied as a regular file
   * holding what the link leads to.
   */
  ghost predicate CopiedNode(t: Tree, p: Path, n: Node)
    requires p in t
  {
    match t[p]
    case Dir => n == Dir
    case File(_) => n == t[p]
    case Link(_) => n.File? && (ReadFile(t, p).Ok? ==> n == File(ReadFile(t, p).value))
  }

  /** Every node at or inside `q` in `t` has its copy at the same place relative to `dst` in `u`. */
  ghost predicate Reproduced(t: Tree, u: Tree, q: Path, dst: Path) {
    forall p {:trigger Rebase(p, q, dst)} :: p in t && Under(p, q) ==> Rebase(p, q, dst) in u && CopiedNode(t, p, u[Rebase(p, q, dst)])
  }

  /** Every node at or inside `dst` in `u` is the copy of a node at the same place relative to `q` in `t`. */
  ghost predicate OnlyCopies(t: Tree, u: Tree, q: Path, dst: Path) {
    forall k :: k in u && Under(k, dst) ==> q + k[|dst|..] in t
  }

  /** Every node `u` adds to `t` lies inside `dst` or on the way to it. */
  ghost predicate NewNear(t: Tree, u: Tree, dst: Path) {
    forall k :: k in u && k !in t ==> Under(k, dst) || Under(dst, k)
  }

  /** Every node strictly inside `dst` belongs to an entry in `done` and copies a node of `t` inside `q`. */
  ghost predicate CopiedFrom(t: Tree, u: Tree, q: Path, dst: Path, done: seq<Name>) {
    forall k :: k in u && Under(k, dst) && |k| > |dst| ==> k[|dst|] in done && q + k[|dst|..] in t
  }

  /** Every node strictly inside `q` that belongs to an entry in `done` has its copy inside `dst`. */
  ghost predicate CopiedTo(t: Tree, u: Tree, q: Path, dst: Path, done: seq<Name>) {
    forall p {:trigger Rebase(p, q, dst)} :: p in t && Under(p, q) && |p| > |q| && p[|q|] in done ==>
      Rebase(p, q, dst) in u && CopiedNode(t, p, u[Rebase(p, q, dst)])
  }

  /** What the copy keeps true while it works through the entries of `q`; `done` are the entries copied so far. */
  ghost predicate CopyInv(t: Tree, u: Tree, q: Path, dst: Path, done: seq<Name>) {
    CopyFrame(t, u, q, dst) && CopiedFrom(t, u, q, dst, done) && CopiedTo(t, u, q, dst, done)
  }

  /** The part of `CopyInv` that does not depend on the entries copied so far. */
  ghost predicate CopyFrame(t: Tree, u: Tree, q: Path, dst: Path) {
    && Wf(t) && Wf(u) && Extends(t, u) && IsRealDir(u, dst) && IsRealDir(t, q) && Disjoint(q, dst)
    && NewNear(t, u, dst)
  }

  /** The size of what is left to copy below `src`. */
  ghost function CopyMeasure(t: Tree, src: Path): nat {
    if Exists(t, src) then |Subtree(t, Resolve(t, src).value)| else 0
  }

  /** A path inside `q` is neither inside nor above anything disjoint from `q`. */
  lemma DisjointUnder(x: Path, q: Path, dst: Path)
    requires Under(x, q) && Disjoint(q, dst)
    ensures !Under(x, dst) && !Under(dst, x)
  {
    UnderTotal(x, q, dst);
    UnderTrans(dst, x, q);
  }

  lemma ChildrenDisjoint(q: Path, dst: Path, n: Name, m: Name)
    requires Disjoint(q, dst)
    ensures Disjoint(q + [n], dst + [m])
  {
    UnderChild(q + [n], q, n);
    UnderChild(dst + [m], dst, m);
    DisjointUnder(q + [n], q, dst);
    UnderTrans(q + [n], dst + [m], dst);
    UnderTrans(dst + [m], q + [n], q);
    UnderTotal(q + [n], q, dst + [m]);
  }

  /**
   * `copy_dir_recursive`: creates `dst`, then for each entry of the
   * directory `src` names copies a subdirectory recursively and anything
   * else with `fs::copy`. Entries are visited in the order the file system
   * lists them.
   */
  method CopyDirRecursive(fs: FileSystem, src: Path, dst: Path) returns (r: Result<(), IoError>)
    requires Wf(fs.tree) && Vacant(fs.tree, dst) && Exists(fs.tree, src)
    requires Disjoint(Resolve(fs.tree, src).value, dst)
    modifies fs
    ensures Wf(fs.tree) && Extends(old(fs.tree), fs.tree) && NoNewLinks(old(fs.tree), fs.tree)
    ensures forall k :: k in fs.tree && k !in old(fs.tree) ==> Under(k, dst) || Under(dst, k)
    ensures r.Ok? ==> IsDir(old(fs.tree), src) && IsRealDir(fs.tree, dst)
    ensures r.Ok? ==> Reproduced(old(fs.tree), fs.tree, Resolve(old(fs.tree), src).value, dst)
    ensures r.Ok? ==> OnlyCopies(old(fs.tree), fs.tree, Resolve(old(fs.tree), src).value, dst)
    decreases CopyMeasure(fs.tree, src), 2
  {
    ghost var t := fs.tree;
    r := fs.CreateDirAll(dst);
    CreateDirAllGrows(t, dst);
    if r.Err? {
      return;
    }
    ghost var q0 := Resolve(t, src).value;
    ResolveGrows(t, fs.tree, src);
    // `read_dir` follows a link at `src`; the entries are those of the directory it leads to.
    var listed := fs.ReadDir(src);
    if listed.Err? {
      return Err(listed.error);
    }
    var q := Resolve(fs.tree, src).value;
    assert q == q0;
    var names := listed.value;
    CopyStart(t, fs.tree, src, q, dst);
    r := CopyEntries(fs, t, src, q, dst, names);
    if r.Err? {
      return;
    }
    CopyEnd(t, fs.tree, q, dst, names);
  }

  /** The loop of `copy_dir_recursive` over the entries `names` of `q`, stopping at the first failure. */
  method CopyEntries(fs: FileSystem, ghost t: Tree, ghost src: Path, q: Path, dst: Path, names: seq<Name>)
    returns (r: Result<(), IoError>)
    requires CopyInv(t, fs.tree, q, dst, []) && NoNewLinks(t, fs.tree) && Resolve(t, src) == Ok(q)
    requires Distinct(names) && forall n :: n in names <==> q + [n] in t
    modifies fs
    ensures NoNewLinks(t, fs.tree) && CopyFrame(t, fs.tree, q, dst)
    ensures r.Ok? ==> CopyInv(t, fs.tree, q, dst, names)
    decreases CopyMeasure(t, src), 1
  {
    r := Ok(());
    var i := 0;
    while i < |names|
      invariant 0 <= i <= |names|
      invariant CopyInv(t, fs.tree, q, dst, names[..i])
      invariant NoNewLinks(t, fs.tree)
    {
      var n := names[i];
      ChildFacts(t, fs.tree, q, dst, names, i);
      if fs.tree[q + [n]].Dir? {
        r := CopyDirEntry(fs, t, src, q, dst, names, i);
      } else {
        r := CopyFileEntry(fs, t, q, dst, names, i);
      }
      if r.Err? {
        return;
      }
      i := i + 1;
    }
    PrefixAll(names);
  }

  /** The copy of an entry that is a directory, by `copy_dir_recursive` itself. */
  method CopyDirEntry(fs: FileSystem, ghost t: Tree, ghost src: Path, q: Path, dst: Path, names: seq<Name>, i: nat)
    returns (r: Result<(), IoError>)
    requires i < |names| && CopyInv(t, fs.tree, q, dst, names[..i]) && NoNewLinks(t, fs.tree)
    requires Resolve(t, src) == Ok(q) && IsRealDir(fs.tree, q + [names[i]])
    requires Vacant(fs.tree, dst + [names[i]]) && Disjoint(q + [names[i]], dst + [names[i]])
    modifies fs
    ensures NoNewLinks(t, fs.tree) && CopyFrame(t, fs.tree, q, dst)
    ensures r.Ok? ==> CopyInv(t, fs.tree, q, dst, names[..i + 1])
    decreases CopyMeasure(t, src), 0
  {
    ghost var before := fs.tree;
    var n := names[i];
    SubtreeShrinks(t, before, src, q, dst, n, names[..i]);
    r := CopyDirRecursive(fs, q + [n], dst + [n]);
    LinksTrans(t, before, fs.tree);
    DirFrame(t, before, fs.tree, dst, n);
    if r.Ok? {
      AfterDir(t, before, fs.tree, q, dst, names, i);
    }
  }

  /** The copy of an entry that is not a directory, with `fs::copy`. */
  method CopyFileEntry(fs: FileSystem, ghost t: Tree, q: Path, dst: Path, names: seq<Name>, i: nat)
    returns (r: Result<(), IoError>)
    requires i < |names| && CopyInv(t, fs.tree, q, dst, names[..i]) && NoNewLinks(t, fs.tree)
    requires q + [names[i]] in t && t[q + [names[i]]] == fs.tree[q + [names[i]]] && !t[q + [names[i]]].Dir?
    requires dst + [names[i]] !in fs.tree
    modifies fs
    ensures NoNewLinks(t, fs.tree)
    ensures r.Err? ==> fs.tree == old(fs.tree)
    ensures r.Ok? ==> CopyInv(t, fs.tree, q, dst, names[..i + 1])
  {
    ghost var before := fs.tree;
    var n := names[i];
    r := fs.CopyFile(q + [n], dst + [n]);
    CopyFileLinks(before, q + [n], dst + [n]);
    LinksTrans(t, before, fs.tree);
    if r.Ok? {
      AfterFile(t, before, fs.tree, q, dst, names, i);
    }
  }

  /** After `dst` is created, the copy starts with nothing copied, and the entries listed are those of `q` before. */
  lemma CopyStart(t: Tree, u: Tree, src: Path, q: Path, dst: Path)
    requires Wf(t) && Vacant(t, dst) && Resolve(t, src) == Ok(q) && Disjoint(q, dst)
    requires CreateDirAllStep(t, dst) == Step(Ok(()), u)
    requires IsDir(u, src)
    ensures Resolve(u, src) == Ok(q) && IsRealDir(t, q)
    ensures ListDir(u, src) == Ok(Entries(u, q))
    ensures forall n :: n in Entries(u, q) <==> q + [n] in t
    ensures CopyInv(t, u, q, dst, [])
  {
    CreateDirAllGrows(t, dst);
    ResolveGrows(t, u, src);
    assert IsRealDir(t, q);
    StartInv(t, u, q, dst);
    FrameEntries(t, u, q, dst);
  }

  /** Creating an empty `dst` apart from `q` starts the copy with nothing copied. */
  lemma StartInv(t: Tree, u: Tree, q: Path, dst: Path)
    requires Wf(t) && Vacant(t, dst) && IsRealDir(t, q) && Disjoint(q, dst)
    requires CreateDirAllStep(t, dst) == Step(Ok(()), u)
    ensures CopyInv(t, u, q, dst, [])
  {
    assert dst !in t;
    CreateDirAllGrows(t, dst);
  }

  /** Creating the copy's root adds no entry to `q`, which lies apart from it. */
  lemma FrameEntries(t: Tree, u: Tree, q: Path, dst: Path)
    requires Extends(t, u) && NewNear(t, u, dst) && Disjoint(q, dst)
    ensures forall n :: n in Entries(u, q) <==> q + [n] in t
  {
    forall n | q + [n] in u
      ensures q + [n] in t
    {
      UnderChild(q + [n], q, n);
      DisjointUnder(q + [n], q, dst);
    }
  }

  /** What a copy made in an extension of `t` says about `t`. */
  lemma CopiedNodeExtends(t: Tree, u: Tree, p: Path, n: Node)
    requires Extends(t, u) && p in t && CopiedNode(u, p, n)
    ensures CopiedNode(t, p, n)
  {
    ExtendsGrows(t, u);
    ResolveGrows(t, u, p);
  }

  /** The next entry is still in place and its copy's place is free. */
  lemma ChildFacts(t: Tree, u: Tree, q: Path, dst: Path, names: seq<Name>, i: nat)
    requires i < |names| && CopyInv(t, u, q, dst, names[..i]) && Distinct(names)
    requires forall n :: n in names ==> q + [n] in t
    ensures q + [names[i]] in u && u[q + [names[i]]] == t[q + [names[i]]]
    ensures Vacant(u, dst + [names[i]]) && dst + [names[i]] !in u
    ensures Disjoint(q + [names[i]], dst + [names[i]])
  {
    var n := names[i];
    assert n in names;
    assert n !in names[..i] by {
      forall j | 0 <= j < i
        ensures names[j] != n
      {
      }
    }
    forall k | k in u
      ensures !Under(k, dst + [n])
    {
      UnderChild(k, dst, n);
    }
    UnderChild(dst + [n], dst, n);
    ChildrenDisjoint(q, dst, n, n);
  }

  /** The subdirectory holds less than the directory it is in. */
  lemma SubtreeShrinks(t: Tree, u: Tree, src: Path, q: Path, dst: Path, n: Name, done: seq<Name>)
    requires CopyInv(t, u, q, dst, done) && Resolve(t, src) == Ok(q)
    requires IsRealDir(u, q + [n])
    ensures CopyMeasure(u, q + [n]) < CopyMeasure(t, src)
  {
    var a := Subtree(u, q + [n]);
    var b := Subtree(t, q);
    forall k | k in a
      ensures k in b
    {
      UnderChild(k, q, n);
      DisjointUnder(k, q, dst);
    }
    assert q in b && q !in a;
    ProperSubsetSmaller(a, b);
  }

  /** Whatever the copy of a subdirectory did, it kept the frame of the copy of `q`. */
  lemma DirFrame(t: Tree, u: Tree, w: Tree, dst: Path, n: Name)
    requires Extends(t, u) && NewNear(t, u, dst) && Extends(u, w)
    requires NewNear(u, w, dst + [n])
    ensures Extends(t, w) && NewNear(t, w, dst)
  {
    forall k | k in w && k !in t
      ensures Under(k, dst) || Under(dst, k)
    {
      UnderChild(k, dst, n);
      AncestorOfChild(k, dst, n);
      UnderChild(dst + [n], dst, n);
    }
  }

  /** A subdirectory copied successfully adds its entry to those copied. */
  lemma AfterDir(t: Tree, u: Tree, w: Tree, q: Path, dst: Path, names: seq<Name>, i: nat)
    requires i < |names| && CopyInv(t, u, q, dst, names[..i])
    requires Wf(w) && Extends(u, w) && NewNear(u, w, dst + [names[i]])
    requires Reproduced(u, w, q + [names[i]], dst + [names[i]])
    requires OnlyCopies(u, w, q + [names[i]], dst + [names[i]])
    ensures CopyInv(t, w, q, dst, names[..i + 1])
  {
    var n := names[i];
    PrefixSnoc(names, i);
    AfterDirFrame(t, u, w, q, dst, n);
    AfterDirNew(t, u, w, q, dst, names[..i], n);
    AfterDirCopied(t, u, w, q, dst, names[..i], n);
  }

  /** The copy of a subdirectory keeps the frame of the copy of `q`. */
  lemma AfterDirFrame(t: Tree, u: Tree, w: Tree, q: Path, dst: Path, n: Name)
    requires CopyFrame(t, u, q, dst) && Wf(w) && Extends(u, w) && NewNear(u, w, dst + [n])
    ensures CopyFrame(t, w, q, dst)
  {
    DirFrame(t, u, w, dst, n);
  }

  /** The nodes the copy of a subdirectory added are copies of nodes inside `q`. */
  lemma AfterDirNew(t: Tree, u: Tree, w: Tree, q: Path, dst: Path, done: seq<Name>, n: Name)
    requires NewNear(t, u, dst) && CopiedFrom(t, u, q, dst, done) && Disjoint(q, dst)
    requires Extends(u, w) && NewNear(u, w, dst + [n])
    requires OnlyCopies(u, w, q + [n], dst + [n])
    ensures CopiedFrom(t, w, q, dst, done + [n])
  {
    forall k | k in w && Under(k, dst) && |k| > |dst|
      ensures k[|dst|] in done + [n] && q + k[|dst|..] in t
    {
      if k !in u {
        NewInside(t, u, w, q, dst, n, k);
      }
    }
  }

  /** A node the copy of entry `n` added is inside `dst + [n]` and copies a node inside `q`. */
  lemma NewInside(t: Tree, u: Tree, w: Tree, q: Path, dst: Path, n: Name, k: Path)
    requires Disjoint(q, dst) && Extends(u, w)
    requires NewNear(u, w, dst + [n]) && OnlyCopies(u, w, q + [n], dst + [n]) && NewNear(t, u, dst)
    requires k in w && k !in u && Under(k, dst) && |k| > |dst|
    ensures k[|dst|] == n && q + k[|dst|..] in t
  {
    UnderChild(k, dst, n);
    AncestorOfChild(k, dst, n);
    assert Under(k, dst + [n]);
    RebaseChild(q, dst, n, k);
    DisjointUnder(q + k[|dst|..], q, dst);
  }

  /** The place inside `q + [n]` of a path inside `dst + [n]` is its place inside `q`. */
  lemma RebaseChild(q: Path, dst: Path, n: Name, k: Path)
    requires Under(k, dst + [n])
    ensures (q + [n]) + k[|dst + [n]|..] == q + k[|dst|..] && Under(q + k[|dst|..], q)
  {
    assert k[|dst|..] == [n] + k[|dst| + 1..] by {
      assert k[|dst|] == (dst + [n])[|dst|];
    }
    assert (q + k[|dst|..])[..|q|] == q;
  }

  /** The entries of the subdirectory are reproduced at their places relative to `dst`. */
  lemma AfterDirCopied(t: Tree, u: Tree, w: Tree, q: Path, dst: Path, done: seq<Name>, n: Name)
    requires Extends(t, u) && CopiedTo(t, u, q, dst, done) && Extends(u, w)
    requires Reproduced(u, w, q + [n], dst + [n])
    ensures CopiedTo(t, w, q, dst, done + [n])
  {
    forall p | p in t && Under(p, q) && |p| > |q| && p[|q|] in done + [n]
      ensures Rebase(p, q, dst) in w && CopiedNode(t, p, w[Rebase(p, q, dst)])
    {
      if p[|q|] !in done {
        UnderChild(p, q, n);
        assert Rebase(p, q + [n], dst + [n]) == Rebase(p, q, dst) by {
          assert p[|q|..] == [n] + p[|q| + 1..];
        }
        CopiedNodeExtends(t, u, p, w[Rebase(p, q, dst)]);
      }
    }
  }

  /** A non-directory entry copied successfully adds its entry to those copied. */
  lemma AfterFile(t: Tree, u: Tree, w: Tree, q: Path, dst: Path, names: seq<Name>, i: nat)
    requires i < |names| && CopyInv(t, u, q, dst, names[..i])
    requires q + [names[i]] in t && t[q + [names[i]]] == u[q + [names[i]]] && !t[q + [names[i]]].Dir?
    requires dst + [names[i]] !in u
    requires CopyFileStep(u, q + [names[i]], dst + [names[i]]) == Step(Ok(()), w)
    ensures CopyInv(t, w, q, dst, names[..i + 1])
  {
    var n := names[i];
    var c := q + [n];
    var d := dst + [n];
    PrefixSnoc(names, i);
    var content := u[Resolve(u, c).value].content;
    assert w == u[d := File(content)];
    assert CopiedNode(t, c, w[d]) by {
      ExtendsGrows(t, u);
      ResolveGrows(t, u, c);
    }
    UnderChild(d, dst, n);
    assert d[|dst|..] == [n];
    forall p | p in t && Under(p, q) && |p| > |q| && p[|q|] == n
      ensures p == c
    {
      EntryOf(t, p, q);
    }
    assert Rebase(c, q, dst) == d;
  }

  /** Once every entry is copied, the whole directory is reproduced. */
  lemma CopyEnd(t: Tree, u: Tree, q: Path, dst: Path, names: seq<Name>)
    requires CopyInv(t, u, q, dst, names)
    requires forall n :: n in names <==> q + [n] in t
    ensures Reproduced(t, u, q, dst) && OnlyCopies(t, u, q, dst)
  {
    forall p | p in t && Under(p, q)
      ensures Rebase(p, q, dst) in u && CopiedNode(t, p, u[Rebase(p, q, dst)])
    {
      if |p| == |q| {
        assert p == q;
        assert Rebase(p, q, dst) == dst;
      } else {
        EntryOf(t, p, q);
      }
    }
    forall k | k in u && Under(k, dst)
      ensures q + k[|dst|..] in t
    {
      if |k| == |dst| {
        assert k[|dst|..] == [];
        assert q + [] == q;
      }
    }
  }

  // ------------------------------------------------------------ move and normalize

  /**
   * The directory whose content becomes the installation: the only entry of
   * `source` when that entry is a directory (an archive with one top-level
   * directory), and `source` itself otherwise.
   */
  ghost function Payload(t: Tree, source: Path): (p: Path)
    ensures Under(p, source)
  {
    var names := Entries(t, source);
    if |names| == 1 then
      var n :| n in names;
      if IsDir(t, source + [n]) then
        UnderChild(source + [n], source, n);
        source + [n]
      else source
    else source
  }

  /**
   * `u` keeps every node of `t` that lies outside both `x` and `y`:
   * directories and links as they were, files as files (their bytes may
   * differ). This is what every step of an installation, failed or not,
   * leaves of the rest of the file system.
   */
  ghost predicate Spared(t: Tree, u: Tree, x: Path, y: Path) {
    forall q :: q in t && !Under(q, x) && !Under(q, y) ==> q in u && (if t[q].File? then u[q].File? else u[q] == t[q])
  }

  lemma SparedTrans(t: Tree, u: Tree, w: Tree, x: Path, y: Path)
    requires Spared(t, u, x, y) && Spared(u, w, x, y)
    ensures Spared(t, w, x, y)
  {
  }

  lemma GrowsSpared(t: Tree, u: Tree, x: Path, y: Path)
    requires Grows(t, u)
    ensures Spared(t, u, x, y)
  {
  }

  lemma PruneSpared(t: Tree, p: Path, x: Path, y: Path)
    requires Under(p, x) || Under(p, y)
    ensures Spared(t, Prune(t, p), x, y)
  {
    forall q | q in t && !Under(q, x) && !Under(q, y)
      ensures !Under(q, p)
    {
      UnderTrans(q, p, x);
      UnderTrans(q, p, y);
    }
  }

  lemma SparedOne(t: Tree, u: Tree, x: Path, y: Path)
    requires Spared(t, u, y, y)
    ensures Spared(t, u, x, y)
  {
  }

  lemma SparedWider(t: Tree, u: Tree, x: Path, y: Path, x2: Path)
    requires Spared(t, u, x, y) && Under(x, x2)
    ensures Spared(t, u, x2, y)
  {
    forall q | q in t && !Under(q, x2) && !Under(q, y)
      ensures !Under(q, x)
    {
      UnderTrans(q, x, x2);
    }
  }

  /**
   * The payload `p` of `t` is now at `dest` in `u`, node for node, nothing
   * else is at `dest`, the payload's old place is empty, and everything
   * outside both is as it was; only directories on the way to `dest` are new.
   */
  ghost predicate Moved(t: Tree, u: Tree, p: Path, dest: Path) {
    && (forall q :: q in t && Under(q, p) ==> Rebase(q, p, dest) in u && u[Rebase(q, p, dest)] == t[q])
    && (forall k :: k in u && Under(k, dest) ==> p + k[|dest|..] in t)
    && (forall k :: k in u ==> !Under(k, p))
    && (forall k :: k in t && !Under(k, p) && !Under(k, dest) ==> k in u && u[k] == t[k])
    && (forall k :: k in u && k !in t ==> Under(k, dest) || Under(dest, k))
  }

  /**
   * The state before the move proper: `dest` gone (or a link that leads
   * nowhere, which the existence test does not see), ancestors of `dest`
   * possibly created, nothing else changed.
   */
  ghost predicate Prepared(t: Tree, u: Tree, dest: Path) {
    && Wf(u) && (dest in u ==> u[dest].Link? && !Exists(u, dest))
    && (forall k :: k in t && !Under(k, dest) ==> k in u && u[k] == t[k])
    && (forall k :: k in u && k !in t ==> Under(dest, k))
    && (forall k :: k in u && k in t ==> u[k] == t[k])
  }

  /**
   * `move_and_normalize`: picks the payload of `source`, clears
   * `destination`, creates its parent, and renames the payload there; when
   * the rename is refused (another file system, say), copies it and removes
   * the original.
   */
  method MoveAndNormalize(fs: FileSystem, source: Path, destination: Path, sameDevice: bool) returns (r: Result<(), IoError>)
    requires Wf(fs.tree) && Disjoint(source, destination) && LinkFree(fs.tree, source)
    modifies fs
    ensures Wf(fs.tree) && NoNewLinks(old(fs.tree), fs.tree)
    ensures !IsDir(old(fs.tree), source) ==> r.Err? && fs.tree == old(fs.tree)
    ensures r.Ok? ==> IsRealDir(old(fs.tree), source) && IsRealDir(fs.tree, destination)
    ensures r.Ok? ==> Moved(old(fs.tree), fs.tree, Payload(old(fs.tree), source), destination)
    ensures Spared(old(fs.tree), fs.tree, source, destination)
  {
    ghost var t := fs.tree;
    var listed := fs.ReadDir(source);
    if listed.Err? {
      return Err(listed.error);
    }
    var entries := listed.value;
    var finalSource := source;
    if |entries| == 1 && IsDir(fs.tree, source + [entries[0]]) {
      finalSource := source + [entries[0]];
    }
    PayloadOf(t, source, entries);
    PayloadIsDir(t, source);
    DisjointUnder(finalSource, source, destination);
    r := MovePayload(fs, finalSource, destination, sameDevice);
    SparedWider(t, fs.tree, finalSource, destination, source);
  }

  /** The second half of `move_and_normalize`: the payload `p`, once chosen, replaces `destination`. */
  method MovePayload(fs: FileSystem, p: Path, destination: Path, sameDevice: bool) returns (r: Result<(), IoError>)
    requires Wf(fs.tree) && IsRealDir(fs.tree, p) && Disjoint(p, destination)
    requires LinkFree(fs.tree, p)
    modifies fs
    ensures Wf(fs.tree) && NoNewLinks(old(fs.tree), fs.tree)
    ensures r.Ok? ==> IsRealDir(fs.tree, destination) && Moved(old(fs.tree), fs.tree, p, destination)
    ensures Spared(old(fs.tree), fs.tree, p, destination)
  {
    ghost var t := fs.tree;
    r := ClearDestination(fs, destination);
    SparedOne(t, fs.tree, p, destination);
    if r.Err? {
      return;
    }
    ghost var w := fs.tree;
    PreparedPayload(t, w, p, destination);
    r := fs.Rename(p, destination, sameDevice);
    RenameLinks(w, p, destination, sameDevice);
    if r.Ok? {
      RenamedMoved(t, w, p, destination);
    } else {
      CopyReady(t, w, p, destination);
      r := CopyDirRecursive(fs, p, destination);
      GrowsSpared(w, fs.tree, p, destination);
      if r.Err? {
        return;
      }
      ghost var x := fs.tree;
      r := fs.RemoveDirAll(p);
      PruneSpared(x, p, p, destination);
      CopiedMoved(t, w, x, p, destination);
    }
    MovedDestination(t, fs.tree, p, destination);
  }

  /** `destination` is removed when it exists, and its parent created: the state the move starts from. */
  method ClearDestination(fs: FileSystem, destination: Path) returns (r: Result<(), IoError>)
    requires Wf(fs.tree)
    modifies fs
    ensures Wf(fs.tree) && NoNewLinks(old(fs.tree), fs.tree)
    ensures Spared(old(fs.tree), fs.tree, destination, destination)
    ensures r.Ok? ==> Prepared(old(fs.tree), fs.tree, destination)
  {
    ghost var t := fs.tree;
    r := Ok(());
    if Exists(fs.tree, destination) {
      r := fs.RemoveDirAll(destination);
      RemoveDirAllLinks(t, destination);
      PruneSpared(t, destination, destination, destination);
      if r.Err? {
        return;
      }
      PrepareRemoved(t, destination);
    } else {
      PrepareAbsent(t, destination);
    }
    if destination != [] {
      ghost var u := fs.tree;
      r := fs.CreateDirAll(Parent(destination));
      CreateDirAllGrows(u, Parent(destination));
      GrowsSpared(u, fs.tree, destination, destination);
      LinksTrans(t, u, fs.tree);
      if r.Err? {
        return;
      }
      PrepareParent(t, u, fs.tree, destination);
    }
  }

  /** The payload the method picks from the listed entries is `Payload`. */
  lemma PayloadOf(t: Tree, source: Path, names: seq<Name>)
    requires Distinct(names) && |names| == |Entries(t, source)|
    requires forall n :: n in names <==> n in Entries(t, source)
    ensures Payload(t, source) ==
      if |names| == 1 && IsDir(t, source + [names[0]]) then source + [names[0]] else source
  {
    if |names| == 1 {
      assert names[0] in Entries(t, source);
    }
  }

  /** With no links in `source`, the payload of a directory is a directory itself. */
  lemma PayloadIsDir(t: Tree, source: Path)
    requires Wf(t) && LinkFree(t, source) && IsDir(t, source)
    ensures IsRealDir(t, source) && IsRealDir(t, Payload(t, source)) && LinkFree(t, Payload(t, source))
  {
    assert Under(source, source);
    var p := Payload(t, source);
    assert IsDir(t, p);
    assert Resolve(t, p) == Ok(p);
    forall q | q in t && Under(q, p)
      ensures Under(q, source)
    {
      UnderTrans(q, p, source);
    }
  }

  lemma PrepareRemoved(t: Tree, dest: Path)
    requires Wf(t) && RemoveDirAllStep(t, dest).result.Ok?
    ensures Prepared(t, RemoveDirAllStep(t, dest).tree, dest)
  {
    assert Under(dest, dest);
  }

  lemma PrepareAbsent(t: Tree, dest: Path)
    requires Wf(t) && !Exists(t, dest)
    ensures Prepared(t, t, dest)
  {
  }

  lemma PrepareParent(t: Tree, u: Tree, w: Tree, dest: Path)
    requires Prepared(t, u, dest) && dest != []
    requires CreateDirAllStep(u, Parent(dest)) == Step(Ok(()), w)
    ensures Prepared(t, w, dest)
  {
    if dest in u {
      WfParent(u, dest);
      assert w == u;
    }
    assert Under(dest, Parent(dest)) by {
      UnderChild(dest, Parent(dest), dest[|dest| - 1]);
    }
    forall k | k in w && k !in u
      ensures Under(dest, k) && k != dest
    {
      UnderTrans(dest, Parent(dest), k);
    }
  }

  /** Wherever the move starts from, the payload is still in place. */
  lemma PreparedPayload(t: Tree, w: Tree, p: Path, dest: Path)
    requires Prepared(t, w, dest) && IsRealDir(t, p) && Disjoint(p, dest)
    ensures IsRealDir(w, p) && Exists(w, p) && Resolve(w, p) == Ok(p) && p != dest
  {
    assert p in w;
  }

  /** Once the destination is prepared, the payload can be copied there. */
  lemma CopyReady(t: Tree, w: Tree, p: Path, dest: Path)
    requires Prepared(t, w, dest) && IsRealDir(t, p) && Disjoint(p, dest)
    ensures Wf(w) && Vacant(w, dest) && Exists(w, p) && Disjoint(Resolve(w, p).value, dest)
  {
    PreparedPayload(t, w, p, dest);
    forall k | k in w && |k| > |dest|
      ensures !Under(k, dest)
    {
      AncestorIsDir(w, k, |dest|);
    }
  }

  /** A successful rename moves the payload. */
  lemma RenamedMoved(t: Tree, w: Tree, p: Path, dest: Path)
    requires Prepared(t, w, dest) && Disjoint(p, dest)
    ensures Moved(t, Move(w, p, dest), p, dest)
  {
    var u := Move(w, p, dest);
    forall q | q in t && Under(q, p)
      ensures q in w && w[q] == t[q]
    {
      DisjointUnder(q, p, dest);
    }
    forall k | k in u && Under(k, dest)
      ensures p + k[|dest|..] in t
    {
      var x := p + k[|dest|..];
      assert x[..|p|] == p;
      DisjointUnder(x, p, dest);
    }
    forall k | k in u
      ensures !Under(k, p)
    {
      UnderTotal(k, p, dest);
    }
  }

  /** A successful copy followed by the removal of the original moves the payload, links aside. */
  lemma CopiedMoved(t: Tree, w: Tree, x: Tree, p: Path, dest: Path)
    requires Prepared(t, w, dest) && LinkFree(t, p) && Disjoint(p, dest)
    requires Extends(w, x) && NewNear(w, x, dest)
    requires Reproduced(w, x, p, dest) && OnlyCopies(w, x, p, dest)
    ensures Moved(t, Prune(x, p), p, dest)
  {
    var u := Prune(x, p);
    forall q | q in t && Under(q, p)
      ensures Rebase(q, p, dest) in u && u[Rebase(q, p, dest)] == t[q]
    {
      DisjointUnder(q, p, dest);
      var d := Rebase(q, p, dest);
      assert d[..|dest|] == dest;
      UnderTotal(d, p, dest);
    }
    forall k | k in u && Under(k, dest)
      ensures p + k[|dest|..] in t
    {
      var y := p + k[|dest|..];
      assert y[..|p|] == p;
      DisjointUnder(y, p, dest);
    }
    forall k | k in u && k !in t
      ensures Under(k, dest) || Under(dest, k)
    {
    }
  }

  /** After the move, `dest` holds the payload's own directory. */
  lemma MovedDestination(t: Tree, u: Tree, p: Path, dest: Path)
    requires Moved(t, u, p, dest) && IsRealDir(t, p)
    ensures IsRealDir(u, dest)
  {
    assert Under(p, p);
    assert Rebase(p, p, dest) == dest;
  }

  // ------------------------------------------------------------ scratch space

  const InstallPrefix: string := "sdkman-install-"
  const LocalPrefix: string := "sdkman-local-"

  /** The name of the scratch directory of one installation. */
  function ScratchName(prefix: string, c: string, v: string): Name {
    prefix + c + "-" + v
  }

  function Scratch(temp: Path, prefix: string, c: string, v: string): Path {
    temp + [ScratchName(prefix, c, v)]
  }

  /** Where the archive is unpacked, inside the scratch directory. */
  function ExtractDir(scratch: Path): Path {
    scratch + ["source"]
  }

  /** The downloaded archive's name: a zip on Windows, a gzipped tar elsewhere. */
  function ArchiveName(c: string, v: string, family: Family): Name {
    c + "-" + v + (if family == Windows then ".zip" else ".tar.gz")
  }

  function ArchivePath(scratch: Path, c: string, v: string, family: Family): Path {
    scratch + [ArchiveName(c, v, family)]
  }

  /** The name given to the download makes `extract` pick the reader of the platform's archive format. */
  lemma ArchiveNameExtension(scratch: Path, c: string, v: string, family: Family)
    ensures ArchiveExtension(ArchivePath(scratch, c, v, family)) == if family == Windows then "zip" else "gz"
  {
    var stem := c + "-" + v;
    if family == Windows {
      ExtensionOfName(stem, "zip");
      assert ArchiveName(c, v, family) == stem + "." + "zip";
    } else {
      ExtensionOfName(stem + ".tar", "gz");
      assert ArchiveName(c, v, family) == stem + ".tar" + "." + "gz";
    }
  }

  /** Different candidates and versions can share a scratch directory when a name holds a '-'. */
  lemma ScratchNamesCollide(prefix: string)
    ensures ScratchName(prefix, "a-b", "c") == ScratchName(prefix, "a", "b-c")
  {
  }

  /** With '-' in neither candidate name, each candidate and version has its own scratch directory. */
  lemma ScratchNameInjective(prefix: string, c1: string, v1: string, c2: string, v2: string)
    requires '-' !in c1 && '-' !in c2
    ensures ScratchName(prefix, c1, v1) == ScratchName(prefix, c2, v2) <==> c1 == c2 && v1 == v2
  {
    if ScratchName(prefix, c1, v1) == ScratchName(prefix, c2, v2) {
      var n1, n2 := c1 + ['-'] + v1, c2 + ['-'] + v2;
      assert ScratchName(prefix, c1, v1) == prefix + n1;
      assert ScratchName(prefix, c2, v2) == prefix + n2;
      assert n1 == (prefix + n1)[|prefix|..];
      assert n2 == (prefix + n2)[|prefix|..];
      SplitOnceUnique(c1, '-', v1);
      SplitOnceUnique(c2, '-', v2);
    }
  }

  // ------------------------------------------------------------ installation

  /** `download_file`: the body of the answer written to `output`; nothing is written when the request fails. */
  function DownloadStep(t: Tree, http: Api.Http, url: string, output: Path): (c: Change)
    ensures http(url).Err? ==> c == Change(Err(http(url).error), t)
    ensures c.result.Ok? ==> http(url).Ok? && ReadFile(c.tree, output) == Ok(http(url).value)
  {
    match http(url)
    case Err(e) => Change(Err(e), t)
    case Ok(body) => Lift(WriteFileStep(t, output, body))
  }

  /** `install_candidate` up to the move: scratch directory, download, extraction. */
  function InstallStage(t: Tree, http: Api.Http, temp: Path, c: Name, v: Name, platform: string, family: Family,
                        untar: TarReader, unzip: ZipReader): Change
  {
    var scratch := Scratch(temp, InstallPrefix, c, v);
    var s := CreateDirAllStep(t, scratch);
    if s.result.Err? then Lift(s)
    else
      var archive := ArchivePath(scratch, c, v, family);
      var d := DownloadStep(s.tree, http, Api.DownloadUrl(c, v, platform), archive);
      if d.result.Err? then d
      else ExtractSpec(d.tree, archive, ExtractDir(scratch), untar, unzip)
  }

  /** `install_local` up to the move: the check that the archive exists, scratch directory, extraction. */
  function LocalStage(t: Tree, temp: Path, c: Name, v: Name, local: Path, untar: TarReader, unzip: ZipReader): Change {
    if !Exists(t, local) then Change(Err(LocalNotFound(local)), t)
    else
      var scratch := Scratch(temp, LocalPrefix, c, v);
      var s := CreateDirAllStep(t, scratch);
      if s.result.Err? then Lift(s)
      else ExtractSpec(s.tree, local, ExtractDir(scratch), untar, unzip)
  }

  function LocalNotFound(local: Path): string {
    "Local file not found: " + PathString(local)
  }

  /** A missing local archive is refused before anything is created. */
  lemma LocalMissing(t: Tree, temp: Path, c: Name, v: Name, local: Path, untar: TarReader, unzip: ZipReader)
    requires !Exists(t, local)
    ensures LocalStage(t, temp, c, v, local, untar, unzip) == Change(Err(LocalNotFound(local)), t)
  {
  }

  /** Whatever of the install stage succeeds, the downloaded archive is unpacked by the platform's reader. */
  lemma InstallStageReader(t: Tree, http: Api.Http, temp: Path, c: Name, v: Name, platform: string, family: Family,
                           untar: TarReader, unzip: ZipReader)
    requires CreateDirAllStep(t, Scratch(temp, InstallPrefix, c, v)).result.Ok?
    requires http(Api.DownloadUrl(c, v, platform)).Ok?
    ensures var scratch := Scratch(temp, InstallPrefix, c, v);
      var d := DownloadStep(CreateDirAllStep(t, scratch).tree, http, Api.DownloadUrl(c, v, platform), ArchivePath(scratch, c, v, family));
      d.result.Ok? ==>
        && ReadFile(d.tree, ArchivePath(scratch, c, v, family)) == Ok(http(Api.DownloadUrl(c, v, platform)).value)
        && InstallStage(t, http, temp, c, v, platform, family, untar, unzip) ==
             if family == Windows then ExtractZipSpec(d.tree, ArchivePath(scratch, c, v, family), ExtractDir(scratch), unzip)
             else ExtractTarGzSpec(d.tree, ArchivePath(scratch, c, v, family), ExtractDir(scratch), untar)
  {
    ArchiveNameExtension(Scratch(temp, InstallPrefix, c, v), c, v, family);
  }

  /**
   * The payload `p` of `t` is installed at `dest` in `u`: node for node,
   * with nothing else at `dest`; the scratch directory is gone; everything
   * outside both is as it was.
   */
  ghost predicate Installed(t: Tree, u: Tree, p: Path, dest: Path, scratch: Path) {
    && (forall q :: q in t && Under(q, p) ==> Rebase(q, p, dest) in u && u[Rebase(q, p, dest)] == t[q])
    && (forall k :: k in u && Under(k, dest) ==> p + k[|dest|..] in t)
    && (forall k :: k in u ==> !Under(k, scratch))
    && (forall k :: k in t && !Under(k, scratch) && !Under(k, dest) ==> k in u && u[k] == t[k])
  }

  /** Removing the scratch directory after the move leaves the installation in place. */
  lemma CleanupInstalled(t: Tree, u: Tree, p: Path, dest: Path, scratch: Path)
    requires Moved(t, u, p, dest) && Under(p, scratch) && Disjoint(scratch, dest)
    ensures Installed(t, Prune(u, scratch), p, dest, scratch)
  {
    forall q | q in t && Under(q, p)
      ensures !Under(Rebase(q, p, dest), scratch)
    {
      var d := Rebase(q, p, dest);
      assert d[..|dest|] == dest;
      DisjointUnder(d, dest, scratch);
    }
    forall k | k in t && !Under(k, scratch)
      ensures !Under(k, p)
    {
      UnderTrans(k, p, scratch);
    }
  }

  /** The scratch directory survives the move, so the cleanup succeeds. */
  lemma ScratchSurvives(t: Tree, u: Tree, p: Path, dest: Path, scratch: Path)
    requires Wf(t) && Moved(t, u, p, dest) && IsRealDir(t, ExtractDir(scratch)) && Under(p, ExtractDir(scratch))
    requires Disjoint(scratch, dest)
    ensures RemoveDirAllStep(u, scratch) == Step(Ok(()), Prune(u, scratch))
  {
    var e := ExtractDir(scratch);
    WfParent(t, e);
    assert Parent(e) == scratch;
    if Under(scratch, p) {
      UnderTrans(scratch, p, e);
    }
    assert !Under(scratch, p);
    assert Under(scratch, scratch);
  }

  /**
   * `install_candidate`: downloads the candidate's archive for the platform
   * into a scratch directory, unpacks it there, moves the payload to the
   * version's directory, and removes the scratch directory, ignoring a
   * failure to do so.
   */
  method InstallCandidate(fs: FileSystem, http: Api.Http, temp: Path, root: Path, c: Name, v: Name, platform: string,
                          family: Family, sameDevice: bool, untar: TarReader, unzip: ZipReader)
    returns (r: Result<(), string>)
    requires Wf(fs.tree) && Disjoint(Scratch(temp, InstallPrefix, c, v), CandidateDir(root, c, v))
    requires LinkFree(fs.tree, ExtractDir(Scratch(temp, InstallPrefix, c, v)))
    modifies fs
    ensures Wf(fs.tree) && NoNewLinks(old(fs.tree), fs.tree)
    ensures var s := InstallStage(old(fs.tree), http, temp, c, v, platform, family, untar, unzip);
      s.result.Err? ==> Change(r, fs.tree) == s
    ensures var s := InstallStage(old(fs.tree), http, temp, c, v, platform, family, untar, unzip);
      var scratch := Scratch(temp, InstallPrefix, c, v);
      r.Ok? ==> (s.result.Ok? && IsRealDir(fs.tree, CandidateDir(root, c, v))
                 && Installed(s.tree, fs.tree, Payload(s.tree, ExtractDir(scratch)), CandidateDir(root, c, v), scratch))
    ensures Spared(old(fs.tree), fs.tree, Scratch(temp, InstallPrefix, c, v), CandidateDir(root, c, v))
  {
    ghost var t := fs.tree;
    var url := Api.DownloadUrl(c, v, platform);
    var scratch := Scratch(temp, InstallPrefix, c, v);
    var created := fs.CreateDirAll(scratch);
    CreateDirAllGrows(t, scratch);
    GrowsSpared(t, fs.tree, scratch, CandidateDir(root, c, v));
    if created.Err? {
      return Err(Describe(created.error));
    }
    ghost var t1 := fs.tree;
    var archive := ArchivePath(scratch, c, v, family);
    var response := http(url);
    if response.Err? {
      return Err(response.error);
    }
    var written := fs.WriteFile(archive, response.value);
    ghost var t2 := fs.tree;
    WriteFileGrows(t1, archive, response.value);
    LinksTrans(t, t1, t2);
    GrowsSpared(t1, t2, scratch, CandidateDir(root, c, v));
    SparedTrans(t, t1, t2, scratch, CandidateDir(root, c, v));
    if written.Err? {
      return Err(Describe(written.error));
    }
    var extractDir := ExtractDir(scratch);
    r := Extract(fs, archive, extractDir, untar, unzip);
    ExtractFrame(t2, archive, extractDir, untar, unzip);
    ghost var s := fs.tree;
    LinksTrans(t, t2, s);
    GrowsSpared(t2, s, scratch, CandidateDir(root, c, v));
    SparedTrans(t, t2, s, scratch, CandidateDir(root, c, v));
    if r.Err? {
      return;
    }
    var installDir := CandidateDir(root, c, v);
    r := MoveIntoPlace(fs, scratch, installDir, sameDevice);
    LinksTrans(t, s, fs.tree);
    SparedTrans(t, s, fs.tree, scratch, installDir);
  }

  /**
   * The common end of `install_candidate` and `install_local`: the payload
   * unpacked in the scratch directory moves to `dest`; the scratch directory
   * is then removed and the outcome of that removal ignored.
   */
  method MoveIntoPlace(fs: FileSystem, scratch: Path, dest: Path, sameDevice: bool) returns (r: Result<(), string>)
    requires Wf(fs.tree) && Disjoint(scratch, dest)
    requires LinkFree(fs.tree, ExtractDir(scratch))
    modifies fs
    ensures Wf(fs.tree) && NoNewLinks(old(fs.tree), fs.tree)
    ensures r.Ok? ==> (IsRealDir(fs.tree, dest)
                       && Installed(old(fs.tree), fs.tree, Payload(old(fs.tree), ExtractDir(scratch)), dest, scratch))
    ensures Spared(old(fs.tree), fs.tree, scratch, dest)
  {
    ghost var s := fs.tree;
    var extractDir := ExtractDir(scratch);
    assert Under(extractDir, scratch);
    DisjointUnder(extractDir, scratch, dest);
    var moved := MoveAndNormalize(fs, extractDir, dest, sameDevice);
    SparedWider(s, fs.tree, extractDir, dest, scratch);
    if moved.Err? {
      return Err(Describe(moved.error));
    }
    ghost var u := fs.tree;
    ghost var p := Payload(s, extractDir);
    UnderTrans(p, extractDir, scratch);
    ScratchSurvives(s, u, p, dest, scratch);
    var cleanup := fs.RemoveDirAll(scratch);
    RemoveDirAllLinks(u, scratch);
    PruneSpared(u, scratch, scratch, dest);
    LinksTrans(s, u, fs.tree);
    CleanupInstalled(s, u, p, dest, scratch);
    assert !Under(dest, scratch);
    r := Ok(());
  }

  /**
   * `install_local`: unpacks an archive already on disk into a scratch
   * directory and moves the payload to the version's directory.
   */
  method InstallLocal(fs: FileSystem, temp: Path, root: Path, c: Name, v: Name, local: Path, sameDevice: bool,
                      untar: TarReader, unzip: ZipReader)
    returns (r: Result<(), string>)
    requires Wf(fs.tree) && Disjoint(Scratch(temp, LocalPrefix, c, v), CandidateDir(root, c, v))
    requires LinkFree(fs.tree, ExtractDir(Scratch(temp, LocalPrefix, c, v)))
    modifies fs
    ensures Wf(fs.tree) && NoNewLinks(old(fs.tree), fs.tree)
    ensures var s := LocalStage(old(fs.tree), temp, c, v, local, untar, unzip);
      s.result.Err? ==> Change(r, fs.tree) == s
    ensures var s := LocalStage(old(fs.tree), temp, c, v, local, untar, unzip);
      var scratch := Scratch(temp, LocalPrefix, c, v);
      r.Ok? ==> (s.result.Ok? && IsRealDir(fs.tree, CandidateDir(root, c, v))
                 && Installed(s.tree, fs.tree, Payload(s.tree, ExtractDir(scratch)), CandidateDir(root, c, v), scratch))
    ensures Spared(old(fs.tree), fs.tree, Scratch(temp, LocalPrefix, c, v), CandidateDir(root, c, v))
  {
    ghost var t := fs.tree;
    if !Exists(fs.tree, local) {
      return Err(LocalNotFound(local));
    }
    var scratch := Scratch(temp, LocalPrefix, c, v);
    var created := fs.CreateDirAll(scratch);
    CreateDirAllGrows(t, scratch);
    GrowsSpared(t, fs.tree, scratch, CandidateDir(root, c, v));
    if created.Err? {
      return Err(Describe(created.error));
    }
    ghost var t1 := fs.tree;
    var extractDir := ExtractDir(scratch);
    r := Extract(fs, local, extractDir, untar, unzip);
    ExtractFrame(t1, local, extractDir, untar, unzip);
    ghost var s := fs.tree;
    LinksTrans(t, t1, s);
    GrowsSpared(t1, s, scratch, CandidateDir(root, c, v));
    SparedTrans(t, t1, s, scratch, CandidateDir(root, c, v));
    if r.Err? {
      return;
    }
    var installDir := CandidateDir(root, c, v);
    r := MoveIntoPlace(fs, scratch, installDir, sameDevice);
    LinksTrans(t, s, fs.tree);
    SparedTrans(t, s, fs.tree, scratch, installDir);
  }
}
