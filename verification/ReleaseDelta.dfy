/**
 Creating and applying a release delta: scripts/juice-release-delta.py.

 Hashing is a digest without collisions and zstd a coding whose decoder undoes its
 encoder; both are parameters (`Codec`). `sorted` is its specification: the names in
 increasing order.
 */
module ReleaseDelta {
  import opened Bytes

  type Path = string
  type Content = seq<Byte>
  type Digest = seq<Byte>

  datatype Node = File(content: Content, mode: nat) | Link(target: string)

  /** The members of a tree, and its directories, empty ones included. */
  datatype Tree = Tree(nodes: map<Path, Node>, dirs: set<Path>)

  datatype Entry =
    | Symlink(path: Path, target: string)
    | Mode(path: Path, mode: nat)
    | Patch(path: Path, blob: nat, mode: nat, sha: Digest)
    | Full(path: Path, blob: nat, mode: nat, sha: Digest)
    | Delete(path: Path)

  datatype Delta = Delta(entries: seq<Entry>, blobs: seq<Content>, treeSha: Digest)

  datatype Codec = Codec(
    digest: Content -> Digest,
    treeDigest: map<Path, Node> -> Digest,
    encode: Content -> Content,
    decode: Content -> Option<Content>,
    encodeFrom: (Content, Content) -> Content,
    decodeFrom: (Content, Content) -> Option<Content>,
    through: (Tree, Entry) -> Option<Tree>)

  /**
   The two codings, and what little is known of an entry whose path leads through a
   symbolic link: it may act anywhere or fail, but leaves a file system, and a deletion
   creates no member.
   */
  ghost predicate Lawful(c: Codec) {
    && (forall x, y :: c.digest(x) == c.digest(y) ==> x == y)
    && (forall x, y :: c.treeDigest(x) == c.treeDigest(y) ==> x == y)
    && (forall t, e :: WellFormed(t) && c.through(t, e).Some? ==>
          && WellFormed(c.through(t, e).value)
          && (e.Delete? ==> c.through(t, e).value.nodes.Keys <= t.nodes.Keys))
    && (forall t :: c.decode(c.encode(t)) == Some(t))
    && (forall b, t :: c.decodeFrom(b, c.encodeFrom(b, t)) == Some(t))
  }

  // ---------------------------------------------------------------- paths

  /** `a` is a proper ancestor of `p`. */
  predicate Ancestor(a: Path, p: Path) {
    |a| < |p| && p[..|a|] == a && p[|a|] == '/'
  }

  function Ancestors(p: Path): set<Path> {
    set i | 0 < i < |p| && p[i] == '/' :: p[..i]
  }

  lemma AncestorsExactly(p: Path, a: Path)
    ensures a in Ancestors(p) <==> a != "" && Ancestor(a, p)
  {
    if a in Ancestors(p) {
      var i :| 0 < i < |p| && p[i] == '/' && a == p[..i];
    }
    if a != "" && Ancestor(a, p) {
      assert 0 < |a| < |p| && p[|a|] == '/' && a == p[..|a|];
    }
  }

  /** `safe_path`: relative, and no component is `..`. */
  predicate Safe(p: Path) {
    !(p != "" && p[0] == '/') && !HasDotDot(p)
  }

  predicate HasDotDot(p: Path) {
    exists i :: 0 <= i && i + 2 <= |p| && p[i] == '.' && p[i + 1] == '.'
             && (i == 0 || p[i - 1] == '/') && (i + 2 == |p| || p[i + 2] == '/')
  }

  /** The temporary file next to `p`. */
  function Temp(p: Path): Path {
    p + ".juice-delta"
  }

  /** Python's order on strings. */
  ghost predicate Less(a: string, b: string) {
    exists k :: 0 <= k <= |a| && k <= |b| && a[..k] == b[..k] && k < |b| && (k == |a| || a[k] < b[k])
  }

  ghost predicate Sorted(names: seq<Path>) {
    forall i, j :: 0 <= i < j < |names| ==> Less(names[i], names[j])
  }

  /** `sorted(names)`. */
  ghost predicate IsSorting(order: seq<Path>, names: set<Path>) {
    Sorted(order) && forall p :: p in order <==> p in names
  }

  lemma PrefixIsNotGreater(a: string, b: string)
    requires Less(a, b)
    ensures !(b <= a)
  {
    var k :| 0 <= k <= |a| && k <= |b| && a[..k] == b[..k] && k < |b| && (k == |a| || a[k] < b[k]);
  }

  /** Nothing sorted before `p` is its temporary file or lies under it. */
  lemma TempComesLater(order: seq<Path>, k: nat, d: Path)
    requires Sorted(order) && k < |order| && d in order[..k]
    ensures d != Temp(order[k]) && !Ancestor(Temp(order[k]), d) && d != order[k]
  {
    var i :| 0 <= i < k && order[..k][i] == d;
    assert Less(order[i], order[k]);
    PrefixIsNotGreater(d, order[k]);
    assert order[k] <= Temp(order[k]);
    UnderTemp(order[k], d);
  }

  lemma UnderTemp(p: Path, d: Path)
    ensures Ancestor(Temp(p), d) ==> p <= d
  {}

  // ---------------------------------------------------------------- creating

  /** What `create_delta` records for one member of the target, and the blob it writes. */
  function Describe(base: map<Path, Node>, target: map<Path, Node>, p: Path, c: Codec, index: nat)
    : (Option<Entry>, seq<Content>)
    requires p in target
  {
    match target[p]
    case Link(l) => if p in base && base[p] == Link(l) then (None, []) else (Some(Symlink(p, l)), [])
    case File(text, mode) =>
      if p in base && base[p].File? then
        if c.digest(base[p].content) == c.digest(text) then
          (if base[p].mode != mode then Some(Mode(p, mode)) else None, [])
        else
          (Some(Patch(p, index, mode, c.digest(text))), [c.encodeFrom(base[p].content, text)])
      else
        (Some(Full(p, index, mode, c.digest(text))), [c.encode(text)])
  }

  function Opt(e: Option<Entry>): seq<Entry> {
    if e.Some? then [e.value] else []
  }

  function Changes(base: map<Path, Node>, target: map<Path, Node>, order: seq<Path>, c: Codec)
    : (seq<Entry>, seq<Content>)
    requires forall p :: p in order ==> p in target
  {
    if order == [] then ([], [])
    else
      var n := |order| - 1;
      var (entries, blobs) := Changes(base, target, order[..n], c);
      var (entry, blob) := Describe(base, target, order[n], c, |blobs|);
      (entries + Opt(entry), blobs + blob)
  }

  function Deletes(gone: seq<Path>): seq<Entry> {
    if gone == [] then [] else Deletes(gone[..|gone| - 1]) + [Delete(gone[|gone| - 1])]
  }

  function DeltaOf(base: map<Path, Node>, target: map<Path, Node>, order: seq<Path>, gone: seq<Path>, c: Codec): Delta
    requires forall p :: p in order ==> p in target
  {
    Delta(Changes(base, target, order, c).0 + Deletes(gone), Changes(base, target, order, c).1, c.treeDigest(target))
  }

  /** `create_delta`. `order` is the sorted target names, `gone` the sorted names only the base has. */
  method CreateDelta(base: map<Path, Node>, target: map<Path, Node>, order: seq<Path>, gone: seq<Path>, c: Codec)
    returns (delta: Delta)
    requires IsSorting(order, target.Keys) && IsSorting(gone, base.Keys - target.Keys)
    ensures delta == DeltaOf(base, target, order, gone, c)
  {
    hide Describe, Less;
    var entries: seq<Entry> := [];
    var blobs: seq<Content> := [];
    for i := 0 to |order|
      invariant entries == Changes(base, target, order[..i], c).0
      invariant blobs == Changes(base, target, order[..i], c).1
    {
      assert order[i] in order && order[..i + 1][..i] == order[..i];
      entries, blobs := Record(base, target, order[i], c, entries, blobs);
    }
    assert order[..|order|] == order;
    ghost var changes := entries;
    for i := 0 to |gone|
      invariant entries == changes + Deletes(gone[..i])
    {
      assert gone[..i + 1][..i] == gone[..i];
      entries := entries + [Delete(gone[i])];
    }
    assert gone[..|gone|] == gone;
    delta := Delta(entries, blobs, c.treeDigest(target));
  }

  /** The body of its first loop. */
  method Record(base: map<Path, Node>, target: map<Path, Node>, p: Path, c: Codec, entries: seq<Entry>,
                blobs: seq<Content>)
    returns (entries': seq<Entry>, blobs': seq<Content>)
    requires p in target
    ensures entries' == entries + Opt(Describe(base, target, p, c, |blobs|).0)
    ensures blobs' == blobs + Describe(base, target, p, c, |blobs|).1
  {
    entries', blobs' := entries, blobs;
    var node := target[p];
    if node.Link? {
      if p in base && base[p].Link? && base[p].target == node.target { return; }
      entries' := entries + [Symlink(p, node.target)];
      return;
    }
    if p in base && base[p].File? && c.digest(base[p].content) == c.digest(node.content) {
      if base[p].mode != node.mode { entries' := entries + [Mode(p, node.mode)]; }
      return;
    }
    if p in base && base[p].File? {
      entries' := entries + [Patch(p, |blobs|, node.mode, c.digest(node.content))];
      blobs' := blobs + [c.encodeFrom(base[p].content, node.content)];
    } else {
      entries' := entries + [Full(p, |blobs|, node.mode, c.digest(node.content))];
      blobs' := blobs + [c.encode(node.content)];
    }
  }

  // ---------------------------------------------------------------- applying

  predicate Under(a: Path, p: Path) {
    p == a || Ancestor(a, p)
  }

  function Removed(t: Tree, p: Path): Tree {
    if p in t.dirs then
      Tree(map q | q in t.nodes && !Under(p, q) :: t.nodes[q], set d | d in t.dirs && !Under(p, d))
    else t.(nodes := t.nodes - {p})
  }

  /** Decode to the temporary file, check it, and move it into place. */
  function Replaced(t: Tree, p: Path, decoded: Option<Content>, mode: nat, sha: Digest, c: Codec): Option<Tree> {
    if Temp(p) in t.nodes || Temp(p) in t.dirs || decoded.None? then None
    else if c.digest(decoded.value) != sha || p in t.dirs then None
    else Some(t.(nodes := t.nodes[p := File(decoded.value, mode)]))
  }

  /** One entry, its parent directories being there. */
  function Installed(t: Tree, e: Entry, blobs: seq<Content>, c: Codec): Option<Tree>
    requires !e.Delete?
  {
    match e
    case Symlink(p, l) => if p in t.dirs then None else Some(t.(nodes := t.nodes[p := Link(l)]))
    case Mode(p, mode) =>
      if p in t.nodes && t.nodes[p].File? then Some(t.(nodes := t.nodes[p := File(t.nodes[p].content, mode)])) else None
    case Patch(p, blob, mode, sha) =>
      if p in t.nodes && t.nodes[p].File? && blob < |blobs|
      then Replaced(t, p, c.decodeFrom(t.nodes[p].content, blobs[blob]), mode, sha, c) else None
    case Full(p, blob, mode, sha) =>
      if blob < |blobs| then Replaced(t, p, c.decode(blobs[blob]), mode, sha, c) else None
  }

  /** A regular file where a directory should be. */
  predicate FileAbove(t: Tree, p: Path) {
    exists a :: a in Ancestors(p) && a in t.nodes && t.nodes[a].File?
  }

  function ApplyEntry(t: Tree, e: Entry, blobs: seq<Content>, c: Codec): Option<Tree> {
    if !Safe(e.path) || FileAbove(t, e.path) then None
    else if !(Ancestors(e.path) !! t.nodes.Keys) then c.through(t, e)
    else if e.Delete? then Some(Removed(t, e.path))
    else Installed(t.(dirs := t.dirs + Ancestors(e.path)), e, blobs, c)
  }

  function ApplyAll(t: Tree, entries: seq<Entry>, blobs: seq<Content>, c: Codec): Option<Tree> {
    if entries == [] then Some(t)
    else
      var n := |entries| - 1;
      match ApplyAll(t, entries[..n], blobs, c)
      case None => None
      case Some(mid) => ApplyEntry(mid, entries[n], blobs, c)
  }

  function Apply(t: Tree, delta: Delta, c: Codec): Option<Tree> {
    match ApplyAll(t, delta.entries, delta.blobs, c)
    case None => None
    case Some(r) => if c.treeDigest(r.nodes) == delta.treeSha then Some(r) else None
  }

  /** The tree `apply_delta` works on. */
  class Root {
    var nodes: map<Path, Node>
    var dirs: set<Path>

    function Value(): Tree
      reads this
    {
      Tree(nodes, dirs)
    }

    constructor (t: Tree)
      ensures Value() == t
    {
      nodes, dirs := t.nodes, t.dirs;
    }

    /** `apply_delta`. */
    method ApplyDelta(delta: Delta, c: Codec) returns (ok: bool)
      modifies this
      ensures ok <==> Apply(old(Value()), delta, c).Some?
      ensures ok ==> Value() == Apply(old(Value()), delta, c).value
    {
      hide ApplyEntry;
      ghost var t := Value();
      for i := 0 to |delta.entries|
        invariant ApplyAll(t, delta.entries[..i], delta.blobs, c) == Some(Value())
      {
        assert delta.entries[..i + 1][..i] == delta.entries[..i];
        var fine := ApplyOne(delta.entries[i], delta.blobs, c);
        if !fine {
          Stuck(t, delta.entries, i + 1, delta.blobs, c);
          return false;
        }
      }
      assert delta.entries[..|delta.entries|] == delta.entries;
      return c.treeDigest(nodes) == delta.treeSha;
    }

    method ApplyOne(e: Entry, blobs: seq<Content>, c: Codec) returns (ok: bool)
      modifies this
      ensures ok <==> ApplyEntry(old(Value()), e, blobs, c).Some?
      ensures ok ==> Value() == ApplyEntry(old(Value()), e, blobs, c).value
    {
      var p := e.path;
      if !Safe(p) || FileAbove(Value(), p) { return false; }
      if !(Ancestors(p) !! nodes.Keys) {
        var r := c.through(Value(), e);
        if r.None? { return false; }
        nodes, dirs := r.value.nodes, r.value.dirs;
        return true;
      }
      if e.Delete? {
        if p in dirs {
          nodes, dirs := map q | q in nodes && !Under(p, q) :: nodes[q], set d | d in dirs && !Under(p, d);
        } else {
          nodes := nodes - {p};
        }
        return true;
      }
      dirs := dirs + Ancestors(p);
      if e.Symlink? {
        if p in dirs { return false; }
        nodes := nodes[p := Link(e.target)];
        return true;
      }
      if e.Mode? {
        if p !in nodes || !nodes[p].File? { return false; }
        nodes := nodes[p := nodes[p].(mode := e.mode)];
        return true;
      }
      if e.blob >= |blobs| { return false; }
      var decoded := None;
      if e.Patch? {
        if p !in nodes || !nodes[p].File? { return false; }
        decoded := c.decodeFrom(nodes[p].content, blobs[e.blob]);
      } else {
        decoded := c.decode(blobs[e.blob]);
      }
      if Temp(p) in nodes || Temp(p) in dirs || decoded.None? { return false; }
      if c.digest(decoded.value) != e.sha || p in dirs { return false; }
      nodes := nodes[p := File(decoded.value, e.mode)];
      return true;
    }
  }

  /** An entry that fails ends the run. */
  lemma {:induction false} Stuck(t: Tree, entries: seq<Entry>, n: nat, blobs: seq<Content>, c: Codec)
    requires n <= |entries| && ApplyAll(t, entries[..n], blobs, c).None?
    ensures ApplyAll(t, entries, blobs, c).None?
    decreases |entries| - n
  {
    if n < |entries| {
      assert entries[..n + 1][..n] == entries[..n];
      Stuck(t, entries, n + 1, blobs, c);
    } else {
      assert entries[..n] == entries;
    }
  }

  // ---------------------------------------------------------------- when the round trip works

  /** A tree as a file system holds it. */
  ghost predicate WellFormed(t: Tree) {
    && t.nodes.Keys !! t.dirs && "" !in t.nodes
    && forall p :: p in t.nodes ==> Safe(p) && Ancestors(p) <= t.dirs
  }

  /** The content of the file at `p` has to be written anew. */
  predicate Rewrites(base: map<Path, Node>, target: map<Path, Node>, p: Path)
    requires p in target
  {
    target[p].File? && !(p in base && base[p].File? && base[p].content == target[p].content)
  }

  /** The base leaves room for member `p` of the target, and for its temporary file if it needs one. */
  predicate Room(base: Tree, target: map<Path, Node>, p: Path)
    requires p in target
  {
    && Ancestors(p) !! base.nodes.Keys
    && p !in base.dirs
    && (Rewrites(base.nodes, target, p) ==> Temp(p) !in base.nodes && Temp(p) !in base.dirs)
  }

  /** The condition a caller can check before creating the delta. */
  ghost predicate Compatible(base: Tree, target: map<Path, Node>) {
    forall p :: p in target ==> Room(base, target, p)
  }

  function AllAncestors(done: set<Path>): set<Path> {
    set p, a | p in done && a in Ancestors(p) :: a
  }

  function Overlay(base: map<Path, Node>, target: map<Path, Node>, done: set<Path>): map<Path, Node>
    requires done <= target.Keys
  {
    map p | p in base.Keys + done :: if p in done then target[p] else base[p]
  }

  /** The tree once the members in `done` have been brought up to date. */
  function Mid(base: Tree, target: map<Path, Node>, done: set<Path>): Tree
    requires done <= target.Keys
  {
    Tree(Overlay(base.nodes, target, done), base.dirs + AllAncestors(done))
  }

  /** No member of the target lies under another, as in any tree. */
  ghost predicate Antichain(target: map<Path, Node>) {
    forall p, q :: p in target && q in target ==> p !in Ancestors(q)
  }

  /** `q` is next: what its entry looks at is what the base had there. */
  ghost predicate Next(base: Tree, target: map<Path, Node>, done: set<Path>, q: Path) {
    && WellFormed(base) && Antichain(target) && done <= target.Keys
    && q in target && q !in done && Safe(q)
    && Temp(q) !in done && Temp(q) !in AllAncestors(done)
  }

  lemma NextLooksAtBase(base: Tree, target: map<Path, Node>, done: set<Path>, q: Path)
    requires Next(base, target, done, q)
    ensures var t := Mid(base, target, done);
      && (Ancestors(q) !! t.nodes.Keys <==> Ancestors(q) !! base.nodes.Keys)
      && (FileAbove(t, q) <==> FileAbove(base, q))
      && (q in t.dirs + Ancestors(q) <==> q in base.dirs)
      && (q in t.nodes <==> q in base.nodes) && (q in t.nodes ==> t.nodes[q] == base.nodes[q])
      && (Temp(q) in t.nodes <==> Temp(q) in base.nodes)
      && (Temp(q) in t.dirs + Ancestors(q) <==> Temp(q) in base.dirs)
  {
    hide Ancestors, Temp;
    NotOwnAncestor(q);
    var t := Mid(base, target, done);
    assert forall a :: a in Ancestors(q) ==>
             (a in t.nodes <==> a in base.nodes) && (a in t.nodes ==> t.nodes[a] == base.nodes[a]);
  }

  lemma NotOwnAncestor(q: Path)
    ensures q !in Ancestors(q) && Temp(q) !in Ancestors(q)
  {
    AncestorsExactly(q, q);
    AncestorsExactly(q, Temp(q));
  }

  lemma MidGrows(base: Tree, target: map<Path, Node>, done: set<Path>, q: Path)
    requires done <= target.Keys && q in target
    ensures Mid(base, target, done + {q}) ==
            Tree(Mid(base, target, done).nodes[q := target[q]], Mid(base, target, done).dirs + Ancestors(q))
  {
    hide Ancestors;
    assert AllAncestors(done + {q}) == AllAncestors(done) + Ancestors(q);
  }

  /** One member: its entry succeeds exactly when the base leaves room, and then updates just that member. */
  lemma EntryExactly(base: Tree, target: map<Path, Node>, done: set<Path>, q: Path, c: Codec,
                     index: nat, blobs: seq<Content>)
    requires Next(base, target, done, q) && Lawful(c) && !LinkAbove(base, q)
    requires var (e, b) := Describe(base.nodes, target, q, c, index);
             b == [] || (index < |blobs| && blobs[index] == b[0])
    requires Describe(base.nodes, target, q, c, index).0.Some?
    ensures ApplyEntry(Mid(base, target, done), Describe(base.nodes, target, q, c, index).0.value, blobs, c) ==
            if Room(base, target, q) then Some(Mid(base, target, done + {q})) else None
  {
    hide Ancestors, Temp, Safe, Mid, AllAncestors, Antichain, WellFormed, FileAbove, LinkAbove, Lawful, Installed;
    NextLooksAtBase(base, target, done, q);
    MidGrows(base, target, done, q);
    NoLinkNoFile(base, q);
    if q in base.nodes { MemberHasRoom(base, q); }
    var t := Mid(base, target, done);
    var t' := t.(dirs := t.dirs + Ancestors(q));
    var e := Describe(base.nodes, target, q, c, index).0.value;
    assert ApplyEntry(t, e, blobs, c) ==
           if Ancestors(q) !! t.nodes.Keys then Installed(t', e, blobs, c) else None;
    InstalledExactly(base, target, t', q, c, index, blobs);
  }

  /** A symbolic link where a directory should be. */
  predicate LinkAbove(t: Tree, p: Path) {
    exists a :: a in Ancestors(p) && a in t.nodes && t.nodes[a].Link?
  }

  lemma NoLinkNoFile(t: Tree, p: Path)
    ensures LinkAbove(t, p) || FileAbove(t, p) <==> !(Ancestors(p) !! t.nodes.Keys)
  {
    hide Ancestors;
    if a :| a in Ancestors(p) && a in t.nodes {
      assert t.nodes[a].File? || t.nodes[a].Link?;
    }
  }

  /** The same for the last half of a step. */
  lemma InstalledExactly(base: Tree, target: map<Path, Node>, t: Tree, q: Path, c: Codec, index: nat,
                         blobs: seq<Content>)
    requires q in target && Lawful(c)
    requires var (e, b) := Describe(base.nodes, target, q, c, index);
             e.Some? && (b == [] || (index < |blobs| && blobs[index] == b[0]))
    requires q in t.nodes <==> q in base.nodes
    requires q in t.nodes ==> t.nodes[q] == base.nodes[q] && q !in base.dirs
    requires q in t.dirs <==> q in base.dirs
    requires Temp(q) in t.nodes <==> Temp(q) in base.nodes
    requires Temp(q) in t.dirs <==> Temp(q) in base.dirs
    ensures Installed(t, Describe(base.nodes, target, q, c, index).0.value, blobs, c) ==
            if q !in base.dirs && (Rewrites(base.nodes, target, q) ==> Temp(q) !in base.nodes && Temp(q) !in base.dirs)
            then Some(t.(nodes := t.nodes[q := target[q]])) else None
  {
    hide Temp;
  }

  lemma MemberHasRoom(base: Tree, q: Path)
    requires WellFormed(base) && q in base.nodes
    ensures Ancestors(q) !! base.nodes.Keys && q !in base.dirs
  {}

  lemma NoEntryExactly(base: Tree, target: map<Path, Node>, done: set<Path>, q: Path, c: Codec, index: nat)
    requires Next(base, target, done, q) && Lawful(c)
    requires Describe(base.nodes, target, q, c, index).0.None?
    ensures Room(base, target, q) && Mid(base, target, done + {q}) == Mid(base, target, done)
    ensures Describe(base.nodes, target, q, c, index).1 == []
  {
    hide Ancestors, Temp, Safe, Mid, AllAncestors, Antichain, WellFormed;
    UnchangedMember(base, target, done, q);
  }

  lemma UnchangedMember(base: Tree, target: map<Path, Node>, done: set<Path>, q: Path)
    requires Next(base, target, done, q) && q in base.nodes && base.nodes[q] == target[q]
    ensures Mid(base, target, done + {q}) == Mid(base, target, done)
    ensures Ancestors(q) !! base.nodes.Keys && q !in base.dirs
  {
    hide Ancestors, Safe, Temp;
    assert Ancestors(q) <= base.dirs;
    assert AllAncestors(done + {q}) == AllAncestors(done) + Ancestors(q);
  }

  function Names(order: seq<Path>): set<Path> {
    set p | p in order
  }

  /** The sorted order makes every member the next one in its turn. */
  lemma TurnOf(base: Tree, target: map<Path, Node>, order: seq<Path>, k: nat)
    requires WellFormed(base) && Antichain(target) && (forall p :: p in target ==> Safe(p))
    requires IsSorting(order, target.Keys) && k < |order|
    ensures Names(order[..k]) <= target.Keys && Next(base, target, Names(order[..k]), order[k])
    ensures Names(order[..k + 1]) == Names(order[..k]) + {order[k]}
  {
    hide Safe, WellFormed, Less, Ancestors, Temp;
    var done, q := Names(order[..k]), order[k];
    assert forall d :: d in order[..k] ==> d in order;
    assert q in order;
    forall d | d in done ensures d != Temp(q) && Temp(q) !in Ancestors(d) && d != q {
      TempComesLater(order, k, d);
      AncestorsExactly(d, Temp(q));
    }
  }

  ghost predicate RoomFor(base: Tree, target: map<Path, Node>, order: seq<Path>, k: nat)
    requires k <= |order| && forall p :: p in order ==> p in target
  {
    forall i :: 0 <= i < k ==> Room(base, target, order[i])
  }

  /** The changes up to `k` run through exactly when there was room for each. */
  lemma {:induction false} ChangesApply(base: Tree, target: map<Path, Node>, order: seq<Path>, k: nat,
                                        blobs: seq<Content>, c: Codec)
    requires WellFormed(base) && Antichain(target) && (forall p :: p in target ==> Safe(p))
    requires IsSorting(order, target.Keys) && k <= |order| && Lawful(c)
    requires (forall p :: p in order ==> p in target) && Changes(base.nodes, target, order[..k], c).1 <= blobs
    requires forall p :: p in target ==> !LinkAbove(base, p)
    ensures Names(order[..k]) <= target.Keys
    ensures ApplyAll(base, Changes(base.nodes, target, order[..k], c).0, blobs, c) ==
            if RoomFor(base, target, order, k) then Some(Mid(base, target, Names(order[..k]))) else None
  {
    hide *;
    if k == 0 {
      assert order[..k] == [];
      NothingDone(base, target, order, blobs, c);
      return;
    }
    var n := k - 1;
    ChangesStep(base.nodes, target, order, n, c);
    var done, q := Names(order[..n]), order[n];
    var (entries, written) := Changes(base.nodes, target, order[..n], c);
    var e := Describe(base.nodes, target, q, c, |written|).0;
    TurnOf(base, target, order, n);
    ChangesApply(base, target, order, n, blobs, c);
    RoomForOneMore(base, target, order, n);
    if e.None? {
      NoEntryExactly(base, target, done, q, c, |written|);
      NoEntry(entries, e);
    } else {
      BlobInPlace(base.nodes, target, q, c, written, blobs);
      EntryExactly(base, target, done, q, c, |written|, blobs);
      ApplySnoc(base, entries, e, blobs, c);
    }
  }

  lemma RoomForOneMore(base: Tree, target: map<Path, Node>, order: seq<Path>, n: nat)
    requires n < |order| && forall p :: p in order ==> p in target
    ensures order[n] in target
    ensures RoomFor(base, target, order, n + 1) <==> RoomFor(base, target, order, n) && Room(base, target, order[n])
  {
    assert order[n] in order;
    hide Room;
  }

  lemma NoEntry(entries: seq<Entry>, e: Option<Entry>)
    requires e.None?
    ensures entries + Opt(e) == entries
  {}

  lemma BlobInPlace(base: map<Path, Node>, target: map<Path, Node>, q: Path, c: Codec, written: seq<Content>,
                    blobs: seq<Content>)
    requires q in target && written + Describe(base, target, q, c, |written|).1 <= blobs
    ensures var b := Describe(base, target, q, c, |written|).1;
            b == [] || (|written| < |blobs| && blobs[|written|] == b[0])
  {
    var b := Describe(base, target, q, c, |written|).1;
    assert b != [] ==> (written + b)[|written|] == b[0];
  }

  lemma ApplySnoc(t: Tree, entries: seq<Entry>, e: Option<Entry>, blobs: seq<Content>, c: Codec)
    requires e.Some?
    ensures ApplyAll(t, entries + Opt(e), blobs, c) ==
            match ApplyAll(t, entries, blobs, c) case None => None case Some(mid) => ApplyEntry(mid, e.value, blobs, c)
  {
    hide ApplyEntry;
    assert (entries + Opt(e))[..|entries|] == entries;
  }

  lemma NothingDone(base: Tree, target: map<Path, Node>, order: seq<Path>, blobs: seq<Content>, c: Codec)
    requires forall p :: p in order ==> p in target
    ensures Names([]) <= target.Keys && Mid(base, target, Names([])) == base && RoomFor(base, target, order, 0)
    ensures Changes(base.nodes, target, [], c) == ([], []) && ApplyAll(base, [], blobs, c) == Some(base)
  {
    assert Overlay(base.nodes, target, {}) == base.nodes;
  }

  lemma ChangesStep(base: map<Path, Node>, target: map<Path, Node>, order: seq<Path>, n: nat, c: Codec)
    requires n < |order| && forall p :: p in order ==> p in target
    ensures order[n] in target
    ensures (forall p :: p in order[..n] ==> p in target) && (forall p :: p in order[..n + 1] ==> p in target)
    ensures var (entries, written) := Changes(base, target, order[..n], c);
            var (e, b) := Describe(base, target, order[n], c, |written|);
            Changes(base, target, order[..n + 1], c) == (entries + Opt(e), written + b) && written <= written + b
  {
    hide Describe;
    assert order[n] in order;
    assert order[..n + 1][..n] == order[..n] && order[..n + 1][n] == order[n];
  }

  lemma {:induction false} ApplyInTwo(t: Tree, a: seq<Entry>, b: seq<Entry>, blobs: seq<Content>, c: Codec)
    ensures ApplyAll(t, a + b, blobs, c) ==
            match ApplyAll(t, a, blobs, c) case None => None case Some(mid) => ApplyAll(mid, b, blobs, c)
    decreases |b|
  {
    hide ApplyEntry;
    if b == [] {
      assert a + b == a;
    } else {
      var n := |b| - 1;
      assert (a + b)[..|a| + n] == a + b[..n];
      ApplyInTwo(t, a, b[..n], blobs, c);
    }
  }

  lemma {:induction false} DeletesApply(t: Tree, gone: seq<Path>, blobs: seq<Content>, c: Codec)
    requires forall p :: p in gone ==> Safe(p) && p !in t.dirs && Ancestors(p) !! t.nodes.Keys
    ensures ApplyAll(t, Deletes(gone), blobs, c) == Some(t.(nodes := t.nodes - Names(gone)))
  {
    if gone == [] {
      assert t.nodes - Names(gone) == t.nodes;
    } else {
      var n := |gone| - 1;
      var p := gone[n];
      hide Safe, Names, ApplyAll, ApplyEntry, Ancestors;
      assert p in gone;
      DeletesApply(t, gone[..n], blobs, c);
      ApplySnoc(t, Deletes(gone[..n]), Some(Delete(p)), blobs, c);
      DeleteOne(t, Names(gone[..n]), p, blobs, c);
      NamesSnoc(gone);
    }
  }

  lemma DeleteOne(t: Tree, before: set<Path>, p: Path, blobs: seq<Content>, c: Codec)
    requires Safe(p) && p !in t.dirs && Ancestors(p) !! t.nodes.Keys
    ensures ApplyEntry(t.(nodes := t.nodes - before), Delete(p), blobs, c)
        == Some(t.(nodes := t.nodes - (before + {p})))
  {
    hide Safe, Ancestors;
    assert t.nodes - before - {p} == t.nodes - (before + {p});
  }

  lemma NamesSnoc(order: seq<Path>)
    requires order != []
    ensures Names(order) == Names(order[..|order| - 1]) + {order[|order| - 1]}
  {
    var n := |order| - 1;
    assert order == order[..n] + [order[n]];
  }

  /**
   The round trip. Applied to its base, a delta yields exactly the members of the target
   when the trees are compatible, and fails when they are not; nothing in between.
   */
  lemma RoundTrip(base: Tree, target: Tree, order: seq<Path>, gone: seq<Path>, c: Codec)
    requires WellFormed(base) && WellFormed(target) && Lawful(c)
    requires IsSorting(order, target.nodes.Keys) && IsSorting(gone, base.nodes.Keys - target.nodes.Keys)
    ensures Apply(base, DeltaOf(base.nodes, target.nodes, order, gone, c), c) ==
            if Compatible(base, target.nodes) then Some(Tree(target.nodes, base.dirs + AllAncestors(target.nodes.Keys)))
            else None
  {
    hide ApplyAll, Compatible, Changes, Deletes, LinkAbove, Lawful;
    if p :| p in target.nodes && LinkAbove(base, p) {
      LinkIsIncompatible(base, target.nodes, p);
      NeverThroughALink(base, target, order, gone, c, p);
    } else {
      EntriesApply(base, target, order, gone, c);
    }
  }

  lemma LinkIsIncompatible(base: Tree, target: map<Path, Node>, p: Path)
    requires p in target && LinkAbove(base, p)
    ensures !Compatible(base, target)
  {
    hide Ancestors;
    NoLinkNoFile(base, p);
    assert !Room(base, target, p);
  }

  // ---------------------------------------------------------------- writing through a link

  lemma EntryKeepsForm(t: Tree, e: Entry, blobs: seq<Content>, c: Codec)
    requires WellFormed(t) && Lawful(c) && e.path != "" && ApplyEntry(t, e, blobs, c).Some?
    ensures WellFormed(ApplyEntry(t, e, blobs, c).value)
    ensures e.Delete? ==> ApplyEntry(t, e, blobs, c).value.nodes.Keys <= t.nodes.Keys
  {
    hide Safe, Ancestors, Temp, FileAbove;
    var p := e.path;
    if Ancestors(p) !! t.nodes.Keys {
      if e.Delete? {
        RemovedKeepsForm(t, p);
      } else {
        NotOwnAncestor(p);
        InstalledIsOneNode(t.(dirs := t.dirs + Ancestors(p)), e, blobs, c);
      }
    }
  }

  /** What an entry installs is one member, at a place that is no directory. */
  lemma InstalledIsOneNode(t: Tree, e: Entry, blobs: seq<Content>, c: Codec)
    requires !e.Delete? && Installed(t, e, blobs, c).Some? && (e.path in t.nodes ==> e.path !in t.dirs)
    ensures var r := Installed(t, e, blobs, c).value;
            r.dirs == t.dirs && e.path !in t.dirs && r.nodes.Keys == t.nodes.Keys + {e.path}
  {
    hide Temp;
  }

  lemma RemovedKeepsForm(t: Tree, p: Path)
    requires WellFormed(t)
    ensures WellFormed(Removed(t, p)) && Removed(t, p).nodes.Keys <= t.nodes.Keys
  {
    hide Safe, Ancestors;
    var r := Removed(t, p);
    if p in t.dirs {
      forall q, d | q in r.nodes && d in Ancestors(q) ensures d in r.dirs {
        AncestorsExactly(q, d);
        assert Under(p, d) ==> Under(p, q);
      }
    }
  }

  lemma {:induction false} ChangesKeepForm(t: Tree, entries: seq<Entry>, blobs: seq<Content>, c: Codec)
    requires WellFormed(t) && Lawful(c) && (forall e :: e in entries ==> e.path != "")
    requires ApplyAll(t, entries, blobs, c).Some?
    ensures WellFormed(ApplyAll(t, entries, blobs, c).value)
  {
    hide WellFormed, Lawful, ApplyEntry;
    if entries != [] {
      var n := |entries| - 1;
      ChangesKeepForm(t, entries[..n], blobs, c);
      EntryKeepsForm(ApplyAll(t, entries[..n], blobs, c).value, entries[n], blobs, c);
    }
  }

  /** Once `a` has been deleted nothing lies under it, whatever was done through links before. */
  lemma {:induction false} NothingUnder(t: Tree, gone: seq<Path>, blobs: seq<Content>, c: Codec, a: Path, p: Path)
    requires WellFormed(t) && Lawful(c) && "" !in gone && a in gone && a in Ancestors(p)
    requires ApplyAll(t, Deletes(gone), blobs, c).Some?
    ensures p !in ApplyAll(t, Deletes(gone), blobs, c).value.nodes
  {
    hide WellFormed, Lawful, ApplyEntry, ApplyAll, Ancestors;
    var n := |gone| - 1;
    var x := gone[n];
    ApplySnoc(t, Deletes(gone[..n]), Some(Delete(x)), blobs, c);
    assert Deletes(gone) == Deletes(gone[..n]) + Opt(Some(Delete(x)));
    DeletesNamed(gone[..n]);
    ChangesKeepForm(t, Deletes(gone[..n]), blobs, c);
    var m := ApplyAll(t, Deletes(gone[..n]), blobs, c).value;
    assert x in gone;
    EntryKeepsForm(m, Delete(x), blobs, c);
    if x == a {
      DeletedIsGone(m, a, p, blobs, c);
    } else {
      NothingUnder(t, gone[..n], blobs, c, a, p);
    }
  }

  lemma {:induction false} DeletesNamed(gone: seq<Path>)
    requires "" !in gone
    ensures forall e :: e in Deletes(gone) ==> e.path != ""
  {
    if gone != [] { DeletesNamed(gone[..|gone| - 1]); }
  }

  lemma DeletedIsGone(m: Tree, a: Path, p: Path, blobs: seq<Content>, c: Codec)
    requires WellFormed(m) && Lawful(c) && a in Ancestors(p)
    requires ApplyEntry(m, Delete(a), blobs, c).Some?
    ensures p !in ApplyEntry(m, Delete(a), blobs, c).value.nodes
  {
    AncestorsExactly(p, a);
    forall b | b in Ancestors(a) ensures b in Ancestors(p) {
      AncestorsExactly(a, b);
      AncestorsExactly(p, b);
    }
    hide Ancestors, Safe, FileAbove;
  }

  /**
   A delta with a member below a link of its base always fails: the link is deleted last,
   and with it what lies below.
   */
  lemma NeverThroughALink(base: Tree, target: Tree, order: seq<Path>, gone: seq<Path>, c: Codec, p: Path)
    requires WellFormed(base) && WellFormed(target) && Lawful(c)
    requires IsSorting(order, target.nodes.Keys) && IsSorting(gone, base.nodes.Keys - target.nodes.Keys)
    requires p in target.nodes && LinkAbove(base, p)
    ensures var (entries, blobs) := Changes(base.nodes, target.nodes, order, c);
            var r := ApplyAll(base, entries + Deletes(gone), blobs, c);
            r.Some? ==> c.treeDigest(r.value.nodes) != c.treeDigest(target.nodes)
  {
    var (entries, blobs) := Changes(base.nodes, target.nodes, order, c);
    var a :| a in Ancestors(p) && a in base.nodes && base.nodes[a].Link?;
    assert a in gone && "" !in gone;
    ChangesNamed(base.nodes, target.nodes, order, c);
    hide IsSorting, ApplyAll, Ancestors, Changes, Safe, Deletes;
    ApplyInTwo(base, entries, Deletes(gone), blobs, c);
    if ApplyAll(base, entries + Deletes(gone), blobs, c).Some? {
      ChangesKeepForm(base, entries, blobs, c);
      NothingUnder(ApplyAll(base, entries, blobs, c).value, gone, blobs, c, a, p);
    }
  }

  lemma {:induction false} ChangesNamed(base: map<Path, Node>, target: map<Path, Node>, order: seq<Path>, c: Codec)
    requires "" !in target && forall p :: p in order ==> p in target
    ensures forall e :: e in Changes(base, target, order, c).0 ==> e.path != ""
  {
    if order != [] {
      var n := |order| - 1;
      assert order[n] in order;
      ChangesNamed(base, target, order[..n], c);
      DescribeNames(base, target, order[n], c, |Changes(base, target, order[..n], c).1|);
      hide Describe;
    }
  }

  lemma DescribeNames(base: map<Path, Node>, target: map<Path, Node>, p: Path, c: Codec, index: nat)
    requires p in target
    ensures forall e :: e in Opt(Describe(base, target, p, c, index).0) ==> e.path == p
  {}

  lemma EntriesApply(base: Tree, target: Tree, order: seq<Path>, gone: seq<Path>, c: Codec)
    requires WellFormed(base) && WellFormed(target) && Lawful(c)
    requires IsSorting(order, target.nodes.Keys) && IsSorting(gone, base.nodes.Keys - target.nodes.Keys)
    requires forall p :: p in target.nodes ==> !LinkAbove(base, p)
    ensures var (entries, blobs) := Changes(base.nodes, target.nodes, order, c);
            ApplyAll(base, entries + Deletes(gone), blobs, c) ==
            if Compatible(base, target.nodes) then Some(Tree(target.nodes, base.dirs + AllAncestors(target.nodes.Keys)))
            else None
  {
    var goal := target.nodes;
    var (entries, blobs) := Changes(base.nodes, goal, order, c);
    assert order[..|order|] == order;
    assert forall p :: p in order <==> p in goal;
    assert forall p :: p in gone <==> p in base.nodes.Keys - goal.Keys;
    assert Names(order) == goal.Keys;
    hide *;
    AntichainOfTree(target);
    AllSafe(target);
    ChangesApply(base, goal, order, |order|, blobs, c);
    ApplyInTwo(base, entries, Deletes(gone), blobs, c);
    CompatibleInOrder(base, goal, order);
    if Compatible(base, goal) {
      GoneAreNodes(base, goal, gone);
      DeletesApply(Mid(base, goal, goal.Keys), gone, blobs, c);
      OnlyTheTargetIsLeft(base, goal, gone);
    }
  }

  lemma AllSafe(t: Tree)
    requires WellFormed(t)
    ensures forall p :: p in t.nodes ==> Safe(p)
  {}

  lemma CompatibleInOrder(base: Tree, target: map<Path, Node>, order: seq<Path>)
    requires forall p :: p in order <==> p in target
    ensures Compatible(base, target) <==> RoomFor(base, target, order, |order|)
  {
    hide Room;
    assert forall i :: 0 <= i < |order| ==> order[i] in order;
  }

  lemma OnlyTheTargetIsLeft(base: Tree, target: map<Path, Node>, gone: seq<Path>)
    requires forall p :: p in gone <==> p in base.nodes.Keys - target.Keys
    ensures var t := Mid(base, target, target.Keys);
            t.(nodes := t.nodes - Names(gone)) == Tree(target, base.dirs + AllAncestors(target.Keys))
  {
    assert Overlay(base.nodes, target, target.Keys) - Names(gone) == target;
  }

  lemma AntichainOfTree(t: Tree)
    requires WellFormed(t)
    ensures Antichain(t.nodes)
  {
    hide Safe, Ancestors;
  }

  lemma GoneAreNodes(base: Tree, target: map<Path, Node>, gone: seq<Path>)
    requires WellFormed(base) && Compatible(base, target)
    requires forall p :: p in gone <==> p in base.nodes.Keys - target.Keys
    ensures forall p :: p in gone ==>
              && Safe(p) && p !in Mid(base, target, target.Keys).dirs
              && Ancestors(p) !! Mid(base, target, target.Keys).nodes.Keys
  {
    hide Safe, Ancestors, Temp;
  }

  /** A file that became a directory: the delta is created, and cannot be applied. */
  lemma FileToDirectoryFails(c: Codec)
    requires Lawful(c)
    ensures var base := Tree(map["a" := File([], 0)], {});
            var target := Tree(map["a/b" := File([], 0)], {"a"});
            Apply(base, DeltaOf(base.nodes, target.nodes, ["a/b"], ["a"], c), c).None?
  {
    var base := Tree(map["a" := File([], 0)], {});
    var target := Tree(map["a/b" := File([], 0)], {"a"});
    assert Ancestors("a") == {};
    assert Ancestors("a/b") == {"a"} by {
      assert "a/b"[1] == '/' && "a/b"[..1] == "a";
    }
    assert "a" in base.nodes && "a/b" in target.nodes && !Room(base, target.nodes, "a/b");
    RoundTrip(base, target, ["a/b"], ["a"], c);
  }
}
