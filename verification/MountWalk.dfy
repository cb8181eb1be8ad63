/** The mount tree as the kernel's lists hold it, and the listing walked from it (src/os/linux/mountinfo.cpp). */
module MountWalk {
  import opened Words
  import opened MountTree

  /** A mount and the mounts visited below it. */
  datatype Tree = Tree(mount: nat, children: seq<Tree>)

  const MAX_DEPTH := 1024

  function Head(h: Heap, t: Tree): nat { t.mount + h.headOff }

  /** The address of the i-th child's link, or of the head after the last. */
  function LinkAt(h: Heap, t: Tree, i: nat): nat {
    if i < |t.children| then t.children[i].mount + h.childOff else Head(h, t)
  }

  // ---------- what the walk visits ----------

  /** The first pointer: a failed read, a null or the head itself mean no children. */
  ghost predicate StartsList(h: Heap, t: Tree) {
    match h.link(Head(h, t))
    case None => t.children == []
    case Some(l) =>
      if t.children == [] then l == 0 || l == Head(h, t) else l == LinkAt(h, t, 0) && l != 0 && l != Head(h, t)
  }

  /** The pointer in child i's link leads to the next child, or ends the list: unreadable, null, the head or itself. */
  ghost predicate Follows(h: Heap, t: Tree, i: nat)
    requires i < |t.children|
  {
    var l, next := LinkAt(h, t, i), h.link(LinkAt(h, t, i));
    if i + 1 < |t.children| then
      next == Some(LinkAt(h, t, i + 1)) && LinkAt(h, t, i + 1) != 0 && LinkAt(h, t, i + 1) != Head(h, t)
      && LinkAt(h, t, i + 1) != l
    else next.None? || next == Some(0) || next == Some(Head(h, t)) || next == Some(l)
  }

  /** The lists in memory read as this tree, cut off at a null mount or past the depth limit. Every list met ends. */
  ghost predicate ReadsAs(h: Heap, t: Tree, depth: nat)
    decreases t
  {
    if t.mount == 0 || depth > 1024 then t.children == []
    else
      && (forall c | c in t.children :: ReadsAs(h, c, depth + 1))
      && StartsList(h, t) && forall i | 0 <= i < |t.children| :: Follows(h, t, i)
  }

  datatype GlobalPath = Path(path: string) | UnknownMount(mount: nat)
  datatype MountInfo = MountInfo(mount: nat, parent: nat, isRoot: bool, path: GlobalPath)

  function InfoOf(h: Heap, mount: nat, parent: nat): MountInfo {
    var isRoot := parent == 0 || parent == mount;
    var point := if h.mntPoint(mount).Some? then h.mntPoint(mount).value else 0;
    MountInfo(mount, parent, isRoot,
      if isRoot then Path("/")
      else if point == 0 then UnknownMount(mount)
      else Path(PathOf(h, point, Some(parent))))
  }

  /** Each mount before its children, children in list order. */
  function Preorder(h: Heap, t: Tree, parent: nat, depth: nat): seq<MountInfo>
    decreases t, 1
  {
    if t.mount == 0 || depth > 1024 then []
    else [InfoOf(h, t.mount, parent)] + PreorderAll(h, t.children, t.mount, depth + 1)
  }

  function PreorderAll(h: Heap, ts: seq<Tree>, parent: nat, depth: nat): seq<MountInfo>
    decreases ts, 0
  {
    if ts == [] then [] else Preorder(h, ts[0], parent, depth) + PreorderAll(h, ts[1..], parent, depth)
  }

  lemma {:induction false} PreorderAppend(h: Heap, ts: seq<Tree>, t: Tree, parent: nat, depth: nat)
    ensures PreorderAll(h, ts + [t], parent, depth) == PreorderAll(h, ts, parent, depth) + Preorder(h, t, parent, depth)
  {
    hide Preorder;
    if ts == [] {
      assert [t][1..] == [] && ts + [t] == [t];
    } else {
      assert (ts + [t])[1..] == ts[1..] + [t];
      PreorderAppend(h, ts[1..], t, parent, depth);
    }
  }

  method ReadMount(h: Heap, mount: nat, parent: nat) returns (info: MountInfo)
    ensures info == InfoOf(h, mount, parent)
  {
    hide PathOf, Parts;
    var isRoot := parent == 0 || parent == mount;
    var path;
    if isRoot {
      path := Path("/");
    } else {
      var point := if h.mntPoint(mount).Some? then h.mntPoint(mount).value else 0;
      var s := DentryToPath(h, point, Some(parent));
      NeverNull(h, point, Some(parent));
      path := if s == "(null)" || s == "" then UnknownMount(mount) else Path(s);
    }
    info := MountInfo(mount, parent, isRoot, path);
  }

  lemma NeverNull(h: Heap, dentry: nat, mount: Option<nat>)
    ensures PathOf(h, dentry, mount) == "(null)" <==> dentry == 0
    ensures PathOf(h, dentry, mount) != ""
  {
    hide Parts;
    if dentry != 0 && h.dentryOk {
      var parts := Parts(h, dentry, mount, GUARD);
      StartsWithSlash(parts);
    }
  }

  lemma {:induction false} StartsWithSlash(parts: seq<string>)
    ensures parts != [] ==> Slashed(parts) != "" && Slashed(parts)[0] == '/'
  {
    if parts != [] {
      StartsWithSlash(parts[1..]);
    }
  }

  lemma PreorderIs(h: Heap, t: Tree, parent: nat, depth: nat)
    ensures Preorder(h, t, parent, depth)
         == if t.mount == 0 || depth > MAX_DEPTH then []
            else [InfoOf(h, t.mount, parent)] + PreorderAll(h, t.children, t.mount, depth + 1)
    ensures PreorderAll(h, t.children[..0], t.mount, depth + 1) == []
  {
    hide InfoOf;
  }

  /** Wherever the lists met come to an end, whatever ends them, the walk lists what they read as. */
  method WalkMountTree(h: Heap, mount: nat, parent: nat, depth: nat, ghost t: Tree, out: seq<MountInfo>)
    returns (more: seq<MountInfo>)
    requires ReadsAs(h, t, depth) && mount == t.mount
    ensures more == out + Preorder(h, t, parent, depth)
    decreases t
  {
    hide ReadsAs, InfoOf, LinkAt, StartsList, Follows, Preorder, PreorderAll;
    PreorderIs(h, t, parent, depth);
    if mount == 0 || depth > MAX_DEPTH { return out; }
    var info := ReadMount(h, mount, parent);
    more := out + [info];
    ListStarts(h, t, depth);
    var head := mount + h.headOff;
    if h.link(head).None? { return; }
    var child := h.link(head).value;
    ghost var i := 0;
    while child != 0 && child != head
      invariant i <= |t.children|
      invariant i < |t.children| ==> child == LinkAt(h, t, i) && child != 0 && child != head
      invariant i == |t.children| ==> child == 0 || child == head
      invariant more == out + [info] + PreorderAll(h, t.children[..i], mount, depth + 1)
      decreases |t.children| - i
    {
      ChildReads(h, t, depth, i);
      var childMount := child - h.childOff;
      more := WalkMountTree(h, childMount, mount, depth + 1, t.children[i], more);
      PreorderAppend(h, t.children[..i], t.children[i], mount, depth + 1);
      assert t.children[..i + 1] == t.children[..i] + [t.children[i]];
      i := i + 1;
      if h.link(child).None? { break; }
      var next := h.link(child).value;
      if next == child { break; }
      child := next;
    }
    assert t.children[..i] == t.children;
    assert out + ([info] + PreorderAll(h, t.children, mount, depth + 1)) == more;
  }

  lemma ListStarts(h: Heap, t: Tree, depth: nat)
    requires ReadsAs(h, t, depth) && t.mount != 0 && depth <= MAX_DEPTH
    ensures match h.link(Head(h, t))
      case None => t.children == []
      case Some(l) =>
        if t.children == [] then l == 0 || l == Head(h, t) else l == LinkAt(h, t, 0) && l != 0 && l != Head(h, t)
  {
  }

  lemma ChildReads(h: Heap, t: Tree, depth: nat, i: nat)
    requires ReadsAs(h, t, depth) && t.mount != 0 && depth <= MAX_DEPTH && i < |t.children|
    ensures ReadsAs(h, t.children[i], depth + 1) && LinkAt(h, t, i) == t.children[i].mount + h.childOff
    ensures var next := h.link(LinkAt(h, t, i));
      if i + 1 < |t.children| then
        next == Some(LinkAt(h, t, i + 1)) && LinkAt(h, t, i + 1) != 0 && LinkAt(h, t, i + 1) != Head(h, t)
        && LinkAt(h, t, i + 1) != LinkAt(h, t, i)
      else next.None? || next == Some(0) || next == Some(Head(h, t)) || next == Some(LinkAt(h, t, i))
  {
    assert t.children[i] in t.children;
    assert Follows(h, t, i);
  }

  // ---------- well-formed lists ----------

  /** Every child list is circular: it starts and ends at its own head, which it does not meet in between. */
  ghost predicate Spells(h: Heap, t: Tree)
    decreases t
  {
    && t.mount != 0
    && (forall c | c in t.children :: Spells(h, c))
    && h.link(Head(h, t)) == Some(LinkAt(h, t, 0))
    && forall i | 0 <= i < |t.children| ::
         LinkAt(h, t, i) != Head(h, t) && h.link(LinkAt(h, t, i)) == Some(LinkAt(h, t, i + 1))
  }

  function Depth(t: Tree): nat
    decreases t, 1
  {
    DepthOf(t.children)
  }

  function DepthOf(ts: seq<Tree>): nat
    decreases ts, 0
  {
    if ts == [] then 0 else Max(1 + Depth(ts[0]), DepthOf(ts[1..]))
  }

  lemma {:induction false} DepthBelow(ts: seq<Tree>, i: nat)
    requires i < |ts|
    ensures 1 + Depth(ts[i]) <= DepthOf(ts)
  {
    if i > 0 {
      DepthBelow(ts[1..], i - 1);
    }
  }

  lemma SpelledChild(h: Heap, t: Tree, i: nat)
    requires Spells(h, t) && i < |t.children|
    ensures Spells(h, t.children[i]) && Depth(t.children[i]) < Depth(t)
    ensures LinkAt(h, t, i) == t.children[i].mount + h.childOff
    ensures LinkAt(h, t, i) != Head(h, t) && h.link(LinkAt(h, t, i)) == Some(LinkAt(h, t, i + 1))
  {
    assert t.children[i] in t.children;
    DepthBelow(t.children, i);
  }

  /** Two places further on in a list that were the same would make the list meet its own head too early. */
  lemma {:induction false} SameIndex(h: Heap, t: Tree, i: nat, j: nat)
    requires Spells(h, t) && i <= j < |t.children| && LinkAt(h, t, i) == LinkAt(h, t, j)
    ensures i == j
    decreases |t.children| - j
  {
    hide Spells, LinkAt;
    if i < j {
      SpelledChild(h, t, i);
      SpelledChild(h, t, j);
      if j + 1 == |t.children| {
        AtHead(h, t);
        SpelledChild(h, t, i + 1);
      } else {
        SameIndex(h, t, i + 1, j + 1);
      }
    }
  }

  lemma AtHead(h: Heap, t: Tree)
    ensures LinkAt(h, t, |t.children|) == Head(h, t)
  {
  }

  /** A well-formed tree under the depth limit is what the walk reads, whole. */
  lemma {:induction false} SpelledReads(h: Heap, t: Tree, depth: nat)
    requires Spells(h, t) && depth + Depth(t) <= MAX_DEPTH
    ensures ReadsAs(h, t, depth)
    decreases t
  {
    hide LinkAt;
    forall c | c in t.children ensures ReadsAs(h, c, depth + 1) {
      var i :| 0 <= i < |t.children| && t.children[i] == c;
      SpelledChild(h, t, i);
      SpelledReads(h, c, depth + 1);
    }
    AtHead(h, t);
    if t.children != [] { ChildNonNull(h, t, 0); }
    forall i | 0 <= i < |t.children| ensures Follows(h, t, i) {
      SpelledChild(h, t, i);
      if i + 1 < |t.children| {
        SpelledChild(h, t, i + 1);
        ChildNonNull(h, t, i + 1);
        if LinkAt(h, t, i) == LinkAt(h, t, i + 1) { SameIndex(h, t, i, i + 1); }
      }
    }
  }

  lemma ChildNonNull(h: Heap, t: Tree, i: nat)
    requires Spells(h, t) && i < |t.children|
    ensures LinkAt(h, t, i) != 0
  {
    assert t.children[i] in t.children && Spells(h, t.children[i]);
  }

  // ---------- memory determines the tree ----------

  lemma {:induction false} SameLists(h: Heap, u: Tree, v: Tree, i: nat)
    requires Spells(h, u) && Spells(h, v) && u.mount == v.mount && i <= |u.children| && i <= |v.children|
    ensures LinkAt(h, u, i) == LinkAt(h, v, i)
  {
    hide Spells, LinkAt;
    if i == 0 {
      ListBegins(h, u);
      ListBegins(h, v);
    } else {
      SameLists(h, u, v, i - 1);
      SpelledChild(h, u, i - 1);
      SpelledChild(h, v, i - 1);
    }
  }

  lemma ListBegins(h: Heap, t: Tree)
    requires Spells(h, t)
    ensures t.mount != 0 && h.link(Head(h, t)) == Some(LinkAt(h, t, 0))
  {
  }

  lemma SameLength(h: Heap, u: Tree, v: Tree)
    requires Spells(h, u) && Spells(h, v) && u.mount == v.mount
    ensures |u.children| == |v.children|
  {
    hide Spells, LinkAt;
    var n := Min(|u.children|, |v.children|);
    SameLists(h, u, v, n);
    AtHead(h, u);
    AtHead(h, v);
    if n < |u.children| { SpelledChild(h, u, n); }
    if n < |v.children| { SpelledChild(h, v, n); }
  }

  /** One mount, one tree below it. */
  lemma {:induction false} SpellsUnique(h: Heap, u: Tree, v: Tree)
    requires Spells(h, u) && Spells(h, v) && u.mount == v.mount
    ensures u == v
    decreases u
  {
    hide Spells, LinkAt;
    SameLength(h, u, v);
    forall i | 0 <= i < |u.children| ensures u.children[i] == v.children[i] {
      SameLists(h, u, v, i);
      SpelledChild(h, u, i);
      SpelledChild(h, v, i);
      SpellsUnique(h, u.children[i], v.children[i]);
    }
    assert u.children == v.children;
  }

  // ---------- places in a tree ----------

  function At(t: Tree, path: seq<nat>): Option<Tree>
    decreases |path|
  {
    if path == [] then Some(t)
    else if path[0] < |t.children| then At(t.children[path[0]], path[1..])
    else None
  }

  lemma {:induction false} AtSnoc(t: Tree, path: seq<nat>)
    requires path != [] && At(t, path).Some?
    ensures var n := |path| - 1;
      var v := At(t, path[..n]);
      v.Some? && path[n] < |v.value.children| && v.value.children[path[n]] == At(t, path).value
    decreases |path|
  {
    if |path| > 1 {
      AtSnoc(t.children[path[0]], path[1..]);
      assert path[1..][..|path| - 2] == path[..|path| - 1][1..];
    } else {
      assert path[1..] == [] && path[..0] == [];
    }
  }

  lemma {:induction false} SpelledAt(h: Heap, t: Tree, path: seq<nat>)
    requires Spells(h, t) && At(t, path).Some?
    ensures Spells(h, At(t, path).value)
    ensures Depth(At(t, path).value) <= Depth(t) && (path != [] ==> Depth(At(t, path).value) < Depth(t))
    decreases |path|
  {
    hide Spells;
    if path != [] {
      SpelledChild(h, t, path[0]);
      SpelledAt(h, t.children[path[0]], path[1..]);
    }
  }

  /** No mount's list head is a mount's link into its parent's list. */
  ghost predicate Apart(h: Heap, t: Tree) {
    forall p, q | At(t, p).Some? && At(t, q).Some? ::
      At(t, p).value.mount + h.headOff != At(t, q).value.mount + h.childOff
  }

  lemma HeadsApart(h: Heap, t: Tree, p: seq<nat>, q: seq<nat>, i: nat)
    requires Apart(h, t) && At(t, p).Some? && At(t, q).Some? && i < |At(t, q).value.children|
    ensures Head(h, At(t, p).value) != LinkAt(h, At(t, q).value, i)
  {
    var path := q + [i];
    AtAppend(t, q, i);
    assert At(t, path).value == At(t, q).value.children[i];
  }

  lemma {:induction false} AtAppend(t: Tree, path: seq<nat>, i: nat)
    requires At(t, path).Some? && i < |At(t, path).value.children|
    ensures At(t, path + [i]) == Some(At(t, path).value.children[i])
    decreases |path|
  {
    if path != [] {
      assert (path + [i])[1..] == path[1..] + [i];
      AtAppend(t.children[path[0]], path[1..], i);
    } else {
      assert ([] + [i])[1..] == [] && ([] + [i])[0] == i;
    }
  }

  /** A link lies in one list only: two mounts that reach the same link own the same list. */
  lemma {:induction false} SameOwner(h: Heap, t: Tree, p: seq<nat>, i: nat, q: seq<nat>, j: nat)
    requires Spells(h, t) && Apart(h, t) && At(t, p).Some? && At(t, q).Some?
    requires i < |At(t, p).value.children| && j < |At(t, q).value.children|
    requires LinkAt(h, At(t, p).value, i) == LinkAt(h, At(t, q).value, j)
    ensures At(t, p).value.mount == At(t, q).value.mount
    decreases |At(t, p).value.children| - i
  {
    hide Spells, LinkAt, Apart, At;
    var u, v := At(t, p).value, At(t, q).value;
    SpelledAt(h, t, p);
    SpelledAt(h, t, q);
    SpelledChild(h, u, i);
    SpelledChild(h, v, j);
    AtHead(h, u);
    AtHead(h, v);
    if i + 1 < |u.children| {
      if j + 1 < |v.children| {
        SameOwner(h, t, p, i + 1, q, j + 1);
      } else {
        HeadsApart(h, t, q, p, i + 1);
      }
    } else if j + 1 < |v.children| {
      HeadsApart(h, t, p, q, j + 1);
    }
  }

  /** Two places with one mount are one place. */
  lemma {:induction false} PlaceUnique(h: Heap, t: Tree, p: seq<nat>, q: seq<nat>)
    requires Spells(h, t) && Apart(h, t) && At(t, p).Some? && At(t, q).Some?
    requires At(t, p).value.mount == At(t, q).value.mount
    ensures p == q
    decreases |p| + |q|
  {
    hide Spells, Apart, LinkAt, At;
    SpelledAt(h, t, p);
    SpelledAt(h, t, q);
    SpellsUnique(h, At(t, p).value, At(t, q).value);
    AtRoot(t);
    if p == [] || q == [] {
      assert p == q;
    } else {
      var m, n := |p| - 1, |q| - 1;
      AtSnoc(t, p);
      AtSnoc(t, q);
      var u, v := At(t, p[..m]).value, At(t, q[..n]).value;
      SpelledAt(h, t, p[..m]);
      SpelledAt(h, t, q[..n]);
      SpelledChild(h, u, p[m]);
      SpelledChild(h, v, q[n]);
      SameOwner(h, t, p[..m], p[m], q[..n], q[n]);
      PlaceUnique(h, t, p[..m], q[..n]);
      SameIndex(h, u, Min(p[m], q[n]), Max(p[m], q[n]));
      assert p == p[..m] + [p[m]] && q == q[..n] + [q[n]];
    }
  }

  lemma AtRoot(t: Tree)
    ensures At(t, []) == Some(t)
  {
  }

  // ---------- each mount once ----------

  /** The mounts of a tree, as often as they stand in it. */
  function Nodes(t: Tree): multiset<nat>
    decreases t, 1
  {
    multiset{t.mount} + NodesOf(t.children)
  }

  function NodesOf(ts: seq<Tree>): multiset<nat>
    decreases ts, 0
  {
    if ts == [] then multiset{} else Nodes(ts[0]) + NodesOf(ts[1..])
  }

  ghost predicate Stands(t: Tree, path: seq<nat>, x: nat) {
    At(t, path).Some? && At(t, path).value.mount == x
  }

  lemma {:induction false} FindOne(t: Tree, x: nat) returns (p: seq<nat>)
    requires x in Nodes(t)
    ensures Stands(t, p, x)
    decreases t, 1
  {
    if t.mount == x {
      p := [];
    } else {
      var i, q := FindOneOf(t.children, x);
      p := [i] + q;
      assert p[1..] == q;
    }
  }

  lemma {:induction false} FindOneOf(ts: seq<Tree>, x: nat) returns (i: nat, p: seq<nat>)
    requires x in NodesOf(ts)
    ensures i < |ts| && Stands(ts[i], p, x)
    decreases ts, 0
  {
    if x in Nodes(ts[0]) {
      i := 0;
      p := FindOne(ts[0], x);
    } else {
      i, p := FindOneOf(ts[1..], x);
      i := i + 1;
    }
  }

  /** A mount counted twice stands at two different places. */
  lemma {:induction false} FindTwo(t: Tree, x: nat) returns (p: seq<nat>, q: seq<nat>)
    requires Nodes(t)[x] >= 2
    ensures p != q && Stands(t, p, x) && Stands(t, q, x)
    decreases t, 1
  {
    if t.mount == x {
      var i, r := FindOneOf(t.children, x);
      p, q := [], [i] + r;
      assert q[1..] == r;
    } else {
      var i, r, j, s := FindTwoOf(t.children, x);
      p, q := [i] + r, [j] + s;
      assert p[1..] == r && q[1..] == s && p[0] == i && q[0] == j;
    }
  }

  lemma {:induction false} FindTwoOf(ts: seq<Tree>, x: nat) returns (i: nat, p: seq<nat>, j: nat, q: seq<nat>)
    requires NodesOf(ts)[x] >= 2
    ensures i < |ts| && j < |ts| && (i != j || p != q) && Stands(ts[i], p, x) && Stands(ts[j], q, x)
    decreases ts, 0
  {
    if Nodes(ts[0])[x] >= 2 {
      p, q := FindTwo(ts[0], x);
      i, j := 0, 0;
    } else if x in Nodes(ts[0]) {
      p := FindOne(ts[0], x);
      j, q := FindOneOf(ts[1..], x);
      i, j := 0, j + 1;
    } else {
      i, p, j, q := FindTwoOf(ts[1..], x);
      i, j := i + 1, j + 1;
    }
  }

  /** In well-formed memory no mount stands in the tree twice. */
  lemma MountsDistinct(h: Heap, t: Tree, x: nat)
    requires Spells(h, t) && Apart(h, t)
    ensures Nodes(t)[x] <= 1
  {
    hide Spells, Apart, Nodes;
    if Nodes(t)[x] >= 2 {
      var p, q := FindTwo(t, x);
      PlaceUnique(h, t, p, q);
    }
  }

  function MountsOf(infos: seq<MountInfo>): seq<nat> {
    seq(|infos|, (i: nat) requires i < |infos| => infos[i].mount)
  }

  lemma MountsConcat(a: seq<MountInfo>, b: seq<MountInfo>)
    ensures MountsOf(a + b) == MountsOf(a) + MountsOf(b)
  {
  }

  lemma {:induction false} ListsTheNodes(h: Heap, t: Tree, parent: nat, depth: nat)
    requires Spells(h, t) && depth + Depth(t) <= MAX_DEPTH
    ensures multiset(MountsOf(Preorder(h, t, parent, depth))) == Nodes(t)
    decreases t, 1
  {
    hide InfoOf, Spells, Depth;
    ListBegins(h, t);
    DepthIs(t);
    var rest := PreorderAll(h, t.children, t.mount, depth + 1);
    forall i | 0 <= i < |t.children| ensures Spells(h, t.children[i]) {
      SpelledChild(h, t, i);
    }
    ListsAllNodes(h, t.children, t.mount, depth + 1);
    MountsConcat([InfoOf(h, t.mount, parent)], rest);
    InfoMount(h, t.mount, parent);
    assert MountsOf([InfoOf(h, t.mount, parent)]) == [t.mount];
  }

  lemma DepthIs(t: Tree)
    ensures Depth(t) == DepthOf(t.children)
  {
  }

  lemma {:induction false} ListsAllNodes(h: Heap, ts: seq<Tree>, parent: nat, depth: nat)
    requires depth + DepthOf(ts) <= MAX_DEPTH + 1 && forall i | 0 <= i < |ts| :: Spells(h, ts[i])
    ensures multiset(MountsOf(PreorderAll(h, ts, parent, depth))) == NodesOf(ts)
    decreases ts, 0
  {
    hide Spells, Depth, Preorder, Nodes;
    if ts == [] {
      assert MountsOf(PreorderAll(h, ts, parent, depth)) == [];
    } else {
      ListsTheNodes(h, ts[0], parent, depth);
      ListsAllNodes(h, ts[1..], parent, depth);
      MountsConcat(Preorder(h, ts[0], parent, depth), PreorderAll(h, ts[1..], parent, depth));
    }
  }

  lemma InfoMount(h: Heap, mount: nat, parent: nat)
    ensures InfoOf(h, mount, parent).mount == mount && InfoOf(h, mount, parent).parent == parent
  {
  }

  /** The listing names every mount of a well-formed tree exactly once. */
  lemma EachMountOnce(h: Heap, t: Tree)
    requires Spells(h, t) && Apart(h, t) && Depth(t) <= MAX_DEPTH
    ensures var listed := multiset(MountsOf(Preorder(h, t, 0, 0)));
      listed == Nodes(t) && forall x :: listed[x] <= 1
  {
    hide Spells, Apart, Nodes, Preorder, MountsOf;
    ListsTheNodes(h, t, 0, 0);
    forall x ensures Nodes(t)[x] <= 1 {
      MountsDistinct(h, t, x);
    }
  }

  // ---------- every listed path ----------

  /** Below parent p every mount hangs on its chain and walks up under the guard; n steps are used by p's own. */
  ghost predicate Mounted(h: Heap, t: Tree, p: nat, chain: nat -> seq<nat>, n: nat)
    decreases t
  {
    && t.mount != 0 && HangsOn(h, t.mount, p, chain(t.mount)) && |chain(t.mount)| + n <= GUARD
    && forall c | c in t.children :: Mounted(h, c, t.mount, chain, |chain(t.mount)| + n)
  }

  /** The root mount is its own parent; all others are mounted below it. */
  ghost predicate Forest(h: Heap, t: Tree, chain: nat -> seq<nat>) {
    && h.dentryOk && t.mount != 0 && h.mntParent(t.mount) == Some(t.mount)
    && forall c | c in t.children :: Mounted(h, c, t.mount, chain, 0)
  }

  /** A listed mount shows the path its names make. */
  ghost predicate Shows(h: Heap, e: MountInfo, mount: nat) {
    e.mount == mount && e.path == Path(Join(MountParts(h, mount)))
  }

  /** A listed mount's parent is listed, and its path is the parent's with the path inside the parent appended. */
  ghost predicate Composed(h: Heap, chain: nat -> seq<nat>, e: MountInfo, listing: seq<MountInfo>) {
    exists q :: q in listing && q.mount == e.parent && q.path.Path? && e.path.Path?
      && e.path.path == Under(q.path.path, Slashed(Names(h, chain(e.mount))))
  }

  lemma MountedShows(h: Heap, t: Tree, p: nat, chain: nat -> seq<nat>, n: nat)
    requires Mounted(h, t, p, chain, n) && h.dentryOk && MountEnds(h, p, n)
    ensures Shows(h, InfoOf(h, t.mount, p), t.mount) && MountEnds(h, t.mount, |chain(t.mount)| + n)
    ensures Join(MountParts(h, t.mount)) == Under(Join(MountParts(h, p)), Slashed(Names(h, chain(t.mount))))
  {
    hide Join, Names, Parts, Ends, MountEnds, Chain;
    ChainStart(h, chain(t.mount));
    MountPathComposes(h, t.mount, p, chain(t.mount), n);
  }

  lemma {:induction false} BelowComposed(h: Heap, t: Tree, p: nat, chain: nat -> seq<nat>, n: nat, depth: nat,
                                         pe: MountInfo, listing: seq<MountInfo>)
    requires Mounted(h, t, p, chain, n) && h.dentryOk && MountEnds(h, p, n)
    requires pe in listing && Shows(h, pe, p)
    requires forall e | e in Preorder(h, t, p, depth) :: e in listing
    ensures forall e | e in Preorder(h, t, p, depth) :: Composed(h, chain, e, listing)
    decreases t, 1
  {
    hide Mounted, Shows, MountEnds, Composed, InfoOf, Preorder, PreorderAll, Join, Names, Slashed, Under;
    var me := InfoOf(h, t.mount, p);
    MountedShows(h, t, p, chain, n);
    PreorderHas(h, t, p, depth);
    if t.mount != 0 && depth <= MAX_DEPTH {
      InfoMount(h, t.mount, p);
      MeComposed(h, t.mount, p, chain, pe, me, listing);
      MountedChildren(h, t, p, chain, n);
      AllComposed(h, t.children, t.mount, chain, |chain(t.mount)| + n, depth + 1, me, listing);
    }
  }

  lemma PreorderHas(h: Heap, t: Tree, parent: nat, depth: nat)
    ensures forall e :: e in Preorder(h, t, parent, depth) <==>
      t.mount != 0 && depth <= MAX_DEPTH
      && (e == InfoOf(h, t.mount, parent) || e in PreorderAll(h, t.children, t.mount, depth + 1))
  {
    hide InfoOf, PreorderAll;
  }

  lemma MeComposed(h: Heap, mount: nat, p: nat, chain: nat -> seq<nat>, pe: MountInfo, me: MountInfo,
                   listing: seq<MountInfo>)
    requires pe in listing && Shows(h, pe, p) && Shows(h, me, mount) && me.parent == p
    requires Join(MountParts(h, mount)) == Under(Join(MountParts(h, p)), Slashed(Names(h, chain(mount))))
    ensures Composed(h, chain, me, listing)
  {
    hide Join, Names, Slashed, Under, MountParts;
  }

  lemma MountedChildren(h: Heap, t: Tree, p: nat, chain: nat -> seq<nat>, n: nat)
    requires Mounted(h, t, p, chain, n)
    ensures forall i | 0 <= i < |t.children| :: Mounted(h, t.children[i], t.mount, chain, |chain(t.mount)| + n)
  {
    forall i | 0 <= i < |t.children| ensures Mounted(h, t.children[i], t.mount, chain, |chain(t.mount)| + n) {
      assert t.children[i] in t.children;
    }
  }

  lemma {:induction false} AllComposed(h: Heap, ts: seq<Tree>, p: nat, chain: nat -> seq<nat>, n: nat, depth: nat,
                                       pe: MountInfo, listing: seq<MountInfo>)
    requires (forall i | 0 <= i < |ts| :: Mounted(h, ts[i], p, chain, n)) && h.dentryOk && MountEnds(h, p, n)
    requires pe in listing && Shows(h, pe, p)
    requires forall e | e in PreorderAll(h, ts, p, depth) :: e in listing
    ensures forall e | e in PreorderAll(h, ts, p, depth) :: Composed(h, chain, e, listing)
    decreases ts, 0
  {
    hide Mounted, Shows, MountEnds, Composed, Preorder;
    if ts != [] {
      BelowComposed(h, ts[0], p, chain, n, depth, pe, listing);
      AllComposed(h, ts[1..], p, chain, n, depth, pe, listing);
    }
  }

  /** In a forest under the guard every listed mount but the root shows its parent's path and its place in it. */
  lemma ListedPathsCompose(h: Heap, t: Tree, chain: nat -> seq<nat>)
    requires Forest(h, t, chain)
    ensures var listing := Preorder(h, t, 0, 0);
      && listing != [] && listing[0] == MountInfo(t.mount, 0, true, Path("/"))
      && forall i | 0 < i < |listing| :: Composed(h, chain, listing[i], listing)
  {
    hide Mounted, Composed, Parts;
    var listing := Preorder(h, t, 0, 0);
    var rest := PreorderAll(h, t.children, t.mount, 1);
    assert listing == [InfoOf(h, t.mount, 0)] + rest;
    AllComposed(h, t.children, t.mount, chain, 0, 1, listing[0], listing);
    forall i | 0 < i < |listing| ensures Composed(h, chain, listing[i], listing) {
      assert listing[i] == rest[i - 1] && rest[i - 1] in rest;
    }
  }

  /** The listing of a well-formed mount namespace: preorder, each mount once, every path composed. */
  method EnumerateMounts(h: Heap, root: nat, ghost t: Tree, ghost chain: nat -> seq<nat>) returns (out: seq<MountInfo>)
    requires root == t.mount && Spells(h, t) && Apart(h, t) && Depth(t) <= MAX_DEPTH && Forest(h, t, chain)
    ensures out == Preorder(h, t, 0, 0)
    ensures forall x :: multiset(MountsOf(out))[x] == if x in Nodes(t) then 1 else 0
    ensures out != [] && out[0] == MountInfo(root, 0, true, Path("/"))
    ensures forall i | 0 < i < |out| :: Composed(h, chain, out[i], out)
  {
    hide Spells, Apart, Forest, Preorder, Nodes, Composed, MountsOf;
    SpelledReads(h, t, 0);
    out := WalkMountTree(h, root, 0, 0, t, []);
    assert [] + Preorder(h, t, 0, 0) == Preorder(h, t, 0, 0);
    EachMountOnce(h, t);
    ListedPathsCompose(h, t, chain);
  }
}
