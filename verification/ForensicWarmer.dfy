/** Choosing and ordering the files to warm (src/vfs/forensic_warmer.cpp, src/vfs/vfs.h). */
module ForensicWarmer {
  import opened Words

  datatype Compute = Trivial | Cheap | Expensive
  datatype Mem = Small | Large
  datatype Category = NoCategory | SystemInfo | ThreatHunt | PerProcess | Yara
  datatype FileCost = FileCost(compute: Compute, mem: Mem, category: Category) {
    predicate WorthWarming() { compute.Expensive? && mem.Small? }
  }

  datatype Node =
    | Dir(name: string, children: seq<Node>)
    | File(name: string, cost: FileCost, warmable: bool, id: nat)

  /** Which categories are enabled, and whether a whole-tree precompute was asked for. */
  datatype Policy = Policy(warmAll: bool, mask: set<Category>)

  const HEAVY_NAMES: set<string> := {"proc", "files", "fs", "search", "forensic", "pagecache"}

  // ---------- the selection, file by file ----------

  /** A file and the names of all directories above it. */
  datatype Placed = Placed(file: Node, above: seq<string>)

  function AllFiles(node: Node, above: seq<string>): seq<Placed>
    decreases node, 1
  {
    match node
    case File(_, _, _, _) => [Placed(node, above)]
    case Dir(name, children) => FilesBelow(children, above + [name])
  }

  function FilesBelow(nodes: seq<Node>, above: seq<string>): seq<Placed>
    decreases nodes, 0
  {
    if nodes == [] then [] else AllFiles(nodes[0], above) + FilesBelow(nodes[1..], above)
  }

  /** Heaviness is inherited from any ancestor. */
  predicate UnderHeavy(above: seq<string>) {
    exists n :: n in above && n in HEAVY_NAMES
  }

  predicate HeavyCategory(c: Category) {
    c.ThreatHunt? || c.PerProcess? || c.Yara?
  }

  predicate Wanted(p: Policy, f: Placed)
    requires f.file.File?
  {
    var c := f.file.cost;
    if p.warmAll then
      f.file.warmable && c.mem.Small?
      && ((UnderHeavy(f.above) || HeavyCategory(c.category)) ==> HeavyCategory(c.category) && c.category in p.mask)
    else c.WorthWarming() && c.category in p.mask
  }

  ghost predicate AreFiles(fs: seq<Placed>) {
    forall f | f in fs :: f.file.File?
  }

  function Select(p: Policy, fs: seq<Placed>): seq<Node>
    requires AreFiles(fs)
  {
    if fs == [] then []
    else
      (if Wanted(p, fs[0]) then [fs[0].file] else []) + Select(p, fs[1..])
  }

  lemma {:induction false} FilesAreFiles(node: Node, above: seq<string>)
    ensures AreFiles(AllFiles(node, above))
    decreases node, 1
  {
    if node.Dir? {
      BelowAreFiles(node.children, above + [node.name]);
    }
  }

  lemma {:induction false} BelowAreFiles(nodes: seq<Node>, above: seq<string>)
    ensures AreFiles(FilesBelow(nodes, above))
    decreases nodes, 0
  {
    if nodes != [] {
      FilesAreFiles(nodes[0], above);
      BelowAreFiles(nodes[1..], above);
    }
  }

  lemma {:induction false} SelectConcat(p: Policy, fs: seq<Placed>, gs: seq<Placed>)
    requires AreFiles(fs) && AreFiles(gs)
    ensures AreFiles(fs + gs) && Select(p, fs + gs) == Select(p, fs) + Select(p, gs)
  {
    hide Wanted;
    if fs == [] {
      assert fs + gs == gs;
    } else {
      SelectConcat(p, fs[1..], gs);
      assert (fs + gs)[1..] == fs[1..] + gs;
    }
  }

  // ---------- ordering ----------

  function Rank(n: Node): nat
    requires n.File?
  {
    (if n.cost.compute.Expensive? then 1 else 0) + (if n.cost.mem.Large? then 2 else 0)
  }

  ghost predicate Files(ns: seq<Node>) {
    forall n | n in ns :: n.File?
  }

  function OfRank(ns: seq<Node>, r: nat): (t: seq<Node>)
    requires Files(ns)
    ensures Files(t) && forall n | n in t :: n in ns && Rank(n) == r
  {
    if ns == [] then []
    else (if Rank(ns[0]) == r then [ns[0]] else []) + OfRank(ns[1..], r)
  }

  /** Cheapest first, files of equal rank in the order they were collected. */
  function StableSorted(ns: seq<Node>): seq<Node>
    requires Files(ns)
  {
    OfRank(ns, 0) + OfRank(ns, 1) + OfRank(ns, 2) + OfRank(ns, 3)
  }

  ghost predicate SortedByRank(ns: seq<Node>)
    requires Files(ns)
  {
    forall i, j | 0 <= i < j < |ns| :: Rank(ns[i]) <= Rank(ns[j])
  }

  lemma {:induction false} OfRankConcat(a: seq<Node>, b: seq<Node>, r: nat)
    requires Files(a) && Files(b)
    ensures Files(a + b) && OfRank(a + b, r) == OfRank(a, r) + OfRank(b, r)
  {
    hide Rank, OfRank;
    if a == [] {
      OfRankNone();
      assert a + b == b;
    } else {
      assert (a + b)[1..] == a[1..] + b && (a + b)[0] == a[0];
      OfRankStep(a, r);
      OfRankStep(a + b, r);
      OfRankConcat(a[1..], b, r);
    }
  }

  lemma OfRankStep(ns: seq<Node>, r: nat)
    requires Files(ns) && ns != []
    ensures OfRank(ns, r) == (if Rank(ns[0]) == r then [ns[0]] else []) + OfRank(ns[1..], r)
  {
    hide Rank;
  }

  lemma {:induction false} OfRankUniform(ns: seq<Node>, q: nat, r: nat)
    requires Files(ns) && forall n | n in ns :: Rank(n) == q
    ensures OfRank(ns, r) == if q == r then ns else []
  {
    if ns != [] {
      OfRankUniform(ns[1..], q, r);
    }
  }

  lemma {:induction false} OfRankMultiset(ns: seq<Node>)
    requires Files(ns)
    ensures multiset(ns)
         == multiset(OfRank(ns, 0)) + multiset(OfRank(ns, 1)) + multiset(OfRank(ns, 2)) + multiset(OfRank(ns, 3))
  {
    hide OfRank, Rank;
    if ns == [] {
      OfRankNone();
    } else {
      OfRankMultiset(ns[1..]);
      assert ns == [ns[0]] + ns[1..];
      RankBelow4(ns[0]);
      OfRankFirst(ns, 0);
      OfRankFirst(ns, 1);
      OfRankFirst(ns, 2);
      OfRankFirst(ns, 3);
    }
  }

  lemma OfRankNone()
    ensures forall r :: OfRank([], r) == []
  {
  }

  lemma RankBelow4(n: Node)
    requires n.File?
    ensures Rank(n) < 4
  {
  }

  lemma OfRankFirst(ns: seq<Node>, r: nat)
    requires Files(ns) && ns != []
    ensures multiset(OfRank(ns, r))
         == (if Rank(ns[0]) == r then multiset{ns[0]} else multiset{}) + multiset(OfRank(ns[1..], r))
  {
    hide Rank, OfRank;
    OfRankStep(ns, r);
  }

  /** A permutation, ascending, and stable: files of one rank keep their relative order. */
  lemma StableSortedIs(ns: seq<Node>)
    requires Files(ns)
    ensures var t := StableSorted(ns);
      && Files(t) && SortedByRank(t) && multiset(t) == multiset(ns)
      && forall r :: OfRank(t, r) == OfRank(ns, r)
  {
    hide OfRank, Rank;
    var a, b, c, d := OfRank(ns, 0), OfRank(ns, 1), OfRank(ns, 2), OfRank(ns, 3);
    OfRankMultiset(ns);
    forall r: nat ensures OfRank(a + b + c + d, r) == OfRank(ns, r) {
      OfRankConcat(a, b, r);
      OfRankConcat(a + b, c, r);
      OfRankConcat(a + b + c, d, r);
      OfRankUniform(a, 0, r);
      OfRankUniform(b, 1, r);
      OfRankUniform(c, 2, r);
      OfRankUniform(d, 3, r);
      if r > 3 {
        NoHigherRank(ns, r);
      }
    }
  }

  lemma {:induction false} NoHigherRank(ns: seq<Node>, r: nat)
    requires Files(ns) && r > 3
    ensures OfRank(ns, r) == []
  {
    if ns != [] {
      NoHigherRank(ns[1..], r);
    }
  }

  /** Those properties leave only one result: any stable sort by rank gives it. */
  lemma {:induction false} StableSortUnique(s: seq<Node>, t: seq<Node>)
    requires Files(s) && Files(t) && SortedByRank(s) && SortedByRank(t)
    requires forall r :: OfRank(s, r) == OfRank(t, r)
    ensures s == t
    decreases |s|
  {
    if s == [] {
      NothingOfAnyRank(t, s);
    } else {
      hide Rank, OfRank;
      SameHead(s, t);
      forall r: nat ensures OfRank(s[1..], r) == OfRank(t[1..], r) {
        TailRank(s, r);
        TailRank(t, r);
        assert OfRank(s, r) == OfRank(t, r);
      }
      StableSortUnique(s[1..], t[1..]);
      assert s == [s[0]] + s[1..] && t == [t[0]] + t[1..];
    }
  }

  lemma NothingOfAnyRank(t: seq<Node>, none: seq<Node>)
    requires Files(t) && none == [] && forall r :: OfRank(none, r) == OfRank(t, r)
    ensures t == []
  {
    if t != [] {
      TailRank(t, Rank(t[0]));
    }
  }

  lemma TailRank(s: seq<Node>, r: nat)
    requires Files(s) && s != []
    ensures Rank(s[0]) == r ==> OfRank(s, r) != [] && OfRank(s, r)[0] == s[0]
    ensures OfRank(s[1..], r) == if Rank(s[0]) == r then OfRank(s, r)[1..] else OfRank(s, r)
  {
    hide Rank;
    if Rank(s[0]) == r {
      assert OfRank(s, r) == [s[0]] + OfRank(s[1..], r);
    } else {
      assert OfRank(s, r) == [] + OfRank(s[1..], r);
    }
  }

  lemma SameHead(s: seq<Node>, t: seq<Node>)
    requires Files(s) && Files(t) && SortedByRank(s) && SortedByRank(t) && s != []
    requires forall r :: OfRank(s, r) == OfRank(t, r)
    ensures t != [] && s[0] == t[0]
  {
    hide Rank, OfRank, SortedByRank;
    var q := Rank(s[0]);
    TailRank(s, q);
    assert OfRank(s, q)[0] in OfRank(t, q);
    HeadNotAbove(t, s);
    HeadNotAbove(s, t);
    TailRank(t, q);
  }

  lemma HeadNotAbove(s: seq<Node>, t: seq<Node>)
    requires Files(s) && Files(t) && SortedByRank(s) && s != [] && t != []
    requires forall r :: OfRank(s, r) == OfRank(t, r)
    ensures Rank(s[0]) <= Rank(t[0])
  {
    hide Rank, OfRank, SortedByRank;
    var r := Rank(t[0]);
    TailRank(t, r);
    assert OfRank(t, r)[0] in OfRank(s, r);
    LeastFirst(s, t[0]);
  }

  lemma LeastFirst(s: seq<Node>, n: Node)
    requires Files(s) && SortedByRank(s) && n in s
    ensures Rank(s[0]) <= Rank(n)
  {
  }

  // ---------- the order, spelled out ----------

  /** Files for small memory before those for large, and of these the expensive ones last. */
  ghost predicate NotAfter(a: Node, b: Node)
    requires a.File? && b.File?
  {
    if a.cost.mem == b.cost.mem then a.cost.compute.Expensive? ==> b.cost.compute.Expensive?
    else a.cost.mem.Small? && b.cost.mem.Large?
  }

  /** The files of one class of cost, in the order they come. */
  function OfClass(ns: seq<Node>, expensive: bool, large: bool): seq<Node>
    requires Files(ns)
  {
    if ns == [] then []
    else
      (if ns[0].cost.compute.Expensive? == expensive && ns[0].cost.mem.Large? == large then [ns[0]] else [])
      + OfClass(ns[1..], expensive, large)
  }

  lemma {:induction false} ClassIsRank(ns: seq<Node>, expensive: bool, large: bool)
    requires Files(ns)
    ensures OfClass(ns, expensive, large) == OfRank(ns, (if expensive then 1 else 0) + if large then 2 else 0)
  {
    if ns != [] {
      ClassIsRank(ns[1..], expensive, large);
    }
  }

  /** Cheapest-first means this order, with the same files, and each class as it was collected. */
  ghost predicate InCostOrder(t: seq<Node>, ns: seq<Node>)
    requires Files(t) && Files(ns)
  {
    && (forall i, j | 0 <= i < j < |t| :: NotAfter(t[i], t[j]))
    && multiset(t) == multiset(ns)
    && forall expensive, large :: OfClass(t, expensive, large) == OfClass(ns, expensive, large)
  }

  lemma StableSortedOrder(ns: seq<Node>)
    requires Files(ns)
    ensures Files(StableSorted(ns)) && InCostOrder(StableSorted(ns), ns)
  {
    hide StableSorted, OfRank, OfClass;
    var t := StableSorted(ns);
    StableSortedIs(ns);
    forall expensive, large ensures OfClass(t, expensive, large) == OfClass(ns, expensive, large) {
      ClassIsRank(t, expensive, large);
      ClassIsRank(ns, expensive, large);
    }
  }

  // ---------- the class up to launching ----------

  class Warmer {
    const policy: Policy
    var targets: seq<Node>
    var workers: nat

    constructor (policy: Policy)
      ensures this.policy == policy && targets == []
    {
      this.policy := policy;
      targets, workers := [], 0;
    }

    /** Appends exactly the wanted files below a node, in listing order. */
    method Collect(node: Node, heavySubtree: bool, ghost above: seq<string>)
      requires heavySubtree == UnderHeavy(above)
      modifies this`targets
      ensures AreFiles(AllFiles(node, above))
      ensures targets == old(targets) + Select(policy, AllFiles(node, above))
      decreases node
    {
      hide AllFiles, FilesBelow, Select, UnderHeavy;
      FilesAreFiles(node, above);
      FilesOf(node, above);
      if node.Dir? {
        var nm := node.name;
        var heavy := heavySubtree
          || nm == "proc" || nm == "files" || nm == "fs" || nm == "search" || nm == "forensic" || nm == "pagecache";
        ghost var inside := above + [node.name];
        HeavyBelow(above, node.name);
        BelowAreFiles(node.children, inside);
        NoFilesBelow(policy, node.children, inside);
        for i := 0 to |node.children|
          invariant AreFiles(FilesBelow(node.children[..i], inside))
          invariant targets == old(targets) + Select(policy, FilesBelow(node.children[..i], inside))
        {
          Collect(node.children[i], heavy, inside);
          OneMoreChild(policy, node.children, i, inside);
        }
        assert node.children[..|node.children|] == node.children;
        return;
      }
      var c := node.cost;
      var want;
      if policy.warmAll {
        var heavyCat := c.category.ThreatHunt? || c.category.PerProcess? || c.category.Yara?;
        if !node.warmable || c.mem.Large? {
          want := false;
        } else if heavySubtree || heavyCat {
          want := heavyCat && c.category in policy.mask;
        } else {
          want := true;
        }
      } else {
        want := c.compute.Expensive? && c.mem.Small? && c.category in policy.mask;
      }
      if want { targets := targets + [node]; }
      SelectOne(policy, Placed(node, above));
    }

    /** Sorts the targets and picks the number of workers: at least one, at most one per target. */
    method Launch(jobs: nat, hardwareConcurrency: nat)
      requires Files(targets)
      modifies this
      ensures old(targets) == [] ==> targets == [] && workers == old(workers)
      ensures old(targets) != [] ==>
        && targets == StableSorted(old(targets)) && Files(targets) && InCostOrder(targets, old(targets))
        && 1 <= workers <= |targets|
        && var hw := if hardwareConcurrency != 0 then hardwareConcurrency else 2;
        workers == Min(if jobs != 0 then jobs else Min(hw, 4), |targets|)
    {
      hide StableSorted, SortedByRank, OfRank, InCostOrder;
      if targets == [] { return; }
      StableSortedIs(targets);
      StableSortedOrder(targets);
      assert |multiset(StableSorted(targets))| == |multiset(targets)|;
      targets := StableSorted(targets);
      var hw := hardwareConcurrency;
      var n := if jobs != 0 then jobs else Min(if hw != 0 then hw else 2, 4);
      workers := Min(n, |targets|);
    }
  }

  lemma FilesOf(node: Node, above: seq<string>)
    ensures AllFiles(node, above)
         == match node
            case File(_, _, _, _) => [Placed(node, above)]
            case Dir(name, children) => FilesBelow(children, above + [name])
  {
  }

  lemma NoFilesBelow(p: Policy, nodes: seq<Node>, above: seq<string>)
    ensures FilesBelow(nodes[..0], above) == [] && Select(p, []) == []
  {
  }

  lemma SelectOne(p: Policy, f: Placed)
    requires f.file.File?
    ensures AreFiles([f]) && Select(p, [f]) == if Wanted(p, f) then [f.file] else []
  {
    hide Wanted;
    assert [f][1..] == [];
  }

  lemma HeavyBelow(above: seq<string>, name: string)
    ensures UnderHeavy(above + [name]) <==> UnderHeavy(above) || name in HEAVY_NAMES
  {
    var more := above + [name];
    assert forall n :: n in more <==> n in above || n == name;
    assert name in more;
  }

  lemma {:induction false} OneMoreChild(p: Policy, nodes: seq<Node>, i: nat, above: seq<string>)
    requires i < |nodes|
    ensures AreFiles(FilesBelow(nodes[..i], above)) && AreFiles(AllFiles(nodes[i], above))
    ensures AreFiles(FilesBelow(nodes[..i + 1], above))
    ensures Select(p, FilesBelow(nodes[..i + 1], above))
         == Select(p, FilesBelow(nodes[..i], above)) + Select(p, AllFiles(nodes[i], above))
  {
    BelowAreFiles(nodes[..i], above);
    BelowAreFiles(nodes[..i + 1], above);
    FilesAreFiles(nodes[i], above);
    BelowAppend(nodes[..i], nodes[i], above);
    assert nodes[..i + 1] == nodes[..i] + [nodes[i]];
    SelectConcat(p, FilesBelow(nodes[..i], above), AllFiles(nodes[i], above));
  }

  lemma {:induction false} BelowAppend(nodes: seq<Node>, n: Node, above: seq<string>)
    ensures FilesBelow(nodes + [n], above) == FilesBelow(nodes, above) + AllFiles(n, above)
  {
    if nodes == [] {
      assert FilesBelow([n], above) == AllFiles(n, above) + FilesBelow([], above);
      assert nodes + [n] == [n];
    } else {
      BelowAppend(nodes[1..], n, above);
      assert (nodes + [n])[1..] == nodes[1..] + [n];
    }
  }
}
