/**
 In-memory directories with unique child names (src/vfs/vfs.h, src/vfs/vfs.cpp) and
 the marker-resumed paging that needs them (src/mount/winfsp_mount.cpp).
 */
module DirNode {
  import opened Words

  /** A node of the tree; only a directory's children and names are used. */
  class Node {
    const name: string
    const isDir: bool
    var children: seq<Node>
    var names: set<string>

    constructor (name: string, isDir: bool)
      ensures Valid() && this.name == name && this.isDir == isDir && children == []
    {
      this.name, this.isDir := name, isDir;
      children, names := [], {};
    }

    /** Child names are unique, and the name set lists them. */
    ghost predicate Valid()
      reads this
    {
      && (forall n :: n in names <==> HasName(children, n))
      && forall i, j | 0 <= i < j < |children| :: children[i].name != children[j].name
    }

    /** Keep-first insertion: a name already present, or no child, changes nothing. */
    method Add(child: Node?)
      requires Valid()
      modifies this
      ensures Valid()
      ensures child == null || child.name in old(names) ==> children == old(children)
      ensures child != null && child.name !in old(names) ==> children == old(children) + [child]
    {
      if child == null { return; }
      if child.name in names { return; }
      ghost var before := children;
      names := names + {child.name};
      children := children + [child];
      assert forall c :: c in children <==> c in before || c == child;
    }

    method Find(n: string) returns (r: Node?)
      requires Valid()
      ensures r == null <==> n !in names
      ensures r != null ==> r in children && r.name == n
    {
      for i := 0 to |children|
        invariant forall k | 0 <= k < i :: children[k].name != n
      {
        if children[i].name == n { return children[i]; }
      }
      return null;
    }

    /** The child directory of that name: found, or put in place of a file, or appended. */
    method EnsureDirChild(n: string) returns (d: Node)
      requires Valid()
      modifies this
      ensures Valid() && d in children && d.name == n && d.isDir
      ensures n !in old(names) ==> fresh(d) && children == old(children) + [d]
      ensures n in old(names) ==> exists i | 0 <= i < |old(children)| ::
        && old(children)[i].name == n
        && children == old(children)[i := d]
        && if old(children)[i].isDir then d == old(children)[i] else fresh(d)
      ensures fresh(d) ==> d.Valid() && d.children == []
    {
      for i := 0 to |children|
        invariant children == old(children) && names == old(names)
        invariant forall k | 0 <= k < i :: children[k].name != n
      {
        var c := children[i];
        if c.name == n {
          if c.isDir {
            assert children == children[i := c];
            return c;
          }
          d := new Node(n, true);
          Replaced(children, i, d);
          children := children[i := d];
          assert children[i] == d;
          return;
        }
      }
      d := new Node(n, true);
      ghost var before := children;
      children := children + [d];
      names := names + {n};
      assert forall c :: c in children <==> c in before || c == d;
    }

    /** The names a listing gives, in order. */
    method List() returns (ns: seq<string>)
      requires Valid()
      ensures |ns| == |children| && forall i | 0 <= i < |ns| :: ns[i] == children[i].name
      ensures Distinct(ns)
    {
      ns := [];
      for i := 0 to |children|
        invariant |ns| == i && forall k | 0 <= k < i :: ns[k] == children[k].name
      {
        ns := ns + [children[i].name];
      }
    }
  }

  ghost predicate HasName(cs: seq<Node>, n: string) {
    exists c :: c in cs && c.name == n
  }

  lemma Replaced(cs: seq<Node>, i: nat, d: Node)
    requires i < |cs| && cs[i].name == d.name
    ensures forall n :: HasName(cs, n) <==> HasName(cs[i := d], n)
  {
    var cs' := cs[i := d];
    forall n ensures HasName(cs, n) <==> HasName(cs', n) {
      if c :| c in cs && c.name == n {
        var k :| 0 <= k < |cs| && cs[k] == c;
        assert cs'[k] in cs' && cs'[k].name == n;
      }
      if c :| c in cs' && c.name == n {
        var k :| 0 <= k < |cs'| && cs'[k] == c;
        assert cs[k] in cs && cs[k].name == n;
      }
    }
  }

  ghost predicate Distinct<T>(s: seq<T>) {
    forall i, j | 0 <= i < j < |s| :: s[i] != s[j]
  }

  // ---------- paged enumeration ----------

  /** A name as the mount sees it. */
  type Wide = seq<nat>

  /** The mount's two conversions: a name to UTF-16, and the buffer space an entry takes. */
  datatype Mount = Mount(wide: string -> Wide, size: Wide -> nat)

  /** Where a listing resumes: after the first entry that matches the marker. */
  function Resume(ns: seq<Wide>, marker: Option<Wide>): (p: nat)
    ensures p <= |ns|
  {
    if marker.None? then 0 else AfterFirst(ns, marker.value)
  }

  function AfterFirst(ns: seq<Wide>, m: Wide): (p: nat)
    ensures p <= |ns|
    ensures m in ns ==> 0 < p && ns[p - 1] == m && forall k | 0 <= k < p - 1 :: ns[k] != m
    ensures m !in ns ==> p == |ns|
  {
    if ns == [] then 0 else if ns[0] == m then 1 else 1 + AfterFirst(ns[1..], m)
  }

  function WideNames(ns: seq<string>, mt: Mount): (ws: seq<Wide>)
    ensures |ws| == |ns| && forall i | 0 <= i < |ns| :: ws[i] == mt.wide(ns[i])
  {
    seq(|ns|, i requires 0 <= i < |ns| => mt.wide(ns[i]))
  }

  function TotalSize(ws: seq<Wide>, mt: Mount): nat {
    if ws == [] then 0 else TotalSize(ws[..|ws| - 1], mt) + mt.size(ws[|ws| - 1])
  }

  /**
   One page: the entries after the marker, as many in a row as the buffer holds.
   The end is reported only when they have all been emitted.
   */
  method ReadDirectory(ns: seq<string>, marker: Option<Wide>, mt: Mount, capacity: nat)
    returns (page: seq<Wide>, end: bool)
    ensures var ws := WideNames(ns, mt); var p := Resume(ws, marker);
      && p + |page| <= |ws| && page == ws[p..p + |page|] && TotalSize(page, mt) <= capacity
      && (end <==> p + |page| == |ws|)
      && (!end ==> TotalSize(page, mt) + mt.size(ws[p + |page|]) > capacity)
  {
    hide TotalSize, Resume, AfterFirst, WideNames;
    ghost var ws := WideNames(ns, mt);
    ghost var p := Resume(ws, marker);
    ResumeIs(ws, marker);
    NothingTotal(mt);
    var past := marker.None?;
    var used := 0;
    page := [];
    for i := 0 to |ns|
      invariant past ==> p <= i && page == ws[p..i]
      invariant !past ==> marker.Some? && page == [] && (i < p || i == |ns|)
      invariant !past ==> forall k | 0 <= k < i :: ws[k] != marker.value
      invariant used == TotalSize(page, mt) <= capacity
    {
      var w := mt.wide(ns[i]);
      assert w == ws[i];
      if !past {
        if w == marker.value { past := true; }
        continue;
      }
      if used + mt.size(w) > capacity { return page, false; }
      TotalOneMore(page, w, mt);
      page := page + [w];
      used := used + mt.size(w);
    }
    return page, true;
  }

  /** The caller: page after page, each resumed from the last name of the one before. */
  method EnumerateAll(ns: seq<string>, mt: Mount, capacity: nat) returns (all: seq<Wide>)
    requires Distinct(WideNames(ns, mt))
    requires forall n | n in ns :: mt.size(mt.wide(n)) <= capacity
    ensures all == WideNames(ns, mt)
  {
    hide Distinct, AfterFirst, TotalSize;
    ghost var ws := WideNames(ns, mt);
    var marker := None;
    var end := false;
    all := [];
    while !end
      invariant |all| <= |ws| && all == ws[..|all|]
      invariant !end ==> Resume(ws, marker) == |all|
      invariant end ==> |all| == |ws|
      decreases !end, |ws| - |all|
    {
      var page;
      page, end := ReadDirectory(ns, marker, mt, capacity);
      if !end {
        NothingTotal(mt);
        assert ns[|all|] in ns;
        PageAdvances(ws, |all|, page);
        marker := Some(page[|page| - 1]);
      }
      JoinPage(ws, |all|, page);
      all := all + page;
    }
  }

  lemma TotalOneMore(page: seq<Wide>, w: Wide, mt: Mount)
    ensures TotalSize(page + [w], mt) == TotalSize(page, mt) + mt.size(w)
  {
    assert (page + [w])[..|page|] == page;
  }

  lemma ResumeIs(ws: seq<Wide>, marker: Option<Wide>)
    ensures marker.None? ==> Resume(ws, marker) == 0
    ensures marker.Some? ==>
      var p := Resume(ws, marker);
      && (forall k | 0 <= k < |ws| && k < p - 1 :: ws[k] != marker.value)
      && (if exists k :: 0 <= k < |ws| && ws[k] == marker.value then p > 0 && ws[p - 1] == marker.value
          else p == |ws|)
  {
    if marker.Some? {
      var m := marker.value;
      if k :| 0 <= k < |ws| && ws[k] == m { assert m in ws; }
    }
  }

  lemma NothingTotal(mt: Mount)
    ensures TotalSize([], mt) == 0
  {
  }

  lemma JoinPage(ws: seq<Wide>, p: nat, page: seq<Wide>)
    requires p + |page| <= |ws| && page == ws[p..p + |page|]
    ensures ws[..p] + page == ws[..p + |page|]
  {
  }

  lemma PageAdvances(ws: seq<Wide>, p: nat, page: seq<Wide>)
    requires Distinct(ws) && page != [] && p + |page| <= |ws| && page == ws[p..p + |page|]
    ensures Resume(ws, Some(page[|page| - 1])) == p + |page|
  {
    var last := p + |page| - 1;
    assert ws[last] == page[|page| - 1] && ws[last] in ws;
  }

  /** Resuming from each emitted name continues right after it exactly when no name occurs twice. */
  lemma ResumeExactIff(ws: seq<Wide>)
    ensures (forall i | 0 <= i < |ws| :: Resume(ws, Some(ws[i])) == i + 1) <==> Distinct(ws)
  {
    if forall i | 0 <= i < |ws| :: Resume(ws, Some(ws[i])) == i + 1 {
      forall i, j | 0 <= i < j < |ws| ensures ws[i] != ws[j] {
        assert Resume(ws, Some(ws[i])) == i + 1 && Resume(ws, Some(ws[j])) == j + 1;
      }
    }
    if Distinct(ws) {
      forall i | 0 <= i < |ws| ensures Resume(ws, Some(ws[i])) == i + 1 {
        var p := Resume(ws, Some(ws[i]));
        assert ws[i] in ws;
      }
    }
  }

  /** The position after k pages of one entry each. */
  function Position(ws: seq<Wide>, k: nat): (p: nat)
    ensures p <= |ws|
  {
    if k == 0 then 0
    else
      var p := Position(ws, k - 1);
      if p == |ws| then p else Resume(ws, Some(ws[p]))
  }

  lemma {:induction false} DistinctAdvances(ws: seq<Wide>, k: nat)
    requires Distinct(ws)
    ensures Position(ws, k) == Min(k, |ws|)
  {
    hide Resume, Distinct;
    if k > 0 {
      DistinctAdvances(ws, k - 1);
      ResumeExactIff(ws);
    }
  }

  lemma {:induction false} DuplicateTraps(ws: seq<Wide>, i: nat, j: nat, k: nat)
    requires i < j < |ws| && ws[i] == ws[j]
    ensures Position(ws, k) <= j
  {
    if k > 0 {
      DuplicateTraps(ws, i, j, k - 1);
      var p := Position(ws, k - 1);
      assert ws[p] in ws;
      var r := Resume(ws, Some(ws[p]));
      if p == j {
        assert r - 1 <= i;
      } else {
        assert r - 1 <= p;
      }
    }
  }

  /** One-entry pages reach the end exactly when names are unique; a duplicate makes them loop forever. */
  lemma PagingEndsIffDistinct(ws: seq<Wide>)
    ensures (exists k :: Position(ws, k) == |ws|) <==> Distinct(ws)
  {
    if Distinct(ws) {
      DistinctAdvances(ws, |ws|);
    } else {
      var i, j :| 0 <= i < j < |ws| && ws[i] == ws[j];
      forall k: nat ensures Position(ws, k) != |ws| {
        DuplicateTraps(ws, i, j, k);
      }
    }
  }

  /** A valid directory is enumerated completely, in order, once each, whatever the page size. */
  method EnumerateDirectory(d: Node, mt: Mount, capacity: nat) returns (all: seq<Wide>)
    requires d.Valid()
    requires forall a, b | mt.wide(a) == mt.wide(b) :: a == b
    requires forall c | c in d.children :: mt.size(mt.wide(c.name)) <= capacity
    ensures |all| == |d.children| && forall i | 0 <= i < |all| :: all[i] == mt.wide(d.children[i].name)
  {
    var ns := d.List();
    all := EnumerateAll(ns, mt, capacity);
  }
}
