/**
 kdump (ELF64 core) dumps: PT_LOAD ranges sorted by physical address and searched
 by their starts (src/formats/kdump_format.cpp).
 */
module KdumpFormat {
  import opened Words
  import opened PhysicalLayer
  import opened Extents

  ghost predicate SortedStarts(es: seq<Extent>) {
    forall i, j | 0 <= i < j < |es| :: es[i].start <= es[j].start
  }

  // ---------- construction ----------

  /** Non-empty ranges, no two of which share an address. */
  ghost predicate Disjoint(es: seq<Extent>) {
    forall i | 0 <= i < |es| ::
      && es[i].length > 0
      && forall j | 0 <= j < |es| && i != j :: es[i].End() <= es[j].start || es[j].End() <= es[i].start
  }

  /** Ordered by start; equal starts may come out in either order. */
  method SortRanges(ranges: seq<Extent>) returns (es: seq<Extent>)
    ensures SortedStarts(es) && multiset(es) == multiset(ranges)
  {
    es := [];
    for n := 0 to |ranges|
      invariant SortedStarts(es) && multiset(es) == multiset(ranges[..n])
    {
      var k := UpperBound(es, ranges[n].start);
      InsertKeeps(es, k, ranges[n]);
      es := es[..k] + [ranges[n]] + es[k..];
      assert ranges[..n + 1] == ranges[..n] + [ranges[n]];
    }
    assert ranges[..|ranges|] == ranges;
  }

  lemma InsertKeeps(es: seq<Extent>, k: nat, e: Extent)
    requires SortedStarts(es) && k <= |es| && (k < |es| ==> e.start < es[k].start)
    requires forall i | 0 <= i < k :: es[i].start <= e.start
    ensures SortedStarts(es[..k] + [e] + es[k..])
    ensures multiset(es[..k] + [e] + es[k..]) == multiset(es) + multiset{e}
  {
    InsertOne(es, k, e);
    var t := es[..k] + [e] + es[k..];
    assert forall i | k <= i < |es| :: e.start < es[i].start;
    forall i, j | 0 <= i < j < |t| ensures t[i].start <= t[j].start {
      assert t[i] == if i < k then es[i] else if i == k then e else es[i - 1];
      assert t[j] == if j < k then es[j] else if j == k then e else es[j - 1];
    }
  }

  lemma InsertOne(es: seq<Extent>, k: nat, e: Extent)
    requires k <= |es|
    ensures multiset(es[..k] + [e] + es[k..]) == multiset(es) + multiset{e}
  {
    assert es == es[..k] + es[k..];
  }

  /** Sorting disjoint ranges gives the ordered table the search needs. */
  lemma SortedDisjoint(ranges: seq<Extent>, es: seq<Extent>)
    requires Disjoint(ranges) && SortedStarts(es) && multiset(es) == multiset(ranges)
    ensures Ordered(es)
  {
    hide Disjoint;
    forall i, j | 0 <= i < j < |es| ensures es[i].End() <= es[j].start {
      var p, q := PlacesOf(ranges, es, i, j);
      NoOverlap(ranges, p, q);
    }
  }

  lemma NoOverlap(es: seq<Extent>, p: nat, q: nat)
    requires Disjoint(es) && p < |es| && q < |es| && p != q && es[p].start <= es[q].start
    ensures es[p].End() <= es[q].start
  {
    assert es[p].length > 0 && es[q].length > 0;
  }

  /** Two entries of a permutation come from two places. */
  lemma PlacesOf(ranges: seq<Extent>, es: seq<Extent>, i: nat, j: nat) returns (p: nat, q: nat)
    requires multiset(es) == multiset(ranges) && i < j < |es|
    ensures p < |ranges| && q < |ranges| && p != q && ranges[p] == es[i] && ranges[q] == es[j]
  {
    var x, y := es[i], es[j];
    if x == y {
      assert es == es[..j] + [y] + es[j + 1..] && x in es[..j];
      p, q := TwoPlaces(ranges, x);
    } else {
      assert x in multiset(es) && y in multiset(es);
      p :| p < |ranges| && ranges[p] == x;
      q :| q < |ranges| && ranges[q] == y;
    }
  }

  lemma {:induction false} TwoPlaces(es: seq<Extent>, x: Extent) returns (p: nat, q: nat)
    requires multiset(es)[x] >= 2
    ensures p < q < |es| && es[p] == x && es[q] == x
  {
    assert es == [es[0]] + es[1..];
    if es[0] == x {
      assert x in es[1..];
      p, q := 0, 1;
      while es[q] != x
        invariant 1 <= q < |es| && x in es[q..]
        decreases |es| - q
      {
        q := q + 1;
      }
    } else {
      p, q := TwoPlaces(es[1..], x);
      p, q := p + 1, q + 1;
    }
  }

  // ---------- lookup ----------

  /** The first range that starts above a. */
  method UpperBound(es: seq<Extent>, a: nat) returns (r: nat)
    requires SortedStarts(es)
    ensures r <= |es|
    ensures forall i | 0 <= i < r :: es[i].start <= a
    ensures forall i | r <= i < |es| :: a < es[i].start
  {
    r := 0;
    var hi := |es|;
    while r < hi
      invariant 0 <= r <= hi <= |es|
      invariant forall i | 0 <= i < r :: es[i].start <= a
      invariant forall i | hi <= i < |es| :: a < es[i].start
    {
      var mid := (r + hi) / 2;
      if a < es[mid].start { hi := mid; } else { r := mid + 1; }
    }
  }

  /** The range the search settles on: the last one that starts at or below a. */
  function Candidate(es: seq<Extent>, a: nat): Option<Extent> {
    if es == [] then None
    else if es[|es| - 1].start <= a then Some(es[|es| - 1])
    else Candidate(es[..|es| - 1], a)
  }

  /** The memory as the search sees it: an address counts only if the candidate covers it. */
  function ViewAt(es: seq<Extent>, file: seq<u8>, a: nat): Option<u8> {
    match Candidate(es, a)
    case None => None
    case Some(e) => if e.Covers(a) then Stored(e, file, a) else None
  }

  function View(es: seq<Extent>, file: seq<u8>): Memory {
    (a: nat) => ViewAt(es, file, a)
  }

  lemma {:induction false} CandidateIs(es: seq<Extent>, a: nat, r: nat)
    requires r <= |es|
    requires forall i | 0 <= i < r :: es[i].start <= a
    requires forall i | r <= i < |es| :: a < es[i].start
    ensures Candidate(es, a) == if r == 0 then None else Some(es[r - 1])
  {
    if r < |es| {
      CandidateIs(es[..|es| - 1], a, r);
    }
  }

  /** Disjoint ranges: the search finds exactly what the ranges describe. */
  lemma {:induction false} ViewOfOrdered(es: seq<Extent>, file: seq<u8>, a: nat)
    requires Ordered(es)
    ensures ViewAt(es, file, a) == At(es, file, a)
  {
    var r := 0;
    while r < |es| && es[r].start <= a
      invariant 0 <= r <= |es| && forall i | 0 <= i < r :: es[i].start <= a
    {
      r := r + 1;
    }
    CandidateIs(es, a, r);
    if r > 0 && es[r - 1].Covers(a) {
      AtCovered(es, file, r - 1, a);
    } else {
      AtUncovered(es, file, a);
    }
  }

  /** Some range covers the address. */
  ghost predicate Backed(es: seq<Extent>, a: nat) {
    exists i | 0 <= i < |es| :: es[i].Covers(a)
  }

  ghost predicate Found(es: seq<Extent>, a: nat) {
    Candidate(es, a).Some? && Candidate(es, a).value.Covers(a)
  }

  /** Range i sticks out past the end of the later range j, into space where j is the candidate. */
  ghost predicate Shadowed(es: seq<Extent>, i: nat, j: nat)
    requires i < j < |es|
  {
    es[j].End() < es[i].End() && (j + 1 < |es| ==> es[j].End() < es[j + 1].start)
  }

  /**
   Ranges need not be disjoint for every backed address to be found; they must
   only not be shadowed. (A nested PT_LOAD hides the tail of the outer one.)
   */
  lemma FoundIffBacked(es: seq<Extent>)
    requires SortedStarts(es)
    ensures (forall a: nat :: Found(es, a) <==> Backed(es, a))
       <==> (forall i, j | 0 <= i < j < |es| :: !Shadowed(es, i, j))
  {
    if forall i, j | 0 <= i < j < |es| :: !Shadowed(es, i, j) {
      forall a: nat ensures Found(es, a) <==> Backed(es, a) {
        UnshadowedFound(es, a);
      }
    } else {
      var i, j :| 0 <= i < j < |es| && Shadowed(es, i, j);
      var a := Max(es[j].End(), es[j].start);
      CandidateIs(es, a, j + 1);
      assert !Found(es, a);
      assert es[i].Covers(a);
      assert Backed(es, a);
    }
  }

  lemma UnshadowedFound(es: seq<Extent>, a: nat)
    requires SortedStarts(es) && forall i, j | 0 <= i < j < |es| :: !Shadowed(es, i, j)
    ensures Found(es, a) <==> Backed(es, a)
  {
    var r := UpperBoundOf(es, a);
    CandidateIs(es, a, r);
    if Backed(es, a) {
      var i :| 0 <= i < |es| && es[i].Covers(a);
      assert i < r;
      if i < r - 1 {
        assert !Shadowed(es, i, r - 1);
      }
    }
  }

  ghost function UpperBoundOf(es: seq<Extent>, a: nat): (r: nat)
    requires SortedStarts(es)
    ensures r <= |es|
    ensures forall i | 0 <= i < r :: es[i].start <= a
    ensures forall i | r <= i < |es| :: a < es[i].start
  {
    if es == [] || a >= es[|es| - 1].start then |es| else UpperBoundOf(es[..|es| - 1], a)
  }

  // ---------- reading ----------

  /** Where the next range starts after the boundary the search found. */
  function NextStart(es: seq<Extent>, it: nat): nat {
    if it < |es| then es[it].start else TWO_64 - 1
  }

  /**
   The range that supplies address a to a read that has come to cur. The read runs on
   to the end of the range it is in, and searches again only there.
   */
  ghost function Supplier(es: seq<Extent>, cur: nat, a: nat): Option<Extent>
    requires SortedStarts(es) && cur <= a
    decreases a - cur
  {
    var it := UpperBoundOf(es, cur);
    if it > 0 && es[it - 1].Covers(cur) then
      if a < es[it - 1].End() then Some(es[it - 1]) else Supplier(es, es[it - 1].End(), a)
    else if it == |es| || a < es[it].start then None
    else Supplier(es, es[it].start, a)
  }

  /** The memory as a read that starts at pa sees it. */
  ghost function RunView(es: seq<Extent>, file: seq<u8>, pa: nat): Memory
    requires SortedStarts(es)
  {
    (a: nat) =>
      if a < pa then None
      else match Supplier(es, pa, a) case Some(e) => if e.Covers(a) then Stored(e, file, a) else None case None => None
  }

  lemma {:induction false} SupplierCovers(es: seq<Extent>, cur: nat, a: nat)
    requires SortedStarts(es) && cur <= a
    ensures Supplier(es, cur, a).Some? ==> Supplier(es, cur, a).value in es && Supplier(es, cur, a).value.Covers(a)
    decreases a - cur
  {
    var it := UpperBoundOf(es, cur);
    if it > 0 && es[it - 1].Covers(cur) {
      if a >= es[it - 1].End() { SupplierCovers(es, es[it - 1].End(), a); }
    } else if it < |es| && a >= es[it].start {
      SupplierCovers(es, es[it].start, a);
    }
  }

  /** A stretch the read takes in one step leaves what comes after it to the search there. */
  lemma SupplierHere(es: seq<Extent>, cur: nat, it: nat, a: nat)
    requires SortedStarts(es) && cur <= a && it <= |es|
    requires forall i | 0 <= i < it :: es[i].start <= cur
    requires forall i | it <= i < |es| :: cur < es[i].start
    ensures Supplier(es, cur, a)
         == if it > 0 && es[it - 1].Covers(cur) then
              if a < es[it - 1].End() then Some(es[it - 1]) else Supplier(es, es[it - 1].End(), a)
            else if it == |es| || a < es[it].start then None
            else Supplier(es, es[it].start, a)
  {
    hide UpperBoundOf;
    BoundIs(es, cur, it);
  }

  /** How far one step from cur goes at most, and which range it reads, if any. */
  ghost predicate StepTo(es: seq<Extent>, cur: nat, to: nat, from: Option<Extent>)
    requires SortedStarts(es)
  {
    var it := UpperBoundOf(es, cur);
    if it > 0 && es[it - 1].Covers(cur) then from == Some(es[it - 1]) && cur <= to <= es[it - 1].End()
    else from == None && cur <= to && (it < |es| ==> to <= es[it].start)
  }

  /** Addresses inside the step are supplied by its range, and addresses past it as if the read had started there. */
  lemma AlongStep(es: seq<Extent>, cur: nat, to: nat, from: Option<Extent>, a: nat)
    requires SortedStarts(es) && StepTo(es, cur, to, from) && cur <= a
    ensures a < to ==> Supplier(es, cur, a) == from
    ensures a >= to && from.Some? && to == from.value.End() ==> Supplier(es, cur, a) == Supplier(es, to, a)
    ensures a >= to && from.None? && (var it := UpperBoundOf(es, cur); it < |es| && to == es[it].start) ==>
      Supplier(es, cur, a) == Supplier(es, to, a)
  {
  }

  /** The read from pa has come to cur, and the rest of it is a read from cur. */
  ghost predicate ReachedBy(es: seq<Extent>, pa: nat, cur: nat, end: nat)
    requires SortedStarts(es)
  {
    pa <= cur <= end && forall a | cur <= a < end :: Supplier(es, pa, a) == Supplier(es, cur, a)
  }

  /** One step of a read up to end: it stops short of the step's limit only at the end of the window. */
  lemma StepSeen(es: seq<Extent>, file: seq<u8>, pa: nat, cur: nat, to: nat, end: nat, from: Option<Extent>, limit: nat)
    requires SortedStarts(es) && ReachedBy(es, pa, cur, end) && StepTo(es, cur, to, from) && to == Min(limit, end)
    requires from.Some? ==> limit == from.value.End()
    requires from.None? ==> limit == NextStart(es, UpperBoundOf(es, cur)) && end < TWO_64
    ensures ReachedBy(es, pa, to, end)
    ensures from.None? ==> forall a | cur <= a < to :: RunView(es, file, pa)(a).None?
    ensures from.Some? ==>
      && from.value.start <= cur
      && FileBacked(RunView(es, file, pa), file, cur, from.value.fileOff + (cur - from.value.start), to - cur)
  {
    hide Supplier, UpperBoundOf;
    forall a | cur <= a < end
      ensures a < to ==> Supplier(es, pa, a) == from
      ensures a >= to ==> Supplier(es, pa, a) == Supplier(es, to, a)
    {
      AlongStep(es, cur, to, from, a);
    }
    StepInside(es, cur, to, from);
  }

  lemma StepInside(es: seq<Extent>, cur: nat, to: nat, from: Option<Extent>)
    requires SortedStarts(es) && StepTo(es, cur, to, from)
    ensures from.Some? ==> from.value.start <= cur && to <= from.value.End()
  {
  }

  /**
   Hole-hopping read over any sorted ranges: the buffer is what the supplying ranges
   hold, zero elsewhere, and the count is of the bytes they have. No window reaches
   2^64 - 1, where the cursor would wrap.
   */
  method Read(es: seq<Extent>, file: seq<u8>, pa: nat, dst: array<u8>) returns (total: nat)
    requires es != [] && SortedStarts(es)
    requires pa + dst.Length < TWO_64 && forall e | e in es :: e.End() < TWO_64
    modifies dst
    ensures Reads(RunView(es, file, pa), pa, dst[..], total)
  {
    hide Partial, Count, FileBacked, SortedStarts, RunView, Supplier, ReachedBy, UpperBoundOf;
    ghost var m := RunView(es, file, pa);
    ghost var end := pa + dst.Length;
    ZeroFill(dst, 0, dst.Length);
    BufferStart(m, pa, dst);
    total := 0;
    var cur, at, remaining := pa, 0, dst.Length;
    StartsAt(es, pa, end);
    while remaining > 0
      invariant 0 <= remaining && at + remaining == dst.Length && 0 <= at
      invariant cur == pa + at && ReachedBy(es, pa, cur, end)
      invariant total == Count(m, pa, at) && Partial(m, pa, dst[..], at)
    {
      var it := UpperBound(es, cur);
      BoundIs(es, cur, it);
      var step;
      if it == 0 {
        step := Min(remaining, es[0].start - cur);
        StepSeen(es, file, pa, cur, cur + step, end, None, NextStart(es, it));
        SkipHole(m, pa, dst[..], at, at + step);
      } else {
        var e := es[it - 1];
        if cur >= e.End() {
          step := Min(remaining, NextStart(es, it) - cur);
          StepSeen(es, file, pa, cur, cur + step, end, None, NextStart(es, it));
          SkipHole(m, pa, dst[..], at, at + step);
        } else {
          var inRange := cur - e.start;
          step := Min(remaining, e.length - inRange);
          StepSeen(es, file, pa, cur, cur + step, end, Some(e), e.End());
          var got := FillFromSource(m, pa, file, e.fileOff + inRange, dst, at, step);
          total := total + got;
        }
      }
      cur, at, remaining := cur + step, at + step, remaining - step;
    }
    BufferDone(m, pa, dst[..], total);
  }

  lemma StartsAt(es: seq<Extent>, pa: nat, end: nat)
    requires SortedStarts(es) && pa <= end
    ensures ReachedBy(es, pa, pa, end)
  {
  }

  lemma BoundIs(es: seq<Extent>, a: nat, it: nat)
    requires SortedStarts(es) && it <= |es|
    requires forall i | 0 <= i < it :: es[i].start <= a
    requires forall i | it <= i < |es| :: a < es[i].start
    ensures UpperBoundOf(es, a) == it
  {
  }

  // ---------- when the start of a read does not matter ----------

  /** No range starts past pa, inside the window, while an earlier one is still running. */
  ghost predicate Quiet(es: seq<Extent>, pa: nat, n: nat) {
    forall i, j | 0 <= i < j < |es| && pa < es[j].start < pa + n :: es[i].End() <= es[j].start
  }

  /** The range the search finds for an address on its own. */
  ghost function FoundAt(es: seq<Extent>, a: nat): Option<Extent> {
    if Found(es, a) then Candidate(es, a) else None
  }

  lemma {:induction false} QuietSupplier(es: seq<Extent>, pa: nat, n: nat, cur: nat, a: nat)
    requires SortedStarts(es) && Quiet(es, pa, n) && pa <= cur <= a < pa + n
    ensures Supplier(es, cur, a) == FoundAt(es, a)
    decreases a - cur
  {
    hide Candidate;
    var it, r := UpperBoundOf(es, cur), UpperBoundOf(es, a);
    CandidateIs(es, a, r);
    if it > 0 && es[it - 1].Covers(cur) {
      if a < es[it - 1].End() {
        assert r == it;
      } else {
        QuietSupplier(es, pa, n, es[it - 1].End(), a);
      }
    } else if it < |es| && a >= es[it].start {
      QuietSupplier(es, pa, n, es[it].start, a);
    } else {
      assert r == it;
    }
  }

  /** Under a quiet window, a read gives the searched memory, as reads of single bytes would. */
  lemma QuietRead(es: seq<Extent>, file: seq<u8>, pa: nat, n: nat)
    requires SortedStarts(es) && Quiet(es, pa, n)
    ensures forall a | pa <= a < pa + n :: RunView(es, file, pa)(a) == View(es, file)(a)
  {
    hide Supplier, Candidate;
    forall a | pa <= a < pa + n ensures RunView(es, file, pa)(a) == View(es, file)(a) {
      QuietSupplier(es, pa, n, pa, a);
    }
  }

  /** The search can find range i: it is the last of those with its start. */
  ghost predicate Visible(es: seq<Extent>, i: nat)
    requires i < |es|
  {
    i + 1 < |es| ==> es[i].start < es[i + 1].start
  }

  /** No range the search can find runs into the next one. */
  ghost predicate VisiblyDisjoint(es: seq<Extent>) {
    forall i | 0 <= i < |es| - 1 :: Visible(es, i) ==> es[i].End() <= es[i + 1].start
  }

  /** Every byte comes from the range the search finds for it, wherever a read starts. */
  ghost predicate StartImmaterial(es: seq<Extent>)
    requires SortedStarts(es)
  {
    forall pa: nat, a: nat :: pa <= a ==> Supplier(es, pa, a) == FoundAt(es, a)
  }

  /** That is so exactly when no range the search can find overlaps the next. */
  lemma WindowIndependentIff(es: seq<Extent>)
    requires SortedStarts(es)
    ensures StartImmaterial(es) <==> VisiblyDisjoint(es)
  {
    hide Supplier, FoundAt;
    if VisiblyDisjoint(es) {
      forall pa: nat, a: nat ensures pa <= a ==> Supplier(es, pa, a) == FoundAt(es, a) {
        if pa <= a { DisjointSupplier(es, pa, a); }
      }
    }
    if StartImmaterial(es) {
      forall i | 0 <= i < |es| - 1 ensures Visible(es, i) ==> es[i].End() <= es[i + 1].start {
        if Visible(es, i) && es[i].End() > es[i + 1].start {
          OverlapShows(es, i);
        }
      }
    }
  }

  lemma OverlapShows(es: seq<Extent>, i: nat)
    requires SortedStarts(es) && i + 1 < |es| && Visible(es, i) && es[i].End() > es[i + 1].start
    ensures es[i].start <= es[i + 1].start
    ensures Supplier(es, es[i].start, es[i + 1].start) != FoundAt(es, es[i + 1].start)
  {
    var pa, a := es[i].start, es[i + 1].start;
    SupplierHere(es, pa, i + 1, a);
    var r := UpperBoundOf(es, a);
    CandidateIs(es, a, r);
    assert r > i + 1;
  }

  lemma {:induction false} DisjointSupplier(es: seq<Extent>, cur: nat, a: nat)
    requires SortedStarts(es) && VisiblyDisjoint(es) && cur <= a
    ensures Supplier(es, cur, a) == FoundAt(es, a)
    decreases a - cur
  {
    hide Candidate;
    var it, r := UpperBoundOf(es, cur), UpperBoundOf(es, a);
    CandidateIs(es, a, r);
    SupplierHere(es, cur, it, a);
    if 0 < it < |es| { assert Visible(es, it - 1); }
    if it > 0 && es[it - 1].Covers(cur) {
      if a < es[it - 1].End() {
        assert r == it;
      } else {
        DisjointSupplier(es, es[it - 1].End(), a);
      }
    } else if it < |es| && a >= es[it].start {
      DisjointSupplier(es, es[it].start, a);
    } else {
      assert r == it;
    }
  }

  /** A range of one byte inside a longer one: the longer one's tail is backed and never found. */
  lemma NestedRangeHides()
    ensures var es := [Extent(0, 10, 0), Extent(4, 1, 10)];
      SortedStarts(es) && Shadowed(es, 0, 1) && Backed(es, 5) && !Found(es, 5) && Supplier(es, 0, 5) == Some(es[0])
  {
    var es := [Extent(0, 10, 0), Extent(4, 1, 10)];
    assert es[0].Covers(5);
    CandidateIs(es, 5, 2);
    SupplierHere(es, 0, 1, 5);
  }
}
