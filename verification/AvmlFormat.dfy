/**
 AVML dumps: chunks of framed-snappy data decoded on demand through an LRU cache
 (src/formats/avml_format.cpp). Snappy itself is a parameter.
 */
module AvmlFormat {
  import opened Words
  import opened PhysicalLayer
  import opened Recency

  const MAX_FRAME_DECOMPRESSED := 64 * 1024 * 1024
  const CACHE_BYTES := 128 * 1024 * 1024

  /** The two library calls: the declared output length of a payload, and the output. */
  datatype Snappy = Snappy(length: seq<u8> -> Option<nat>, uncompress: seq<u8> -> Option<seq<u8>>)

  datatype Frame = Frame(paStart: nat, paLength: nat, fileOffset: nat, payloadSize: nat, compressed: bool) {
    function End(): nat { paStart + paLength }
    predicate Covers(a: nat) { paStart <= a < paStart + paLength }
  }

  /** The decoded bytes of a frame; None where decoding throws. */
  function Decoded(f: Frame, file: seq<u8>, snappy: Snappy): (d: Option<seq<u8>>)
    ensures d.Some? ==> |d.value| == f.paLength
  {
    if f.fileOffset + f.payloadSize > |file| then None
    else
      var raw := file[f.fileOffset..f.fileOffset + f.payloadSize];
      if !f.compressed then
        if |raw| == f.paLength then Some(raw) else None
      else if snappy.length(raw) != Some(f.paLength) then None
      else
        match snappy.uncompress(raw)
        case None => None
        case Some(out) => if |out| == f.paLength then Some(out) else None
  }

  // ---------- the frame cache ----------

  function TotalBytes(order: seq<nat>, m: map<nat, seq<u8>>): nat
    requires forall k | k in order :: k in m
  {
    if order == [] then 0 else TotalBytes(order[..|order| - 1], m) + |m[order[|order| - 1]]|
  }

  /** The recency order left once the least recently used entries no longer fit. */
  function Evicted(order: seq<nat>, m: map<nat, seq<u8>>, budget: nat): (kept: seq<nat>)
    requires forall k | k in order :: k in m
    ensures kept <= order
    ensures TotalBytes(kept, m) <= budget
  {
    if order == [] || TotalBytes(order, m) <= budget then order
    else Evicted(order[..|order| - 1], m, budget)
  }

  lemma {:induction false} TotalOfPrefix(order: seq<nat>, m: map<nat, seq<u8>>, n: nat)
    requires n <= |order| && forall k | k in order :: k in m
    ensures TotalBytes(order[..n], m) <= TotalBytes(order, m)
  {
    if n == |order| {
      assert order[..n] == order;
    } else {
      TotalOfPrefix(order[..|order| - 1], m, n);
      assert order[..|order| - 1][..n] == order[..n];
    }
  }

  /** Eviction keeps the longest prefix that fits: one more entry would exceed the budget. */
  lemma {:induction false} EvictedIsLongest(order: seq<nat>, m: map<nat, seq<u8>>, budget: nat, n: nat)
    requires n <= |order| && forall k | k in order :: k in m
    ensures TotalBytes(order[..n], m) <= budget <==> n <= |Evicted(order, m, budget)|
  {
    if order == [] || TotalBytes(order, m) <= budget {
      TotalOfPrefix(order, m, n);
    } else if n == |order| {
      assert order[..n] == order;
    } else {
      EvictedIsLongest(order[..|order| - 1], m, budget, n);
      assert order[..|order| - 1][..n] == order[..n];
    }
  }

  /** The most recent entry survives eviction exactly when it fits on its own. */
  lemma NewestSurvives(order: seq<nat>, m: map<nat, seq<u8>>, budget: nat)
    requires order != [] && forall k | k in order :: k in m
    ensures Evicted(order, m, budget) != [] <==> |m[order[0]]| <= budget
  {
    EvictedIsLongest(order, m, budget, 1);
    assert order[..1] == [order[0]];
    assert TotalBytes([order[0]], m) == TotalBytes([], m) + |m[order[0]]|;
  }

  /** Totals depend on the entries listed only. */
  lemma {:induction false} TotalAgrees(order: seq<nat>, m: map<nat, seq<u8>>, m': map<nat, seq<u8>>)
    requires forall k | k in order :: k in m && k in m' && m[k] == m'[k]
    ensures TotalBytes(order, m) == TotalBytes(order, m')
  {
    if order != [] {
      TotalAgrees(order[..|order| - 1], m, m');
    }
  }

  lemma {:induction false} TotalOfConcat(a: seq<nat>, b: seq<nat>, m: map<nat, seq<u8>>)
    requires forall k | k in a || k in b :: k in m
    ensures TotalBytes(a + b, m) == TotalBytes(a, m) + TotalBytes(b, m)
  {
    if b == [] {
      assert a + b == a;
    } else {
      TotalOfConcat(a, b[..|b| - 1], m);
      assert (a + b)[..|a + b| - 1] == a + b[..|b| - 1];
    }
  }

  lemma TotalOfPromoted(order: seq<nat>, m: map<nat, seq<u8>>, i: nat)
    requires i < |order| && forall k | k in order :: k in m
    ensures TotalBytes(Promoted(order, i), m) == TotalBytes(order, m)
  {
    var x := [order[i]];
    assert order == order[..i] + x + order[i + 1..];
    TotalOfConcat(order[..i] + x, order[i + 1..], m);
    TotalOfConcat(order[..i], x, m);
    TotalOfConcat(x + order[..i], order[i + 1..], m);
    TotalOfConcat(x, order[..i], m);
  }

  lemma ListsDropLast(order: seq<nat>, m: map<nat, seq<u8>>)
    requires Lists(order, m) && order != []
    ensures var rest, victim := order[..|order| - 1], order[|order| - 1];
      && victim in m && Lists(rest, m - {victim})
      && TotalBytes(order, m) == TotalBytes(rest, m - {victim}) + |m[victim]|
  {
    DropLast(order, m);
    TotalAgrees(order[..|order| - 1], m, m - {order[|order| - 1]});
  }

  lemma EvictStep(order: seq<nat>, m: map<nat, seq<u8>>, maxBytes: nat)
    requires forall k | k in order :: k in m
    ensures Evicted(order, m, maxBytes)
         == if order != [] && TotalBytes(order, m) > maxBytes then Evicted(order[..|order| - 1], m, maxBytes) else order
  {
    hide TotalBytes;
  }

  lemma SameTotal(order: seq<nat>, m: map<nat, seq<u8>>, m': map<nat, seq<u8>>)
    requires Lists(order, m) && forall k | k in m :: k in m' && m'[k] == m[k]
    ensures (forall k | k in order :: k in m') && TotalBytes(order, m) == TotalBytes(order, m')
  {
    hide NoDuplicates;
    TotalAgrees(order, m, m');
  }

  lemma ListsPush(order: seq<nat>, m: map<nat, seq<u8>>, k: nat, v: seq<u8>)
    requires Lists(order, m) && k !in m
    ensures Lists([k] + order, m[k := v])
    ensures TotalBytes([k] + order, m[k := v]) == TotalBytes(order, m) + |v|
  {
    var m' := m[k := v];
    Push(order, m, k, v);
    TotalAgrees(order, m, m');
    TotalOfConcat([k], order, m');
    assert TotalBytes([k], m') == TotalBytes([], m') + |v|;
  }

  lemma ListsPromote(order: seq<nat>, m: map<nat, seq<u8>>, p: nat)
    requires Lists(order, m) && p < |order|
    ensures Lists(Promoted(order, p), m) && TotalBytes(Promoted(order, p), m) == TotalBytes(order, m)
  {
    Promote(order, m, p);
    TotalOfPromoted(order, m, p);
  }

  class FrameCache {
    var order: seq<nat>            // most recently used first
    var entries: map<nat, seq<u8>>
    var curBytes: nat
    const maxBytes: nat

    constructor (maxBytes: nat)
      ensures Valid() && this.maxBytes == maxBytes && order == [] && entries == map[]
    {
      this.maxBytes := maxBytes;
      order, entries, curBytes := [], map[], 0;
    }

    /** order_ lists the keys of map_ and cur_bytes_ adds up what is stored. */
    ghost predicate Consistent()
      reads this
    {
      Lists(order, entries) && curBytes == TotalBytes(order, entries)
    }

    ghost predicate Valid()
      reads this
    {
      Consistent() && curBytes <= maxBytes
    }

    /** Every entry holds what its frame decodes to. */
    ghost predicate Coherent(frames: seq<Frame>, file: seq<u8>, snappy: Snappy)
      reads this
    {
      forall k | k in entries :: k < |frames| && Decoded(frames[k], file, snappy) == Some(entries[k])
    }

    /**
     A hit only promotes; a failed decode changes nothing; a miss puts the frame
     first and drops the least recently used entries that no longer fit.
     */
    method Get(i: nat, frames: seq<Frame>, file: seq<u8>, snappy: Snappy) returns (r: Option<seq<u8>>)
      requires Valid() && Coherent(frames, file, snappy) && i < |frames|
      modifies this
      ensures Valid() && Coherent(frames, file, snappy)
      ensures r == Decoded(frames[i], file, snappy)
      ensures i in old(entries) ==>
        entries == old(entries) && order == Promoted(old(order), Position(old(order), i))
      ensures i !in old(entries) && r.None? ==> entries == old(entries) && order == old(order)
      ensures i !in old(entries) && r.Some? ==>
        var full := old(entries)[i := r.value];
        && order == Evicted([i] + old(order), full, maxBytes)
        && forall k | k in entries :: entries[k] == full[k]
      ensures r.Some? ==> (i in entries <==> i in old(entries) || |r.value| <= maxBytes)
    {
      hide NoDuplicates, TotalBytes, Evicted;
      if i in entries {
        ListsPromote(order, entries, Position(order, i));
        order := Promoted(order, Position(order, i));
        return Some(entries[i]);
      }
      r := Decoded(frames[i], file, snappy);
      if r.None? { return; }
      ListsPush(order, entries, i, r.value);
      order := [i] + order;
      entries := entries[i := r.value];
      curBytes := curBytes + |r.value|;
      NewestSurvives(order, entries, maxBytes);
      EvictIfNeeded();
    }

    method EvictIfNeeded()
      requires Consistent()
      modifies this
      ensures Valid()
      ensures order == Evicted(old(order), old(entries), maxBytes)
      ensures forall k | k in entries :: k in old(entries) && entries[k] == old(entries)[k]
    {
      hide NoDuplicates, TotalBytes, Evicted;
      while curBytes > maxBytes && order != []
        invariant Consistent()
        invariant order <= old(order)
        invariant forall k | k in entries :: k in old(entries) && entries[k] == old(entries)[k]
        invariant Evicted(order, old(entries), maxBytes) == Evicted(old(order), old(entries), maxBytes)
        decreases |order|
      {
        var rest, victim := order[..|order| - 1], order[|order| - 1];
        ListsDropLast(order, entries);
        SameTotal(order, entries, old(entries));
        EvictStep(order, old(entries), maxBytes);
        curBytes := curBytes - |entries[victim]|;
        entries := entries - {victim};
        order := rest;
      }
      SameTotal(order, entries, old(entries));
      EvictStep(order, old(entries), maxBytes);
    }
  }

  // ---------- reading physical memory ----------

  /** What the loader must deliver for the binary search: starts and ends ascend. */
  ghost predicate Sorted(frames: seq<Frame>) {
    forall i, j | 0 <= i < j < |frames| ::
      frames[i].paStart <= frames[j].paStart && frames[i].End() <= frames[j].End()
  }

  /** The memory the frames describe: where frames overlap, the later one overwrites. */
  function FrameAt(frames: seq<Frame>, file: seq<u8>, snappy: Snappy, a: nat): Option<u8> {
    if frames == [] then None
    else
      var f := frames[|frames| - 1];
      if f.Covers(a) then
        match Decoded(f, file, snappy)
        case Some(d) => Some(d[a - f.paStart])
        case None => Some(0)
      else FrameAt(frames[..|frames| - 1], file, snappy, a)
  }

  function FrameMemory(frames: seq<Frame>, file: seq<u8>, snappy: Snappy): Memory {
    (a: nat) => FrameAt(frames, file, snappy, a)
  }

  function Overlap(f: Frame, lo: nat, hi: nat): nat {
    var rs, re := Max(lo, f.paStart), Min(hi, f.End());
    if rs <= re then re - rs else 0
  }

  /** The bytes all frames together put into a window. */
  function TotalOverlap(frames: seq<Frame>, lo: nat, hi: nat): nat {
    if frames == [] then 0
    else TotalOverlap(frames[..|frames| - 1], lo, hi) + Overlap(frames[|frames| - 1], lo, hi)
  }

  ghost predicate Touches(f: Frame, lo: nat, hi: nat) {
    lo < hi && lo < f.End() && f.paStart < hi
  }

  ghost predicate Filled(m: Memory, pa: nat, buf: seq<u8>) {
    forall i | 0 <= i < |buf| :: buf[i] == ValueAt(m, pa + i)
  }

  lemma {:induction false} NothingBefore(frames: seq<Frame>, file: seq<u8>, snappy: Snappy, lo: nat, hi: nat)
    requires forall f | f in frames :: f.End() <= lo
    ensures TotalOverlap(frames, lo, hi) == 0
    ensures forall a | lo <= a < hi :: FrameMemory(frames, file, snappy)(a) == None
  {
    if frames != [] {
      NothingBefore(frames[..|frames| - 1], file, snappy, lo, hi);
      assert frames[|frames| - 1] in frames;
      forall a | lo <= a < hi ensures FrameAt(frames, file, snappy, a) == None {
        assert FrameMemory(frames[..|frames| - 1], file, snappy)(a) == None;
      }
    }
  }

  lemma {:induction false} NothingAfter(frames: seq<Frame>, file: seq<u8>, snappy: Snappy, k: nat, lo: nat, hi: nat)
    requires k <= |frames| && forall i | k <= i < |frames| :: hi <= frames[i].paStart
    ensures TotalOverlap(frames, lo, hi) == TotalOverlap(frames[..k], lo, hi)
    ensures forall a | lo <= a < hi ::
      FrameMemory(frames, file, snappy)(a) == FrameMemory(frames[..k], file, snappy)(a)
  {
    var n := |frames| - 1;
    if k <= n {
      NothingAfter(frames[..n], file, snappy, k, lo, hi);
      assert frames[..n][..k] == frames[..k];
      forall a | lo <= a < hi ensures FrameAt(frames, file, snappy, a) == FrameAt(frames[..k], file, snappy, a) {
        assert FrameMemory(frames[..n], file, snappy)(a) == FrameMemory(frames[..k], file, snappy)(a);
      }
    } else {
      assert frames[..k] == frames;
    }
  }

  /** Copying frame k over what the earlier frames left gives what frames 0..k describe. */
  lemma Overlay(frames: seq<Frame>, k: nat, file: seq<u8>, snappy: Snappy, d: seq<u8>,
                pa: nat, before: seq<u8>, after: seq<u8>)
    requires k < |frames| && Decoded(frames[k], file, snappy) == Some(d)
    requires |before| == |after| && Filled(FrameMemory(frames[..k], file, snappy), pa, before)
    requires forall i | 0 <= i < |after| ::
      after[i] == if frames[k].Covers(pa + i) then d[pa + i - frames[k].paStart] else before[i]
    ensures Filled(FrameMemory(frames[..k + 1], file, snappy), pa, after)
    ensures TotalOverlap(frames[..k + 1], pa, pa + |after|)
         == TotalOverlap(frames[..k], pa, pa + |after|) + Overlap(frames[k], pa, pa + |after|)
  {
    assert frames[..k + 1][..k] == frames[..k];
    forall i | 0 <= i < |after| ensures after[i] == ValueAt(FrameMemory(frames[..k + 1], file, snappy), pa + i) {
      assert before[i] == ValueAt(FrameMemory(frames[..k], file, snappy), pa + i);
    }
  }

  /** The first frame that ends above a. */
  method UpperBound(frames: seq<Frame>, a: nat) returns (r: nat)
    requires Sorted(frames)
    ensures r <= |frames|
    ensures forall i | 0 <= i < r :: frames[i].End() <= a
    ensures forall i | r <= i < |frames| :: a < frames[i].End()
  {
    r := 0;
    var hi := |frames|;
    while r < hi
      invariant 0 <= r <= hi <= |frames|
      invariant forall i | 0 <= i < r :: frames[i].End() <= a
      invariant forall i | hi <= i < |frames| :: a < frames[i].End()
    {
      var mid := (r + hi) / 2;
      if a < frames[mid].End() { hi := mid; } else { r := mid + 1; }
    }
  }

  method CopyFrame(f: Frame, d: seq<u8>, pa: nat, dst: array<u8>) returns (n: nat)
    requires |d| == f.paLength && pa < f.End() && f.paStart < pa + dst.Length
    modifies dst
    ensures n == Overlap(f, pa, pa + dst.Length)
    ensures forall i | 0 <= i < dst.Length ::
      dst[i] == if f.Covers(pa + i) then d[pa + i - f.paStart] else old(dst[i])
  {
    var rs, re := Max(pa, f.paStart), Min(pa + dst.Length, f.End());
    n := re - rs;
    forall i | 0 <= i < n {
      dst[rs - pa + i] := d[rs - f.paStart + i];
    }
  }

  /** One turn of the read loop: frame k through the cache, copied into the window. */
  method CopyCached(frames: seq<Frame>, k: nat, cache: FrameCache, file: seq<u8>, snappy: Snappy,
                    pa: nat, dst: array<u8>) returns (r: Option<nat>)
    requires k < |frames| && Touches(frames[k], pa, pa + dst.Length) && frames[k].paLength <= cache.maxBytes
    requires cache.Valid() && cache.Coherent(frames, file, snappy)
    requires Filled(FrameMemory(frames[..k], file, snappy), pa, dst[..])
    modifies dst, cache
    ensures cache.Valid() && cache.Coherent(frames, file, snappy)
    ensures r.Some? <==> Decoded(frames[k], file, snappy).Some?
    ensures r.Some? ==>
      && Filled(FrameMemory(frames[..k + 1], file, snappy), pa, dst[..])
      && TotalOverlap(frames[..k + 1], pa, pa + dst.Length)
         == TotalOverlap(frames[..k], pa, pa + dst.Length) + r.value
  {
    hide FrameAt, TotalOverlap, Filled, Overlap, Decoded, Lists, Evicted, TotalBytes;
    var got := cache.Get(k, frames, file, snappy);
    if got.None? { return None; }
    ghost var before := dst[..];
    var n := CopyFrame(frames[k], cache.entries[k], pa, dst);
    Overlay(frames, k, file, snappy, got.value, pa, before, dst[..]);
    return Some(n);
  }

  /**
   A read throws exactly when some frame it touches does not decode. Otherwise the
   buffer is the frames' memory with zeros in the holes, and the returned count is
   the bytes copied. Each frame the loader admits fits the cache, so the bytes a
   cache call hands out are still there to be copied.
   */
  method Read(frames: seq<Frame>, cache: FrameCache, file: seq<u8>, snappy: Snappy, pa: nat, dst: array<u8>)
    returns (r: Option<nat>)
    requires Sorted(frames) && cache.Valid() && cache.Coherent(frames, file, snappy)
    requires forall f | f in frames :: f.paLength <= cache.maxBytes
    requires pa + dst.Length < TWO_64 && forall f | f in frames :: f.End() < TWO_64
    modifies dst, cache
    ensures cache.Valid() && cache.Coherent(frames, file, snappy)
    ensures r.Some? <==> forall f | f in frames && Touches(f, pa, pa + dst.Length) :: Decoded(f, file, snappy).Some?
    ensures r.Some? ==>
      && r.value == TotalOverlap(frames, pa, pa + dst.Length)
      && Filled(FrameMemory(frames, file, snappy), pa, dst[..])
  {
    hide FrameAt, TotalOverlap, Filled, Decoded, Lists, Evicted, TotalBytes;
    ghost var end := pa + dst.Length;
    ZeroFill(dst, 0, dst.Length);
    if dst.Length == 0 {
      EmptyWindow(frames, file, snappy, pa);
      assert dst[..] == [];
      return Some(0);
    }
    var k := UpperBound(frames, pa);
    ghost var first := k;
    NothingBefore(frames[..k], file, snappy, pa, end);
    ZerosFill(FrameMemory(frames[..k], file, snappy), pa, dst[..]);
    var total := 0;
    while k < |frames| && frames[k].paStart < pa + dst.Length
      invariant first <= k <= |frames|
      invariant cache.Valid() && cache.Coherent(frames, file, snappy)
      invariant forall i | first <= i < k :: Decoded(frames[i], file, snappy).Some?
      invariant total == TotalOverlap(frames[..k], pa, end)
      invariant Filled(FrameMemory(frames[..k], file, snappy), pa, dst[..])
    {
      assert frames[k] in frames && Touches(frames[k], pa, end);
      var n := CopyCached(frames, k, cache, file, snappy, pa, dst);
      if n.None? { return None; }
      total := total + n.value;
      k := k + 1;
    }
    NothingAfter(frames, file, snappy, k, pa, end);
    SameFilled(FrameMemory(frames[..k], file, snappy), FrameMemory(frames, file, snappy), pa, dst[..]);
    return Some(total);
  }

  lemma EmptyWindow(frames: seq<Frame>, file: seq<u8>, snappy: Snappy, pa: nat)
    ensures TotalOverlap(frames, pa, pa) == 0 && Filled(FrameMemory(frames, file, snappy), pa, [])
  {
    if frames != [] {
      EmptyWindow(frames[..|frames| - 1], file, snappy, pa);
    }
  }

  lemma ZerosFill(m: Memory, pa: nat, buf: seq<u8>)
    requires forall i | 0 <= i < |buf| :: buf[i] == 0
    requires forall a | pa <= a < pa + |buf| :: m(a) == None
    ensures Filled(m, pa, buf)
  {
  }

  lemma SameFilled(m: Memory, m': Memory, pa: nat, buf: seq<u8>)
    requires Filled(m, pa, buf) && forall a | pa <= a < pa + |buf| :: m(a) == m'(a)
    ensures Filled(m', pa, buf)
  {
  }

  // ---------- what the returned count means ----------

  /** How many frames cover an address. */
  function Multiplicity(frames: seq<Frame>, a: nat): nat {
    if frames == [] then 0
    else Multiplicity(frames[..|frames| - 1], a) + if frames[|frames| - 1].Covers(a) then 1 else 0
  }

  lemma {:induction false} BackedIffCovered(frames: seq<Frame>, file: seq<u8>, snappy: Snappy, a: nat)
    ensures FrameMemory(frames, file, snappy)(a).Some? <==> Multiplicity(frames, a) > 0
  {
    if frames != [] {
      BackedIffCovered(frames[..|frames| - 1], file, snappy, a);
    }
  }

  /** Growing the window by one address adds that address's multiplicity. */
  lemma {:induction false} OverlapGrows(frames: seq<Frame>, lo: nat, hi: nat)
    requires lo <= hi
    ensures TotalOverlap(frames, lo, hi + 1) == TotalOverlap(frames, lo, hi) + Multiplicity(frames, hi)
  {
    if frames != [] {
      OverlapGrows(frames[..|frames| - 1], lo, hi);
    }
  }

  /**
   The count of a read is never too small, and it is the number of backed
   addresses exactly when no address of the window lies in two frames. (The last
   frame of a chunk may overshoot its declared range into the next chunk's first.)
   */
  lemma {:induction false} CountIsBacked(frames: seq<Frame>, file: seq<u8>, snappy: Snappy, pa: nat, n: nat)
    ensures TotalOverlap(frames, pa, pa + n) >= Count(FrameMemory(frames, file, snappy), pa, n)
    ensures TotalOverlap(frames, pa, pa + n) == Count(FrameMemory(frames, file, snappy), pa, n)
       <==> forall a | pa <= a < pa + n :: Multiplicity(frames, a) <= 1
  {
    if n == 0 {
      EmptyWindow(frames, file, snappy, pa);
    } else {
      CountIsBacked(frames, file, snappy, pa, n - 1);
      OverlapGrows(frames, pa, pa + n - 1);
      BackedIffCovered(frames, file, snappy, pa + n - 1);
    }
  }
}
