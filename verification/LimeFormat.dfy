/**
 LiME dumps: a chain of 32-byte headers, each followed by the raw bytes of one
 physical range (src/formats/lime_format.cpp).
 */
module LimeFormat {
  import opened Words
  import opened PhysicalLayer
  import opened Extents

  const HEADER_SIZE := 32
  const LIME_MAGIC := 0x4C694D45

  datatype Error =
    | BadMagic | UnsupportedVersion | BadRange | OutOfOrder | TruncatedSegment
    | TrailingBytes | NoSegments

  datatype Loaded = Segments(segs: seq<Extent>) | Failed(error: Error)

  /** A header and the data behind it, as the writer meant them. */
  datatype Chunk = Chunk(start: u64, end: u64, reserved: u64, data: seq<u8>)

  /** The u64 length and end the loader computes; both wrap for end == 2^64 - 1. */
  function SegmentLength(start: u64, end: u64): (n: u64)
    requires start <= end
    ensures n == (end - start + 1) % 0x1_0000_0000_0000_0000
  {
    if end - start == TWO_64 - 1 then 0 else end - start + 1
  }

  function NextStart(end: u64): (next: u64)
    ensures next == (end + 1) % 0x1_0000_0000_0000_0000
  {
    if end == TWO_64 - 1 then 0 else end + 1
  }

  /** u32 magic, u32 version, u64 start, u64 end, u64 reserved. */
  const LAYOUT: seq<nat> := [4, 4, 8, 8, 8]

  function Fields(c: Chunk): (fs: seq<nat>)
    ensures Fits(fs, LAYOUT)
  {
    Pow256Values();
    [LIME_MAGIC, 1, c.start, c.end, c.reserved]
  }

  function HeaderBytes(c: Chunk): (s: seq<u8>)
    ensures |s| == HEADER_SIZE
  {
    Pack(Fields(c), LAYOUT)
  }

  function FileBytes(cs: seq<Chunk>): seq<u8> {
    if cs == [] then []
    else
      var c := cs[|cs| - 1];
      FileBytes(cs[..|cs| - 1]) + (HeaderBytes(c) + c.data)
  }

  /** Where the range after these chunks may start at the earliest. */
  function NextFree(cs: seq<Chunk>): u64 {
    if cs == [] then 0 else NextStart(cs[|cs| - 1].end)
  }

  /** What the loader accepts: ascending ranges, each with exactly its data. */
  predicate Acceptable(cs: seq<Chunk>) {
    cs == [] ||
    var before, c := cs[..|cs| - 1], cs[|cs| - 1];
    Acceptable(before) && NextFree(before) <= c.start <= c.end && |c.data| == SegmentLength(c.start, c.end)
  }

  /** The segment table of a file made of these chunks. */
  function Table(cs: seq<Chunk>): (es: seq<Extent>)
    ensures |es| == |cs|
  {
    if cs == [] then []
    else
      var before, c := cs[..|cs| - 1], cs[|cs| - 1];
      Table(before) + [Extent(c.start, |c.data|, |FileBytes(before)| + HEADER_SIZE)]
  }

  ghost predicate IsReading(file: seq<u8>, cs: seq<Chunk>) {
    cs != [] && Acceptable(cs) && file == FileBytes(cs)
  }

  function HeaderAt(file: seq<u8>, off: nat): (h: seq<nat>)
    requires off + HEADER_SIZE <= |file|
    ensures Fits(h, LAYOUT) && |h| == 5
    ensures h[2] < TWO_64 && h[3] < TWO_64 && h[4] < TWO_64
  {
    Pow256Values();
    assert Width(LAYOUT) == HEADER_SIZE;
    Unpack(file[off..off + HEADER_SIZE], LAYOUT)
  }

  /** The header in the file: magic, version, and three 64-bit numbers. */
  lemma HeaderWords(file: seq<u8>, off: nat)
    requires off + 32 <= |file|
    ensures HeaderAt(file, off) == [WordAt(file, off, 4), WordAt(file, off + 4, 4), WordAt(file, off + 8, 8),
                                    WordAt(file, off + 16, 8), WordAt(file, off + 24, 8)]
  {
    hide Unpack, WordAt;
    var s := file[off..off + 32];
    FiveFields(s);
    WordInSlice(file, off, off + 32, 0, 4);
    WordInSlice(file, off, off + 32, 4, 4);
    WordInSlice(file, off, off + 32, 8, 8);
    WordInSlice(file, off, off + 32, 16, 8);
    WordInSlice(file, off, off + 32, 24, 8);
  }

  /** What the writer puts there: the bytes EMiL, version 1, and the range. */
  lemma WrittenHeader(c: Chunk)
    ensures var s := HeaderBytes(c);
      && WordAt(s, 0, 4) == 0x4C694D45 && WordAt(s, 4, 4) == 1
      && WordAt(s, 8, 8) == c.start && WordAt(s, 16, 8) == c.end && WordAt(s, 24, 8) == c.reserved
  {
    hide Unpack, Pack, WordAt;
    FiveFields(HeaderBytes(c));
    UnpackPack(Fields(c), LAYOUT);
  }

  lemma FieldsAre(h: seq<nat>, c: Chunk)
    requires |h| == 5
    ensures h == Fields(c)
       <==> h[0] == LIME_MAGIC && h[1] == 1 && h[2] == c.start && h[3] == c.end && h[4] == c.reserved
  {
    if h[0] == LIME_MAGIC && h[1] == 1 && h[2] == c.start && h[3] == c.end && h[4] == c.reserved {
      assert h == [h[0], h[1], h[2], h[3], h[4]];
    }
  }

  lemma HeaderAtBytes(file: seq<u8>, off: nat, c: Chunk)
    requires off + HEADER_SIZE <= |file|
    ensures HeaderAt(file, off) == Fields(c) <==> file[off..off + HEADER_SIZE] == HeaderBytes(c)
  {
    assert Width(LAYOUT) == HEADER_SIZE;
    PackUnpack(file[off..off + HEADER_SIZE], LAYOUT);
    UnpackPack(Fields(c), LAYOUT);
  }

  /** The last chunk of a chain: its bytes, its place in the order and its entry in the table. */
  lemma LastChunk(cs: seq<Chunk>)
    requires cs != []
    ensures var before, c := cs[..|cs| - 1], cs[|cs| - 1];
      && cs == before + [c]
      && FileBytes(cs) == FileBytes(before) + (HeaderBytes(c) + c.data)
      && Table(cs) == Table(before) + [Extent(c.start, |c.data|, |FileBytes(before)| + HEADER_SIZE)]
      && (Acceptable(cs) <==>
           Acceptable(before) && NextFree(before) <= c.start <= c.end && |c.data| == SegmentLength(c.start, c.end))
  {
    hide HeaderBytes, NextFree, SegmentLength;
  }

  /** Taking the chunk at off extends the reading so far. */
  lemma TakeChunk(file: seq<u8>, done: seq<Chunk>, off: nat, c: Chunk)
    requires off + HEADER_SIZE + |c.data| <= |file| && file[..off] == FileBytes(done)
    requires HeaderAt(file, off) == Fields(c)
    requires c.data == file[off + HEADER_SIZE..off + HEADER_SIZE + |c.data|]
    ensures (done + [c])[..|done|] == done
    ensures file[..off + HEADER_SIZE + |c.data|] == FileBytes(done + [c])
  {
    hide HeaderAt, Fields, HeaderBytes, FileBytes, Table, Acceptable;
    var dataOff := off + HEADER_SIZE;
    HeaderAtBytes(file, off, c);
    JoinSlices(file, off, dataOff, dataOff + |c.data|);
    assert (done + [c])[..|done|] == done;
    LastChunk(done + [c]);
  }

  lemma {:induction false} Prefixes(cs: seq<Chunk>, k: nat)
    requires k <= |cs|
    ensures FileBytes(cs[..k]) <= FileBytes(cs)
    ensures Acceptable(cs) ==> Acceptable(cs[..k])
  {
    if k < |cs| {
      Prefixes(cs[..|cs| - 1], k);
      assert cs[..|cs| - 1][..k] == cs[..k];
    } else {
      assert cs[..k] == cs;
    }
  }

  /** In any reading that goes on past the chunks already taken, the next header is at off. */
  lemma NextChunk(file: seq<u8>, done: seq<Chunk>, cs: seq<Chunk>, off: nat)
    requires off <= |file| && file[..off] == FileBytes(done)
    requires IsReading(file, cs) && done < cs
    ensures off + HEADER_SIZE <= |file|
    ensures var c := cs[|done|];
      && HeaderAt(file, off) == Fields(c) && NextFree(done) <= c.start <= c.end
      && off + HEADER_SIZE + |c.data| <= |file| && |c.data| == SegmentLength(c.start, c.end)
      && c.data == file[off + HEADER_SIZE..off + HEADER_SIZE + |c.data|]
  {
    var k := |done|;
    hide HeaderBytes, HeaderAt, Fields, FileBytes, Table, Acceptable;
    var c, upto := cs[k], cs[..k + 1];
    Prefixes(cs, k + 1);
    assert upto[..k] == done && upto[k] == c;
    LastChunk(upto);
    BlockSlices(file, FileBytes(done), HeaderBytes(c), c.data);
    HeaderAtBytes(file, off, c);
  }

  /** A file has at most one reading: whatever was taken so far is a prefix of it. */
  lemma {:induction false} ReadingUnique(file: seq<u8>, done: seq<Chunk>, cs: seq<Chunk>)
    requires IsReading(file, cs) && FileBytes(done) <= file && Acceptable(done)
    ensures done <= cs
  {
    hide HeaderBytes, HeaderAt, Fields, FileBytes, Table, Acceptable, IsReading;
    if done != [] {
      var k := |done| - 1;
      var before, d := done[..k], done[k];
      LastChunk(done);
      var off := |FileBytes(before)|;
      BlockSlices(file, FileBytes(before), HeaderBytes(d), d.data);
      ReadingUnique(file, before, cs);
      NotFinished(file, before, cs, off);
      NextChunk(file, before, cs, off);
      HeaderAtBytes(file, off, d);
      SameChunk(file, off, d, cs[k]);
      OneFurther(before, cs, done);
    }
  }

  lemma SameChunk(file: seq<u8>, off: nat, d: Chunk, c: Chunk)
    requires Fields(d) == Fields(c) && d.start <= d.end && c.start <= c.end
    requires |d.data| == SegmentLength(d.start, d.end) && |c.data| == SegmentLength(c.start, c.end)
    requires off + HEADER_SIZE + |c.data| <= |file| && off + HEADER_SIZE + |d.data| <= |file|
    requires d.data == file[off + HEADER_SIZE..off + HEADER_SIZE + |d.data|]
    requires c.data == file[off + HEADER_SIZE..off + HEADER_SIZE + |c.data|]
    ensures d == c
  {
    FieldsAre(Fields(c), d);
  }

  lemma OneFurther(before: seq<Chunk>, cs: seq<Chunk>, done: seq<Chunk>)
    requires before < cs && done == before + [cs[|before|]]
    ensures done <= cs
  {
  }

  lemma NotFinished(file: seq<u8>, done: seq<Chunk>, cs: seq<Chunk>, off: nat)
    requires off < |file| && off == |FileBytes(done)| && IsReading(file, cs) && done <= cs
    ensures done < cs
  {
    assert done != cs;
  }

  lemma WholeFile(file: seq<u8>, cs: seq<Chunk>)
    ensures IsReading(file, cs) <==> cs != [] && Acceptable(cs) && file == FileBytes(cs)
  {
  }

  lemma NothingTaken()
    ensures FileBytes([]) == [] && Table([]) == [] && Acceptable([]) && NextFree([]) == 0
  {
  }

  /**
   The loader succeeds exactly on the files that some non-empty acceptable chain
   of chunks encodes to, and then returns that chain's segment table: headers and
   data tile the file.
   */
  method LoadSegments(file: seq<u8>) returns (r: Loaded)
    ensures r.Segments? <==> exists cs :: IsReading(file, cs)
    ensures forall cs | IsReading(file, cs) :: r == Segments(Table(cs))
  {
    hide HeaderBytes, HeaderAt, Fields, FileBytes, Table, Acceptable, IsReading;
    NothingTaken();
    var off: nat := 0;
    var prevEnd: u64 := 0;
    var segs: seq<Extent> := [];
    ghost var done: seq<Chunk> := [];
    while off + HEADER_SIZE <= |file|
      invariant off <= |file| && file[..off] == FileBytes(done)
      invariant Acceptable(done) && prevEnd == NextFree(done)
      invariant segs == Table(done)
      invariant forall cs | IsReading(file, cs) :: done <= cs
      decreases |file| - off
    {
      var h := HeaderAt(file, off);
      var start: u64, end: u64 := h[2], h[3];
      forall cs | IsReading(file, cs)
        ensures h[0] == LIME_MAGIC && h[1] == 1 && prevEnd <= start <= end
        ensures SegmentLength(start, end) <= |file| - (off + HEADER_SIZE)
      {
        NotFinished(file, done, cs, off);
        NextChunk(file, done, cs, off);
        FieldsAre(h, cs[|done|]);
      }
      if h[0] != LIME_MAGIC { return Failed(BadMagic); }
      if h[1] != 1 { return Failed(UnsupportedVersion); }
      if end < start { return Failed(BadRange); }
      if start < prevEnd { return Failed(OutOfOrder); }
      var len := SegmentLength(start, end);
      var dataOff := off + HEADER_SIZE;
      if len > |file| - dataOff { return Failed(TruncatedSegment); }
      segs := segs + [Extent(start, len, dataOff)];
      prevEnd := NextStart(end);
      ghost var c := Chunk(start, end, h[4], file[dataOff..dataOff + len]);
      FieldsAre(h, c);
      TakeChunk(file, done, off, c);
      LastChunk(done + [c]);
      done := done + [c];
      off := dataOff + len;
      forall cs | IsReading(file, cs) ensures done <= cs {
        ReadingUnique(file, done, cs);
      }
    }
    forall cs | IsReading(file, cs) ensures off == |file| && done == cs && cs != [] {
      if done != cs {
        NextChunk(file, done, cs, off);
        assert false;
      }
      WholeFile(file, cs);
    }
    if off != |file| { return Failed(TrailingBytes); }
    assert file[..off] == file;
    if segs == [] { return Failed(NoSegments); }
    WholeFile(file, done);
    return Segments(segs);
  }

  // ---------- what the table says ----------

  lemma {:induction false} TableAt(cs: seq<Chunk>, k: nat)
    requires k < |cs|
    ensures var e := Table(cs)[k]; var file := FileBytes(cs);
      && e.start == cs[k].start && e.length == |cs[k].data| && e.fileOff + e.length <= |file|
      && file[e.fileOff..e.fileOff + e.length] == cs[k].data
    ensures Acceptable(cs) ==>
      && cs[k].start <= cs[k].end && |cs[k].data| == SegmentLength(cs[k].start, cs[k].end)
      && (k > 0 ==> NextStart(cs[k - 1].end) <= cs[k].start)
  {
    hide HeaderBytes, FileBytes, Table, Acceptable;
    var n := |cs| - 1;
    var before, c := cs[..n], cs[n];
    LastChunk(cs);
    if k < n {
      TableAt(before, k);
      assert before[k] == cs[k];
    } else {
      BlockSlices(FileBytes(cs), FileBytes(before), HeaderBytes(c), c.data);
    }
  }

  lemma {:induction false} AdjacentOrdered(es: seq<Extent>, i: nat, j: nat)
    requires i < j < |es| && forall k | 0 <= k < |es| - 1 :: es[k].End() <= es[k + 1].start
    ensures es[i].End() <= es[j].start
  {
    if i + 1 < j {
      AdjacentOrdered(es, i, j - 1);
      assert es[j - 1].End() <= es[j - 1 + 1].start;
    }
  }

  /**
   The order check compares with prev_end = end + 1, which wraps to 0 for a range
   ending at 2^64 - 1. So a loaded table is sorted and disjoint exactly when no
   header but the last ends there (the degenerate 0..2^64-1 range, whose length
   wraps to 0, apart).
   */
  lemma LoadedOrdered(cs: seq<Chunk>)
    requires Acceptable(cs)
    ensures Ordered(Table(cs))
       <==> forall k | 0 <= k < |cs| - 1 :: cs[k].end == TWO_64 - 1 ==> cs[k].start == 0
  {
    hide Table, FileBytes, Acceptable;
    var es := Table(cs);
    forall k | 0 <= k < |cs| - 1
      ensures es[k].End() <= es[k + 1].start <==> (cs[k].end == TWO_64 - 1 ==> cs[k].start == 0)
    {
      AdjacentSegments(cs, k);
    }
    if forall k | 0 <= k < |cs| - 1 :: cs[k].end == TWO_64 - 1 ==> cs[k].start == 0 {
      forall i, j | 0 <= i < j < |es| ensures es[i].End() <= es[j].start {
        AdjacentOrdered(es, i, j);
      }
    }
    if Ordered(es) {
      forall k | 0 <= k < |cs| - 1 ensures cs[k].end == TWO_64 - 1 ==> cs[k].start == 0 {
        assert es[k].End() <= es[k + 1].start;
      }
    }
  }

  lemma AdjacentSegments(cs: seq<Chunk>, k: nat)
    requires Acceptable(cs) && k + 1 < |cs|
    ensures Table(cs)[k].End() <= Table(cs)[k + 1].start
       <==> (cs[k].end == TWO_64 - 1 ==> cs[k].start == 0)
  {
    hide Table, FileBytes, Acceptable;
    TableAt(cs, k);
    TableAt(cs, k + 1);
  }

  /** A small accepted file whose segments are out of order. */
  lemma WrappedOrderAccepted() returns (cs: seq<Chunk>)
    ensures IsReading(FileBytes(cs), cs) && |cs| == 2
    ensures Table(cs)[1].End() <= Table(cs)[0].start
  {
    var high := Chunk(TWO_64 - 2, TWO_64 - 1, 0, [7, 7]);
    var low := Chunk(0, 0, 0, [9]);
    cs := [high, low];
    assert cs[..1] == [high] && [high][..0] == [];
    assert Acceptable([]) && Acceptable([high]);
    TableAt(cs, 0);
    TableAt(cs, 1);
  }

  /** In a sorted table, every data byte is found at its physical address. */
  lemma LoadedBytes(cs: seq<Chunk>, k: nat, i: nat)
    requires Ordered(Table(cs)) && k < |cs| && i < |cs[k].data|
    ensures At(Table(cs), FileBytes(cs), cs[k].start + i) == Some(cs[k].data[i])
  {
    hide Table, FileBytes, At, Ordered;
    TableAt(cs, k);
    var e, file, a := Table(cs)[k], FileBytes(cs), cs[k].start + i;
    AtCovered(Table(cs), file, k, a);
    assert file[e.fileOff..e.fileOff + e.length][i] == file[e.fileOff + i];
  }

  // ---------- reading ----------

  /** The linear scan over the segment table; no address in the window or table wraps. */
  method Read(segs: seq<Extent>, file: seq<u8>, pa: nat, dst: array<u8>) returns (total: nat)
    requires Ordered(segs) && pa + dst.Length < TWO_64
    requires forall s | s in segs :: s.End() < TWO_64
    modifies dst
    ensures Reads(MemoryOf(segs, file), pa, dst[..], total)
  {
    hide At, Partial, Count, MemoryOf, Ordered, FileBacked;
    ghost var m := MemoryOf(segs, file);
    ZeroFill(dst, 0, dst.Length);
    BufferStart(m, pa, dst);
    total := 0;
    var cur, end := pa, pa + dst.Length;
    var k := 0;
    while k < |segs|
      invariant 0 <= k <= |segs| && pa <= cur <= end
      invariant forall i | 0 <= i < k :: segs[i].End() <= cur || cur == end
      invariant total == Count(m, pa, cur - pa) && Partial(m, pa, dst[..], cur - pa)
    {
      var s := segs[k];
      if s.End() <= cur {
        k := k + 1;
        continue;
      }
      if s.start >= end { break; }
      var rs, re := Max(cur, s.start), Min(end, s.End());
      HoleBetween(segs, file, k, cur, rs);
      SkipHole(m, pa, dst[..], cur - pa, rs - pa);
      InsideExtent(segs, file, k, rs, re);
      var got := FillFromSource(m, pa, file, s.fileOff + (rs - s.start), dst, rs - pa, re - rs);
      total := total + got;
      cur := re;
      k := k + 1;
    }
    HoleBetween(segs, file, k, cur, end);
    SkipHole(m, pa, dst[..], cur - pa, end - pa);
    BufferDone(m, pa, dst[..], total);
  }

  /** Between the segments already passed and segment k lies a hole. */
  lemma HoleBetween(segs: seq<Extent>, file: seq<u8>, k: nat, lo: nat, hi: nat)
    requires k <= |segs| && lo <= hi && Ordered(segs)
    requires forall i | 0 <= i < k :: segs[i].End() <= lo || lo == hi
    requires k < |segs| && lo < hi ==> hi <= segs[k].start
    ensures forall a | lo <= a < hi :: MemoryOf(segs, file)(a) == None
  {
    forall a | lo <= a < hi ensures At(segs, file, a) == None {
      AtUncovered(segs, file, a);
    }
  }
}
