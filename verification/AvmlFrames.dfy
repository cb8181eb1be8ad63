/**
 The Snappy framing format (section 4) inside an AVML chunk, and the frames it
 yields (src/formats/avml_format.cpp).
 */
module AvmlFrames {
  import opened Words
  import opened PhysicalLayer
  import opened AvmlFormat

  const STREAM_TAG: seq<u8> := [0x73, 0x4E, 0x61, 0x50, 0x70, 0x59]  // "sNaPpY"

  /** One framing-format chunk: a type byte, a 24-bit length, the payload. */
  datatype Chunk = Chunk(ftype: nat, payload: seq<u8>)

  function ChunkBytes(c: Chunk): (s: seq<u8>)
    ensures |s| == 4 + |c.payload|
  {
    Encode(c.ftype + 256 * |c.payload|, 4) + c.payload
  }

  function StreamBytes(cs: seq<Chunk>): seq<u8> {
    if cs == [] then [] else StreamBytes(cs[..|cs| - 1]) + ChunkBytes(cs[|cs| - 1])
  }

  predicate IsData(c: Chunk) {
    c.ftype == 0 || c.ftype == 1
  }

  /** The decompressed length a data chunk announces. */
  function DataLength(c: Chunk, snappy: Snappy): Option<nat> {
    if |c.payload| < 4 then None
    else if c.ftype == 0 then snappy.length(c.payload[4..])
    else Some(|c.payload| - 4)
  }

  predicate ValidChunk(c: Chunk, snappy: Snappy) {
    && c.ftype < 0x100 && |c.payload| < 0x100_0000
    && (c.ftype == 0xFF ==> [0x73, 0x4E, 0x61, 0x50, 0x70, 0x59] <= c.payload)
    && (IsData(c) ==> DataLength(c, snappy).Some? && DataLength(c, snappy).value <= 0x400_0000)
    && !(2 <= c.ftype < 0x80)
  }

  predicate ValidStream(cs: seq<Chunk>, snappy: Snappy) {
    forall c | c in cs :: ValidChunk(c, snappy)
  }

  function Announced(c: Chunk, snappy: Snappy): nat {
    if IsData(c) && DataLength(c, snappy).Some? then DataLength(c, snappy).value else 0
  }

  function TotalAnnounced(cs: seq<Chunk>, snappy: Snappy): nat {
    if cs == [] then 0 else TotalAnnounced(cs[..|cs| - 1], snappy) + Announced(cs[|cs| - 1], snappy)
  }

  /** The frames of a stream that starts at fileOff and maps from address pa on. */
  function FramesOf(cs: seq<Chunk>, fileOff: nat, pa: nat, snappy: Snappy): seq<Frame> {
    if cs == [] then []
    else
      var before, c := cs[..|cs| - 1], cs[|cs| - 1];
      FramesOf(before, fileOff, pa, snappy)
      + if IsData(c) && |c.payload| >= 4
        then [Frame(pa + TotalAnnounced(before, snappy), Announced(c, snappy),
                    fileOff + |StreamBytes(before)| + 8, |c.payload| - 4, c.ftype == 0)]
        else []
  }

  /** The chunk whose header is at off. */
  function ChunkAt(file: seq<u8>, off: nat): (c: Chunk)
    requires off + 4 <= |file|
    ensures c.ftype < 0x100
  {
    var fh := WordAt(file, off, 4);
    var size := fh / 256;
    Chunk(fh % 256, if off + 4 + size <= |file| then file[off + 4..off + 4 + size] else [])
  }

  lemma ChunkAtBytes(file: seq<u8>, off: nat)
    requires off + 4 <= |file| && off + 4 + WordAt(file, off, 4) / 256 <= |file|
    ensures var c := ChunkAt(file, off);
      && |c.payload| == WordAt(file, off, 4) / 256 < 0x100_0000
      && file[off..off + 4 + |c.payload|] == ChunkBytes(c)
  {
    Pow256Values();
    EncodeDecode(file[off..off + 4]);
    var c := ChunkAt(file, off);
    assert file[off..off + 4 + |c.payload|] == file[off..off + 4] + file[off + 4..off + 4 + |c.payload|];
  }

  /** Two readings of the same bytes: the header determines the chunk. */
  lemma ChunkUnique(file: seq<u8>, off: nat, c: Chunk)
    requires c.ftype < 0x100 && |c.payload| < 0x100_0000
    requires off + 4 + |c.payload| <= |file| && file[off..off + 4 + |c.payload|] == ChunkBytes(c)
    ensures WordAt(file, off, 4) == c.ftype + 256 * |c.payload| && ChunkAt(file, off) == c
  {
    hide Encode, Decode;
    Pow256Values();
    DecodeEncode(c.ftype + 256 * |c.payload|, 4);
    var n := 4 + |c.payload|;
    SliceOfSlice(file, off, off + n, 0, 4);
    SliceOfSlice(file, off, off + n, 4, n);
    assert ChunkBytes(c)[0..4] == Encode(c.ftype + 256 * |c.payload|, 4) && ChunkBytes(c)[4..n] == c.payload;
  }

  datatype Parsed = Parsed(consumed: nat, frames: seq<Frame>) | BadStream

  /** A valid chunk lies next in the stream, within its limit. */
  ghost predicate NextIsValid(file: seq<u8>, off: nat, limit: nat, snappy: Snappy) {
    exists c :: ValidChunk(c, snappy) && off + 4 + |c.payload| <= limit <= |file|
             && file[off..off + 4 + |c.payload|] == ChunkBytes(c)
  }

  /** A walk over the bytes from fileOff on that may use no more than maxConsumable of them. */
  datatype Stretch = Stretch(file: seq<u8>, fileOff: nat, maxConsumable: nat, expected: nat, snappy: Snappy) {
    ghost predicate Inside() { fileOff + maxConsumable <= |file| }

    /** Valid chunks whose encoding the bytes begin with. */
    ghost predicate Begins(chunks: seq<Chunk>)
      requires Inside()
    {
      && ValidStream(chunks, snappy) && |StreamBytes(chunks)| <= maxConsumable
      && file[fileOff..fileOff + |StreamBytes(chunks)|] == StreamBytes(chunks)
    }

    /** The chunks a walk can take: none of them after the expected length was reached. */
    ghost predicate Taken(chunks: seq<Chunk>)
      requires Inside()
    {
      Begins(chunks) && (chunks != [] ==> TotalAnnounced(chunks[..|chunks| - 1], snappy) < expected)
    }

    /** After these the walk goes on: more is expected and a header fits. */
    ghost predicate GoesOn(chunks: seq<Chunk>) {
      TotalAnnounced(chunks, snappy) < expected && |StreamBytes(chunks)| + 4 <= maxConsumable
    }

    /** The walk ends properly after these chunks. */
    ghost predicate Finished(chunks: seq<Chunk>)
      requires Inside()
    {
      Taken(chunks) && !GoesOn(chunks)
    }

    /** The walk has to go on after these chunks, and no valid chunk follows. */
    ghost predicate Stuck(chunks: seq<Chunk>)
      requires Inside()
    {
      && Taken(chunks) && GoesOn(chunks)
      && !NextIsValid(file, fileOff + |StreamBytes(chunks)|, fileOff + maxConsumable, snappy)
    }

    ghost predicate Jams()
      requires Inside()
    {
      exists chunks :: Stuck(chunks)
    }
  }

  // ---------- a stretch has one reading ----------

  lemma LastOf(chunks: seq<Chunk>)
    requires chunks != []
    ensures var n := |chunks| - 1;
      && chunks == chunks[..n] + [chunks[n]]
      && StreamBytes(chunks) == StreamBytes(chunks[..n]) + ChunkBytes(chunks[n])
      && |StreamBytes(chunks)| == |StreamBytes(chunks[..n])| + 4 + |chunks[n].payload|
  {
    hide ChunkBytes;
  }

  lemma {:induction false} PrefixBegins(w: Stretch, chunks: seq<Chunk>, k: nat)
    requires w.Inside() && w.Begins(chunks) && k <= |chunks|
    ensures w.Begins(chunks[..k])
    ensures |StreamBytes(chunks[..k])| + 4 * (|chunks| - k) <= |StreamBytes(chunks)|
    ensures TotalAnnounced(chunks[..k], w.snappy) <= TotalAnnounced(chunks, w.snappy)
    decreases |chunks|
  {
    hide StreamBytes, ChunkBytes, ValidChunk, Announced;
    if k == |chunks| {
      assert chunks[..k] == chunks;
    } else {
      var n := |chunks| - 1;
      LastOf(chunks);
      FrontBegins(w, chunks[..n], chunks[n]);
      PrefixBegins(w, chunks[..n], k);
      assert chunks[..n][..k] == chunks[..k];
    }
  }

  lemma FrontBegins(w: Stretch, front: seq<Chunk>, c: Chunk)
    requires w.Inside() && w.Begins(front + [c])
    ensures w.Begins(front)
    ensures ValidChunk(c, w.snappy)
    ensures var off := w.fileOff + |StreamBytes(front)|;
      && off + 4 + |c.payload| <= w.fileOff + w.maxConsumable
      && w.file[off..off + 4 + |c.payload|] == ChunkBytes(c)
  {
    hide StreamBytes, ChunkBytes, ValidChunk;
    var all := front + [c];
    LastOf(all);
    assert all[..|front|] == front && all[|front|] == c;
    assert c in all && forall x | x in front :: x in all;
    var mid := |StreamBytes(front)|;
    SliceOfSlice(w.file, w.fileOff, w.fileOff + |StreamBytes(all)|, 0, mid);
    SliceOfSlice(w.file, w.fileOff, w.fileOff + |StreamBytes(all)|, mid, |StreamBytes(all)|);
    assert StreamBytes(all)[0..mid] == StreamBytes(front) && StreamBytes(all)[mid..|StreamBytes(all)|] == ChunkBytes(c);
  }

  /** Two readings of the same bytes: one is a prefix of the other. */
  lemma {:induction false} ReadingsAgree(w: Stretch, done: seq<Chunk>, cs: seq<Chunk>)
    requires w.Inside() && w.Begins(done) && w.Begins(cs)
    ensures done <= cs || cs <= done
    decreases |done|
  {
    hide StreamBytes, ChunkBytes, ValidChunk, Stretch.Begins;
    if done != [] {
      var k := |done| - 1;
      var before, d := done[..k], done[k];
      LastOf(done);
      FrontBegins(w, before, d);
      ReadingsAgree(w, before, cs);
      if before < cs {
        PrefixBegins(w, cs, k + 1);
        assert cs[..k + 1] == before + [cs[k]];
        FrontBegins(w, before, cs[k]);
        SameChunkHere(w, before, d, cs[k]);
      }
    }
  }

  lemma SameChunkHere(w: Stretch, before: seq<Chunk>, c: Chunk, d: Chunk)
    requires w.Inside() && ValidChunk(c, w.snappy) && ValidChunk(d, w.snappy)
    requires var off := w.fileOff + |StreamBytes(before)|;
      && off + 4 + |c.payload| <= |w.file| && off + 4 + |d.payload| <= |w.file|
      && w.file[off..off + 4 + |c.payload|] == ChunkBytes(c) && w.file[off..off + 4 + |d.payload|] == ChunkBytes(d)
    ensures c == d
  {
    hide StreamBytes, ChunkBytes, ChunkAt;
    ChunkUnique(w.file, w.fileOff + |StreamBytes(before)|, c);
    ChunkUnique(w.file, w.fileOff + |StreamBytes(before)|, d);
  }

  /** Short of a walk's chunks the walk goes on, and a valid chunk follows. */
  lemma GoesOnBefore(w: Stretch, done: seq<Chunk>, cs: seq<Chunk>)
    requires w.Inside() && w.Taken(cs) && done < cs
    ensures w.Begins(done) && w.GoesOn(done)
    ensures NextIsValid(w.file, w.fileOff + |StreamBytes(done)|, w.fileOff + w.maxConsumable, w.snappy)
  {
    hide StreamBytes, ChunkBytes, ValidChunk, TotalAnnounced, Stretch.Begins;
    var k, n := |done|, |cs| - 1;
    PrefixBegins(w, cs, k);
    LastOf(cs);
    FrontBegins(w, cs[..n], cs[n]);
    PrefixBegins(w, cs[..n], k);
    assert cs[..n][..k] == done == cs[..k];
    PrefixBegins(w, cs, k + 1);
    assert cs[..k + 1] == done + [cs[k]];
    FrontBegins(w, done, cs[k]);
    BeginsInside(w, cs);
  }

  lemma BeginsInside(w: Stretch, cs: seq<Chunk>)
    requires w.Inside() && w.Begins(cs)
    ensures |StreamBytes(cs)| <= w.maxConsumable
  {
  }

  /** A walk is a prefix of every finished one; a finished one is the only one, and none is stuck beside it. */
  lemma WalkUnique(w: Stretch, done: seq<Chunk>, cs: seq<Chunk>)
    requires w.Inside() && w.Taken(done) && w.Finished(cs)
    ensures done <= cs && (w.Finished(done) ==> done == cs) && !w.Stuck(done)
  {
    hide StreamBytes, ValidStream, TotalAnnounced, NextIsValid, Stretch.Begins, Stretch.GoesOn;
    ReadingsAgree(w, done, cs);
    if cs < done { GoesOnBefore(w, cs, done); }
    if done < cs { GoesOnBefore(w, done, cs); }
  }

  // ---------- the walk ----------

  /** What the walk may answer after taking those chunks. */
  ghost predicate Answer(w: Stretch, pa: nat, chunks: seq<Chunk>, r: Parsed)
    requires w.Inside()
  {
    match r
    case Parsed(consumed, frames) =>
      && w.Finished(chunks)
      && consumed == |StreamBytes(chunks)| && frames == FramesOf(chunks, w.fileOff, pa, w.snappy)
    case BadStream => w.Stuck(chunks)
  }

  /** An answer that fits some chunks is the only one there is. */
  lemma Concludes(w: Stretch, pa: nat, chunks: seq<Chunk>, r: Parsed)
    requires w.Inside() && Answer(w, pa, chunks, r)
    ensures r.Parsed? <==> exists cs :: w.Finished(cs)
    ensures r.BadStream? <==> w.Jams()
    ensures forall cs | w.Finished(cs) ::
      r == Parsed(|StreamBytes(cs)|, FramesOf(cs, w.fileOff, pa, w.snappy))
  {
    hide StreamBytes, FramesOf, Stretch.Finished, Stretch.Stuck, Stretch.Taken;
    AnswerTaken(w, pa, chunks, r);
    forall cs | w.Finished(cs) ensures chunks <= cs && (w.Finished(chunks) ==> chunks == cs) && !w.Stuck(chunks) {
      WalkUnique(w, chunks, cs);
    }
    if r.Parsed? {
      forall cs | w.Taken(cs) ensures !w.Stuck(cs) {
        WalkUnique(w, cs, chunks);
      }
      StuckTaken(w);
    }
  }

  lemma StuckTaken(w: Stretch)
    requires w.Inside()
    ensures forall cs | w.Stuck(cs) :: w.Taken(cs)
  {
    hide Stretch.Taken;
  }

  lemma AnswerTaken(w: Stretch, pa: nat, chunks: seq<Chunk>, r: Parsed)
    requires w.Inside() && Answer(w, pa, chunks, r)
    ensures w.Taken(chunks)
  {
    hide Stretch.Begins, StreamBytes, FramesOf, TotalAnnounced;
  }

  /**
   Walks a stream until it has announced the expected length or no header fits. It
   succeeds exactly when some chunks make such a walk, and then returns their length
   and their frames; it fails exactly where the walk has to go on and no valid chunk
   follows.
   */
  method ParseSnappyFrames(file: seq<u8>, fileOff: nat, maxConsumable: nat, expected: nat, pa: nat, snappy: Snappy)
    returns (r: Parsed)
    requires fileOff + maxConsumable <= |file|
    ensures var w := Stretch(file, fileOff, maxConsumable, expected, snappy);
      && (r.Parsed? <==> exists chunks :: w.Finished(chunks))
      && (r.BadStream? <==> w.Jams())
      && forall chunks | w.Finished(chunks) ::
           r == Parsed(|StreamBytes(chunks)|, FramesOf(chunks, fileOff, pa, snappy))
  {
    hide StreamBytes, FramesOf, TotalAnnounced, ChunkBytes, ValidChunk, ChunkAt, Announced, NextIsValid;
    hide Stretch.Finished, Stretch.Jams;
    ghost var w := Stretch(file, fileOff, maxConsumable, expected, snappy);
    var consumed, decompressed, frames := 0, 0, [];
    ghost var chunks: seq<Chunk> := [];
    EmptyStream(fileOff, pa, snappy);
    while decompressed < expected && consumed + 4 <= maxConsumable
      invariant consumed <= maxConsumable && consumed == |StreamBytes(chunks)|
      invariant w.Taken(chunks)
      invariant decompressed == TotalAnnounced(chunks, snappy)
      invariant frames == FramesOf(chunks, fileOff, pa, snappy)
      decreases maxConsumable - consumed
    {
      var off := fileOff + consumed;
      var fsize := WordAt(file, off, 4) / 256;
      NextChunk(file, off, fileOff + maxConsumable, snappy);
      if consumed + 4 + fsize > maxConsumable {
        IsStuck(w, pa, chunks);
        return BadStream;
      }
      var c := ChunkAt(file, off);
      ChunkAtBytes(file, off);
      var ok, dataLen := Inspect(c, snappy);
      if !ok {
        IsStuck(w, pa, chunks);
        return BadStream;
      }
      if IsData(c) {
        frames := frames + [Frame(pa + decompressed, dataLen, off + 8, fsize - 4, c.ftype == 0)];
      }
      decompressed := decompressed + dataLen;
      TakeChunk(file, fileOff, chunks, c, pa, snappy);
      chunks := chunks + [c];
      consumed := consumed + 4 + fsize;
    }
    r := Parsed(consumed, frames);
    IsFinished(w, pa, chunks, r);
  }

  lemma IsStuck(w: Stretch, pa: nat, chunks: seq<Chunk>)
    requires w.Inside() && w.Taken(chunks) && w.GoesOn(chunks)
    requires !NextIsValid(w.file, w.fileOff + |StreamBytes(chunks)|, w.fileOff + w.maxConsumable, w.snappy)
    ensures w.Jams()
    ensures !exists cs :: w.Finished(cs)
  {
    hide Stretch.Taken, Stretch.GoesOn, NextIsValid, StreamBytes;
    assert w.Stuck(chunks);
    Concludes(w, pa, chunks, BadStream);
  }

  lemma IsFinished(w: Stretch, pa: nat, chunks: seq<Chunk>, r: Parsed)
    requires w.Inside() && w.Taken(chunks) && !w.GoesOn(chunks)
    requires r == Parsed(|StreamBytes(chunks)|, FramesOf(chunks, w.fileOff, pa, w.snappy))
    ensures w.Finished(chunks) && !w.Jams()
    ensures forall cs | w.Finished(cs) ::
      r == Parsed(|StreamBytes(cs)|, FramesOf(cs, w.fileOff, pa, w.snappy))
  {
    hide Stretch.Taken, Stretch.GoesOn, FramesOf, StreamBytes;
    Concludes(w, pa, chunks, r);
  }

  /** The per-chunk checks of the walk, and how far the chunk advances the decoded position. */
  method Inspect(c: Chunk, snappy: Snappy) returns (ok: bool, dataLen: nat)
    requires c.ftype < 0x100 && |c.payload| < 0x100_0000
    ensures ok <==> ValidChunk(c, snappy)
    ensures ok ==> dataLen == Announced(c, snappy) && (IsData(c) ==> |c.payload| >= 4)
  {
    if c.ftype == 0xFF {
      return STREAM_TAG <= c.payload, 0;
    } else if c.ftype == 0 || c.ftype == 1 {
      if |c.payload| < 4 { return false, 0; }
      if c.ftype == 0 {
        var declared := snappy.length(c.payload[4..]);
        if declared.None? { return false, 0; }
        dataLen := declared.value;
      } else {
        dataLen := |c.payload| - 4;
      }
      return dataLen <= MAX_FRAME_DECOMPRESSED, dataLen;
    }
    return c.ftype >= 0x80, 0;
  }

  lemma EmptyStream(fileOff: nat, pa: nat, snappy: Snappy)
    ensures StreamBytes([]) == [] && TotalAnnounced([], snappy) == 0 && FramesOf([], fileOff, pa, snappy) == []
  {
  }

  lemma NextChunk(file: seq<u8>, off: nat, limit: nat, snappy: Snappy)
    requires off + 4 <= limit <= |file|
    ensures NextIsValid(file, off, limit, snappy)
       <==> off + 4 + WordAt(file, off, 4) / 256 <= limit && ValidChunk(ChunkAt(file, off), snappy)
  {
    if NextIsValid(file, off, limit, snappy) {
      var c :| ValidChunk(c, snappy) && off + 4 + |c.payload| <= limit <= |file|
               && file[off..off + 4 + |c.payload|] == ChunkBytes(c);
      ChunkUnique(file, off, c);
    }
    if off + 4 + WordAt(file, off, 4) / 256 <= limit {
      ChunkAtBytes(file, off);
    }
  }

  lemma TakeChunk(file: seq<u8>, fileOff: nat, chunks: seq<Chunk>, c: Chunk, pa: nat, snappy: Snappy)
    requires var off := fileOff + |StreamBytes(chunks)|;
      && off + 4 + |c.payload| <= |file| && file[off..off + 4 + |c.payload|] == ChunkBytes(c)
      && file[fileOff..off] == StreamBytes(chunks)
    ensures (chunks + [c])[..|chunks|] == chunks
    ensures |StreamBytes(chunks + [c])| == |StreamBytes(chunks)| + 4 + |c.payload|
    ensures file[fileOff..fileOff + |StreamBytes(chunks + [c])|] == StreamBytes(chunks + [c])
    ensures TotalAnnounced(chunks + [c], snappy) == TotalAnnounced(chunks, snappy) + Announced(c, snappy)
    ensures FramesOf(chunks + [c], fileOff, pa, snappy) == FramesOf(chunks, fileOff, pa, snappy)
      + if IsData(c) && |c.payload| >= 4
        then [Frame(pa + TotalAnnounced(chunks, snappy), Announced(c, snappy),
                    fileOff + |StreamBytes(chunks)| + 8, |c.payload| - 4, c.ftype == 0)]
        else []
  {
    hide ChunkBytes, Announced, IsData;
    var off := fileOff + |StreamBytes(chunks)|;
    assert (chunks + [c])[..|chunks|] == chunks;
    JoinAt(file, fileOff, off, off + 4 + |c.payload|);
  }

  lemma JoinAt(file: seq<u8>, a: nat, b: nat, c: nat)
    requires a <= b <= c <= |file|
    ensures file[a..c] == file[a..b] + file[b..c]
  {
  }

  // ---------- the frames of one chunk tile its physical range ----------

  /** Each frame starts where the one before it ended. */
  ghost predicate Tiles(frames: seq<Frame>, lo: nat, hi: nat) {
    if frames == [] then lo == hi
    else
      var f := frames[|frames| - 1];
      f.End() == hi && Tiles(frames[..|frames| - 1], lo, f.paStart)
  }

  lemma {:induction false} FramesTile(cs: seq<Chunk>, fileOff: nat, pa: nat, snappy: Snappy)
    requires ValidStream(cs, snappy)
    ensures Tiles(FramesOf(cs, fileOff, pa, snappy), pa, pa + TotalAnnounced(cs, snappy))
    ensures forall f | f in FramesOf(cs, fileOff, pa, snappy) ::
      f.paLength <= 0x400_0000 && f.fileOffset + f.payloadSize <= fileOff + |StreamBytes(cs)|
  {
    if cs != [] {
      var before, c := cs[..|cs| - 1], cs[|cs| - 1];
      assert c in cs;
      FramesTile(before, fileOff, pa, snappy);
      var fs := FramesOf(cs, fileOff, pa, snappy);
      if IsData(c) {
        assert fs[..|fs| - 1] == FramesOf(before, fileOff, pa, snappy);
      } else {
        assert fs == FramesOf(before, fileOff, pa, snappy);
      }
    }
  }

  /** A tiling covers its range, and nothing else, exactly once. */
  lemma {:induction false} TilesCoverOnce(frames: seq<Frame>, lo: nat, hi: nat, a: nat)
    requires Tiles(frames, lo, hi)
    ensures lo <= hi && Multiplicity(frames, a) == if lo <= a < hi then 1 else 0
  {
    if frames != [] {
      TilesCoverOnce(frames[..|frames| - 1], lo, frames[|frames| - 1].paStart, a);
    }
  }

  lemma SortedSnoc(g: seq<Frame>, f: Frame)
    requires Sorted(g) && forall e | e in g :: e.paStart <= f.paStart && e.End() <= f.End()
    ensures Sorted(g + [f])
  {
    forall i | 0 <= i < |g| ensures g[i].paStart <= f.paStart && g[i].End() <= f.End() {
      assert g[i] in g;
    }
  }

  lemma {:induction false} TilesSorted(frames: seq<Frame>, lo: nat, hi: nat)
    requires Tiles(frames, lo, hi)
    ensures Sorted(frames) && forall f | f in frames :: lo <= f.paStart && f.End() <= hi
  {
    if frames != [] {
      var n := |frames| - 1;
      var g, f := frames[..n], frames[n];
      TilesSorted(g, lo, f.paStart);
      TilesCoverOnce(g, lo, f.paStart, lo);
      SortedSnoc(g, f);
      assert frames == g + [f];
    }
  }

  /**
   A stream that announced its whole range covers it: every address of
   [pa, pa + expected) lies in exactly one frame, and only the last frame may
   run past the end.
   */
  lemma ParsedRangeCovered(cs: seq<Chunk>, fileOff: nat, pa: nat, expected: nat, snappy: Snappy, a: nat)
    requires ValidStream(cs, snappy) && TotalAnnounced(cs, snappy) >= expected
    requires pa <= a < pa + expected
    ensures Multiplicity(FramesOf(cs, fileOff, pa, snappy), a) == 1
  {
    FramesTile(cs, fileOff, pa, snappy);
    TilesCoverOnce(FramesOf(cs, fileOff, pa, snappy), pa, pa + TotalAnnounced(cs, snappy), a);
  }

  // ---------- the data of a chunk ----------

  /** What a data chunk stores behind its four checksum bytes: type 1 the data itself, type 0 its compressed form. */
  ghost predicate Stores(c: Chunk, snappy: Snappy, data: Option<seq<u8>>) {
    && |c.payload| >= 4
    && (c.ftype == 1 ==> data == Some(c.payload[4..]))
    && (c.ftype == 0 ==> forall out |
          snappy.uncompress(c.payload[4..]) == Some(out) && snappy.length(c.payload[4..]) == Some(|out|) ::
          data == Some(out))
  }

  /**
   A data chunk of a stream in the file has a frame at its place in memory, and decoding
   that gives the data the chunk stores.
   */
  lemma {:induction false} DataComesBack(file: seq<u8>, cs: seq<Chunk>, fileOff: nat, pa: nat, snappy: Snappy, k: nat)
    returns (f: Frame)
    requires ValidStream(cs, snappy) && k < |cs| && (cs[k].ftype == 0 || cs[k].ftype == 1)
    requires fileOff + |StreamBytes(cs)| <= |file|
    requires file[fileOff..fileOff + |StreamBytes(cs)|] == StreamBytes(cs)
    ensures f in FramesOf(cs, fileOff, pa, snappy) && f.paStart == pa + TotalAnnounced(cs[..k], snappy)
    ensures Stores(cs[k], snappy, Decoded(f, file, snappy))
  {
    hide Decoded, ChunkBytes, ValidStream, ValidChunk, TotalAnnounced, FramesOf, StreamBytes, Stores, Announced;
    var n := |cs| - 1;
    var before, c := cs[..n], cs[n];
    LastChunk(cs, fileOff, pa, snappy);
    TwoSlices(file, fileOff, StreamBytes(before), ChunkBytes(c));
    if k < n {
      f := DataComesBack(file, before, fileOff, pa, snappy, k);
      assert before[..k] == cs[..k];
    } else {
      var at := fileOff + |StreamBytes(before)|;
      f := Frame(pa + TotalAnnounced(before, snappy), Announced(c, snappy), at + 8, |c.payload| - 4, c.ftype == 0);
      ChunkDecodes(file, at, c, f, snappy);
    }
  }

  lemma TwoSlices(file: seq<u8>, off: nat, x: seq<u8>, y: seq<u8>)
    requires off + |x| + |y| <= |file| && file[off..off + |x| + |y|] == x + y
    ensures file[off..off + |x|] == x && file[off + |x|..off + |x| + |y|] == y
  {
    SliceOfSlice(file, off, off + |x| + |y|, 0, |x|);
    SliceOfSlice(file, off, off + |x| + |y|, |x|, |x| + |y|);
  }

  lemma LastChunk(cs: seq<Chunk>, fileOff: nat, pa: nat, snappy: Snappy)
    requires ValidStream(cs, snappy) && cs != []
    ensures var before, c := cs[..|cs| - 1], cs[|cs| - 1];
      var at := fileOff + |StreamBytes(before)|;
      && ValidStream(before, snappy) && StreamBytes(cs) == StreamBytes(before) + ChunkBytes(c)
      && (forall f | f in FramesOf(before, fileOff, pa, snappy) :: f in FramesOf(cs, fileOff, pa, snappy))
      && (c.ftype == 0 || c.ftype == 1 ==>
            && |c.payload| >= 4 && DataLength(c, snappy) == Some(Announced(c, snappy))
            && Frame(pa + TotalAnnounced(before, snappy), Announced(c, snappy), at + 8, |c.payload| - 4, c.ftype == 0)
               in FramesOf(cs, fileOff, pa, snappy))
  {
    hide ChunkBytes, TotalAnnounced;
    assert cs[|cs| - 1] in cs;
  }

  lemma ChunkDecodes(file: seq<u8>, at: nat, c: Chunk, f: Frame, snappy: Snappy)
    requires IsData(c) && |c.payload| >= 4 && DataLength(c, snappy) == Some(f.paLength)
    requires at + 4 + |c.payload| <= |file| && file[at..at + 4 + |c.payload|] == ChunkBytes(c)
    requires f.fileOffset == at + 8 && f.payloadSize == |c.payload| - 4 && f.compressed == (c.ftype == 0)
    ensures Stores(c, snappy, Decoded(f, file, snappy))
  {
    hide Encode;
    var n := 4 + |c.payload|;
    SliceOfSlice(file, at, at + n, 8, n);
    assert ChunkBytes(c)[8..n] == c.payload[4..];
  }
}
