/**
 The AVML loader: chunk headers, the frame table of a whole file, and reads through
 it (src/formats/avml_format.cpp).
 */
module AvmlLoad {
  import opened Words
  import opened PhysicalLayer
  import opened AvmlFormat
  import opened AvmlFrames

  // ---------- chunks of the file ----------

  const HEADER_SIZE := 32
  const TRAILER_SIZE := 8
  const AVML_MAGIC := 0x4C4D5641
  const LAYOUT: seq<nat> := [4, 4, 8, 8, 8]

  /** One AVML chunk of the file: its header's offset and range, and the stream behind it. */
  datatype Group = Group(off: nat, start: nat, end: nat, chunks: seq<Chunk>) {
    function Frames(snappy: Snappy): seq<Frame> {
      FramesOf(chunks, off + HEADER_SIZE, start, snappy)
    }
    function Next(): nat {
      off + HEADER_SIZE + |StreamBytes(chunks)| + TRAILER_SIZE
    }
  }

  function HeaderAt(file: seq<u8>, off: nat): (h: seq<nat>)
    requires off + HEADER_SIZE <= |file|
    ensures |h| == 5
  {
    assert Width(LAYOUT) == HEADER_SIZE;
    Unpack(file[off..off + HEADER_SIZE], LAYOUT)
  }

  /** The stream behind a header: it may use the rest of the file. */
  function StreamAt(file: seq<u8>, off: nat, expected: nat, snappy: Snappy): (w: Stretch)
    requires off + HEADER_SIZE <= |file|
    ensures w.Inside()
  {
    Stretch(file, off + HEADER_SIZE, |file| - off - HEADER_SIZE, expected, snappy)
  }

  ghost predicate GroupAt(file: seq<u8>, g: Group, snappy: Snappy) {
    && g.off + HEADER_SIZE <= |file|
    && (var h := HeaderAt(file, g.off);
        h[0] == AVML_MAGIC && h[1] == 2 && h[2] == g.start < g.end == h[3])
    && StreamAt(file, g.off, g.end - g.start, snappy).Finished(g.chunks)
  }

  predicate GoodHeader(file: seq<u8>, off: nat)
    requires off + HEADER_SIZE <= |file|
  {
    var h := HeaderAt(file, off);
    h[0] == AVML_MAGIC && h[1] == 2 && h[2] < h[3]
  }

  /** A header fits at off, and no group can be read there: it is bad, or the walk behind it gets stuck. */
  ghost predicate StuckAt(file: seq<u8>, off: nat, snappy: Snappy) {
    && off + HEADER_SIZE <= |file|
    && (GoodHeader(file, off) ==>
         var h := HeaderAt(file, off);
         StreamAt(file, off, h[3] - h[2], snappy).Jams())
  }

  /** The groups follow each other from offset 0, and end at off. */
  ghost predicate Chain(file: seq<u8>, gs: seq<Group>, off: nat, snappy: Snappy) {
    if gs == [] then off == 0
    else
      var g := gs[|gs| - 1];
      GroupAt(file, g, snappy) && off == g.Next() && Chain(file, gs[..|gs| - 1], g.off, snappy)
  }

  function AllFrames(gs: seq<Group>, snappy: Snappy): seq<Frame> {
    if gs == [] then [] else AllFrames(gs[..|gs| - 1], snappy) + gs[|gs| - 1].Frames(snappy)
  }

  /** A chain that leaves no room for another header: the file is read to its end. */
  ghost predicate Complete(file: seq<u8>, gs: seq<Group>, off: nat, snappy: Snappy) {
    Chain(file, gs, off, snappy) && off + HEADER_SIZE > |file|
  }

  // ---------- a file has one chain ----------

  lemma LastLink(file: seq<u8>, gs: seq<Group>, off: nat, snappy: Snappy)
    requires gs != [] && Chain(file, gs, off, snappy)
    ensures var n := |gs| - 1;
      && gs == gs[..n] + [gs[n]]
      && GroupAt(file, gs[n], snappy) && off == gs[n].Next() && Chain(file, gs[..n], gs[n].off, snappy)
  {
    hide GroupAt;
  }

  /** Two groups at one offset are one. */
  lemma GroupUnique(file: seq<u8>, g: Group, h: Group, snappy: Snappy)
    requires GroupAt(file, g, snappy) && GroupAt(file, h, snappy) && g.off == h.off
    ensures g == h
  {
    hide HeaderAt, Stretch.Finished;
    FinishedTaken(StreamAt(file, g.off, g.end - g.start, snappy), g.chunks);
    WalkUnique(StreamAt(file, g.off, g.end - g.start, snappy), g.chunks, h.chunks);
  }

  lemma FinishedTaken(w: Stretch, chunks: seq<Chunk>)
    requires w.Inside() && w.Finished(chunks)
    ensures w.Taken(chunks)
  {
  }

  lemma {:induction false} ChainPrefix(file: seq<u8>, gs: seq<Group>, off: nat, k: nat, snappy: Snappy)
    returns (mid: nat)
    requires Chain(file, gs, off, snappy) && k <= |gs|
    ensures Chain(file, gs[..k], mid, snappy) && mid <= off
    ensures k < |gs| ==> gs[k].off == mid && GroupAt(file, gs[k], snappy)
    decreases |gs|
  {
    hide GroupAt, Chain, StreamBytes;
    var n := |gs| - 1;
    if k == |gs| {
      assert gs[..k] == gs;
      mid := off;
    } else if k == n {
      LastLink(file, gs, off, snappy);
      mid := gs[n].off;
    } else {
      LastLink(file, gs, off, snappy);
      mid := ChainPrefix(file, gs[..n], gs[n].off, k, snappy);
      assert gs[..n][..k] == gs[..k];
    }
  }

  /** A chain ends where its groups say. */
  lemma {:induction false} ChainEnd(file: seq<u8>, gs: seq<Group>, off: nat, off': nat, snappy: Snappy)
    requires Chain(file, gs, off, snappy) && Chain(file, gs, off', snappy)
    ensures off == off'
  {
    hide GroupAt;
  }

  lemma {:induction false} ChainsAgree(file: seq<u8>, gs: seq<Group>, off: nat, hs: seq<Group>, end: nat,
                                       snappy: Snappy)
    requires Chain(file, gs, off, snappy) && Chain(file, hs, end, snappy)
    ensures gs <= hs || hs <= gs
    decreases |gs|
  {
    hide GroupAt, Chain, StreamBytes;
    if gs != [] {
      var k := |gs| - 1;
      LastLink(file, gs, off, snappy);
      ChainsAgree(file, gs[..k], gs[k].off, hs, end, snappy);
      if gs[..k] < hs {
        var mid := ChainPrefix(file, hs, end, k, snappy);
        assert hs[..k] == gs[..k];
        ChainEnd(file, gs[..k], mid, gs[k].off, snappy);
        GroupUnique(file, gs[k], hs[k], snappy);
      }
    }
  }

  /** A chain is a prefix of every complete one; a complete one is the only one, and none is stuck beside it. */
  lemma ChainUnique(file: seq<u8>, gs: seq<Group>, off: nat, hs: seq<Group>, end: nat, snappy: Snappy)
    requires Chain(file, gs, off, snappy) && Complete(file, hs, end, snappy)
    ensures gs <= hs && !StuckAt(file, off, snappy)
    ensures off + HEADER_SIZE > |file| ==> gs == hs && off == end
  {
    hide Chain, StreamBytes, StuckAt, GroupAt;
    ChainsAgree(file, gs, off, hs, end, snappy);
    if hs < gs {
      var mid := ChainPrefix(file, gs, off, |hs|, snappy);
      assert gs[..|hs|] == hs;
      ChainEnd(file, hs, mid, end, snappy);
      GroupFits(file, gs[|hs|], snappy);
    }
    if gs < hs {
      var mid := ChainPrefix(file, hs, end, |gs|, snappy);
      assert hs[..|gs|] == gs;
      ChainEnd(file, gs, mid, off, snappy);
      GroupFits(file, hs[|gs|], snappy);
    } else {
      assert gs == hs;
      ChainEnd(file, gs, off, end, snappy);
      PastEnd(file, off, snappy);
    }
  }

  lemma PastEnd(file: seq<u8>, off: nat, snappy: Snappy)
    requires off + HEADER_SIZE > |file|
    ensures !StuckAt(file, off, snappy)
  {
  }

  /** Where a group can be read a header fits, and reading is not stuck. */
  lemma GroupFits(file: seq<u8>, g: Group, snappy: Snappy)
    requires GroupAt(file, g, snappy)
    ensures g.off + HEADER_SIZE <= |file| && !StuckAt(file, g.off, snappy)
  {
    hide HeaderAt, Stretch.Finished, Stretch.Stuck;
    var w := StreamAt(file, g.off, g.end - g.start, snappy);
    StuckTaken(w);
    forall chunks | w.Taken(chunks) ensures !w.Stuck(chunks) {
      WalkUnique(w, chunks, g.chunks);
    }
  }

  // ---------- loading ----------

  /** The frame table a file loads to, if it does. */
  ghost predicate LoadsTo(file: seq<u8>, snappy: Snappy, frames: seq<Frame>) {
    frames != [] && exists gs, off: nat :: Complete(file, gs, off, snappy) && frames == AllFrames(gs, snappy)
  }

  /** Why a file does not load: reading gets stuck after some groups, or the whole file holds no frame. */
  ghost predicate LoadFails(file: seq<u8>, snappy: Snappy) {
    exists gs, off: nat :: Chain(file, gs, off, snappy)
      && (StuckAt(file, off, snappy) || (off + HEADER_SIZE > |file| && AllFrames(gs, snappy) == []))
  }

  /** A file loads to one table at most, and to none if it fails. */
  lemma LoadIsUnique(file: seq<u8>, snappy: Snappy, gs: seq<Group>, off: nat)
    requires Complete(file, gs, off, snappy)
    ensures forall frames | LoadsTo(file, snappy, frames) :: frames == AllFrames(gs, snappy)
    ensures AllFrames(gs, snappy) != [] ==> !LoadFails(file, snappy)
  {
    hide Chain, AllFrames, StuckAt;
    forall hs, end: nat | Chain(file, hs, end, snappy)
      ensures !StuckAt(file, end, snappy) && (end + HEADER_SIZE > |file| ==> hs == gs)
    {
      ChainUnique(file, hs, end, gs, off, snappy);
    }
  }

  lemma StuckFails(file: seq<u8>, snappy: Snappy, gs: seq<Group>, off: nat)
    requires Chain(file, gs, off, snappy) && StuckAt(file, off, snappy)
    ensures LoadFails(file, snappy) && forall frames :: !LoadsTo(file, snappy, frames)
  {
    hide Chain, AllFrames, StuckAt;
    forall hs, end: nat ensures !Complete(file, hs, end, snappy) {
      if Complete(file, hs, end, snappy) { ChainUnique(file, gs, off, hs, end, snappy); }
    }
  }

  /**
   The loader succeeds exactly on the files that some chain of groups with a frame in
   it reads to the end, and returns the frames of that chain; it fails exactly where a
   group cannot be read, or when there is no frame at all.
   */
  method LoadChunks(file: seq<u8>, snappy: Snappy) returns (r: Option<seq<Frame>>)
    ensures forall frames :: r == Some(frames) <==> LoadsTo(file, snappy, frames)
    ensures r.None? <==> LoadFails(file, snappy)
  {
    hide StreamBytes, FramesOf, HeaderAt, AllFrames, Chain, StuckAt, GroupAt, LoadsTo, LoadFails;
    hide Stretch.Finished, Stretch.Jams;
    var off, frames := 0, [];
    ghost var gs: seq<Group> := [];
    NoGroups(file, snappy);
    while off + HEADER_SIZE <= |file|
      invariant 0 <= off && Chain(file, gs, off, snappy)
      invariant frames == AllFrames(gs, snappy)
      decreases |file| + TRAILER_SIZE - off
    {
      var h := HeaderAt(file, off);
      if h[0] != AVML_MAGIC || h[1] != 2 || h[3] <= h[2] {
        BadHeaderSticks(file, off, snappy);
        StuckFails(file, snappy, gs, off);
        return None;
      }
      var dataOff := off + HEADER_SIZE;
      var parsed := ParseSnappyFrames(file, dataOff, |file| - dataOff, h[3] - h[2], h[2], snappy);
      if parsed.BadStream? {
        BadStreamSticks(file, off, snappy);
        StuckFails(file, snappy, gs, off);
        return None;
      }
      ghost var chunks :| StreamAt(file, off, h[3] - h[2], snappy).Finished(chunks);
      ghost var g := Group(off, h[2], h[3], chunks);
      ReadsGroup(file, g, snappy);
      OneMoreGroup(file, gs, g, snappy);
      frames := frames + parsed.frames;
      gs := gs + [g];
      off := dataOff + parsed.consumed + TRAILER_SIZE;
    }
    LoadIsUnique(file, snappy, gs, off);
    AtTheEnd(file, snappy, gs, off);
    if frames == [] { return None; }
    return Some(frames);
  }

  lemma NoGroups(file: seq<u8>, snappy: Snappy)
    ensures Chain(file, [], 0, snappy) && AllFrames([], snappy) == []
  {
  }

  lemma AtTheEnd(file: seq<u8>, snappy: Snappy, gs: seq<Group>, off: nat)
    requires Complete(file, gs, off, snappy)
    ensures AllFrames(gs, snappy) == [] ==> LoadFails(file, snappy)
    ensures AllFrames(gs, snappy) != [] ==> LoadsTo(file, snappy, AllFrames(gs, snappy))
    ensures !LoadsTo(file, snappy, [])
  {
    hide Chain, AllFrames, StuckAt;
  }

  lemma BadHeaderSticks(file: seq<u8>, off: nat, snappy: Snappy)
    requires off + HEADER_SIZE <= |file| && !GoodHeader(file, off)
    ensures StuckAt(file, off, snappy)
  {
  }

  lemma BadStreamSticks(file: seq<u8>, off: nat, snappy: Snappy)
    requires off + HEADER_SIZE <= |file| && GoodHeader(file, off)
    requires var h := HeaderAt(file, off); StreamAt(file, off, h[3] - h[2], snappy).Jams()
    ensures StuckAt(file, off, snappy)
  {
    hide HeaderAt, Stretch.Jams;
  }

  lemma ReadsGroup(file: seq<u8>, g: Group, snappy: Snappy)
    requires g.off + HEADER_SIZE <= |file| && g.start < g.end
    requires var h := HeaderAt(file, g.off); h[0] == AVML_MAGIC && h[1] == 2 && h[2] == g.start && h[3] == g.end
    requires StreamAt(file, g.off, g.end - g.start, snappy).Finished(g.chunks)
    ensures GroupAt(file, g, snappy)
  {
    hide HeaderAt, Stretch.Finished;
  }

  lemma OneMoreGroup(file: seq<u8>, gs: seq<Group>, g: Group, snappy: Snappy)
    requires Chain(file, gs, g.off, snappy) && GroupAt(file, g, snappy)
    ensures Chain(file, gs + [g], g.Next(), snappy)
    ensures AllFrames(gs + [g], snappy) == AllFrames(gs, snappy) + g.Frames(snappy)
  {
    hide GroupAt, StreamBytes, FramesOf;
    assert (gs + [g])[..|gs|] == gs;
  }

  lemma {:induction false} MultiplicityConcat(fs: seq<Frame>, gs: seq<Frame>, a: nat)
    ensures Multiplicity(fs + gs, a) == Multiplicity(fs, a) + Multiplicity(gs, a)
  {
    if gs == [] {
      assert fs + gs == fs;
    } else {
      MultiplicityConcat(fs, gs[..|gs| - 1], a);
      assert (fs + gs)[..|fs + gs| - 1] == fs + gs[..|gs| - 1];
    }
  }

  /** What a chunk's frames really reach: the announced total, which may overshoot the header's end. */
  function Reach(g: Group, snappy: Snappy): nat {
    g.start + TotalAnnounced(g.chunks, snappy)
  }

  ghost predicate Within(f: Frame, g: Group, snappy: Snappy) {
    g.start <= f.paStart && f.End() <= Reach(g, snappy)
  }

  lemma LastGroup(gs: seq<Group>, snappy: Snappy)
    requires gs != [] && forall g | g in gs :: ValidStream(g.chunks, snappy)
    ensures var n := |gs| - 1;
      && AllFrames(gs, snappy) == AllFrames(gs[..n], snappy) + gs[n].Frames(snappy)
      && Tiles(gs[n].Frames(snappy), gs[n].start, Reach(gs[n], snappy))
      && (forall g | g in gs[..n] :: g in gs && ValidStream(g.chunks, snappy))
      && forall f | f in gs[n].Frames(snappy) :: Within(f, gs[n], snappy)
  {
    hide Tiles, ValidStream, FramesOf, TotalAnnounced;
    var g := gs[|gs| - 1];
    assert g in gs;
    FramesTile(g.chunks, g.off + HEADER_SIZE, g.start, snappy);
    TilesSorted(g.Frames(snappy), g.start, Reach(g, snappy));
  }

  /** Every frame lies between its chunk's start and what that chunk reaches. */
  lemma {:induction false} FramesWithin(gs: seq<Group>, snappy: Snappy)
    requires forall g | g in gs :: ValidStream(g.chunks, snappy)
    ensures forall f | f in AllFrames(gs, snappy) :: exists g :: g in gs && Within(f, g, snappy)
  {
    hide Tiles, ValidStream, Within, Reach;
    if gs != [] {
      var n := |gs| - 1;
      LastGroup(gs, snappy);
      FramesWithin(gs[..n], snappy);
      forall f | f in AllFrames(gs, snappy) ensures exists g :: g in gs && Within(f, g, snappy) {
        if f in AllFrames(gs[..n], snappy) {
          var g :| g in gs[..n] && Within(f, g, snappy);
          assert g in gs;
        } else {
          assert gs[n] in gs && Within(f, gs[n], snappy);
        }
      }
    }
  }

  /** Chunks come in address order, none of whose frames reach into the next. */
  ghost predicate NoOvershoot(gs: seq<Group>, snappy: Snappy) {
    forall i, j | 0 <= i < j < |gs| :: Reach(gs[i], snappy) <= gs[j].start
  }

  lemma BeforeEnds(gs: seq<Group>, snappy: Snappy)
    requires gs != [] && NoOvershoot(gs, snappy) && forall g | g in gs :: ValidStream(g.chunks, snappy)
    ensures forall f | f in AllFrames(gs[..|gs| - 1], snappy) :: f.End() <= gs[|gs| - 1].start
  {
    hide Reach, ValidStream, AllFrames;
    var n := |gs| - 1;
    assert forall g | g in gs[..n] :: g in gs;
    FramesWithin(gs[..n], snappy);
    forall f | f in AllFrames(gs[..n], snappy) ensures f.End() <= gs[n].start {
      var g :| g in gs[..n] && Within(f, g, snappy);
    }
  }

  /**
   If no chunk's frames reach past the next chunk's start, the whole table is
   sorted and no address lies in two frames: the two conditions reading needs.
   */
  lemma {:induction false} NoOvershootNoOverlap(gs: seq<Group>, snappy: Snappy)
    requires NoOvershoot(gs, snappy) && forall g | g in gs :: ValidStream(g.chunks, snappy)
    ensures Sorted(AllFrames(gs, snappy))
    ensures forall a :: Multiplicity(AllFrames(gs, snappy), a) <= 1
  {
    hide Reach, ValidStream, AllFrames, Multiplicity, Tiles, Sorted;
    if gs == [] {
      NoFrames(snappy);
    } else {
      var n := |gs| - 1;
      var g, before := gs[n], AllFrames(gs[..n], snappy);
      var fs := g.Frames(snappy);
      LastGroup(gs, snappy);
      NoOvershootNoOverlap(gs[..n], snappy);
      BeforeEnds(gs, snappy);
      TilesSorted(fs, g.start, Reach(g, snappy));
      SortedConcat(before, fs, g.start);
      forall a ensures Multiplicity(before + fs, a) <= 1 {
        MultiplicityConcat(before, fs, a);
        TilesCoverOnce(fs, g.start, Reach(g, snappy), a);
        NotBeyond(before, g.start, a);
      }
    }
  }

  lemma NoFrames(snappy: Snappy)
    ensures AllFrames([], snappy) == [] && Sorted([]) && forall a :: Multiplicity([], a) == 0
  {
  }

  lemma SortedConcat(fs: seq<Frame>, gs: seq<Frame>, at: nat)
    requires Sorted(fs) && Sorted(gs)
    requires (forall f | f in fs :: f.End() <= at) && forall g | g in gs :: at <= g.paStart
    ensures Sorted(fs + gs)
  {
  }

  lemma {:induction false} NotBeyond(fs: seq<Frame>, hi: nat, a: nat)
    requires forall f | f in fs :: f.End() <= hi
    ensures a >= hi ==> Multiplicity(fs, a) == 0
  {
    if fs != [] {
      NotBeyond(fs[..|fs| - 1], hi, a);
      assert fs[|fs| - 1] in fs;
    }
  }

  // ---------- a loaded table is fit to be read ----------

  /** No frame of a loaded table decodes to more than half of what the cache holds. */
  lemma {:induction false} LoadedFramesFit(file: seq<u8>, gs: seq<Group>, off: nat, snappy: Snappy, f: Frame)
    requires Chain(file, gs, off, snappy) && f in AllFrames(gs, snappy)
    ensures f.paLength <= 0x400_0000 < CACHE_BYTES
    decreases |gs|
  {
    hide GroupAt, FramesOf, StreamBytes;
    var g := gs[|gs| - 1];
    if f in AllFrames(gs[..|gs| - 1], snappy) {
      LoadedFramesFit(file, gs[..|gs| - 1], g.off, snappy, f);
    } else {
      GroupStream(file, g, snappy);
      FramesTile(g.chunks, g.off + HEADER_SIZE, g.start, snappy);
    }
  }

  lemma GroupStream(file: seq<u8>, g: Group, snappy: Snappy)
    requires GroupAt(file, g, snappy)
    ensures ValidStream(g.chunks, snappy)
  {
  }

  lemma {:induction false} ChainStreams(file: seq<u8>, gs: seq<Group>, off: nat, snappy: Snappy)
    requires Chain(file, gs, off, snappy)
    ensures forall g | g in gs :: ValidStream(g.chunks, snappy)
    decreases |gs|
  {
    hide GroupAt, ValidStream;
    if gs != [] {
      var last := gs[|gs| - 1];
      ChainStreams(file, gs[..|gs| - 1], last.off, snappy);
      GroupStream(file, last, snappy);
    }
  }

  ghost predicate EndsBelow64(gs: seq<Group>, snappy: Snappy) {
    forall g | g in gs :: Reach(g, snappy) < TWO_64
  }

  /** The table of such a file meets everything a read through the cache asks for, and reads count exactly. */
  lemma LoadedTableReadable(file: seq<u8>, gs: seq<Group>, off: nat, snappy: Snappy)
    requires Chain(file, gs, off, snappy) && NoOvershoot(gs, snappy) && EndsBelow64(gs, snappy)
    ensures var frames := AllFrames(gs, snappy);
      && Sorted(frames) && (forall f | f in frames :: f.paLength <= CACHE_BYTES && f.End() < TWO_64)
      && forall pa: nat, n: nat :: TotalOverlap(frames, pa, pa + n) == Count(FrameMemory(frames, file, snappy), pa, n)
  {
    hide Chain, AllFrames, Reach, ValidStream, TotalOverlap, FrameMemory, Count, Sorted;
    ChainStreams(file, gs, off, snappy);
    NoOvershootNoOverlap(gs, snappy);
    FramesWithin(gs, snappy);
    var frames := AllFrames(gs, snappy);
    forall f | f in frames ensures f.paLength <= CACHE_BYTES && f.End() < TWO_64 {
      LoadedFramesFit(file, gs, off, snappy, f);
      var g :| g in gs && Within(f, g, snappy);
    }
    forall pa: nat, n: nat ensures TotalOverlap(frames, pa, pa + n) == Count(FrameMemory(frames, file, snappy), pa, n) {
      CountIsBacked(frames, file, snappy, pa, n);
    }
  }

  /** Every chunk of the file stops short of the next one's addresses, and of 2^64. */
  ghost predicate InOrder(file: seq<u8>, snappy: Snappy) {
    forall gs, off: nat | Complete(file, gs, off, snappy) :: NoOvershoot(gs, snappy) && EndsBelow64(gs, snappy)
  }

  /**
   The layer from file to bytes: load, then read through a fresh cache of the
   layer's size. Where no chunk overshoots, the result is None exactly when loading
   fails or a frame the window touches does not decode; otherwise the buffer is the
   memory the file's frames describe, and the count is of the backed addresses.
   */
  method OpenAndRead(file: seq<u8>, snappy: Snappy, pa: nat, dst: array<u8>) returns (r: Option<nat>)
    requires InOrder(file, snappy) && pa + dst.Length < TWO_64
    modifies dst
    ensures LoadFails(file, snappy) ==> r.None?
    ensures !LoadFails(file, snappy) ==> exists frames :: LoadsTo(file, snappy, frames)
    ensures forall frames | LoadsTo(file, snappy, frames) ::
      && (r.Some? <==> forall f | f in frames && Touches(f, pa, pa + dst.Length) :: Decoded(f, file, snappy).Some?)
      && (r.Some? ==> Reads(FrameMemory(frames, file, snappy), pa, dst[..], r.value))
  {
    hide Chain, AllFrames, NoOvershoot, EndsBelow64, TotalOverlap, Count, Sorted, Decoded, FrameAt, LoadFails;
    var loaded := LoadChunks(file, snappy);
    if loaded.None? { return None; }
    var frames := loaded.value;
    assert LoadsTo(file, snappy, frames);
    ghost var gs, off: nat :| Complete(file, gs, off, snappy) && frames == AllFrames(gs, snappy);
    LoadedTableReadable(file, gs, off, snappy);
    var cache := new FrameCache(CACHE_BYTES);
    r := AvmlFormat.Read(frames, cache, file, snappy, pa, dst);
    assert forall t :: Some(frames) == Some(t) <==> LoadsTo(file, snappy, t);
  }

  // ---------- writing a file ----------

  /** A chunk of the file as the recorder wrote it. */
  datatype Written = Written(start: u64, end: u64, reserved: u64, chunks: seq<Chunk>, trailer: seq<u8>)

  function HeaderBytes(w: Written): (s: seq<u8>)
    ensures |s| == HEADER_SIZE
  {
    assert Width(LAYOUT) == HEADER_SIZE;
    Pack([AVML_MAGIC, 2, w.start, w.end, w.reserved], LAYOUT)
  }

  /** A non-empty range whose last frame, and only that, reaches or passes its end. */
  ghost predicate WellWritten(w: Written, snappy: Snappy) {
    && w.start < w.end && |w.trailer| == TRAILER_SIZE && ValidStream(w.chunks, snappy)
    && TotalAnnounced(w.chunks, snappy) >= w.end - w.start
    && (w.chunks != [] ==> TotalAnnounced(w.chunks[..|w.chunks| - 1], snappy) < w.end - w.start)
  }

  function FileBytes(ws: seq<Written>): seq<u8> {
    if ws == [] then []
    else
      var w := ws[|ws| - 1];
      FileBytes(ws[..|ws| - 1]) + HeaderBytes(w) + StreamBytes(w.chunks) + w.trailer
  }

  function Groups(ws: seq<Written>): seq<Group> {
    if ws == [] then []
    else
      var w := ws[|ws| - 1];
      Groups(ws[..|ws| - 1]) + [Group(|FileBytes(ws[..|ws| - 1])|, w.start, w.end, w.chunks)]
  }

  lemma HeaderReadsBack(file: seq<u8>, off: nat, w: Written)
    requires off + HEADER_SIZE <= |file| && file[off..off + HEADER_SIZE] == HeaderBytes(w)
    ensures HeaderAt(file, off) == [AVML_MAGIC, 2, w.start, w.end, w.reserved]
  {
    Pow256Values();
    assert Width(LAYOUT) == HEADER_SIZE;
    UnpackPack([AVML_MAGIC, 2, w.start, w.end, w.reserved], LAYOUT);
  }

  /** The header in the file: magic, version, and three 64-bit numbers. */
  lemma HeaderWords(file: seq<u8>, off: nat)
    requires off + 32 <= |file|
    ensures HeaderAt(file, off) == [WordAt(file, off, 4), WordAt(file, off + 4, 4), WordAt(file, off + 8, 8),
                                    WordAt(file, off + 16, 8), WordAt(file, off + 24, 8)]
  {
    hide Unpack, WordAt;
    FiveFields(file[off..off + 32]);
    WordInSlice(file, off, off + 32, 0, 4);
    WordInSlice(file, off, off + 32, 4, 4);
    WordInSlice(file, off, off + 32, 8, 8);
    WordInSlice(file, off, off + 32, 16, 8);
    WordInSlice(file, off, off + 32, 24, 8);
  }

  /** What the recorder puts there: the bytes AVML, version 2, and the range. */
  lemma WrittenHeader(w: Written)
    ensures var s := HeaderBytes(w);
      && WordAt(s, 0, 4) == 0x4C4D5641 && WordAt(s, 4, 4) == 2
      && WordAt(s, 8, 8) == w.start && WordAt(s, 16, 8) == w.end && WordAt(s, 24, 8) == w.reserved
  {
    hide Unpack, Pack, WordAt;
    Pow256Values();
    FiveFields(HeaderBytes(w));
    UnpackPack([AVML_MAGIC, 2, w.start, w.end, w.reserved], LAYOUT);
  }

  lemma WrittenGroup(file: seq<u8>, before: seq<u8>, w: Written, rest: seq<u8>, snappy: Snappy)
    requires WellWritten(w, snappy) && file == before + HeaderBytes(w) + StreamBytes(w.chunks) + rest
    ensures GroupAt(file, Group(|before|, w.start, w.end, w.chunks), snappy)
  {
    hide HeaderBytes, StreamBytes, HeaderAt, ValidStream;
    var off := |before|;
    assert file[off..off + HEADER_SIZE] == HeaderBytes(w);
    assert file[off + HEADER_SIZE..off + HEADER_SIZE + |StreamBytes(w.chunks)|] == StreamBytes(w.chunks);
    HeaderReadsBack(file, off, w);
  }

  lemma LastWritten(ws: seq<Written>)
    requires ws != []
    ensures var n := |ws| - 1;
      && FileBytes(ws) == FileBytes(ws[..n]) + HeaderBytes(ws[n]) + StreamBytes(ws[n].chunks) + ws[n].trailer
      && Groups(ws) == Groups(ws[..n]) + [Group(|FileBytes(ws[..n])|, ws[n].start, ws[n].end, ws[n].chunks)]
      && ws[n] in ws && forall w | w in ws[..n] :: w in ws
  {
    hide HeaderBytes, StreamBytes;
  }

  lemma SplitPrefix(file: seq<u8>, a: seq<u8>, b: seq<u8>, c: seq<u8>, d: seq<u8>)
    requires a + b + c + d <= file
    ensures a <= file && file == a + b + c + file[|a| + |b| + |c|..]
  {
    var n := |a| + |b| + |c|;
    assert file[..n] == (a + b + c + d)[..n] == a + b + c;
    assert (a + b + c)[..|a|] == a;
  }

  lemma {:induction false} WrittenChain(file: seq<u8>, ws: seq<Written>, snappy: Snappy)
    requires FileBytes(ws) <= file && forall w | w in ws :: WellWritten(w, snappy)
    ensures Chain(file, Groups(ws), |FileBytes(ws)|, snappy)
    decreases |ws|
  {
    hide HeaderBytes, StreamBytes, WellWritten, GroupAt, FileBytes, Groups;
    if ws == [] {
      NothingWritten();
    } else {
      var n := |ws| - 1;
      var front, w := ws[..n], ws[n];
      LastWritten(ws);
      SplitPrefix(file, FileBytes(front), HeaderBytes(w), StreamBytes(w.chunks), w.trailer);
      var rest := file[|FileBytes(front)| + HEADER_SIZE + |StreamBytes(w.chunks)|..];
      WrittenGroup(file, FileBytes(front), w, rest, snappy);
      WrittenChain(file, front, snappy);
      assert Groups(ws)[..|Groups(front)|] == Groups(front);
      TrailerSize(w, snappy);
    }
  }

  lemma NothingWritten()
    ensures FileBytes([]) == [] && Groups([]) == []
  {
  }

  lemma TrailerSize(w: Written, snappy: Snappy)
    requires WellWritten(w, snappy)
    ensures |w.trailer| == TRAILER_SIZE
  {
  }

  /** A file written chunk by chunk loads to exactly the frames of what was written. */
  lemma WrittenFileLoads(ws: seq<Written>, snappy: Snappy)
    requires forall w | w in ws :: WellWritten(w, snappy)
    ensures Complete(FileBytes(ws), Groups(ws), |FileBytes(ws)|, snappy)
    ensures forall frames ::
      LoadsTo(FileBytes(ws), snappy, frames) <==> frames != [] && frames == AllFrames(Groups(ws), snappy)
  {
    hide Chain, AllFrames, Groups, FileBytes;
    WrittenChain(FileBytes(ws), ws, snappy);
    LoadIsUnique(FileBytes(ws), snappy, Groups(ws), |FileBytes(ws)|);
  }

  // ---------- an overshooting chunk ----------

  const TWO_BYTES := Chunk(1, [0, 0, 0, 0, 8, 9])
  const ZEROS_8: seq<u8> := [0, 0, 0, 0, 0, 0, 0, 0]

  /** Chunks for addresses 0..1 and 1..3, each holding one frame of two bytes. */
  const OVERSHOOT: seq<Written> := [
    Written(0, 1, 0, [TWO_BYTES], ZEROS_8), Written(1, 3, 0, [TWO_BYTES], ZEROS_8)
  ]

  lemma OvershootWritten(snappy: Snappy)
    ensures forall w | w in OVERSHOOT :: WellWritten(w, snappy)
    ensures |FileBytes(OVERSHOOT)| == 100
    ensures Groups(OVERSHOOT) == [Group(0, 0, 1, [TWO_BYTES]), Group(50, 1, 3, [TWO_BYTES])]
  {
    hide HeaderBytes;
    EmptyStream(0, 0, snappy);
    assert [TWO_BYTES][..0] == [];
    assert StreamBytes([TWO_BYTES]) == [] + ChunkBytes(TWO_BYTES);
    assert TotalAnnounced([TWO_BYTES], snappy) == Announced(TWO_BYTES, snappy) == 2;
    var one := OVERSHOOT[..1];
    assert one == [OVERSHOOT[0]] && one[..0] == [] && FileBytes([]) == [];
    assert |FileBytes(one)| == 50;
    assert Groups([]) == [] && Groups(one) == [Group(0, 0, 1, [TWO_BYTES])];
    assert OVERSHOOT[..|OVERSHOOT| - 1] == one;
  }

  /** That file loads to two frames, and a read of address 1 counts it twice. */
  lemma OvershootOverlaps(snappy: Snappy)
    ensures var file, f, g := FileBytes(OVERSHOOT), Frame(0, 2, 40, 2, false), Frame(1, 2, 90, 2, false);
      && LoadsTo(file, snappy, [f, g])
      && Decoded(f, file, snappy).Some? && Decoded(g, file, snappy).Some?
      && TotalOverlap([f, g], 1, 2) == 2 && Count(FrameMemory([f, g], file, snappy), 1, 1) == 1
  {
    hide FileBytes, Chain, WellWritten;
    OvershootWritten(snappy);
    var file, f, g := FileBytes(OVERSHOOT), Frame(0, 2, 40, 2, false), Frame(1, 2, 90, 2, false);
    EmptyStream(32, 0, snappy);
    assert [TWO_BYTES][..0] == [];
    assert FramesOf([TWO_BYTES], 32, 0, snappy) == [f] && FramesOf([TWO_BYTES], 82, 1, snappy) == [g];
    TwoGroups(Group(0, 0, 1, [TWO_BYTES]), Group(50, 1, 3, [TWO_BYTES]), snappy);
    WrittenFileLoads(OVERSHOOT, snappy);
    assert [f, g][..1] == [f] && [f][..0] == [];
    assert TotalOverlap([], 1, 2) == 0 && TotalOverlap([f], 1, 2) == 1;
    assert FrameAt([f, g], file, snappy, 1).Some?;
  }

  lemma TwoGroups(g: Group, h: Group, snappy: Snappy)
    ensures AllFrames([g, h], snappy) == g.Frames(snappy) + h.Frames(snappy)
  {
    hide FramesOf;
    assert [g, h][..1] == [g] && [g][..0] == [];
    assert AllFrames([g], snappy) == [] + g.Frames(snappy);
  }
}
