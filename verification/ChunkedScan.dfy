/**
 Signature scans of physical memory in overlapping chunks: scan_swapper
 (src/os/linux/kernel_resolver.cpp), scan_banner_candidates
 (src/os/linux/banner_scan.cpp) and scan_token_index (src/symbols/kallsyms.cpp).
 */
module ChunkedScan {
  import opened Words
  import opened PhysicalLayer

  const CHUNK := 4 * 1024 * 1024

  /** What differs between the scanners: bytes read past a chunk, signature length, stride, and `<` for `<=`. */
  datatype Shape = Shape(overlap: nat, length: nat, step: nat, strict: bool) {
    predicate Valid() {
      0 < length <= overlap < CHUNK && (step == 1 || step == 2)
    }

    /** How many offsets of a chunk are tried when got bytes came back. */
    function Offsets(got: nat): nat {
      if strict then Max(got - length, 0) else Max(got - length + 1, 0)
    }

    /** How many offsets at the start of each later chunk have been tried with the chunk before. */
    function Again(): nat
      requires Valid()
    {
      overlap - length + if strict then 0 else 1
    }

    /** A signature at a that the scanner can see in max bytes of memory. */
    predicate InReach(a: nat, max: nat) {
      if strict then a + length < max else a + length <= max
    }

    predicate OnStride(i: nat)
      requires step > 0
    {
      i % step == 0
    }
  }

  const SWAPPER := Shape(16, 16, 1, true)
  const BANNER := Shape(32, 14, 1, false)
  const TOKEN_INDEX := Shape(512, 512, 2, false)

  function Want(sh: Shape, max: nat, pa: nat): nat
    requires pa <= max
  {
    Min(CHUNK + sh.overlap, max - pa)
  }

  // ---------- what one chunk reports ----------

  function ChunkHits(m: Memory, pa: nat, n: nat, sh: Shape, sig: seq<u8> -> bool): seq<nat>
    requires sh.step > 0
  {
    if n == 0 then []
    else
      ChunkHits(m, pa, n - 1, sh, sig) + OneHit(m, pa, n - 1, sh, sig)
  }

  function OneHit(m: Memory, pa: nat, i: nat, sh: Shape, sig: seq<u8> -> bool): seq<nat>
    requires sh.step > 0
  {
    if sh.OnStride(i) && sig(Bytes(m, pa + i, sh.length)) then [pa + i] else []
  }

  lemma OneHitTimes(m: Memory, pa: nat, i: nat, sh: Shape, sig: seq<u8> -> bool, a: nat)
    requires sh.step > 0
    ensures multiset(OneHit(m, pa, i, sh, sig))[a]
         == if a == pa + i && sh.OnStride(a - pa) && sig(Bytes(m, a, sh.length)) then 1 else 0
  {
    hide Bytes, Shape.OnStride;
  }

  lemma {:induction false} ChunkHitsTimes(m: Memory, pa: nat, n: nat, sh: Shape, sig: seq<u8> -> bool, a: nat)
    requires sh.step > 0
    ensures multiset(ChunkHits(m, pa, n, sh, sig))[a]
         == if pa <= a < pa + n && sh.OnStride(a - pa) && sig(Bytes(m, a, sh.length)) then 1 else 0
  {
    hide Bytes, Shape.OnStride, OneHit;
    if n > 0 {
      ChunkHitsTimes(m, pa, n - 1, sh, sig, a);
      OneHitTimes(m, pa, n - 1, sh, sig, a);
    }
  }

  lemma StrideOn(m: Memory, pa: nat, i: nat, n: nat, sh: Shape, sig: seq<u8> -> bool)
    requires sh.Valid() && sh.OnStride(i) && i < n
    ensures ChunkHits(m, pa, Min(i + sh.step, n), sh, sig) == ChunkHits(m, pa, i + 1, sh, sig)
  {
  }

  // ---------- what all chunks below pa report ----------

  function HitsBelow(m: Memory, max: nat, pa: nat, sh: Shape, sig: seq<u8> -> bool): seq<nat>
    requires sh.step > 0 && pa < max + CHUNK
  {
    if pa < CHUNK then []
    else
      var p := pa - CHUNK;
      HitsBelow(m, max, p, sh, sig)
      + ChunkHits(m, p, sh.Offsets(Count(m, p, Want(sh, max, p))), sh, sig)
  }

  function RoundUp(n: nat): nat {
    (n + CHUNK - 1) / CHUNK * CHUNK
  }

  lemma {:induction false} ChunkByChunk(pa: nat, max: nat)
    requires pa % CHUNK == 0
    ensures pa < max <==> pa < RoundUp(max)
    ensures RoundUp(max) < max + CHUNK && RoundUp(max) % CHUNK == 0
  {
    assert pa == pa / CHUNK * CHUNK;
  }

  /** The loop of every scanner; got == 0 or a got shorter than the signature tries nothing. */
  method Scan(m: Memory, max: nat, sh: Shape, sig: seq<u8> -> bool) returns (hits: seq<nat>)
    requires sh.Valid()
    ensures RoundUp(max) < max + CHUNK
    ensures hits == HitsBelow(m, max, RoundUp(max), sh, sig)
  {
    hide ChunkHits, Count, Bytes, RoundUp;
    hits := [];
    var pa := 0;
    while pa < max
      invariant pa % CHUNK == 0 && 0 <= pa < max + CHUNK
      invariant hits == HitsBelow(m, max, pa, sh, sig)
      decreases max + CHUNK - pa
    {
      var got := Count(m, pa, Want(sh, max, pa));
      var more := ScanChunk(m, pa, sh.Offsets(got), sh, sig);
      hits := hits + more;
      pa := pa + CHUNK;
    }
    ChunkByChunk(pa, max);
    if pa >= CHUNK { ChunkByChunk(pa - CHUNK, max); }
    OnlyMultiple(pa, RoundUp(max));
  }

  lemma OnlyMultiple(a: nat, b: nat)
    requires a % CHUNK == 0 && b % CHUNK == 0 && a >= b && (a >= CHUNK ==> a - CHUNK < b)
    ensures a == b
  {
  }

  method ScanChunk(m: Memory, pa: nat, n: nat, sh: Shape, sig: seq<u8> -> bool) returns (hits: seq<nat>)
    requires sh.Valid()
    ensures hits == ChunkHits(m, pa, n, sh, sig)
  {
    hide Bytes;
    hits := [];
    var i := 0;
    while i < n
      invariant 0 <= i && sh.OnStride(i)
      invariant hits == ChunkHits(m, pa, Min(i, n), sh, sig)
    {
      if sig(Bytes(m, pa + i, sh.length)) {
        hits := hits + [pa + i];
      }
      StrideOn(m, pa, i, n, sh, sig);
      i := i + sh.step;
    }
  }

  // ---------- how often an address is tried ----------

  /** The chunk at p tries offset a: it lies below the end of the part the byte count stands for. */
  predicate Sees(m: Memory, max: nat, sh: Shape, p: nat, a: nat) {
    p < max && p <= a < p + sh.Offsets(Count(m, p, Want(sh, max, p)))
  }

  function OwnChunk(a: nat): nat { a / CHUNK * CHUNK }

  /** By the chunk a lies in, and from the overlap of the chunk before. */
  function Tries(m: Memory, max: nat, sh: Shape, a: nat): nat {
    (if Sees(m, max, sh, OwnChunk(a), a) then 1 else 0)
    + if CHUNK <= OwnChunk(a) && Sees(m, max, sh, OwnChunk(a) - CHUNK, a) then 1 else 0
  }

  /** How many of the chunks below pa try a. */
  function TriesBelow(m: Memory, max: nat, pa: nat, sh: Shape, a: nat): nat {
    if pa < CHUNK then 0
    else TriesBelow(m, max, pa - CHUNK, sh, a) + if Sees(m, max, sh, pa - CHUNK, a) then 1 else 0
  }

  predicate Signed(m: Memory, sh: Shape, sig: seq<u8> -> bool, a: nat)
    requires sh.step > 0
  {
    sh.OnStride(a) && sig(Bytes(m, a, sh.length))
  }

  lemma SameStride(sh: Shape, p: nat, a: nat)
    requires sh.Valid() && p % CHUNK == 0 && p <= a
    ensures sh.OnStride(a - p) == sh.OnStride(a)
  {
    assert p == p / CHUNK * CHUNK;
  }

  lemma {:induction false} HitsBelowTimes(m: Memory, max: nat, pa: nat, sh: Shape, sig: seq<u8> -> bool, a: nat)
    requires sh.Valid() && pa % CHUNK == 0 && pa < max + CHUNK
    ensures multiset(HitsBelow(m, max, pa, sh, sig))[a]
         == if Signed(m, sh, sig, a) then TriesBelow(m, max, pa, sh, a) else 0
  {
    hide ChunkHits, Bytes, Count, Want, Shape.Offsets, Shape.OnStride;
    if pa >= CHUNK {
      var p := pa - CHUNK;
      HitsBelowTimes(m, max, p, sh, sig, a);
      ChunkHitsTimes(m, p, sh.Offsets(Count(m, p, Want(sh, max, p))), sh, sig, a);
      if p <= a { SameStride(sh, p, a); }
    }
  }

  /** No chunk but a's own and the one before reaches a. */
  lemma SeesNear(m: Memory, max: nat, sh: Shape, p: nat, a: nat)
    requires sh.Valid() && p % CHUNK == 0 && Sees(m, max, sh, p, a)
    ensures p == OwnChunk(a) || p + CHUNK == OwnChunk(a)
  {
    hide Count;
    assert p == p / CHUNK * CHUNK;
  }

  lemma {:induction false} TriesClosed(m: Memory, max: nat, pa: nat, sh: Shape, a: nat)
    requires sh.Valid() && pa % CHUNK == 0
    ensures TriesBelow(m, max, pa, sh, a) ==
      var own := OwnChunk(a);
      (if own < pa && Sees(m, max, sh, own, a) then 1 else 0)
      + if CHUNK <= own && own - CHUNK < pa && Sees(m, max, sh, own - CHUNK, a) then 1 else 0
  {
    hide Sees, OwnChunk;
    if pa >= CHUNK {
      TriesClosed(m, max, pa - CHUNK, sh, a);
      if Sees(m, max, sh, pa - CHUNK, a) {
        SeesNear(m, max, sh, pa - CHUNK, a);
      }
      OwnAligned(a, pa);
    }
  }

  lemma OwnAligned(a: nat, pa: nat)
    requires pa % CHUNK == 0 && pa >= CHUNK
    ensures var own := OwnChunk(a);
      && (own < pa <==> own <= pa - CHUNK) && (own - CHUNK < pa <==> own - CHUNK <= pa - CHUNK)
  {
    assert pa == pa / CHUNK * CHUNK;
  }

  /**
   Whatever holes the memory has, a signature on the stride is reported exactly as
   often as it is tried, and nothing else is reported.
   */
  lemma ScanExact(m: Memory, max: nat, sh: Shape, sig: seq<u8> -> bool, a: nat)
    requires sh.Valid() && RoundUp(max) < max + CHUNK
    ensures multiset(HitsBelow(m, max, RoundUp(max), sh, sig))[a]
         == if Signed(m, sh, sig, a) then Tries(m, max, sh, a) else 0
  {
    hide HitsBelow, Signed, OwnChunk, TriesBelow, RoundUp;
    ChunkByChunk(0, max);
    HitsBelowTimes(m, max, RoundUp(max), sh, sig, a);
    TriesClosed(m, max, RoundUp(max), sh, a);
    OwnIsMultiple(a);
    ChunkByChunk(OwnChunk(a), max);
    if OwnChunk(a) >= CHUNK { ChunkByChunk(OwnChunk(a) - CHUNK, max); }
  }

  lemma OwnIsMultiple(a: nat)
    ensures OwnChunk(a) % CHUNK == 0 && OwnChunk(a) <= a
    ensures OwnChunk(a) >= CHUNK ==> (OwnChunk(a) - CHUNK) % CHUNK == 0
  {
  }

  /** Reported at all: seen by its own chunk or by the one before. */
  lemma ReportedIff(m: Memory, max: nat, sh: Shape, sig: seq<u8> -> bool, a: nat)
    requires sh.Valid() && RoundUp(max) < max + CHUNK
    ensures a in HitsBelow(m, max, RoundUp(max), sh, sig)
      <==> Signed(m, sh, sig, a)
           && (Sees(m, max, sh, OwnChunk(a), a)
               || (CHUNK <= OwnChunk(a) && Sees(m, max, sh, OwnChunk(a) - CHUNK, a)))
  {
    hide HitsBelow, Signed, Sees, OwnChunk, RoundUp;
    ScanExact(m, max, sh, sig, a);
    assert a in HitsBelow(m, max, RoundUp(max), sh, sig) <==> a in multiset(HitsBelow(m, max, RoundUp(max), sh, sig));
  }

  /** A chunk sees a signature exactly when no more bytes are missing from its window than follow the signature. */
  lemma SeesIffFewHoles(m: Memory, max: nat, sh: Shape, p: nat, a: nat)
    requires sh.Valid() && p < max && p <= a
    ensures var missing := Want(sh, max, p) - Count(m, p, Want(sh, max, p));
      var follow := p + Want(sh, max, p) - (a + sh.length);
      Sees(m, max, sh, p, a) <==> if sh.strict then missing < follow else missing <= follow
  {
    hide Count;
  }

  // ---------- without holes ----------

  ghost predicate HoleFree(m: Memory, max: nat) {
    Count(m, 0, max) == max
  }

  /** No byte of the chunk's window is missing. */
  ghost predicate Whole(m: Memory, max: nat, sh: Shape, p: nat) {
    p < max ==> Count(m, p, Want(sh, max, p)) == Want(sh, max, p)
  }

  ghost predicate WholeChunks(m: Memory, max: nat, sh: Shape) {
    forall p: nat | p % CHUNK == 0 :: Whole(m, max, sh, p)
  }

  lemma HoleFreeChunks(m: Memory, max: nat, sh: Shape)
    requires HoleFree(m, max)
    ensures WholeChunks(m, max, sh)
  {
    hide Count;
    forall p: nat | p % CHUNK == 0 ensures Whole(m, max, sh, p) {
      if p < max {
        CountFull(m, 0, max);
        CountFull(m, p, Want(sh, max, p));
      }
    }
  }

  /** With its own chunk and the one before whole, a signature in reach is tried once, or twice inside the overlap. */
  lemma WholeTries(m: Memory, max: nat, sh: Shape, a: nat)
    requires sh.Valid() && Whole(m, max, sh, OwnChunk(a))
    requires CHUNK <= OwnChunk(a) ==> Whole(m, max, sh, OwnChunk(a) - CHUNK)
    ensures Tries(m, max, sh, a)
         == if !sh.InReach(a, max) then 0 else if CHUNK <= a && a % CHUNK < sh.Again() then 2 else 1
  {
    hide Count;
    assert a == OwnChunk(a) + a % CHUNK;
  }

  // ---------- the three scanners ----------

  const SWAPPER_NAME: seq<u8> := [0x73, 0x77, 0x61, 0x70, 0x70, 0x65, 0x72]

  predicate MatchSwapper(s: seq<u8>) {
    && |s| == 16
    && s[..7] == SWAPPER_NAME
    && ((s[7] == 0x2f && s[8] == 0x30) || (s[7] == 0 && s[8] == 0))
    && s[9..] == [0, 0, 0, 0, 0, 0, 0]
  }

  /** "Linux version ". */
  const NEEDLE: seq<u8> := [0x4c, 0x69, 0x6e, 0x75, 0x78, 0x20, 0x76, 0x65, 0x72, 0x73, 0x69, 0x6f, 0x6e, 0x20]

  predicate MatchBanner(s: seq<u8>) { s == NEEDLE }

  /** The text, and behind it only zeros. */
  predicate Spells(s: seq<u8>, text: string) {
    && |s| >= |text| && (forall i | 0 <= i < |text| :: s[i] == text[i] as int)
    && forall i | |text| <= i < |s| :: s[i] == 0
  }

  /** The signatures as text: init_task's name field, with and without the processor, and the banner's start. */
  lemma SignaturesAre(s: seq<u8>)
    ensures MatchSwapper(s) <==> |s| == 16 && (Spells(s, "swapper/0") || Spells(s, "swapper"))
    ensures MatchBanner(s) <==> |s| == 14 && Spells(s, "Linux version ")
  {
    SwapperIs(s);
    BannerIs(s);
  }

  lemma SwapperIs(s: seq<u8>)
    ensures MatchSwapper(s) <==> |s| == 16 && (Spells(s, "swapper/0") || Spells(s, "swapper"))
  {
    if |s| == 16 {
      var rest := s[9..];
      assert rest == [0, 0, 0, 0, 0, 0, 0] <==> forall i | 9 <= i < 16 :: s[i] == 0 by {
        assert forall i | 9 <= i < 16 :: s[i] == rest[i - 9];
      }
    }
  }

  lemma BannerIs(s: seq<u8>)
    ensures MatchBanner(s) <==> |s| == 14 && Spells(s, "Linux version ")
  {
  }

  /** Every signature on the stride as often as it is tried, and nothing else: no condition on the memory. */
  ghost predicate ReportsTries(m: Memory, max: nat, sh: Shape, sig: seq<u8> -> bool, hits: seq<nat>)
    requires sh.step > 0
  {
    forall a: nat :: multiset(hits)[a] == if Signed(m, sh, sig, a) then Tries(m, max, sh, a) else 0
  }

  /** What a scan over whole chunks reports, from what any scan does. */
  lemma WholeScan(m: Memory, max: nat, sh: Shape, sig: seq<u8> -> bool, hits: seq<nat>, a: nat)
    requires sh.Valid() && WholeChunks(m, max, sh)
    requires multiset(hits)[a] == if Signed(m, sh, sig, a) then Tries(m, max, sh, a) else 0
    ensures multiset(hits)[a]
         == if !(sh.InReach(a, max) && Signed(m, sh, sig, a)) then 0
            else if CHUNK <= a && a % CHUNK < sh.Again() then 2 else 1
  {
    hide Tries, Signed, Whole;
    OwnIsMultiple(a);
    WholeTries(m, max, sh, a);
  }

  method ScanSwapper(m: Memory, max: nat) returns (hits: seq<nat>)
    ensures ReportsTries(m, max, SWAPPER, MatchSwapper, hits)
    ensures WholeChunks(m, max, SWAPPER) ==> forall a: nat ::
      multiset(hits)[a] == if a + 16 < max && MatchSwapper(Bytes(m, a, 16)) then 1 else 0
  {
    hide Tries, Sees, WholeChunks, Bytes, MatchSwapper;
    hits := Scan(m, max, SWAPPER, MatchSwapper);
    forall a: nat
      ensures multiset(hits)[a] == if Signed(m, SWAPPER, MatchSwapper, a) then Tries(m, max, SWAPPER, a) else 0
      ensures WholeChunks(m, max, SWAPPER) ==>
        multiset(hits)[a] == if a + 16 < max && MatchSwapper(Bytes(m, a, 16)) then 1 else 0
    {
      ScanExact(m, max, SWAPPER, MatchSwapper, a);
      if WholeChunks(m, max, SWAPPER) { WholeScan(m, max, SWAPPER, MatchSwapper, hits, a); }
    }
  }

  method ScanBanners(m: Memory, max: nat) returns (hits: seq<nat>)
    ensures ReportsTries(m, max, BANNER, MatchBanner, hits)
    ensures WholeChunks(m, max, BANNER) ==> forall a: nat ::
      multiset(hits)[a] == if !(a + 14 <= max && MatchBanner(Bytes(m, a, 14))) then 0
                           else if 0x40_0000 <= a && a % 0x40_0000 <= 18 then 2 else 1
  {
    hide Tries, Sees, WholeChunks, Bytes, MatchBanner;
    hits := Scan(m, max, BANNER, MatchBanner);
    forall a: nat
      ensures multiset(hits)[a] == if Signed(m, BANNER, MatchBanner, a) then Tries(m, max, BANNER, a) else 0
      ensures WholeChunks(m, max, BANNER) ==>
        multiset(hits)[a] == if !(a + 14 <= max && MatchBanner(Bytes(m, a, 14))) then 0
                             else if 0x40_0000 <= a && a % 0x40_0000 <= 18 then 2 else 1
    {
      ScanExact(m, max, BANNER, MatchBanner, a);
      if WholeChunks(m, max, BANNER) { WholeScan(m, max, BANNER, MatchBanner, hits, a); }
    }
  }

  method ScanTokenIndex(m: Memory, max: nat, plausible: seq<u8> -> bool) returns (hits: seq<nat>)
    ensures ReportsTries(m, max, TOKEN_INDEX, plausible, hits)
    ensures WholeChunks(m, max, TOKEN_INDEX) ==> forall a: nat ::
      multiset(hits)[a] == if !(a + 512 <= max && a % 2 == 0 && plausible(Bytes(m, a, 512))) then 0
                           else if 0x40_0000 <= a && a % 0x40_0000 == 0 then 2 else 1
  {
    hide Tries, Sees, WholeChunks, Bytes;
    hits := Scan(m, max, TOKEN_INDEX, plausible);
    forall a: nat
      ensures multiset(hits)[a] == if Signed(m, TOKEN_INDEX, plausible, a) then Tries(m, max, TOKEN_INDEX, a) else 0
      ensures WholeChunks(m, max, TOKEN_INDEX) ==>
        multiset(hits)[a] == if !(a + 512 <= max && a % 2 == 0 && plausible(Bytes(m, a, 512))) then 0
                             else if 0x40_0000 <= a && a % 0x40_0000 == 0 then 2 else 1
    {
      ScanExact(m, max, TOKEN_INDEX, plausible, a);
      if WholeChunks(m, max, TOKEN_INDEX) { WholeScan(m, max, TOKEN_INDEX, plausible, hits, a); }
    }
  }

  /** Fifteen bytes, the first one missing, then a banner: the only match there is goes unreported. */
  lemma HoleHidesMatch(m: Memory)
    requires m(0).None? && forall a | 1 <= a < 15 :: m(a) == Some(NEEDLE[a - 1])
    ensures RoundUp(15) == CHUNK
    ensures BANNER.InReach(1, 15) && Signed(m, BANNER, MatchBanner, 1)
    ensures 1 !in HitsBelow(m, 15, CHUNK, BANNER, MatchBanner)
  {
    hide Bytes, Count, HitsBelow;
    assert Bytes(m, 1, 14) == NEEDLE by { NeedleThere(m); }
    CountSplit(m, 0, 1, 14);
    CountPrefix(m, 1, 14, 14);
    CountPrefix(m, 0, 1, 0);
    assert Count(m, 0, 15) == 14 && Want(BANNER, 15, 0) == 15;
    ReportedIff(m, 15, BANNER, MatchBanner, 1);
  }

  lemma NeedleThere(m: Memory)
    requires forall a | 1 <= a < 15 :: m(a) == Some(NEEDLE[a - 1])
    ensures Bytes(m, 1, 14) == NEEDLE
  {
    forall i | 0 <= i < 14 ensures Bytes(m, 1, 14)[i] == NEEDLE[i] {
      assert m(1 + i) == Some(NEEDLE[i]);
    }
  }
}
