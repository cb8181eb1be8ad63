/** The kernel half of the address space as one sparse file (src/os/linux/kern_va_stream.cpp). */
module KernVaStream {
  import opened Words
  import opened PhysicalLayer
  import opened Paging
  import opened KernelVa

  const BASE := 0xffff_8000_0000_0000
  const SPAN := 0x8000_0000_0000

  /** Every 4 KiB page of the dump is wholly there or wholly absent. */
  ghost predicate WholePages(m: Memory) {
    forall a: nat, b: nat | a / PAGE == b / PAGE :: m(a).Some? <==> m(b).Some?
  }

  ghost predicate ShowsAll(v: Memory) { forall i | 0 <= i < PAGE :: v(i).Some? }

  ghost predicate ShowsNothing(v: Memory) { forall i | 0 <= i < PAGE :: v(i).None? }

  /** The first of the strategies to show any of the page shows all of it. */
  ghost predicate FirstShowsAll(m: Memory, k: Kernel, pgd: u64, ss: seq<Strategy>, page: u64)
    requires Usable(k, ss, page)
  {
    ss == []
    || ShowsAll(View(m, k, pgd, ss[0], page))
    || (ShowsNothing(View(m, k, pgd, ss[0], page)) && FirstShowsAll(m, k, pgd, ss[1..], page))
  }

  ghost predicate Settled(m: Memory, k: Kernel, pgd: u64, page: u64) {
    StrategiesUsable(k, pgd, page);
    FirstShowsAll(m, k, pgd, Strategies(k, pgd, page), page)
  }

  /** A window of the page is read through the strategy that its byte i alone is read through. */
  ghost predicate ReadAlike(m: Memory, k: Kernel, pgd: u64, ss: seq<Strategy>, page: u64, va: u64, n: nat, i: nat)
    requires page + PAGE <= TWO_64 && Usable(k, ss, page)
  {
    page <= va && va + n <= page + PAGE && i < n ==>
      Pick(m, k, pgd, ss, va, n) == Pick(m, k, pgd, ss, va + i, 1)
  }

  ghost predicate WindowsAgree(m: Memory, k: Kernel, pgd: u64, ss: seq<Strategy>, page: u64)
    requires page + PAGE <= TWO_64 && Usable(k, ss, page)
  {
    forall va: u64, n: nat, i: nat :: ReadAlike(m, k, pgd, ss, page, va, n, i)
  }

  ghost predicate Aligned(k: Kernel) {
    k.directMapBase % PAGE == 0 && k.kaslrShift % PAGE == 0
  }

  /** The byte a read of one byte at va gives; absent bytes are zero. */
  function Ideal(m: Memory, k: Kernel, pgd: u64, va: u64): u8 {
    StrategiesUsable(k, pgd, va);
    Outcome(m, k, pgd, Strategies(k, pgd, va), va, [0])[0]
  }

  function IdealFile(m: Memory, k: Kernel, pgd: u64, offset: nat): u8 {
    if offset < SPAN then Ideal(m, k, pgd, BASE + offset) else 0
  }

  // ---------- one page is uniform ----------

  lemma TranslateAligned(m: Memory, dtb: u64, page: nat)
    requires page % PAGE == 0 && Translate(m, dtb, page).Some?
    ensures Translate(m, dtb, page).value % PAGE == 0
  {
    hide Translate, Frame4K, Frame2M, Frame1G;
    var e := LeafOf(m, dtb, page);
    FramesAligned(e);
    UnitAligned(page, 0x4_0000);
    UnitAligned(page, 0x200);
    AlignedSum(Frame1G(e), page % ONE_GB);
    AlignedSum(Frame2M(e), page % TWO_MB);
    AlignedSum(Frame4K(e), page % PAGE);
  }

  lemma AlignedSum(a: nat, b: nat)
    requires a % PAGE == 0 && b % PAGE == 0
    ensures (a + b) % PAGE == 0
  {
  }

  /** The leaf entry a translation ends at. */
  lemma LeafOf(m: Memory, dtb: u64, va: nat) returns (e: nat)
    requires Translate(m, dtb, va).Some?
    ensures var pa := Translate(m, dtb, va).value;
      pa == Frame1G(e) + va % ONE_GB || pa == Frame2M(e) + va % TWO_MB || pa == Frame4K(e) + va % PAGE
  {
    hide Entry, Frame4K, Frame2M, Frame1G, LargePage, Pml4Index, PdptIndex, PdIndex, PtIndex;
    e := Entry(m, (dtb + Pml4Index(va) * 8) % TWO_64).value;
    e := Entry(m, Frame4K(e) + PdptIndex(va) * 8).value;
    if !LargePage(e) {
      e := Entry(m, Frame4K(e) + PdIndex(va) * 8).value;
      if !LargePage(e) { e := Entry(m, Frame4K(e) + PtIndex(va) * 8).value; }
    }
  }

  lemma FramesAligned(e: nat)
    ensures Frame4K(e) % PAGE == 0 && Frame2M(e) % PAGE == 0 && Frame1G(e) % PAGE == 0
  {
    var q2, q1 := e / TWO_MB % 0x8000_0000, e / ONE_GB % 0x40_0000;
    QuotientUnique(Frame4K(e), PAGE, e / PAGE % 0x100_0000_0000, 0);
    QuotientUnique(Frame2M(e), PAGE, q2 * 0x200, 0);
    QuotientUnique(Frame1G(e), PAGE, q1 * 0x4_0000, 0);
  }

  lemma UnitAligned(page: nat, k: nat)
    requires page % PAGE == 0 && k > 0
    ensures page % (k * PAGE) % PAGE == 0
  {
    var p, d := page / PAGE, k * PAGE;
    assert page == p * PAGE && p == p / k * k + p % k;
    assert p * PAGE == p / k * d + p % k * PAGE;
    assert p % k * PAGE < d by { assert (p % k + 1) * PAGE <= k * PAGE; }
    QuotientUnique(page, d, p / k, p % k * PAGE);
    QuotientUnique(p % k * PAGE, PAGE, p % k, 0);
  }

  /** Inside va's page a strategy shows one contiguous window. */
  lemma ViewInPage(m: Memory, k: Kernel, pgd: u64, s: Strategy, va: u64, i: nat)
    requires Aligned(k) && va % PAGE + i < PAGE && va + i < TWO_64
    requires s.DirectMap? ==> va >= k.directMapBase
    ensures View(m, k, pgd, s, va + i)(0) == View(m, k, pgd, s, va)(i)
  {
    hide Translate;
    match s
    case DirectMap => assert va + i - k.directMapBase + 0 == va - k.directMapBase + i;
    case KernelImage => ImageInPage(k, va, i);
    case Dtb(_) => assert va + i + 0 == va + i;
    case InitMm(_) => assert va + i + 0 == va + i;
  }

  /** Whole pages of the dump and aligned maps settle every page of the file. */
  lemma WholePagesSuffice(m: Memory, k: Kernel, pgd: u64, page: u64)
    requires WholePages(m) && Aligned(k) && page % PAGE == 0
    ensures Settled(m, k, pgd, page)
  {
    hide Strategies;
    StrategiesUsable(k, pgd, page);
    AllSettle(m, k, pgd, Strategies(k, pgd, page), page);
  }

  lemma {:induction false} AllSettle(m: Memory, k: Kernel, pgd: u64, ss: seq<Strategy>, page: u64)
    requires WholePages(m) && Aligned(k) && page % PAGE == 0 && Usable(k, ss, page)
    ensures FirstShowsAll(m, k, pgd, ss, page)
  {
    hide View, WholePages;
    if ss != [] {
      var v := View(m, k, pgd, ss[0], page);
      forall i | 0 <= i < PAGE ensures v(i).Some? <==> v(0).Some? {
        ViewWhole(m, k, pgd, ss[0], page, i);
      }
      AllSettle(m, k, pgd, ss[1..], page);
    }
  }

  lemma ViewWhole(m: Memory, k: Kernel, pgd: u64, s: Strategy, page: u64, i: nat)
    requires WholePages(m) && Aligned(k) && page % PAGE == 0 && i < PAGE
    requires s.DirectMap? ==> page >= k.directMapBase
    ensures View(m, k, pgd, s, page)(i).Some? <==> View(m, k, pgd, s, page)(0).Some?
  {
    hide Translate, WholePages;
    match s
    case DirectMap =>
      LinearInPage(m, page, page - k.directMapBase, i);
    case KernelImage =>
      ImageInPage(k, page, 0);
      LinearInPage(m, page, ImagePa(k, page), i);
    case Dtb(_) => WalkInPage(m, k.dtb, page, i);
    case InitMm(_) => WalkInPage(m, pgd, page, i);
  }

  /** The page of an address, and the address's place in it. */
  lemma StartOfPage(va: u64)
    ensures var page: u64 := va - va % PAGE; page % PAGE == 0 && page + va % PAGE == va && page + PAGE <= TWO_64
  {
    PageOf(va);
    QuotientUnique(va - va % PAGE, PAGE, va / PAGE, 0);
    assert va / PAGE < TWO_64 / PAGE;
  }

  /** A byte after va is that byte of va's page. */
  lemma ViewFromPage(m: Memory, k: Kernel, pgd: u64, s: Strategy, page: u64, va: u64, j: nat)
    requires Aligned(k) && page % PAGE == 0 && page <= va && va + j < page + PAGE <= TWO_64
    requires s.DirectMap? ==> page >= k.directMapBase
    ensures View(m, k, pgd, s, va)(j) == View(m, k, pgd, s, page)(va - page + j)
  {
    hide View;
    SamePageOf(page, va - page);
    ViewInPage(m, k, pgd, s, page, va - page + j);
    ViewInPage(m, k, pgd, s, va, j);
    assert page + (va - page + j) == va + j;
  }

  lemma SamePageOf(a: nat, i: nat)
    requires a % PAGE + i < PAGE
    ensures (a + i) / PAGE == a / PAGE && (a + i) % PAGE == a % PAGE + i
  {
    QuotientUnique(a + i, PAGE, a / PAGE, a % PAGE + i);
  }

  lemma LinearInPage(m: Memory, va: nat, pa: nat, i: nat)
    requires pa % PAGE == va % PAGE && va % PAGE + i < PAGE
    ensures WholePages(m) ==> (m(pa + i).Some? <==> m(pa + 0).Some?)
  {
    SamePageOf(pa, i);
    if WholePages(m) {
      assert m(pa + i).Some? <==> m(pa).Some?;
    }
  }

  lemma ImageInPage(k: Kernel, va: u64, i: nat)
    requires Aligned(k) && va % PAGE + i < PAGE && va + i < TWO_64
    ensures ImagePa(k, va) % PAGE == va % PAGE
    ensures ImagePa(k, va + i) == ImagePa(k, va) + i
  {
    var x := va - START_KERNEL_MAP + k.kaslrShift;
    var q := x / TWO_64;
    assert x == q * TWO_64 + ImagePa(k, va);
    var n := k.kaslrShift / PAGE;
    assert k.kaslrShift == n * PAGE;
    assert ImagePa(k, va) == va % PAGE + (va / PAGE - START_KERNEL_MAP / PAGE + n - q * (TWO_64 / PAGE)) * PAGE;
    var t := va / PAGE - START_KERNEL_MAP / PAGE + n - q * (TWO_64 / PAGE);
    assert t >= 0;
    QuotientUnique(ImagePa(k, va), PAGE, t, va % PAGE);
    assert t < TWO_64 / PAGE;
    assert (x + i) == q * TWO_64 + (ImagePa(k, va) + i);
    ModUnique(x + i, q, ImagePa(k, va) + i);
  }

  lemma ModUnique(x: int, q: int, r: nat)
    requires r < TWO_64 && x == q * TWO_64 + r
    ensures x % TWO_64 == r
  {
  }

  lemma WalkInPage(m: Memory, dtb: u64, va: nat, i: nat)
    requires va % PAGE + i < PAGE
    ensures VirtualMemory(m, dtb)(va + i + 0) == VirtualMemory(m, dtb)(va + i)
    ensures WholePages(m) ==>
      (VirtualMemory(m, dtb)(va + i).Some? <==> VirtualMemory(m, dtb)(va + 0).Some?)
  {
    hide Translate, WholePages;
    var off := va % PAGE;
    PageOf(va);
    TranslateInPage(m, dtb, va - off, off + i);
    TranslateInPage(m, dtb, va - off, off);
    assert va - off + (off + i) == va + i && va - off + off == va;
    match Translate(m, dtb, va - off)
    case None =>
    case Some(pa) =>
      TranslateAligned(m, dtb, va - off);
      QuotientUnique(pa + off, PAGE, pa / PAGE, off);
      LinearInPage(m, va, pa + off, i);
      assert pa + (off + i) == pa + off + i;
  }

  // ---------- one chunk of a page ----------

  lemma StrategiesInPage(k: Kernel, pgd: u64, va: u64, i: nat)
    requires Aligned(k) && va % PAGE + i < PAGE && va + i < TWO_64
    ensures Strategies(k, pgd, va + i) == Strategies(k, pgd, va)
  {
    hide InitPgd;
    SamePageOf(va, i);
    Threshold(va, i, PHYSMAP_START);
    Threshold(va, i, START_KERNEL_MAP);
    Threshold(va, i, VMALLOC_START);
    Threshold(va, i, k.directMapBase);
  }

  lemma Threshold(va: nat, i: nat, t: nat)
    requires t % PAGE == 0 && va % PAGE + i < PAGE
    ensures va >= t <==> va + i >= t
  {
    var q := t / PAGE;
    assert t == q * PAGE && va == va / PAGE * PAGE + va % PAGE;
    if va < t {
      assert va / PAGE < q;
      assert (va / PAGE + 1) * PAGE <= q * PAGE;
    }
  }

  /** What a window of the page shows under one strategy, when that shows all of the page or nothing. */
  lemma WindowCount(m: Memory, k: Kernel, pgd: u64, s: Strategy, page: u64, va: u64, n: nat)
    requires Aligned(k) && page % PAGE == 0 && page <= va && va + n <= page + PAGE <= TWO_64
    requires s.DirectMap? ==> page >= k.directMapBase
    ensures ShowsAll(View(m, k, pgd, s, page)) ==> Count(View(m, k, pgd, s, va), 0, n) == n
    ensures ShowsNothing(View(m, k, pgd, s, page)) ==> Count(View(m, k, pgd, s, va), 0, n) == 0
  {
    hide View;
    forall j | 0 <= j < n ensures View(m, k, pgd, s, va)(j) == View(m, k, pgd, s, page)(va - page + j) {
      ViewFromPage(m, k, pgd, s, page, va, j);
    }
    if ShowsAll(View(m, k, pgd, s, page)) { CountPrefix(View(m, k, pgd, s, va), 0, n, n); }
    if ShowsNothing(View(m, k, pgd, s, page)) { CountPrefix(View(m, k, pgd, s, va), 0, n, 0); }
  }

  lemma {:induction false} PickInPage(m: Memory, k: Kernel, pgd: u64, ss: seq<Strategy>, page: u64, va: u64,
                                      n: nat, i: nat)
    requires Aligned(k) && page % PAGE == 0 && page <= va && va + n <= page + PAGE <= TWO_64 && i < n
    requires Usable(k, ss, page) && FirstShowsAll(m, k, pgd, ss, page)
    ensures Pick(m, k, pgd, ss, va, n) == Pick(m, k, pgd, ss, va + i, 1)
  {
    hide View, Count, ShowsAll, ShowsNothing;
    if ss != [] {
      WindowCount(m, k, pgd, ss[0], page, va, n);
      WindowCount(m, k, pgd, ss[0], page, va + i, 1);
      if !ShowsAll(View(m, k, pgd, ss[0], page)) {
        PickInPage(m, k, pgd, ss[1..], page, va, n, i);
      }
    }
  }

  lemma {:induction false} AgreeingSettle(m: Memory, k: Kernel, pgd: u64, ss: seq<Strategy>, page: u64)
    requires Aligned(k) && page % PAGE == 0 && page + PAGE <= TWO_64 && Usable(k, ss, page)
    requires WindowsAgree(m, k, pgd, ss, page)
    ensures FirstShowsAll(m, k, pgd, ss, page)
  {
    hide View, Count;
    if ss != [] {
      var v := View(m, k, pgd, ss[0], page);
      if i: nat :| i < PAGE && v(i).Some? {
        ShownAlone(m, k, pgd, ss, page, i);
        assert ReadAlike(m, k, pgd, ss, page, page, PAGE, i);
        CountFull(v, 0, PAGE);
      } else {
        forall va: u64, n: nat, i: nat ensures ReadAlike(m, k, pgd, ss[1..], page, va, n, i) {
          assert ReadAlike(m, k, pgd, ss, page, va, n, i);
          if page <= va && va + n <= page + PAGE && i < n {
            WindowCount(m, k, pgd, ss[0], page, va, n);
            WindowCount(m, k, pgd, ss[0], page, va + i, 1);
          }
        }
        AgreeingSettle(m, k, pgd, ss[1..], page);
      }
    }
  }

  lemma ShownAlone(m: Memory, k: Kernel, pgd: u64, ss: seq<Strategy>, page: u64, i: nat)
    requires Aligned(k) && page % PAGE == 0 && page + PAGE <= TWO_64 && Usable(k, ss, page)
    requires ss != [] && i < PAGE && View(m, k, pgd, ss[0], page)(i).Some?
    ensures Pick(m, k, pgd, ss, page + i, 1) == Some(ss[0])
  {
    hide View, Count;
    ViewFromPage(m, k, pgd, ss[0], page, page + i, 0);
    CountFull(View(m, k, pgd, ss[0], page + i), 0, 1);
  }

  /**
   Every window of a page is read through the strategy each of its bytes alone is
   read through, exactly when the first strategy to show any of the page shows all.
   */
  lemma WindowsAgreeIff(m: Memory, k: Kernel, pgd: u64, page: u64)
    requires Aligned(k) && page % PAGE == 0 && page + PAGE <= TWO_64
    ensures Usable(k, Strategies(k, pgd, page), page)
    ensures WindowsAgree(m, k, pgd, Strategies(k, pgd, page), page) <==> Settled(m, k, pgd, page)
  {
    hide Strategies, FirstShowsAll, Pick;
    StrategiesUsable(k, pgd, page);
    var ss := Strategies(k, pgd, page);
    if FirstShowsAll(m, k, pgd, ss, page) {
      forall va: u64, n: nat, i: nat ensures ReadAlike(m, k, pgd, ss, page, va, n, i) {
        if page <= va && va + n <= page + PAGE && i < n { PickInPage(m, k, pgd, ss, page, va, n, i); }
      }
    }
    if WindowsAgree(m, k, pgd, ss, page) { AgreeingSettle(m, k, pgd, ss, page); }
  }

  /** Whatever part of a settled page is read at once, each byte comes out as if read alone. */
  lemma ChunkIsIdeal(m: Memory, k: Kernel, pgd: u64, va: u64, n: nat, before: seq<u8>, i: nat)
    requires Aligned(k) && va % PAGE + n <= PAGE && va + n <= TWO_64 && i < n
    requires Settled(m, k, pgd, va - va % PAGE)
    requires |before| == n && forall j | 0 <= j < n :: before[j] == 0
    ensures Usable(k, Strategies(k, pgd, va), va)
    ensures Outcome(m, k, pgd, Strategies(k, pgd, va), va, before)[i] == Ideal(m, k, pgd, va + i)
  {
    hide View, Count, Strategies, Pick, FirstShowsAll;
    var page := va - va % PAGE;
    StartOfPage(va);
    StrategiesUsable(k, pgd, page);
    StrategiesUsable(k, pgd, va);
    StrategiesUsable(k, pgd, va + i);
    StrategiesInPage(k, pgd, page, va % PAGE);
    StrategiesInPage(k, pgd, va, i);
    var ss := Strategies(k, pgd, va);
    PickInPage(m, k, pgd, ss, page, va, n, i);
    var pick := Pick(m, k, pgd, ss, va, n);
    if pick.Some? {
      ViewInPage(m, k, pgd, pick.value, va, i);
    } else if ss != [] {
      ViewInPage(m, k, pgd, ss[|ss| - 1], va, i);
    }
  }

  // ---------- the stream ----------

  /** One page's worth read into the file buffer. */
  method ReadChunk(m: Memory, k: Kernel, cache: PgdCache, va: u64, dst: array<u8>, at: nat, n: nat)
    requires at + n <= dst.Length
    requires va % PAGE + n <= PAGE && va + n <= TWO_64
    requires forall i | at <= i < at + n :: dst[i] == 0
    modifies dst, cache
    ensures cache.Given(m, k) == old(cache.Given(m, k))
    ensures Aligned(k) && Settled(m, k, old(cache.Given(m, k)), va - va % PAGE) ==>
      forall i | at <= i < at + n :: dst[i] == Ideal(m, k, old(cache.Given(m, k)), va + (i - at))
    ensures forall i | 0 <= i < dst.Length && !(at <= i < at + n) :: dst[i] == old(dst[i])
  {
    hide Settled, Aligned, Ideal, Outcome, Strategies, Usable, PgdCache.Given;
    ghost var pgd := cache.Given(m, k);
    var page := new u8[n](_ => 0);
    ghost var before := page[..];
    var ok := KvaRead(m, k, cache, va, page);
    if Aligned(k) && Settled(m, k, pgd, va - va % PAGE) {
      forall i | 0 <= i < n ensures page[i] == Ideal(m, k, pgd, va + i) {
        ChunkIsIdeal(m, k, pgd, va, n, before, i);
        assert page[..][i] == page[i];
      }
    }
    forall i | 0 <= i < n {
      dst[at + i] := page[i];
    }
  }

  /** Every page the first n bytes of the window touch is settled. */
  ghost predicate PagesSettled(m: Memory, k: Kernel, pgd: u64, offset: nat, n: nat) {
    && Aligned(k)
    && forall va: u64 | BASE + offset <= va < BASE + offset + n :: Settled(m, k, pgd, PageStart(va))
  }

  function PageStart(va: u64): u64 { va - va % PAGE }

  ghost predicate FilledTo(m: Memory, k: Kernel, pgd: u64, offset: nat, buf: seq<u8>, done: nat) {
    forall i | 0 <= i < |buf| :: buf[i] == if i < done then IdealFile(m, k, pgd, offset + i) else 0
  }

  lemma FilledMore(m: Memory, k: Kernel, pgd: u64, offset: nat, before: seq<u8>, after: seq<u8>, done: nat, n: nat)
    requires FilledTo(m, k, pgd, offset, before, done) && |after| == |before| && done + n <= |before|
    requires offset + done + n <= SPAN
    requires forall i | done <= i < done + n :: after[i] == Ideal(m, k, pgd, BASE + offset + done + (i - done))
    requires forall i | 0 <= i < |after| && !(done <= i < done + n) :: after[i] == before[i]
    ensures FilledTo(m, k, pgd, offset, after, done + n)
  {
    hide Ideal;
    forall i | 0 <= i < |after|
      ensures after[i] == if i < done + n then IdealFile(m, k, pgd, offset + i) else 0
    {
      if done <= i < done + n { assert BASE + offset + done + (i - done) == BASE + (offset + i); }
    }
  }

  /**
   With page-aligned maps and settled pages under the window, a read gives that
   window of one fixed file; the count stops at the end of the span.
   */
  method Read(m: Memory, k: Kernel, cache: PgdCache, offset: u64, dst: array<u8>) returns (got: nat)
    requires offset + dst.Length < TWO_64
    modifies dst, cache
    ensures cache.Given(m, k) == old(cache.Given(m, k))
    ensures got == if offset >= SPAN then dst.Length else Min(dst.Length, SPAN - offset)
    ensures PagesSettled(m, k, old(cache.Given(m, k)), offset, dst.Length) ==>
      forall i | 0 <= i < dst.Length :: dst[i] == IdealFile(m, k, old(cache.Given(m, k)), offset + i)
  {
    hide Settled, PageStart, Ideal, PgdCache.Given;
    ghost var pgd := cache.Given(m, k);
    ZeroFill(dst, 0, dst.Length);
    if offset >= SPAN { return dst.Length; }
    var len := Min(dst.Length, SPAN - offset);
    var done := 0;
    while done < len
      invariant 0 <= done <= len && cache.Given(m, k) == pgd
      invariant forall i | done <= i < dst.Length :: dst[i] == 0
      invariant PagesSettled(m, k, pgd, offset, dst.Length) ==> FilledTo(m, k, pgd, offset, dst[..], done)
    {
      var va := BASE + offset + done;
      var chunk := Min(PAGE - va % PAGE, len - done);
      ghost var before := dst[..];
      ReadChunk(m, k, cache, va, dst, done, chunk);
      if PagesSettled(m, k, pgd, offset, dst.Length) {
        assert Settled(m, k, pgd, PageStart(va));
        PageStartIs(va);
        FilledMore(m, k, pgd, offset, before, dst[..], done, chunk);
      }
      done := done + chunk;
    }
    if PagesSettled(m, k, pgd, offset, dst.Length) {
      forall i | 0 <= i < dst.Length ensures dst[i] == IdealFile(m, k, pgd, offset + i) {
        assert dst[..][i] == dst[i];
      }
    }
    got := len;
  }

  lemma PageStartIs(va: u64)
    ensures PageStart(va) == va - va % PAGE
  {
  }

  /** On a dump of whole pages every window of the file is read as that one file has it. */
  lemma WholeDump(m: Memory, k: Kernel, pgd: u64, offset: nat, n: nat)
    requires WholePages(m) && Aligned(k)
    ensures PagesSettled(m, k, pgd, offset, n)
  {
    hide Settled, PageStart, WholePages;
    forall va: u64 | BASE + offset <= va < BASE + offset + n ensures Settled(m, k, pgd, PageStart(va)) {
      PageStartIs(va);
      StartOfPage(va);
      WholePagesSuffice(m, k, pgd, PageStart(va));
    }
  }

  /** On a page only partly in the dump, a byte readable alone comes out as zero in a longer read. */
  lemma PartialPageDependsOnWindow(m: Memory, k: Kernel, va: u64)
    requires UsesDirectMap(k, va) && k.dtbValidated && va + 1 < TWO_64
    requires m(va - k.directMapBase).Some? && m(va - k.directMapBase).value != 0
    requires m(va - k.directMapBase + 1).None?
    requires VirtualMemory(m, k.dtb)(va).None? && VirtualMemory(m, k.dtb)(va + 1).None?
    ensures Usable(k, Strategies(k, 0, va), va)
    ensures Outcome(m, k, 0, Strategies(k, 0, va), va, [0])[0] == m(va - k.directMapBase).value
    ensures Outcome(m, k, 0, Strategies(k, 0, va), va, [0, 0])[0] == 0
  {
    hide VirtualMemory;
    StrategiesUsable(k, 0, va);
    var ss := Strategies(k, 0, va);
    assert ss == [DirectMap, Dtb(false)];
    var v := View(m, k, 0, DirectMap, va);
    var w := View(m, k, 0, Dtb(false), va);
    assert v(0) == m(va - k.directMapBase + 0) && v(1) == m(va - k.directMapBase + 1);
    assert w(0) == VirtualMemory(m, k.dtb)(va + 0) && va + 0 == va;
    CountPrefix(v, 0, 1, 1);
    CountPrefix(v, 0, 2, 1);
    CountPrefix(w, 0, 2, 0);
    assert ss[1..] == [Dtb(false)] && [Dtb(false)][1..] == [];
  }
}
