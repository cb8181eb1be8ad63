/**
 The 4-level x86_64 page walk and reads through it (src/arch/x86_64/paging.cpp).
 Bit fields are written as division and remainder by powers of two.
 */
module Paging {
  import opened Words
  import opened PhysicalLayer

  const PAGE := 0x1000
  const TWO_MB := 0x20_0000
  const ONE_GB := 0x4000_0000
  const TWO_48 := 0x1_0000_0000_0000

  /** Bits 12..51 of an entry: the next table, or a 4 KiB frame. */
  function Frame4K(e: nat): nat { e / PAGE % 0x100_0000_0000 * PAGE }
  /** Bits 21..51: a 2 MiB frame. */
  function Frame2M(e: nat): nat { e / TWO_MB % 0x8000_0000 * TWO_MB }
  /** Bits 30..51: a 1 GiB frame. */
  function Frame1G(e: nat): nat { e / ONE_GB % 0x40_0000 * ONE_GB }

  predicate Present(e: nat) { e % 2 == 1 }
  predicate LargePage(e: nat) { e / 0x80 % 2 == 1 }

  function Pml4Index(va: nat): nat { va / 0x80_0000_0000 % 512 }
  function PdptIndex(va: nat): nat { va / ONE_GB % 512 }
  function PdIndex(va: nat): nat { va / TWO_MB % 512 }
  function PtIndex(va: nat): nat { va / PAGE % 512 }

  /** A present 8-byte entry, if all of it is in the dump. */
  function Entry(m: Memory, pa: nat): Option<nat> {
    var e := Decode(Bytes(m, pa, 8));
    if Count(m, pa, 8) == 8 && Present(e) then Some(e) else None
  }

  function Translate(m: Memory, dtb: u64, va: nat): Option<nat> {
    match Entry(m, (dtb + Pml4Index(va) * 8) % TWO_64)
    case None => None
    case Some(pml4e) =>
      match Entry(m, Frame4K(pml4e) + PdptIndex(va) * 8)
      case None => None
      case Some(pdpte) =>
        if LargePage(pdpte) then Some(Frame1G(pdpte) + va % ONE_GB)
        else
          match Entry(m, Frame4K(pdpte) + PdIndex(va) * 8)
          case None => None
          case Some(pde) =>
            if LargePage(pde) then Some(Frame2M(pde) + va % TWO_MB)
            else
              match Entry(m, Frame4K(pde) + PtIndex(va) * 8)
              case None => None
              case Some(pte) => Some(Frame4K(pte) + va % PAGE)
  }

  // ---------- against the level-by-level walk ----------

  const TWO_52 := 0x10_0000_0000_0000

  /** The bytes one entry of a table maps: 4 KiB, 2 MiB, 1 GiB, 512 GiB. */
  function Unit(level: nat): (u: nat)
    ensures u > 0
  {
    if level <= 1 then PAGE else 512 * Unit(level - 1)
  }

  /** The 8 bytes at an address as a number, if the dump holds all of them. */
  function Word64(m: Memory, at: nat): Option<nat> {
    if forall a | at <= a < at + 8 :: m(a).Some? then Some(Decode(Bytes(m, at, 8))) else None
  }

  /**
   The walk as the architecture describes it, level 4 down to 1, ending at a leaf of any
   allowed size: bit 0 of an entry marks it present, bit 7 makes it a 1 GiB or 2 MiB
   leaf, and bits 12 to 51 are the next table.
   */
  function Walk(m: Memory, table: nat, va: nat, level: nat): Option<nat>
    requires 1 <= level <= 4
    decreases level
  {
    match Word64(m, (table + IndexAt(va, Unit(level)) * 8) % TWO_64)
    case None => None
    case Some(e) =>
      if e % 2 == 0 then None
      else if level == 1 || (level < 4 && e / 128 % 2 == 1) then Some(LeafAddress(e, va, Unit(level)))
      else Walk(m, AlignDown(e % TWO_52, 4096), va, level - 1)
  }

  /** Which of a table's 512 entries maps an address. */
  function IndexAt(va: nat, unit: nat): nat
    requires unit > 0
  {
    va / unit % 512
  }

  /** A leaf's frame, the entry below bit 52 aligned down to the leaf's size, and the offset in it. */
  function LeafAddress(e: nat, va: nat, unit: nat): nat
    requires unit > 0
  {
    AlignDown(e % TWO_52, unit) + va % unit
  }

  function AlignDown(x: nat, unit: nat): nat
    requires unit > 0
  {
    x / unit * unit
  }

  lemma Units()
    ensures Unit(1) == PAGE && Unit(2) == TWO_MB && Unit(3) == ONE_GB && Unit(4) == 0x80_0000_0000
  {
    assert Unit(2) == 512 * Unit(1) && Unit(3) == 512 * Unit(2) && Unit(4) == 512 * Unit(3);
  }

  /** The masks of the three leaf sizes. */
  lemma FramesAlignDown(e: nat)
    ensures Frame4K(e) == e % TWO_52 / PAGE * PAGE
    ensures Frame2M(e) == e % TWO_52 / TWO_MB * TWO_MB
    ensures Frame1G(e) == e % TWO_52 / ONE_GB * ONE_GB
  {
    QuotientOfLow(e, PAGE, 0x100_0000_0000);
    QuotientOfLow(e, TWO_MB, 0x8000_0000);
    QuotientOfLow(e, ONE_GB, 0x40_0000);
  }

  lemma QuotientOfLow(e: nat, d: nat, k: nat)
    requires d > 0 && k > 0 && d * k > 0
    ensures e % (d * k) / d == e / d % k
  {
    var q, r, lo := Digits(e, d, k);
    var n := r * d + lo;
    DigitsBelow(r, k, lo, d);
    QuotientUnique(e, d * k, q, n);
    QuotientUnique(n, d, r, lo);
  }

  lemma Digits(e: nat, d: nat, k: nat) returns (q: nat, r: nat, lo: nat)
    requires d > 0 && k > 0
    ensures e == q * (d * k) + (r * d + lo) && r < k && lo < d && e / d % k == r
  {
    lo := e % d;
    q, r := e / d / k, e / d % k;
    Regroup(q, k, r, d, lo);
    DivMod(e, d);
    DivMod(e / d, k);
  }

  lemma DivMod(x: nat, d: nat)
    requires d > 0
    ensures x == x / d * d + x % d
  {
  }

  lemma Regroup(q: nat, k: nat, r: nat, d: nat, lo: nat)
    ensures (q * k + r) * d + lo == q * (d * k) + (r * d + lo)
  {
    assert (q * k + r) * d == q * k * d + r * d;
    assert q * k * d == q * (d * k);
  }

  lemma DigitsBelow(r: nat, k: nat, lo: nat, d: nat)
    requires r < k && lo < d
    ensures r * d + lo < d * k
  {
    assert (r + 1) * d <= k * d;
  }

  lemma TableBelow64(e: nat)
    ensures Frame4K(e) + PAGE <= TWO_64
  {
  }

  /** One level of the walk, in a table that does not reach 2^64. */
  lemma WalkLevel(m: Memory, table: nat, va: nat, level: nat)
    requires 1 <= level <= 4 && table + PAGE <= TWO_64
    ensures Walk(m, table, va, level)
         == match Entry(m, table + IndexAt(va, Unit(level)) * 8)
            case None => None
            case Some(e) =>
              if level == 1 || (level < 4 && LargePage(e)) then Some(LeafAddress(e, va, Unit(level)))
              else Walk(m, Frame4K(e), va, level - 1)
  {
    hide Entry, LargePage, Frame4K, LeafAddress, Unit, IndexAt, Walk;
    IndexBelow512(va, Unit(level));
    WalkUnfolds(m, table, va, level);
  }

  lemma WalkUnfolds(m: Memory, table: nat, va: nat, level: nat)
    requires 1 <= level <= 4
    ensures Walk(m, table, va, level)
         == match Entry(m, (table + IndexAt(va, Unit(level)) * 8) % TWO_64)
            case None => None
            case Some(e) =>
              if level == 1 || (level < 4 && LargePage(e)) then Some(LeafAddress(e, va, Unit(level)))
              else Walk(m, Frame4K(e), va, level - 1)
  {
    hide Entry, Word64, Frame4K, LeafAddress, Unit, IndexAt, AlignDown;
    var at := (table + IndexAt(va, Unit(level)) * 8) % TWO_64;
    EntryIsWord(m, at);
    if Entry(m, at).Some? {
      NextTable(Entry(m, at).value);
    }
  }

  lemma NextTable(e: nat)
    ensures Frame4K(e) == AlignDown(e % TWO_52, 4096)
  {
    hide Frame4K;
    FramesAlignDown(e);
  }

  /** A present entry is the word there with bit 0 set. */
  lemma EntryIsWord(m: Memory, at: nat)
    ensures Entry(m, at)
      == match Word64(m, at) case None => None case Some(e) => if e % 2 == 0 then None else Some(e)
  {
    hide Decode;
    CountFull(m, at, 8);
  }

  lemma IndexBelow512(va: nat, unit: nat)
    requires unit > 0
    ensures IndexAt(va, unit) < 512
  {
  }

  lemma LeafFrames(e: nat, va: nat)
    ensures LeafAddress(e, va, PAGE) == Frame4K(e) + va % PAGE
    ensures LeafAddress(e, va, TWO_MB) == Frame2M(e) + va % TWO_MB
    ensures LeafAddress(e, va, ONE_GB) == Frame1G(e) + va % ONE_GB
  {
    hide Frame4K, Frame2M, Frame1G;
    FramesAlignDown(e);
  }

  lemma Indices(va: nat)
    ensures IndexAt(va, PAGE) == PtIndex(va) && IndexAt(va, TWO_MB) == PdIndex(va)
    ensures IndexAt(va, ONE_GB) == PdptIndex(va) && IndexAt(va, 0x80_0000_0000) == Pml4Index(va)
  {
  }

  lemma PtWalk(m: Memory, table: nat, va: nat)
    requires table + PAGE <= TWO_64
    ensures Walk(m, table, va, 1)
         == match Entry(m, table + PtIndex(va) * 8) case None => None case Some(e) => Some(Frame4K(e) + va % PAGE)
  {
    hide Entry, LargePage, Frame4K, LeafAddress, Unit, IndexAt, PtIndex, Walk;
    Units();
    Indices(va);
    WalkLevel(m, table, va, 1);
    if Entry(m, table + PtIndex(va) * 8).Some? {
      LeafFrames(Entry(m, table + PtIndex(va) * 8).value, va);
    }
  }

  lemma PdWalk(m: Memory, table: nat, va: nat)
    requires table + PAGE <= TWO_64
    ensures Walk(m, table, va, 2)
         == match Entry(m, table + PdIndex(va) * 8)
            case None => None
            case Some(e) => if LargePage(e) then Some(Frame2M(e) + va % TWO_MB) else Walk(m, Frame4K(e), va, 1)
  {
    hide Entry, LargePage, Frame4K, Frame2M, LeafAddress, Unit, IndexAt, PdIndex, Walk;
    Units();
    Indices(va);
    WalkLevel(m, table, va, 2);
    if Entry(m, table + PdIndex(va) * 8).Some? {
      LeafFrames(Entry(m, table + PdIndex(va) * 8).value, va);
    }
  }

  lemma PdptWalk(m: Memory, table: nat, va: nat)
    requires table + PAGE <= TWO_64
    ensures Walk(m, table, va, 3)
         == match Entry(m, table + PdptIndex(va) * 8)
            case None => None
            case Some(e) => if LargePage(e) then Some(Frame1G(e) + va % ONE_GB) else Walk(m, Frame4K(e), va, 2)
  {
    hide Entry, LargePage, Frame4K, Frame1G, LeafAddress, Unit, IndexAt, PdptIndex, Walk;
    Units();
    Indices(va);
    WalkLevel(m, table, va, 3);
    if Entry(m, table + PdptIndex(va) * 8).Some? {
      LeafFrames(Entry(m, table + PdptIndex(va) * 8).value, va);
    }
  }

  /** The first table can lie anywhere below 2^64; its entry's address wraps. */
  lemma Pml4Walk(m: Memory, table: nat, va: nat)
    ensures Walk(m, table, va, 4)
         == match Entry(m, (table + Pml4Index(va) * 8) % TWO_64)
            case None => None
            case Some(e) => Walk(m, Frame4K(e), va, 3)
  {
    hide Entry, LargePage, Frame4K, LeafAddress, Unit, IndexAt, Pml4Index, Walk;
    Units();
    Indices(va);
    WalkUnfolds(m, table, va, 4);
  }

  /** The unrolled walk, with its masks, is that walk. */
  lemma TranslateIsWalk(m: Memory, dtb: u64, va: nat)
    ensures Translate(m, dtb, va) == Walk(m, dtb, va, 4)
  {
    hide Entry, LargePage, Frame4K, Frame2M, Frame1G, Pml4Index, PdptIndex, PdIndex, PtIndex, Walk;
    Pml4Walk(m, dtb, va);
    var top := Entry(m, (dtb + Pml4Index(va) * 8) % TWO_64);
    if top.Some? {
      var pdpt := Frame4K(top.value);
      TableBelow64(top.value);
      PdptWalk(m, pdpt, va);
      var second := Entry(m, pdpt + PdptIndex(va) * 8);
      if second.Some? {
        TableBelow64(second.value);
        PdWalk(m, Frame4K(second.value), va);
        var third := Entry(m, Frame4K(second.value) + PdIndex(va) * 8);
        if third.Some? {
          TableBelow64(third.value);
          PtWalk(m, Frame4K(third.value), va);
        }
      }
    }
  }

  /** The four table indices and the offset in a leaf of each size. */
  ghost predicate SameFields(a: nat, b: nat) {
    && Pml4Index(a) == Pml4Index(b) && PdptIndex(a) == PdptIndex(b)
    && PdIndex(a) == PdIndex(b) && PtIndex(a) == PtIndex(b)
  }

  lemma QuotientUnique(x: nat, d: nat, q: nat, r: nat)
    requires d > 0 && r < d && x == q * d + r
    ensures x / d == q && x % d == r
  {
    var q', r' := x / d, x % d;
    assert x == q' * d + r';
    assert (q - q') * d == q * d - q' * d == r' - r;
    assert q - q' >= 1 ==> (q - q') * d >= 1 * d;
    assert q' - q >= 1 ==> (q' - q) * d >= 1 * d;
  }

  /** Adding a multiple of 512 units of d leaves the 9-bit field above d, and the offset below it. */
  lemma FieldOfSum(q: nat, k: nat, d: nat, lo: nat)
    requires d > 0
    ensures (q * (k * 512 * d) + lo) / d % 512 == lo / d % 512
    ensures (q * (k * 512 * d) + lo) % d == lo % d
  {
    Reassociate(q, k, d);
    Shifted(q * k * 512, d, lo);
    Shifted(q * k, 512, lo / d);
  }

  lemma Reassociate(q: nat, k: nat, d: nat)
    ensures q * (k * 512 * d) == (q * k * 512) * d
  {
    assert k * 512 * d == k * (512 * d);
  }

  /** Adding a multiple of d. */
  lemma Shifted(n: nat, d: nat, lo: nat)
    requires d > 0
    ensures (n * d + lo) / d == n + lo / d && (n * d + lo) % d == lo % d
  {
    DivMod(lo, d);
    Distribute(n, lo / d, d);
    QuotientUnique(n * d + lo, d, n + lo / d, lo % d);
  }

  lemma Distribute(a: nat, b: nat, d: nat)
    ensures (a + b) * d == a * d + b * d
  {
  }

  lemma Low48Fields(q: nat, lo: nat)
    ensures SameFields(q * TWO_48 + lo, lo)
    ensures (q * TWO_48 + lo) % ONE_GB == lo % ONE_GB
    ensures (q * TWO_48 + lo) % TWO_MB == lo % TWO_MB
    ensures (q * TWO_48 + lo) % PAGE == lo % PAGE
  {
    assert 1 * 512 * 0x80_0000_0000 == TWO_48 && 0x200 * 512 * ONE_GB == TWO_48;
    assert 0x4_0000 * 512 * TWO_MB == TWO_48 && 0x800_0000 * 512 * PAGE == TWO_48;
    FieldOfSum(q, 1, 0x80_0000_0000, lo);
    FieldOfSum(q, 0x200, ONE_GB, lo);
    FieldOfSum(q, 0x4_0000, TWO_MB, lo);
    FieldOfSum(q, 0x800_0000, PAGE, lo);
  }

  /** Only the low 48 bits of an address take part in the walk. */
  lemma TranslateLow48(m: Memory, dtb: u64, va: nat)
    ensures Translate(m, dtb, va) == Translate(m, dtb, va % TWO_48)
  {
    hide Pml4Index, PdptIndex, PdIndex, PtIndex, Entry, Frame4K, Frame2M, Frame1G, LargePage;
    Low48Fields(va / TWO_48, va % TWO_48);
    assert va / TWO_48 * TWO_48 + va % TWO_48 == va;
  }

  lemma SameLow48(m: Memory, dtb: u64, a: nat, b: nat)
    requires a % TWO_48 == b % TWO_48
    ensures Translate(m, dtb, a) == Translate(m, dtb, b)
  {
    TranslateLow48(m, dtb, a);
    TranslateLow48(m, dtb, b);
  }

  /** Whatever the leaf size, an address translates as its 4 KiB page does, plus the offset in that page. */
  lemma TranslateInPage(m: Memory, dtb: u64, page: nat, off: nat)
    requires page % PAGE == 0 && off < PAGE
    ensures Translate(m, dtb, page + off)
         == match Translate(m, dtb, page) case None => None case Some(pa) => Some(pa + off)
  {
    hide Pml4Index, PdptIndex, PdIndex, PtIndex, Entry, Frame4K, Frame2M, Frame1G, LargePage;
    PageFields(page, off);
  }

  lemma PageFields(page: nat, off: nat)
    requires page % PAGE == 0 && off < PAGE
    ensures SameFields(page + off, page)
    ensures (page + off) % ONE_GB == page % ONE_GB + off
    ensures (page + off) % TWO_MB == page % TWO_MB + off
    ensures (page + off) % PAGE == page % PAGE + off
  {
    var p := page / PAGE;
    assert page == p * PAGE;
    WithinUnit(p, off, 0x800_0000);
    WithinUnit(p, off, 0x4_0000);
    WithinUnit(p, off, 0x200);
    WithinUnit(p, off, 1);
  }

  /** An in-page offset never carries out of an aligned unit of k pages. */
  lemma WithinUnit(p: nat, off: nat, k: nat)
    requires k > 0 && off < PAGE
    ensures (p * PAGE + off) / (k * PAGE) == p * PAGE / (k * PAGE)
    ensures (p * PAGE + off) % (k * PAGE) == p * PAGE % (k * PAGE) + off
  {
    var d := k * PAGE;
    var q, r := p / k, p % k;
    assert p == q * k + r;
    assert p * PAGE == q * d + r * PAGE;
    assert r * PAGE + off < d by { assert (r + 1) * PAGE <= k * PAGE; }
    QuotientUnique(p * PAGE, d, q, r * PAGE);
    QuotientUnique(p * PAGE + off, d, q, r * PAGE + off);
  }

  /** Byte by byte translation and fetch: the memory a process sees. */
  function VirtualMemory(m: Memory, dtb: u64): Memory {
    (va: nat) => match Translate(m, dtb, va) case None => None case Some(pa) => m(pa)
  }

  /** One read of the physical layer into the middle of a buffer. */
  method PhysicalRead(m: Memory, pa: nat, dst: array<u8>, at: nat, n: nat) returns (got: nat)
    requires at + n <= dst.Length
    modifies dst
    ensures got == Count(m, pa, n)
    ensures forall i | 0 <= i < dst.Length ::
      dst[i] == if at <= i < at + n then ValueAt(m, pa + (i - at)) else old(dst[i])
  {
    got := Count(m, pa, n);
    forall i | 0 <= i < n {
      dst[at + i] := ValueAt(m, pa + i);
    }
  }

  /** Inside one page, the virtual memory is the physical memory from the translated address on. */
  lemma PageWindow(m: Memory, dtb: u64, va: nat, n: nat)
    requires va % PAGE + n <= PAGE
    ensures match Translate(m, dtb, va - va % PAGE)
      case None => forall a | va <= a < va + n :: VirtualMemory(m, dtb)(a) == None
      case Some(pa) => forall a | va <= a < va + n :: VirtualMemory(m, dtb)(a) == m(pa + va % PAGE + (a - va))
  {
    hide Translate;
    var off := va % PAGE;
    var page := va - off;
    PageOf(va);
    forall a | va <= a < va + n
      ensures Translate(m, dtb, a)
           == match Translate(m, dtb, page) case None => None case Some(pa) => Some(pa + off + (a - va))
    {
      TranslateInPage(m, dtb, page, a - page);
    }
  }

  lemma PageOf(va: nat)
    ensures (va - va % PAGE) % PAGE == 0
  {
    assert va - va % PAGE == va / PAGE * PAGE;
    QuotientUnique(va - va % PAGE, PAGE, va / PAGE, 0);
  }

  /** A chunk of a page copied from its physical frame. */
  lemma FilledFrom(v: Memory, m: Memory, va: nat, pa: nat, before: seq<u8>, after: seq<u8>, at: nat, n: nat)
    requires Partial(v, va, before, at) && |before| == |after| && at + n <= |before|
    requires forall a | va + at <= a < va + at + n :: v(a) == m(pa + (a - (va + at)))
    requires forall i | 0 <= i < |after| ::
      after[i] == if at <= i < at + n then ValueAt(m, pa + (i - at)) else before[i]
    ensures Partial(v, va, after, at + n)
    ensures Count(v, va, at + n) == Count(v, va, at) + Count(m, pa, n)
  {
    CountSplit(v, va, at, n);
    CountAgree(v, m, va + at, pa, n);
    forall i | 0 <= i < |after| ensures after[i] == if i < at + n then ValueAt(v, va + i) else 0 {
      if at <= i < at + n {
        assert v(va + i) == m(pa + (va + i - (va + at)));
      }
    }
  }

  /**
   The page-chunked read equals translating and fetching every byte on its own:
   unmapped or absent bytes are zero, and the count is of mapped bytes the dump
   holds. The address wraps at 2^64 as a u64 does.
   */
  method Read(m: Memory, dtb: u64, va: u64, dst: array<u8>) returns (total: nat)
    modifies dst
    ensures Reads(VirtualMemory(m, dtb), va, dst[..], total)
  {
    hide Translate, Partial, Count, VirtualMemory;
    ghost var v := VirtualMemory(m, dtb);
    ZeroFill(dst, 0, dst.Length);
    BufferStart(v, va, dst);
    total := 0;
    var cur, at := va, 0;
    while at < dst.Length
      invariant 0 <= at <= dst.Length && cur == (va + at) % TWO_64
      invariant total == Count(v, va, at) && Partial(v, va, dst[..], at)
    {
      var pageOff := cur % PAGE;
      var pa := Translate(m, dtb, cur - pageOff);
      var chunk := Min(dst.Length - at, PAGE - pageOff);
      SamePage(m, dtb, va + at, cur);
      PageWindow(m, dtb, va + at, chunk);
      if pa.Some? {
        ghost var before := dst[..];
        var got := PhysicalRead(m, pa.value + pageOff, dst, at, chunk);
        FilledFrom(v, m, va, pa.value + pageOff, before, dst[..], at, chunk);
        total := total + got;
      } else {
        SkipHole(v, va, dst[..], at, at + chunk);
      }
      Wrapped(va + at, chunk);
      cur, at := (cur + chunk) % TWO_64, at + chunk;
    }
    BufferDone(v, va, dst[..], total);
  }

  lemma Wrapped(a: nat, n: nat)
    ensures (a % TWO_64 + n) % TWO_64 == (a + n) % TWO_64
  {
  }

  lemma SamePage(m: Memory, dtb: u64, va: nat, cur: nat)
    requires cur == va % TWO_64
    ensures va % PAGE == cur % PAGE
    ensures Translate(m, dtb, va - va % PAGE) == Translate(m, dtb, cur - cur % PAGE)
  {
    hide Translate;
    WrappedPage(va);
    SameLow48(m, dtb, va - va % PAGE, cur - cur % PAGE);
  }

  lemma WrappedPage(va: nat)
    ensures var cur := va % TWO_64;
      && va % PAGE == cur % PAGE
      && (va - va % PAGE) % TWO_48 == (cur - cur % PAGE) % TWO_48
  {
    var cur, n := va % TWO_64, va / TWO_64 * 0x1_0000;
    assert va == n * TWO_48 + cur;
    Low48Fields(n, cur);
    var page := cur - cur % PAGE;
    assert va - va % PAGE == n * TWO_48 + page;
    HighDropped(n, page);
  }

  lemma HighDropped(n: nat, page: nat)
    ensures (n * TWO_48 + page) % TWO_48 == page % TWO_48
  {
    Shifted(n, TWO_48, page);
  }
}
