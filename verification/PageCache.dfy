/**
 The LRU cache of decoded user pages (src/arch/x86_64/page_cache.h, page_cache.cpp):
 two critical sections with an unlocked page walk between them.
 */
module PageCache {
  import opened Words
  import opened PhysicalLayer
  import opened Recency
  import opened Paging

  const PAGE_BYTES := 4097   // sizeof(Page): the mapped flag and 4096 bytes
  const MULTIPLIER := 0x9E3779B97F4A7C15
  const INVERSE := 0xF1DE83E19937733D

  /** A decoded page; an unmapped one is cached too, as zeros. */
  datatype Page = Page(mapped: bool, bytes: seq<u8>)

  function PageAt(m: Memory, dtb: u64, pageVa: nat): (p: Page)
    ensures |p.bytes| == PAGE
  {
    if Translate(m, dtb, pageVa).Some? then Page(true, Bytes(VirtualMemory(m, dtb), pageVa, PAGE))
    else Page(false, seq(PAGE, i => 0))
  }

  /** A page holds its bytes of the virtual memory, zeros where that has none: all zeros if it is unmapped. */
  lemma PageIsMemory(m: Memory, dtb: u64, pageVa: nat)
    requires pageVa % PAGE == 0
    ensures PageAt(m, dtb, pageVa).bytes == Bytes(VirtualMemory(m, dtb), pageVa, 4096)
    ensures PageAt(m, dtb, pageVa).mapped <==> Translate(m, dtb, pageVa).Some?
  {
    hide Translate, VirtualMemory;
    if Translate(m, dtb, pageVa).None? {
      var x, y := PageAt(m, dtb, pageVa).bytes, Bytes(VirtualMemory(m, dtb), pageVa, 4096);
      forall i | 0 <= i < 4096 ensures x[i] == y[i] {
        UnmappedByte(m, dtb, pageVa, i);
      }
    }
  }

  lemma UnmappedByte(m: Memory, dtb: u64, pageVa: nat, i: nat)
    requires pageVa % PAGE == 0 && i < PAGE && Translate(m, dtb, pageVa).None?
    ensures ValueAt(VirtualMemory(m, dtb), pageVa + i) == 0
  {
    hide Translate;
    TranslateInPage(m, dtb, pageVa, i);
  }

  // ---------- the key ----------

  /** Bitwise exclusive or of two n-bit numbers. */
  function Xor(a: nat, b: nat, n: nat): nat {
    if n == 0 then 0 else (if a % 2 != b % 2 then 1 else 0) + 2 * Xor(a / 2, b / 2, n - 1)
  }

  function Pow2(n: nat): nat {
    if n == 0 then 1 else 2 * Pow2(n - 1)
  }

  lemma {:induction false} XorCancels(a: nat, b: nat, c: nat, n: nat)
    requires b < Pow2(n) && c < Pow2(n) && Xor(a, b, n) == Xor(a, c, n)
    ensures b == c
  {
    if n > 0 {
      XorCancels(a / 2, b / 2, c / 2, n - 1);
    }
  }

  lemma {:induction false} Pow2Double(n: nat)
    ensures Pow2(2 * n) == Pow2(n) * Pow2(n)
  {
    if n > 0 {
      Pow2Double(n - 1);
      assert Pow2(2 * n) == 2 * (2 * Pow2(2 * (n - 1)));
      var p := Pow2(n - 1);
      assert (2 * p) * (2 * p) == 4 * (p * p);
    }
  }

  lemma Pow2Of64()
    ensures Pow2(64) == TWO_64
  {
    assert Pow2(1) == 2 && Pow2(2) == 4;
    Pow2Double(2); Pow2Double(4); Pow2Double(8); Pow2Double(16); Pow2Double(32);
  }

  /** The page number's product with the odd multiplier, as a u64. */
  function Spread(va: nat): u64 {
    va % TWO_48 / PAGE * MULTIPLIER % TWO_64
  }

  function Key(pgd: u64, va: nat): nat {
    Xor(pgd / PAGE, Spread(va), 64)
  }

  /** The multiplier is invertible modulo 2^64, so it keeps distinct page numbers apart. */
  lemma SpreadInjective(x: nat, y: nat)
    requires x < TWO_64 && y < TWO_64 && x * MULTIPLIER % TWO_64 == y * MULTIPLIER % TWO_64
    ensures x == y
  {
    var q := x * MULTIPLIER / TWO_64 - y * MULTIPLIER / TWO_64;
    assert (x - y) * MULTIPLIER == q * TWO_64;
    var k := (MULTIPLIER * INVERSE - 1) / TWO_64;
    assert MULTIPLIER * INVERSE == 1 + k * TWO_64;
    assert (x - y) * (1 + k * TWO_64) == q * TWO_64 * INVERSE;
    assert x - y == TWO_64 * (q * INVERSE - (x - y) * k);
  }

  /** Through one page table, two addresses share a key exactly when they share the low 48 bits of their page. */
  lemma KeyIdentifiesPage(pgd: u64, a: nat, b: nat)
    ensures Key(pgd, a) == Key(pgd, b) <==> a % TWO_48 / PAGE == b % TWO_48 / PAGE
  {
    if Key(pgd, a) == Key(pgd, b) {
      Pow2Of64();
      XorCancels(pgd / PAGE, Spread(a), Spread(b), 64);
      SpreadInjective(a % TWO_48 / PAGE, b % TWO_48 / PAGE);
    }
  }

  /** Equal keys mean equal pages: this is what makes a hit safe. */
  lemma KeyDeterminesContent(m: Memory, dtb: u64, a: nat, b: nat)
    requires a % PAGE == 0 && b % PAGE == 0 && Key(dtb, a) == Key(dtb, b)
    ensures PageAt(m, dtb, a) == PageAt(m, dtb, b)
  {
    hide Key, Translate;
    KeyIdentifiesPage(dtb, a, b);
    LowPage(a);
    LowPage(b);
    var lo := a % TWO_48;
    SameLow48(m, dtb, a, b);
    var s, t := Bytes(VirtualMemory(m, dtb), a, PAGE), Bytes(VirtualMemory(m, dtb), b, PAGE);
    forall i | 0 <= i < PAGE ensures s[i] == t[i] {
      TranslateInPage(m, dtb, a, i);
      TranslateInPage(m, dtb, b, i);
    }
    assert s == t;
  }

  lemma LowPage(a: nat)
    requires a % PAGE == 0
    ensures a % TWO_48 == a % TWO_48 / PAGE * PAGE
  {
    Low48Fields(a / TWO_48, a % TWO_48);
    assert a == a / TWO_48 * TWO_48 + a % TWO_48;
  }

  lemma {:induction false} XorZero(a: nat, n: nat)
    requires a < Pow2(n)
    ensures Xor(a, 0, n) == a && Xor(0, a, n) == a
  {
    if n > 0 {
      XorZero(a / 2, n - 1);
    }
  }

  lemma {:induction false} XorSwap(x: nat, u: nat, y: nat, v: nat, n: nat)
    ensures Xor(x, u, n) == Xor(y, v, n) <==> Xor(x, y, n) == Xor(u, v, n)
  {
    if n > 0 {
      XorSwap(x / 2, u / 2, y / 2, v / 2, n - 1);
    }
  }

  /** Across page tables the key is only a hash: it tells two pages apart exactly when the two differences disagree. */
  lemma KeysCollideIff(p: u64, a: nat, q: u64, b: nat)
    ensures Key(p, a) == Key(q, b) <==> Xor(p / PAGE, q / PAGE, 64) == Xor(Spread(a), Spread(b), 64)
  {
    hide Xor, Spread;
    XorSwap(p / PAGE, Spread(a), q / PAGE, Spread(b), 64);
  }

  /** Two tables that share a key for different pages. */
  lemma KeysCollideAcrossTables()
    ensures Key(0x1_70E5_2DAA_000, 0) == Key(0, 0x43A5_3F82_000)
  {
    hide Xor, Pow2, Spread;
    Pow2Of64();
    XorZero(0x1_70E5_2DAA, 64);
    SpreadValues();
  }

  lemma SpreadValues()
    ensures Spread(0x43A5_3F82_000) == 0x1_70E5_2DAA && Spread(0) == 0
  {
    assert 0x43A5_3F82_000 % TWO_48 / PAGE == 0x43A5_3F82;
    assert 0x43A5_3F82 * MULTIPLIER == 0x43A5_3F82 * MULTIPLIER / TWO_64 * TWO_64 + 0x1_70E5_2DAA;
  }

  // ---------- the cache state and its two critical sections ----------

  datatype Cache = Cache(lru: seq<nat>, pages: map<nat, Page>, curBytes: int)

  /** lru_ lists the keys of map_ once each, and cur_bytes_ is their total size. */
  ghost predicate Consistent(c: Cache) {
    Lists(c.lru, c.pages) && c.curBytes == PAGE_BYTES * |c.lru|
  }

  ghost predicate WithinBudget(c: Cache, maxBytes: nat) {
    Consistent(c) && c.curBytes <= maxBytes
  }

  /** Every cached page is what the page table gives, for every address with that key. */
  ghost predicate Coherent(c: Cache, m: Memory, dtb: u64) {
    forall va: u64 | va % PAGE == 0 && Key(dtb, va) in c.pages :: c.pages[Key(dtb, va)] == PageAt(m, dtb, va)
  }

  /** Every cached page came from a fetch through this table. */
  ghost predicate FilledBy(c: Cache, m: Memory, dtb: u64) {
    forall k | k in c.pages :: exists a: u64 :: a % PAGE == 0 && Key(dtb, a) == k && c.pages[k] == PageAt(m, dtb, a)
  }

  /** A hit for table q in a cache that p has filled is always right. */
  ghost predicate ServesOther(m: Memory, p: u64, q: u64) {
    forall c, b: u64 | FilledBy(c, m, p) && b % PAGE == 0 && Key(q, b) in c.pages ::
      c.pages[Key(q, b)] == PageAt(m, q, b)
  }

  /** Wherever the keys of the two tables collide, they have the same page. */
  ghost predicate AgreeOnCollisions(m: Memory, p: u64, q: u64) {
    forall a: u64, b: u64 | a % PAGE == 0 && b % PAGE == 0
        && Xor(p / PAGE, q / PAGE, 64) == Xor(Spread(a), Spread(b), 64) :: PageAt(m, p, a) == PageAt(m, q, b)
  }

  /** One cache can serve two tables exactly when the pages whose spreads differ as the tables do are the same. */
  lemma SharingSafeIff(m: Memory, p: u64, q: u64)
    ensures ServesOther(m, p, q) <==> AgreeOnCollisions(m, p, q)
  {
    hide Key, PageAt, Xor, Spread;
    if ServesOther(m, p, q) {
      forall a: u64, b: u64 | a % PAGE == 0 && b % PAGE == 0
          && Xor(p / PAGE, q / PAGE, 64) == Xor(Spread(a), Spread(b), 64)
        ensures PageAt(m, p, a) == PageAt(m, q, b)
      {
        KeysCollideIff(p, a, q, b);
        var c := Cache([Key(p, a)], map[Key(p, a) := PageAt(m, p, a)], PAGE_BYTES);
        assert FilledBy(c, m, p);
        assert c.pages[Key(q, b)] == PageAt(m, q, b);
      }
    }
    if AgreeOnCollisions(m, p, q) {
      forall c, b: u64 | FilledBy(c, m, p) && b % PAGE == 0 && Key(q, b) in c.pages
        ensures c.pages[Key(q, b)] == PageAt(m, q, b)
      {
        var a: u64 :| a % PAGE == 0 && Key(p, a) == Key(q, b) && c.pages[Key(q, b)] == PageAt(m, p, a);
        KeysCollideIff(p, a, q, b);
      }
    }
  }

  function Touch(c: Cache, k: nat): Cache
    requires k in c.lru
  {
    c.(lru := Promoted(c.lru, Position(c.lru, k)))
  }

  /** evict_locked: drop from the back until the budget holds. */
  function Evict(c: Cache, maxBytes: nat): Cache
    decreases |c.lru|
  {
    if c.curBytes > maxBytes && c.lru != [] then
      var victim := c.lru[|c.lru| - 1];
      Evict(Cache(c.lru[..|c.lru| - 1], c.pages - {victim},
                  if victim in c.pages then c.curBytes - PAGE_BYTES else c.curBytes), maxBytes)
    else c
  }

  lemma EvictOne(c: Cache, maxBytes: nat)
    requires Consistent(c) && c.curBytes > maxBytes && c.lru != []
    ensures var victim := c.lru[|c.lru| - 1];
      var rest := Cache(c.lru[..|c.lru| - 1], c.pages - {victim}, c.curBytes - PAGE_BYTES);
      victim in c.pages && Consistent(rest) && Evict(c, maxBytes) == Evict(rest, maxBytes)
  {
    DropLast(c.lru, c.pages);
  }

  lemma EvictsNone(c: Cache, maxBytes: nat)
    requires c.curBytes <= maxBytes || c.lru == []
    ensures Evict(c, maxBytes) == c
  {
  }

  /** First critical section: a hit promotes; a miss leaves the cache alone. */
  function AfterLookup(c: Cache, k: nat): Cache
    requires k in c.pages ==> k in c.lru
  {
    if k in c.pages then Touch(c, k) else c
  }

  /** Second critical section: keep a page someone else inserted meanwhile, else insert ours and evict. */
  function AfterInsert(c: Cache, k: nat, page: Page, maxBytes: nat): Cache
    requires k in c.pages ==> k in c.lru
  {
    if k in c.pages then Touch(c, k)
    else Evict(Cache([k] + c.lru, c.pages[k := page], c.curBytes + PAGE_BYTES), maxBytes)
  }

  lemma EmptyCacheIsFine(m: Memory, dtb: u64, maxBytes: nat)
    ensures WithinBudget(Cache([], map[], 0), maxBytes) && Coherent(Cache([], map[], 0), m, dtb)
  {
  }

  lemma TouchKeeps(c: Cache, k: nat)
    requires Consistent(c) && k in c.pages
    ensures Consistent(Touch(c, k))
  {
    Promote(c.lru, c.pages, Position(c.lru, k));
  }

  /** Eviction stops with the longest prefix of the list that fits, its pages untouched. */
  lemma {:induction false} EvictKeeps(c: Cache, maxBytes: nat)
    requires Consistent(c)
    ensures WithinBudget(Evict(c, maxBytes), maxBytes)
    ensures Evict(c, maxBytes).lru == c.lru[..Min(|c.lru|, maxBytes / 4097)]
    ensures forall k | k in Evict(c, maxBytes).pages :: k in c.pages && Evict(c, maxBytes).pages[k] == c.pages[k]
    decreases |c.lru|
  {
    hide Lists;
    FitsBudget(|c.lru|, maxBytes);
    if c.curBytes > maxBytes && c.lru != [] {
      DropLast(c.lru, c.pages);
      var n := |c.lru| - 1;
      EvictKeeps(Cache(c.lru[..n], c.pages - {c.lru[n]}, c.curBytes - PAGE_BYTES), maxBytes);
      assert c.lru[..n][..Min(n, maxBytes / PAGE_BYTES)] == c.lru[..Min(n, maxBytes / PAGE_BYTES)];
    } else {
      assert c.lru[..|c.lru|] == c.lru;
    }
  }

  lemma FitsBudget(n: nat, maxBytes: nat)
    ensures PAGE_BYTES * n <= maxBytes <==> n <= maxBytes / PAGE_BYTES
  {
  }

  /**
   The second critical section keeps the cache consistent, within budget and
   coherent. The page it is about to return is still cached exactly when the
   budget has room for one page.
   */
  lemma InsertKeeps(c: Cache, va: u64, m: Memory, dtb: u64, maxBytes: nat)
    requires WithinBudget(c, maxBytes) && Coherent(c, m, dtb) && va % PAGE == 0
    ensures var c' := AfterInsert(c, Key(dtb, va), PageAt(m, dtb, va), maxBytes);
      && WithinBudget(c', maxBytes) && Coherent(c', m, dtb)
      && (Key(dtb, va) in c'.pages <==> Key(dtb, va) in c.pages || maxBytes >= 4097)
  {
    hide Key, PageAt, Evict;
    var k, page := Key(dtb, va), PageAt(m, dtb, va);
    if k in c.pages {
      TouchKeeps(c, k);
    } else {
      var full := Cache([k] + c.lru, c.pages[k := page], c.curBytes + PAGE_BYTES);
      Push(c.lru, c.pages, k, page);
      EvictKeeps(full, maxBytes);
      forall va': u64 | va' % PAGE == 0 && Key(dtb, va') in full.pages
        ensures full.pages[Key(dtb, va')] == PageAt(m, dtb, va')
      {
        if Key(dtb, va') == k {
          KeyDeterminesContent(m, dtb, va, va');
        }
      }
      var kept := Evict(full, maxBytes);
      var room := Min(|full.lru|, maxBytes / PAGE_BYTES);
      assert room == 0 <==> maxBytes < PAGE_BYTES;
      if room > 0 {
        assert kept.lru[0] == k;
      }
    }
  }

  // ---------- the class ----------

  class UserPageCache {
    var lru: seq<nat>            // most recently used first
    var pages: map<nat, Page>
    var curBytes: int
    const maxBytes: nat

    constructor (maxBytes: nat)
      ensures this.maxBytes == maxBytes && State() == Cache([], map[], 0)
    {
      this.maxBytes := maxBytes;
      lru, pages, curBytes := [], map[], 0;
    }

    ghost function State(): Cache
      reads this
    {
      Cache(lru, pages, curBytes)
    }

    ghost predicate Valid(m: Memory, dtb: u64)
      reads this
    {
      WithinBudget(State(), maxBytes) && Coherent(State(), m, dtb) && maxBytes >= PAGE_BYTES
    }

    /** Under the mutex: look a key up. */
    method Lookup(k: nat) returns (hit: Option<Page>)
      requires Consistent(State())
      modifies this
      ensures State() == AfterLookup(old(State()), k) && Consistent(State())
      ensures hit == if k in old(pages) then Some(old(pages)[k]) else None
    {
      if k !in pages { return None; }
      TouchKeeps(State(), k);
      lru := Promoted(lru, Position(lru, k));
      return Some(pages[k]);
    }

    /** Under the mutex: re-check, then insert and evict. The page returned is read from the map. */
    method Insert(ghost m: Memory, ghost dtb: u64, ghost va: u64, k: nat, page: Page) returns (r: Page)
      requires Valid(m, dtb) && va % PAGE == 0 && k == Key(dtb, va) && page == PageAt(m, dtb, va)
      modifies this
      ensures Valid(m, dtb)
      ensures State() == AfterInsert(old(State()), k, page, maxBytes)
      ensures r == PageAt(m, dtb, va) && k in pages && pages[k] == r
    {
      hide Key, PageAt, Evict;
      InsertKeeps(State(), va, m, dtb, maxBytes);
      if k in pages {
        lru := Promoted(lru, Position(lru, k));
        return pages[k];
      }
      Push(lru, pages, k, page);
      lru, pages, curBytes := [k] + lru, pages[k := page], curBytes + PAGE_BYTES;
      EvictLocked();
      return pages[k];
    }

    method EvictLocked()
      requires Consistent(State())
      modifies this
      ensures State() == Evict(old(State()), maxBytes)
    {
      hide Consistent, Evict;
      while curBytes > maxBytes && lru != []
        invariant Consistent(State())
        invariant Evict(State(), maxBytes) == Evict(old(State()), maxBytes)
        decreases |lru|
      {
        var victim := lru[|lru| - 1];
        EvictOne(State(), maxBytes);
        lru := lru[..|lru| - 1];
        if victim in pages {
          curBytes := curBytes - PAGE_BYTES;
          pages := pages - {victim};
        }
      }
      EvictsNone(State(), maxBytes);
    }

    /** One fetch, no other thread in between. */
    method Fetch(m: Memory, dtb: u64, va: u64) returns (r: Page)
      requires Valid(m, dtb) && va % PAGE == 0
      modifies this
      ensures Valid(m, dtb) && r == PageAt(m, dtb, va)
      ensures Key(dtb, va) in pages && pages[Key(dtb, va)] == r
    {
      hide Key, PageAt, Evict;
      var k := Key(dtb, va);
      var hit := Lookup(k);
      if hit.Some? { return hit.value; }
      r := Insert(m, dtb, va, k, PageAt(m, dtb, va));
    }

    /**
     A read through the cache fills the buffer with exactly the bytes the page
     table gives. It counts mapped bytes, whether or not the dump holds them.
     */
    method Read(m: Memory, dtb: u64, va: u64, dst: array<u8>) returns (total: nat)
      requires Valid(m, dtb)
      modifies this, dst
      ensures Valid(m, dtb)
      ensures forall i | 0 <= i < dst.Length :: dst[i] == ValueAt(VirtualMemory(m, dtb), va + i)
      ensures total == Count(Mapped(m, dtb), va, dst.Length)
    {
      hide Key, PageAt, Evict, Partial, Count, Lists, Translate, Mapped, Valid, VirtualMemory;
      ghost var v := VirtualMemory(m, dtb);
      ZeroFill(dst, 0, dst.Length);
      BufferStart(v, va, dst);
      NothingCounted(Mapped(m, dtb), va);
      total := 0;
      var cur, at := va, 0;
      while at < dst.Length
        invariant 0 <= at <= dst.Length && cur == (va + at) % TWO_64
        invariant Valid(m, dtb) && Partial(v, va, dst[..], at)
        invariant total == Count(Mapped(m, dtb), va, at)
      {
        var pageOff := cur % PAGE;
        var chunk := Min(dst.Length - at, PAGE - pageOff);
        PageOf(cur);
        var page := Fetch(m, dtb, cur - pageOff);
        CopyFromPage(m, dtb, va, cur, page, dst, at, chunk);
        if page.mapped { total := total + chunk; }
        Wrapped(va + at, chunk);
        cur, at := (cur + chunk) % TWO_64, at + chunk;
      }
      BufferEnd(v, va, dst[..]);
    }
  }

  /** The part of a cached page that a read asks for, copied into its buffer; an unmapped page copies nothing. */
  method CopyFromPage(m: Memory, dtb: u64, ghost va: u64, cur: u64, page: Page, dst: array<u8>, at: nat, chunk: nat)
    requires at + chunk <= dst.Length && cur == (va + at) % TWO_64 && cur % PAGE + chunk <= PAGE
    requires page == PageAt(m, dtb, cur - cur % PAGE) && Partial(VirtualMemory(m, dtb), va, dst[..], at)
    modifies dst
    ensures Partial(VirtualMemory(m, dtb), va, dst[..], at + chunk)
    ensures Count(Mapped(m, dtb), va, at + chunk) == Count(Mapped(m, dtb), va, at) + if page.mapped then chunk else 0
  {
    hide PageAt, Partial, Count, Translate, Mapped;
    CachedWindow(m, dtb, va + at, cur, chunk);
    ghost var before := dst[..];
    if page.mapped {
      forall i | 0 <= i < chunk {
        dst[at + i] := page.bytes[cur % PAGE + i];
      }
    }
    CachedChunk(m, dtb, va, at, chunk, page, before, dst[..]);
  }

  lemma NothingCounted(m: Memory, pa: nat)
    ensures Count(m, pa, 0) == 0
  {
  }

  lemma BufferEnd(m: Memory, pa: nat, buf: seq<u8>)
    requires Partial(m, pa, buf, |buf|)
    ensures forall i | 0 <= i < |buf| :: buf[i] == ValueAt(m, pa + i)
  {
  }

  /** The addresses the page table maps, as a memory of zeros. */
  function Mapped(m: Memory, dtb: u64): Memory {
    (a: nat) => if Translate(m, dtb, a).Some? then Some(0) else None
  }

  /** What the page fetched for cur says about the addresses from va on. */
  lemma CachedWindow(m: Memory, dtb: u64, va: nat, cur: u64, n: nat)
    requires cur == va % TWO_64 && cur % PAGE + n <= PAGE
    ensures var page := PageAt(m, dtb, cur - cur % PAGE); var off := va % PAGE;
      && off == cur % PAGE
      && forall a | va <= a < va + n ::
           && (Mapped(m, dtb)(a).Some? <==> page.mapped)
           && ValueAt(VirtualMemory(m, dtb), a) == if page.mapped then page.bytes[off + (a - va)] else 0
  {
    hide Translate;
    SamePage(m, dtb, va, cur);
    var off := va % PAGE;
    var base, base' := va - off, cur - off;
    PageOf(va);
    PageOf(cur);
    var page := PageAt(m, dtb, base');
    forall a | va <= a < va + n
      ensures Mapped(m, dtb)(a).Some? <==> page.mapped
      ensures ValueAt(VirtualMemory(m, dtb), a) == if page.mapped then page.bytes[off + (a - va)] else 0
    {
      TranslateInPage(m, dtb, base, a - base);
      TranslateInPage(m, dtb, base', a - base);
      if page.mapped {
        assert page.bytes[off + (a - va)] == ValueAt(VirtualMemory(m, dtb), base' + (a - base));
      }
    }
  }

  lemma CachedChunk(m: Memory, dtb: u64, va: nat, at: nat, n: nat, page: Page, before: seq<u8>, after: seq<u8>)
    requires |page.bytes| == PAGE && (va + at) % PAGE + n <= PAGE && at + n <= |before| == |after|
    requires Partial(VirtualMemory(m, dtb), va, before, at)
    requires forall a | va + at <= a < va + at + n ::
      && (Mapped(m, dtb)(a).Some? <==> page.mapped)
      && ValueAt(VirtualMemory(m, dtb), a)
         == if page.mapped then page.bytes[(va + at) % PAGE + (a - (va + at))] else 0
    requires forall i | 0 <= i < |after| ::
      after[i] == if page.mapped && at <= i < at + n then page.bytes[(va + at) % PAGE + (i - at)] else before[i]
    ensures Partial(VirtualMemory(m, dtb), va, after, at + n)
    ensures Count(Mapped(m, dtb), va, at + n) == Count(Mapped(m, dtb), va, at) + if page.mapped then n else 0
  {
    hide Translate, Mapped;
    CountSplit(Mapped(m, dtb), va, at, n);
    CountPrefix(Mapped(m, dtb), va + at, n, if page.mapped then n else 0);
  }

  /** One memory holding less than another: its count is no larger, and equal only where nothing is missing. */
  lemma {:induction false} CountSubset(a: Memory, b: Memory, pa: nat, n: nat)
    requires forall x | pa <= x < pa + n :: a(x).Some? ==> b(x).Some?
    ensures Count(a, pa, n) <= Count(b, pa, n)
    ensures Count(a, pa, n) == Count(b, pa, n) <==> forall x | pa <= x < pa + n :: b(x).Some? ==> a(x).Some?
  {
    if n > 0 {
      CountSubset(a, b, pa, n - 1);
    }
  }

  /** The cached count equals the page table's own exactly when every mapped byte of the window is in the dump. */
  lemma CachedCountExact(m: Memory, dtb: u64, va: nat, n: nat)
    ensures Count(VirtualMemory(m, dtb), va, n) <= Count(Mapped(m, dtb), va, n)
    ensures Count(VirtualMemory(m, dtb), va, n) == Count(Mapped(m, dtb), va, n)
       <==> forall a | va <= a < va + n :: Mapped(m, dtb)(a).Some? ==> VirtualMemory(m, dtb)(a).Some?
  {
    hide Translate, Count;
    CountSubset(VirtualMemory(m, dtb), Mapped(m, dtb), va, n);
  }
}
