/**
 Kernel virtual addresses (src/os/linux/kva_reader.cpp): several strategies tried
 in turn, each a view of physical memory.
 */
module KernelVa {
  import opened Words
  import opened PhysicalLayer
  import Paging

  const START_KERNEL_MAP := 0xffff_ffff_8000_0000
  const PHYSMAP_START := 0xffff_8000_0000_0000
  const VMALLOC_START := 0xffff_ffff_c000_0000

  /** What the engine knows of the kernel; absent symbols or fields are None. */
  datatype Kernel = Kernel(
    dtbValidated: bool, dtb: u64, directMapBase: u64, kaslrShift: int,
    initMm: Option<u64>, pgdField: Option<u64>)

  function ImagePa(k: Kernel, va: u64): u64 {
    (va - START_KERNEL_MAP + k.kaslrShift) % TWO_64
  }

  /** The place of an image byte, by the equation it solves: on both sides the address less the start of the map. */
  predicate ImageAt(k: Kernel, va: nat, pa: u64) {
    (pa + 0xffff_ffff_8000_0000) % 0x1_0000_0000_0000_0000 == (va + k.kaslrShift) % 0x1_0000_0000_0000_0000
  }

  lemma ImageSolves(k: Kernel, va: u64)
    ensures ImageAt(k, va, ImagePa(k, va))
  {
    var x := va - START_KERNEL_MAP + k.kaslrShift;
    var q := x / TWO_64;
    assert x == q * TWO_64 + x % TWO_64;
    assert va + k.kaslrShift == q * TWO_64 + (x % TWO_64 + START_KERNEL_MAP);
    ModShift(x % TWO_64 + START_KERNEL_MAP, q);
  }

  lemma ModShift(y: int, q: int)
    ensures (q * TWO_64 + y) % TWO_64 == y % TWO_64
  {
    var p := y / TWO_64;
    assert q * TWO_64 + y == (q + p) * TWO_64 + y % TWO_64;
  }

  lemma ImagePlaceUnique(k: Kernel, va: nat, a: u64, b: u64)
    requires ImageAt(k, va, a) && ImageAt(k, va, b)
    ensures a == b
  {
    var x, y := a + START_KERNEL_MAP, b + START_KERNEL_MAP;
    assert x == x / TWO_64 * TWO_64 + x % TWO_64 && y == y / TWO_64 * TWO_64 + y % TWO_64;
  }

  // ---------- init_mm's page table ----------

  /** The physical address of init_mm's page table, 0 when it cannot be told. */
  function InitPgd(m: Memory, k: Kernel): u64 {
    if k.initMm.None? || k.pgdField.None? then 0
    else
      var pa := (ImagePa(k, k.initMm.value) + k.pgdField.value) % TWO_64;
      var pgd := Decode(Bytes(m, pa, 8));
      Pow256Values();
      EncodeDecode(Bytes(m, pa, 8));
      if Count(m, pa, 8) != 8 || pgd == 0 then 0
      else if pgd >= START_KERNEL_MAP then ImagePa(k, pgd)
      else if k.directMapBase != 0 && pgd >= k.directMapBase then pgd - k.directMapBase
      else 0
  }

  /**
   Where the page table is, by equations: the pointer stands at init_mm's pgd field, an
   image address, and is itself an image address or one of the direct map.
   */
  ghost predicate PgdIsAt(m: Memory, k: Kernel, pa: u64) {
    if k.initMm.None? || k.pgdField.None? then pa == 0
    else exists at | ImageAt(k, k.initMm.value + k.pgdField.value, at) :: PointsTo(m, k, at, pa)
  }

  ghost predicate PointsTo(m: Memory, k: Kernel, at: u64, pa: u64) {
    var p := Decode(Bytes(m, at, 8));
    if (exists a | at <= a < at + 8 :: m(a).None?) || p == 0 then pa == 0
    else if p >= 0xffff_ffff_8000_0000 then ImageAt(k, p, pa)
    else if k.directMapBase != 0 && p >= k.directMapBase then pa + k.directMapBase == p
    else pa == 0
  }

  lemma InitPgdIsAt(m: Memory, k: Kernel)
    ensures PgdIsAt(m, k, InitPgd(m, k))
  {
    hide Bytes, Decode, Count, ImageAt, ImagePa;
    if k.initMm.Some? && k.pgdField.Some? {
      var start := ImagePa(k, k.initMm.value);
      var at := (start + k.pgdField.value) % TWO_64;
      FieldSolves(k, k.initMm.value, k.pgdField.value);
      var p := Decode(Bytes(m, at, 8));
      Pow256Values();
      EncodeDecode(Bytes(m, at, 8));
      CountFull(m, at, 8);
      ImageSolves(k, p);
      assert PointsTo(m, k, at, InitPgd(m, k));
    }
  }

  lemma FieldSolves(k: Kernel, va: u64, field: u64)
    ensures ImageAt(k, va + field, (ImagePa(k, va) + field) % TWO_64)
  {
    var x := va - START_KERNEL_MAP + k.kaslrShift;
    var q, y := x / TWO_64, x % TWO_64 + field;
    var at := y % TWO_64;
    assert x == q * TWO_64 + x % TWO_64 && y == y / TWO_64 * TWO_64 + at;
    assert va + field + k.kaslrShift == (q + y / TWO_64) * TWO_64 + (at + START_KERNEL_MAP);
    ModShift(at + START_KERNEL_MAP, q + y / TWO_64);
  }

  /** The function-local static: one value for the whole process, all ones while unset. */
  class PgdCache {
    var cached: u64

    static const UNSET: u64 := TWO_64 - 1

    /** Nobody else's table is stored: only one engine has asked, or all have the same. */
    ghost predicate Serves(m: Memory, k: Kernel)
      reads this
    {
      cached == UNSET || cached == InitPgd(m, k)
    }

    /** The table every caller is given from now on, if this one asks next. */
    ghost function Given(m: Memory, k: Kernel): u64
      reads this
    {
      if cached != UNSET then cached else InitPgd(m, k)
    }

    constructor ()
      ensures cached == UNSET
    {
      cached := UNSET;
    }

    /** The first caller's answer is kept, for every later caller: right exactly while no other table is stored. */
    method Resolve(m: Memory, k: Kernel) returns (pa: u64)
      modifies this
      ensures pa == cached == old(Given(m, k)) == Given(m, k)
      ensures pa == InitPgd(m, k) <==> old(Serves(m, k))
      ensures old(cached) == UNSET ==> PgdIsAt(m, k, pa)
    {
      InitPgdIsAt(m, k);
      if cached != UNSET { return cached; }
      cached := InitPgd(m, k);
      pa := cached;
    }
  }

  /** A second engine in the same process is given the first one's page table: right exactly when it has the same. */
  method SecondEngine(m1: Memory, k1: Kernel, m2: Memory, k2: Kernel) returns (first: u64, second: u64)
    ensures first == InitPgd(m1, k1)
    ensures second == InitPgd(m2, k2) <==> first == 0xffff_ffff_ffff_ffff || InitPgd(m2, k2) == first
  {
    hide InitPgd;
    var cache := new PgdCache();
    first := cache.Resolve(m1, k1);
    second := cache.Resolve(m2, k2);
  }

  // ---------- strategies ----------

  datatype Strategy = DirectMap | KernelImage | Dtb(vmalloc: bool) | InitMm(vmalloc: bool)

  predicate UsesDirectMap(k: Kernel, va: u64) {
    PHYSMAP_START <= va < START_KERNEL_MAP && k.directMapBase != 0 && va >= k.directMapBase
  }

  predicate UsesImage(va: u64) {
    START_KERNEL_MAP <= va < VMALLOC_START
  }

  /** The strategies for an address, in the order they are tried. */
  function Strategies(k: Kernel, pgd: u64, va: u64): seq<Strategy> {
    (if UsesDirectMap(k, va) then [DirectMap] else [])
    + (if UsesImage(va) then [KernelImage] else [])
    + (if k.dtbValidated then [Dtb(va >= VMALLOC_START)] else [])
    + if pgd != 0 then [InitMm(va >= VMALLOC_START)] else []
  }

  /** Address by address: what is tried, and in which order. */
  lemma StrategiesByRange(k: Kernel, pgd: u64, va: u64)
    ensures var vmalloc := va >= 0xffff_ffff_c000_0000;
      var walks := (if k.dtbValidated then [Dtb(vmalloc)] else []) + if pgd != 0 then [InitMm(vmalloc)] else [];
      Strategies(k, pgd, va)
      == if 0xffff_ffff_8000_0000 <= va < 0xffff_ffff_c000_0000 then [KernelImage] + walks
         else if 0xffff_8000_0000_0000 <= va < 0xffff_ffff_8000_0000 && 0 < k.directMapBase <= va
         then [DirectMap] + walks
         else walks
  {
  }

  /** Byte i after va, as a strategy sees it. */
  function View(m: Memory, k: Kernel, pgd: u64, s: Strategy, va: u64): Memory
    requires s.DirectMap? ==> va >= k.directMapBase
  {
    match s
    case DirectMap => (i: nat) => m(va - k.directMapBase + i)
    case KernelImage => (i: nat) => m(ImagePa(k, va) + i)
    case Dtb(_) => (i: nat) => Paging.VirtualMemory(m, k.dtb)(va + i)
    case InitMm(_) => (i: nat) => Paging.VirtualMemory(m, pgd)(va + i)
  }

  /**
   The byte, if any, that a strategy finds i bytes after va: in the direct map and the
   image at the place that solves the equation, elsewhere through the page table.
   */
  ghost predicate Finds(m: Memory, k: Kernel, pgd: u64, s: Strategy, va: u64, i: nat, b: Option<u8>) {
    match s
    case DirectMap => va >= k.directMapBase && b == m(va - k.directMapBase + i)
    case KernelImage => exists pa: u64 | ImageAt(k, va, pa) :: b == m(pa + i)
    case Dtb(_) => b == Paging.VirtualMemory(m, k.dtb)(va + i)
    case InitMm(_) => b == Paging.VirtualMemory(m, pgd)(va + i)
  }

  ghost predicate FindsAll(m: Memory, k: Kernel, pgd: u64, s: Strategy, va: u64, bytes: seq<u8>) {
    forall i | 0 <= i < |bytes| :: Finds(m, k, pgd, s, va, i, Some(bytes[i]))
  }

  ghost predicate MissesOne(m: Memory, k: Kernel, pgd: u64, s: Strategy, va: u64, n: nat) {
    exists i | 0 <= i < n :: Finds(m, k, pgd, s, va, i, None)
  }

  /** What it finds, with zeros for the bytes it misses. */
  ghost predicate Leaves(m: Memory, k: Kernel, pgd: u64, s: Strategy, va: u64, bytes: seq<u8>) {
    forall i | 0 <= i < |bytes| ::
      || Finds(m, k, pgd, s, va, i, Some(bytes[i]))
      || (bytes[i] == 0 && Finds(m, k, pgd, s, va, i, None))
  }

  lemma ViewFinds(m: Memory, k: Kernel, pgd: u64, s: Strategy, va: u64, i: nat)
    requires s.DirectMap? ==> va >= k.directMapBase
    ensures Finds(m, k, pgd, s, va, i, View(m, k, pgd, s, va)(i))
  {
    hide ImagePa, ImageAt, Finds, Paging.Translate;
    var v := View(m, k, pgd, s, va);
    ImageSolves(k, va);
    ViewAt(m, k, pgd, s, va, i);
    match s
    case KernelImage => ImageFinds(m, k, pgd, va, i, ImagePa(k, va));
    case _ => OtherFinds(m, k, pgd, s, va, i, v(i));
  }

  lemma ViewAt(m: Memory, k: Kernel, pgd: u64, s: Strategy, va: u64, i: nat)
    requires s.DirectMap? ==> va >= k.directMapBase
    ensures View(m, k, pgd, s, va)(i)
      == match s
         case DirectMap => m(va - k.directMapBase + i)
         case KernelImage => m(ImagePa(k, va) + i)
         case Dtb(_) => Paging.VirtualMemory(m, k.dtb)(va + i)
         case InitMm(_) => Paging.VirtualMemory(m, pgd)(va + i)
  {
    hide *;
    match s {
      case DirectMap => DirectView(m, k, pgd, va, i);
      case KernelImage => ImageView(m, k, pgd, va, i);
      case _ => WalkView(m, k, pgd, s, va, i);
    }
  }

  lemma DirectView(m: Memory, k: Kernel, pgd: u64, va: u64, i: nat)
    requires va >= k.directMapBase
    ensures View(m, k, pgd, DirectMap, va)(i) == m(va - k.directMapBase + i)
  {
  }

  lemma ImageView(m: Memory, k: Kernel, pgd: u64, va: u64, i: nat)
    ensures View(m, k, pgd, KernelImage, va)(i) == m(ImagePa(k, va) + i)
  {
    hide ImagePa;
  }

  lemma WalkView(m: Memory, k: Kernel, pgd: u64, s: Strategy, va: u64, i: nat)
    requires s.Dtb? || s.InitMm?
    ensures View(m, k, pgd, s, va)(i) == Paging.VirtualMemory(m, if s.Dtb? then k.dtb else pgd)(va + i)
  {
    hide Paging.VirtualMemory;
  }

  lemma ImageFinds(m: Memory, k: Kernel, pgd: u64, va: u64, i: nat, pa: u64)
    requires ImageAt(k, va, pa)
    ensures Finds(m, k, pgd, KernelImage, va, i, m(pa + i))
  {
    hide ImageAt;
  }

  lemma OtherFinds(m: Memory, k: Kernel, pgd: u64, s: Strategy, va: u64, i: nat, b: Option<u8>)
    requires match s
      case DirectMap => va >= k.directMapBase && b == m(va - k.directMapBase + i)
      case KernelImage => false
      case Dtb(_) => b == Paging.VirtualMemory(m, k.dtb)(va + i)
      case InitMm(_) => b == Paging.VirtualMemory(m, pgd)(va + i)
    ensures Finds(m, k, pgd, s, va, i, b)
  {
    hide ImageAt, Paging.VirtualMemory;
  }

  lemma ViewBytes(m: Memory, k: Kernel, pgd: u64, s: Strategy, va: u64, n: nat)
    requires s.DirectMap? ==> va >= k.directMapBase
    ensures var v := View(m, k, pgd, s, va);
      && (Count(v, 0, n) == n ==> FindsAll(m, k, pgd, s, va, Bytes(v, 0, n)))
      && (Count(v, 0, n) != n ==> MissesOne(m, k, pgd, s, va, n))
      && Leaves(m, k, pgd, s, va, Bytes(v, 0, n))
  {
    hide View, Finds, Count;
    var v := View(m, k, pgd, s, va);
    forall i | 0 <= i < n ensures Finds(m, k, pgd, s, va, i, v(i)) {
      ViewFinds(m, k, pgd, s, va, i);
    }
    CountFull(v, 0, n);
    if a: nat :| a < n && v(a).None? {
      assert Finds(m, k, pgd, s, va, a, None);
    }
  }

  ghost predicate Usable(k: Kernel, ss: seq<Strategy>, va: u64) {
    forall s | s in ss :: s.DirectMap? ==> va >= k.directMapBase
  }

  lemma StrategiesUsable(k: Kernel, pgd: u64, va: u64)
    ensures Usable(k, Strategies(k, pgd, va), va)
  {
  }

  /** The first strategy under which the dump holds all n bytes. */
  function Pick(m: Memory, k: Kernel, pgd: u64, ss: seq<Strategy>, va: u64, n: nat): (s: Option<Strategy>)
    requires Usable(k, ss, va)
    ensures s.Some? ==> s.value in ss && Count(View(m, k, pgd, s.value, va), 0, n) == n
  {
    if ss == [] then None
    else if Count(View(m, k, pgd, ss[0], va), 0, n) == n then Some(ss[0])
    else Pick(m, k, pgd, ss[1..], va, n)
  }

  lemma {:induction false} PickAppend(m: Memory, k: Kernel, pgd: u64, ss: seq<Strategy>, s: Strategy, va: u64, n: nat)
    requires Usable(k, ss + [s], va)
    ensures Usable(k, ss, va) && (s.DirectMap? ==> va >= k.directMapBase)
    ensures Pick(m, k, pgd, ss + [s], va, n)
         == if Pick(m, k, pgd, ss, va, n).Some? then Pick(m, k, pgd, ss, va, n)
            else if Count(View(m, k, pgd, s, va), 0, n) == n then Some(s) else None
  {
    hide View, Count;
    assert s in ss + [s];
    assert forall t :: t in ss ==> t in ss + [s];
    if ss != [] {
      assert (ss + [s])[1..] == ss[1..] + [s];
      PickAppend(m, k, pgd, ss[1..], s, va, n);
    } else {
      assert [s][1..] == [] && ss + [s] == [s];
    }
  }

  lemma {:induction false} PickPrefix(m: Memory, k: Kernel, pgd: u64, ss: seq<Strategy>, rest: seq<Strategy>,
                                      va: u64, n: nat)
    requires Usable(k, ss + rest, va)
    ensures Usable(k, ss, va)
    ensures Pick(m, k, pgd, ss, va, n).Some? ==> Pick(m, k, pgd, ss + rest, va, n) == Pick(m, k, pgd, ss, va, n)
  {
    hide View, Count;
    assert forall t :: t in ss ==> t in ss + rest;
    if ss != [] {
      assert (ss + rest)[1..] == ss[1..] + rest;
      PickPrefix(m, k, pgd, ss[1..], rest, va, n);
    }
  }

  /** What the buffer holds after trying the strategies: on failure, whatever the last of them left there. */
  function Outcome(m: Memory, k: Kernel, pgd: u64, ss: seq<Strategy>, va: u64, before: seq<u8>): (after: seq<u8>)
    requires Usable(k, ss, va)
    ensures |after| == |before|
  {
    match Pick(m, k, pgd, ss, va, |before|)
    case Some(s) => Bytes(View(m, k, pgd, s, va), 0, |before|)
    case None => if ss == [] then before else Bytes(View(m, k, pgd, ss[|ss| - 1], va), 0, |before|)
  }

  /**
   A read's answer: the bytes of the first strategy that finds all of them, when each
   before it misses one; or, when all miss one, no success and the last one's bytes.
   */
  ghost predicate FirstFinds(m: Memory, k: Kernel, pgd: u64, ss: seq<Strategy>, va: u64,
                             before: seq<u8>, after: seq<u8>, ok: bool) {
    && |after| == |before|
    && if ok then
         exists j | 0 <= j < |ss| ::
           && FindsAll(m, k, pgd, ss[j], va, after)
           && forall j' | 0 <= j' < j :: MissesOne(m, k, pgd, ss[j'], va, |after|)
       else
         && (forall j | 0 <= j < |ss| :: MissesOne(m, k, pgd, ss[j], va, |after|))
         && if ss == [] then after == before else Leaves(m, k, pgd, ss[|ss| - 1], va, after)
  }

  lemma {:induction false} PickIsFirst(m: Memory, k: Kernel, pgd: u64, ss: seq<Strategy>, va: u64, n: nat)
    returns (j: nat)
    requires Usable(k, ss, va)
    ensures match Pick(m, k, pgd, ss, va, n)
      case Some(s) => j < |ss| && ss[j] == s
      case None => j == |ss|
    ensures forall j' | 0 <= j' < j :: Count(View(m, k, pgd, ss[j'], va), 0, n) != n
  {
    hide View, Count;
    if ss == [] || Count(View(m, k, pgd, ss[0], va), 0, n) == n {
      j := 0;
    } else {
      var rest := PickIsFirst(m, k, pgd, ss[1..], va, n);
      j := rest + 1;
      forall j' | 0 <= j' < j ensures Count(View(m, k, pgd, ss[j'], va), 0, n) != n {
        assert j' > 0 ==> ss[j'] == ss[1..][j' - 1];
      }
    }
  }

  lemma OutcomeFinds(m: Memory, k: Kernel, pgd: u64, ss: seq<Strategy>, va: u64, before: seq<u8>)
    requires Usable(k, ss, va)
    ensures FirstFinds(m, k, pgd, ss, va, before, Outcome(m, k, pgd, ss, va, before),
                       Pick(m, k, pgd, ss, va, |before|).Some?)
  {
    hide View, Count, Bytes, Finds, FindsAll, MissesOne, Leaves, Pick;
    var n := |before|;
    var j := PickIsFirst(m, k, pgd, ss, va, n);
    forall j' | 0 <= j' < j ensures MissesOne(m, k, pgd, ss[j'], va, n) {
      ViewBytes(m, k, pgd, ss[j'], va, n);
    }
    if j < |ss| {
      ViewBytes(m, k, pgd, ss[j], va, n);
    } else if ss != [] {
      ViewBytes(m, k, pgd, ss[|ss| - 1], va, n);
    }
  }

  /** One strategy: the buffer gets its bytes whether or not all of them are there. */
  method TryRead(m: Memory, k: Kernel, ghost pgd: u64, s: Strategy, root: u64, va: u64, dst: array<u8>)
    returns (ok: bool)
    requires s.DirectMap? ==> va >= k.directMapBase
    requires s.InitMm? ==> root == pgd
    modifies dst
    ensures ok <==> Count(View(m, k, pgd, s, va), 0, dst.Length) == dst.Length
    ensures dst[..] == Bytes(View(m, k, pgd, s, va), 0, dst.Length)
  {
    hide InitPgd, ImagePa;
    ghost var v := View(m, k, pgd, s, va);
    var got;
    if s.DirectMap? || s.KernelImage? {
      var pa := if s.DirectMap? then va - k.directMapBase else ImagePa(k, va);
      got := Paging.PhysicalRead(m, pa, dst, 0, dst.Length);
      CountAgree(v, m, 0, pa, dst.Length);
    } else {
      var dtb := if s.Dtb? then k.dtb else root;
      got := Paging.Read(m, dtb, va, dst);
      CountAgree(v, Paging.VirtualMemory(m, dtb), 0, va, dst.Length);
    }
    ok := got == dst.Length;
  }

  /** What the tries so far have done: nothing found, and the last one's bytes left in the buffer. */
  ghost predicate Tried(m: Memory, k: Kernel, pgd: u64, ss: seq<Strategy>, va: u64, before: seq<u8>, now: seq<u8>) {
    && Usable(k, ss, va) && |now| == |before|
    && Pick(m, k, pgd, ss, va, |before|).None?
    && now == Outcome(m, k, pgd, ss, va, before)
  }

  lemma TriedOneMore(m: Memory, k: Kernel, pgd: u64, ss: seq<Strategy>, s: Strategy, va: u64,
                     before: seq<u8>, now: seq<u8>, after: seq<u8>)
    requires Tried(m, k, pgd, ss, va, before, now) && Usable(k, ss + [s], va)
    requires after == Bytes(View(m, k, pgd, s, va), 0, |before|)
    ensures Outcome(m, k, pgd, ss + [s], va, before) == after
    ensures if Count(View(m, k, pgd, s, va), 0, |before|) == |before|
      then Pick(m, k, pgd, ss + [s], va, |before|) == Some(s)
      else Tried(m, k, pgd, ss + [s], va, before, after)
  {
    hide View, Count, Bytes;
    PickAppend(m, k, pgd, ss, s, va, |before|);
    assert (ss + [s])[|ss + [s]| - 1] == s;
  }

  lemma Settled(m: Memory, k: Kernel, pgd: u64, ss: seq<Strategy>, rest: seq<Strategy>, va: u64, before: seq<u8>)
    requires Usable(k, ss + rest, va) && Usable(k, ss, va) && Pick(m, k, pgd, ss, va, |before|).Some?
    ensures Pick(m, k, pgd, ss + rest, va, |before|).Some?
    ensures Outcome(m, k, pgd, ss + rest, va, before) == Outcome(m, k, pgd, ss, va, before)
  {
    hide View, Count, Bytes;
    PickPrefix(m, k, pgd, ss, rest, va, |before|);
  }

  /** All n bytes through the first strategy that has them all; init_mm's walk uses the stored table if there is one. */
  method KvaRead(m: Memory, k: Kernel, cache: PgdCache, va: u64, dst: array<u8>) returns (ok: bool)
    modifies dst, cache
    ensures cache.Given(m, k) == old(cache.Given(m, k))
    ensures Usable(k, Strategies(k, old(cache.Given(m, k)), va), va)
    ensures var pgd := old(cache.Given(m, k));
      && (ok <==> Pick(m, k, pgd, Strategies(k, pgd, va), va, dst.Length).Some?)
      && dst[..] == Outcome(m, k, pgd, Strategies(k, pgd, va), va, old(dst[..]))
    ensures var pgd := old(cache.Given(m, k));
      FirstFinds(m, k, pgd, Strategies(k, pgd, va), va, old(dst[..]), dst[..], ok)
  {
    hide View, Count, Bytes, InitPgd, Pick, Outcome, PgdCache.Given, FirstFinds;
    ghost var pgd := cache.Given(m, k);
    StrategiesUsable(k, pgd, va);
    ghost var before := dst[..];
    ghost var all := Strategies(k, pgd, va);
    OutcomeFinds(m, k, pgd, all, va, before);
    ghost var tried: seq<Strategy> := [];
    NothingTried(m, k, pgd, va, before);
    if UsesDirectMap(k, va) {
      ok := Attempt(m, k, pgd, DirectMap, 0, va, dst, before, tried);
      tried := tried + [DirectMap];
      if ok { Settled(m, k, pgd, tried, all[1..], va, before); assert tried + all[1..] == all; return; }
    }
    if UsesImage(va) {
      ok := Attempt(m, k, pgd, KernelImage, 0, va, dst, before, tried);
      tried := tried + [KernelImage];
      if ok { Settled(m, k, pgd, tried, all[1..], va, before); assert tried + all[1..] == all; return; }
    }
    ok := KvaWalks(m, k, pgd, cache, va, dst, before, tried);
  }

  lemma NothingTried(m: Memory, k: Kernel, pgd: u64, va: u64, before: seq<u8>)
    ensures Tried(m, k, pgd, [], va, before, before)
  {
  }

  method Attempt(m: Memory, k: Kernel, ghost pgd: u64, s: Strategy, root: u64, va: u64, dst: array<u8>,
                 ghost before: seq<u8>, ghost tried: seq<Strategy>) returns (ok: bool)
    requires Tried(m, k, pgd, tried, va, before, dst[..]) && Usable(k, tried + [s], va)
    requires s.InitMm? ==> root == pgd
    modifies dst
    ensures Outcome(m, k, pgd, tried + [s], va, before) == dst[..]
    ensures ok <==> Pick(m, k, pgd, tried + [s], va, |before|).Some?
    ensures !ok ==> Tried(m, k, pgd, tried + [s], va, before, dst[..])
  {
    hide View, Count, Bytes, InitPgd, Pick, Outcome;
    ghost var now := dst[..];
    PickAppend(m, k, pgd, tried, s, va, |before|);
    ok := TryRead(m, k, pgd, s, root, va, dst);
    TriedOneMore(m, k, pgd, tried, s, va, before, now, dst[..]);
  }

  /** The page walks, first with the kernel's own table, then with init_mm's: vmalloc path and last resort alike. */
  method KvaWalks(m: Memory, k: Kernel, ghost pgd: u64, cache: PgdCache, va: u64, dst: array<u8>,
                  ghost before: seq<u8>, ghost tried: seq<Strategy>) returns (ok: bool)
    requires pgd == cache.Given(m, k)
    requires Tried(m, k, pgd, tried, va, before, dst[..])
    requires tried == (if UsesDirectMap(k, va) then [DirectMap] else []) + if UsesImage(va) then [KernelImage] else []
    modifies dst, cache
    ensures pgd == cache.Given(m, k)
    ensures Usable(k, Strategies(k, pgd, va), va)
    ensures ok <==> Pick(m, k, pgd, Strategies(k, pgd, va), va, |before|).Some?
    ensures dst[..] == Outcome(m, k, pgd, Strategies(k, pgd, va), va, before)
  {
    hide View, Count, Bytes, InitPgd, Pick, Outcome, UsesDirectMap, UsesImage;
    StrategiesUsable(k, pgd, va);
    ghost var all := Strategies(k, pgd, va);
    ghost var so := tried;
    var vmalloc := va >= VMALLOC_START;
    if k.dtbValidated {
      assert so + [Dtb(vmalloc)] <= all;
      ok := Attempt(m, k, pgd, Dtb(vmalloc), 0, va, dst, before, so);
      so := so + [Dtb(vmalloc)];
      if ok { Settled(m, k, pgd, so, all[|so|..], va, before); assert so + all[|so|..] == all; return; }
    }
    var root := cache.Resolve(m, k);
    if root != 0 {
      assert so + [InitMm(vmalloc)] == all;
      ok := Attempt(m, k, pgd, InitMm(vmalloc), root, va, dst, before, so);
      return;
    }
    assert so == all;
    ok := false;
  }

  // ---------- kva_translate ----------

  datatype Translation = Translation(ok: bool, pa: nat, how: Option<Strategy>)

  /** The physical address a strategy gives. */
  function Target(m: Memory, k: Kernel, pgd: u64, s: Strategy, va: u64): Option<nat>
    requires s.DirectMap? ==> va >= k.directMapBase
  {
    match s
    case DirectMap => Some(va - k.directMapBase)
    case KernelImage => Some(ImagePa(k, va))
    case Dtb(_) => Paging.Translate(m, k.dtb, va)
    case InitMm(_) => Paging.Translate(m, pgd, va)
  }

  lemma ViewIsTarget(m: Memory, k: Kernel, pgd: u64, s: Strategy, va: u64)
    requires s.DirectMap? ==> va >= k.directMapBase
    ensures View(m, k, pgd, s, va)(0) == match Target(m, k, pgd, s, va) case None => None case Some(pa) => m(pa)
    ensures Count(View(m, k, pgd, s, va), 0, 1) == 1 <==> View(m, k, pgd, s, va)(0).Some?
  {
    hide Paging.Translate, InitPgd, ImagePa;
    var v := View(m, k, pgd, s, va);
    match s {
      case DirectMap => assert v(0) == m(va - k.directMapBase + 0);
      case KernelImage => assert v(0) == m(ImagePa(k, va) + 0);
      case Dtb(_) => assert v(0) == Paging.VirtualMemory(m, k.dtb)(va + 0) && va + 0 == va;
      case InitMm(_) => assert v(0) == Paging.VirtualMemory(m, pgd)(va + 0) && va + 0 == va;
    }
    assert Count(v, 0, 1) == Count(v, 0, 0) + if v(0).Some? then 1 else 0;
  }

  ghost predicate Answers(m: Memory, k: Kernel, pgd: u64, va: u64, r: Translation)
  {
    StrategiesUsable(k, pgd, va);
    match Pick(m, k, pgd, Strategies(k, pgd, va), va, 1)
    case None => r == Translation(false, 0, None)
    case Some(s) => Target(m, k, pgd, s, va).Some? && r == Translation(true, Target(m, k, pgd, s, va).value, Some(s))
  }

  /** The strategy that answers: the first that finds the byte at va, none if none does. */
  ghost predicate FirstFound(m: Memory, k: Kernel, pgd: u64, ss: seq<Strategy>, va: u64, how: Option<Strategy>) {
    match how
    case None => forall j | 0 <= j < |ss| :: Finds(m, k, pgd, ss[j], va, 0, None)
    case Some(s) =>
      exists j | 0 <= j < |ss| ::
        && ss[j] == s && (forall j' | 0 <= j' < j :: Finds(m, k, pgd, ss[j'], va, 0, None))
        && exists b :: Finds(m, k, pgd, s, va, 0, Some(b))
  }

  /** Where the byte at va is, and by which strategy. */
  ghost predicate Located(m: Memory, k: Kernel, pgd: u64, va: u64, r: Translation) {
    && (r.ok <==> r.how.Some?) && FirstFound(m, k, pgd, Strategies(k, pgd, va), va, r.how)
    && (r.ok ==> m(r.pa).Some?)
    && match r.how
       case Some(KernelImage) =>
         r.pa < TWO_64 && (r.pa + 0xffff_ffff_8000_0000) % TWO_64 == (va + k.kaslrShift) % TWO_64
       case Some(DirectMap) => r.pa + k.directMapBase == va
       case Some(Dtb(_)) => Paging.Translate(m, k.dtb, va) == Some(r.pa)
       case Some(InitMm(_)) => Paging.Translate(m, pgd, va) == Some(r.pa)
       case None => true
  }

  lemma AnswersLocated(m: Memory, k: Kernel, pgd: u64, va: u64, r: Translation)
    requires Answers(m, k, pgd, va, r)
    ensures Located(m, k, pgd, va, r)
  {
    hide View, Count, InitPgd, Pick, ImagePa, Paging.Translate, Strategies, Finds, FirstFound;
    StrategiesUsable(k, pgd, va);
    var ss := Strategies(k, pgd, va);
    PickFound(m, k, pgd, ss, va);
    if Pick(m, k, pgd, ss, va, 1).Some? {
      ViewIsTarget(m, k, pgd, Pick(m, k, pgd, ss, va, 1).value, va);
      ImageSolves(k, va);
    }
  }

  lemma PickFound(m: Memory, k: Kernel, pgd: u64, ss: seq<Strategy>, va: u64)
    requires Usable(k, ss, va)
    ensures FirstFound(m, k, pgd, ss, va, Pick(m, k, pgd, ss, va, 1))
  {
    hide View, Count, Bytes, Finds, Pick, Target;
    var j := PickIsFirst(m, k, pgd, ss, va, 1);
    forall j' | 0 <= j' < j ensures Finds(m, k, pgd, ss[j'], va, 0, None) {
      ViewIsTarget(m, k, pgd, ss[j'], va);
      ViewFinds(m, k, pgd, ss[j'], va, 0);
    }
    if j < |ss| {
      ViewIsTarget(m, k, pgd, ss[j], va);
      ViewFinds(m, k, pgd, ss[j], va, 0);
      assert Finds(m, k, pgd, ss[j], va, 0, Some(View(m, k, pgd, ss[j], va)(0).value));
    }
  }

  method KvaTranslate(m: Memory, k: Kernel, cache: PgdCache, va: u64) returns (r: Translation)
    modifies cache
    ensures cache.Given(m, k) == old(cache.Given(m, k))
    ensures Answers(m, k, old(cache.Given(m, k)), va, r)
    ensures Located(m, k, old(cache.Given(m, k)), va, r)
  {
    hide View, Count, InitPgd, Pick, ImagePa, Paging.Translate, Located;
    ghost var pgd := cache.Given(m, k);
    forall a | Answers(m, k, pgd, va, a) ensures Located(m, k, pgd, va, a) { AnswersLocated(m, k, pgd, va, a); }
    r := Translation(false, 0, None);
    StrategiesUsable(k, pgd, va);
    ghost var all := Strategies(k, pgd, va);
    ghost var tried: seq<Strategy> := [];
    assert Pick(m, k, pgd, tried, va, 1).None? by { NothingPicked(m, k, pgd, va); }
    if UsesDirectMap(k, va) {
      var hit := Probe(m, k, pgd, DirectMap, 0, va, tried, all);
      tried := tried + [DirectMap];
      if hit.Some? { return Translation(true, hit.value, Some(DirectMap)); }
    }
    if UsesImage(va) {
      var hit := Probe(m, k, pgd, KernelImage, 0, va, tried, all);
      tried := tried + [KernelImage];
      if hit.Some? { return Translation(true, hit.value, Some(KernelImage)); }
    }
    var vmalloc := va >= VMALLOC_START;
    if k.dtbValidated {
      var hit := Probe(m, k, pgd, Dtb(vmalloc), 0, va, tried, all);
      tried := tried + [Dtb(vmalloc)];
      if hit.Some? { return Translation(true, hit.value, Some(Dtb(vmalloc))); }
    }
    var root := cache.Resolve(m, k);
    if root != 0 {
      var hit := Probe(m, k, pgd, InitMm(vmalloc), root, va, tried, all);
      tried := tried + [InitMm(vmalloc)];
      if hit.Some? { return Translation(true, hit.value, Some(InitMm(vmalloc))); }
    }
    assert tried == all;
  }

  lemma NothingPicked(m: Memory, k: Kernel, pgd: u64, va: u64)
    ensures Pick(m, k, pgd, [], va, 1).None?
  {
  }

  /** The translated address, if a byte can be read there. */
  method Probe(m: Memory, k: Kernel, ghost pgd: u64, s: Strategy, root: u64, va: u64,
               ghost tried: seq<Strategy>, ghost all: seq<Strategy>) returns (hit: Option<nat>)
    requires Usable(k, all, va) && tried + [s] <= all && Usable(k, tried, va) && Pick(m, k, pgd, tried, va, 1).None?
    requires s.InitMm? ==> root == pgd
    ensures s in all
    ensures hit.Some? ==> Pick(m, k, pgd, all, va, 1) == Some(s) && Target(m, k, pgd, s, va) == hit
    ensures hit.None? ==> Usable(k, tried + [s], va) && Pick(m, k, pgd, tried + [s], va, 1).None?
  {
    hide View, Count, InitPgd, Pick, ImagePa, Paging.Translate;
    ghost var one := tried + [s];
    assert s in one && all == one + all[|one|..];
    assert forall t :: t in one ==> t in all;
    PickAppend(m, k, pgd, tried, s, va, 1);
    PickPrefix(m, k, pgd, one, all[|one|..], va, 1);
    ViewIsTarget(m, k, pgd, s, va);
    hit := match s
      case DirectMap => Some(va - k.directMapBase)
      case KernelImage => Some(ImagePa(k, va))
      case Dtb(_) => Paging.Translate(m, k.dtb, va)
      case InitMm(_) => Paging.Translate(m, root, va);
    if hit.Some? && m(hit.value).None? { hit := None; }
  }

  /** Translation succeeds exactly when a one-byte read does, and that byte is the one at the reported address. */
  lemma TranslateIffReadable(m: Memory, k: Kernel, pgd: u64, va: u64, r: Translation, before: seq<u8>)
    requires Answers(m, k, pgd, va, r) && |before| == 1
    ensures Usable(k, Strategies(k, pgd, va), va)
    ensures r.ok <==> Pick(m, k, pgd, Strategies(k, pgd, va), va, 1).Some?
    ensures r.ok ==> m(r.pa) == Some(Outcome(m, k, pgd, Strategies(k, pgd, va), va, before)[0])
  {
    hide View, Count, InitPgd, Pick, ImagePa, Paging.Translate, Strategies;
    StrategiesUsable(k, pgd, va);
    if r.ok {
      var s := Pick(m, k, pgd, Strategies(k, pgd, va), va, 1).value;
      ViewIsTarget(m, k, pgd, s, va);
    }
  }
}
