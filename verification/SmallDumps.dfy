/**
 Concrete memories for the places where the code does less than it seems to: a page
 table whose first entry maps the first gigabyte onto itself, and little else.
 */
module SmallDumps {
  import opened Words
  import opened PhysicalLayer
  import opened Paging
  import opened PageCache
  import KernelVa
  import KernVaStream

  const TABLE := 0x1000

  /** Present, next table at TABLE. */
  const PML4E: seq<u8> := Encode(0x1001, 8)
  /** Present, a 1 GiB leaf at physical address 0. */
  const PDPTE: seq<u8> := Encode(0x81, 8)

  /** The two entries, and the given bytes elsewhere. */
  function GigabyteMap(root: nat, rest: Memory): Memory {
    (a: nat) =>
      if root <= a < root + 8 then Some(PML4E[a - root])
      else if TABLE <= a < TABLE + 8 then Some(PDPTE[a - TABLE])
      else rest(a)
  }

  function Nothing(): Memory { (a: nat) => None }

  ghost predicate RootApart(root: nat) {
    root + 8 <= TABLE || TABLE + 8 <= root
  }

  lemma EntryThere(m: Memory, pa: nat, e: nat)
    requires e < TWO_64 && Present(e)
    requires forall a | pa <= a < pa + 8 :: m(a) == Some(Encode(e, 8)[a - pa])
    ensures Entry(m, pa) == Some(e)
  {
    hide Encode, Decode;
    Pow256Values();
    DecodeEncode(e, 8);
    CountPrefix(m, pa, 8, 8);
    var s := Bytes(m, pa, 8);
    forall i | 0 <= i < 8 ensures s[i] == Encode(e, 8)[i] {
      assert m(pa + i) == Some(Encode(e, 8)[pa + i - pa]);
    }
    assert s == Encode(e, 8);
  }

  lemma EntryMissing(m: Memory, pa: nat)
    requires m(pa).None?
    ensures Entry(m, pa).None?
  {
    CountFull(m, pa, 8);
  }

  lemma MapsGigabyte(root: u64, rest: Memory, va: nat)
    requires RootApart(root) && va < ONE_GB
    ensures Translate(GigabyteMap(root, rest), root, va) == Some(va)
  {
    hide Entry, Encode, GigabyteMap;
    BothEntries(root, rest);
    assert Pml4Index(va) == 0 && PdptIndex(va) == 0;
    assert Frame4K(0x1001) == TABLE && LargePage(0x81) && Frame1G(0x81) == 0;
  }

  lemma BothEntries(root: u64, rest: Memory)
    requires RootApart(root)
    ensures Entry(GigabyteMap(root, rest), root) == Some(0x1001) && Entry(GigabyteMap(root, rest), TABLE) == Some(0x81)
  {
    hide Entry, Encode;
    EntryThere(GigabyteMap(root, rest), root, 0x1001);
    EntryThere(GigabyteMap(root, rest), TABLE, 0x81);
  }

  // ---------- a cached page served to the wrong page table ----------

  const ONE_ROOT := 0x1_70E5_2DAA_000
  const OTHER_VA := 0x43A5_3F82_000

  /** One table maps its page 0, the other maps nothing; a lookup for the second is served the first one's page. */
  method CrossTableHitIsWrong() returns (r: Option<Page>)
    ensures var m := GigabyteMap(ONE_ROOT, Nothing());
      r == Some(PageAt(m, ONE_ROOT, 0)) && PageAt(m, ONE_ROOT, 0) != PageAt(m, 0, OTHER_VA)
  {
    hide Key, PageAt, Evict, Translate, GigabyteMap;
    var m := GigabyteMap(ONE_ROOT, Nothing());
    var cache := new UserPageCache(PAGE_BYTES);
    EmptyCacheIsFine(m, ONE_ROOT, PAGE_BYTES);
    var page := cache.Fetch(m, ONE_ROOT, 0);
    KeysCollideAcrossTables();
    r := cache.Lookup(Key(0, OTHER_VA));
    OneMappedOneNot();
  }

  /** So the two tables cannot share a cache. */
  lemma CannotShare()
    ensures !ServesOther(GigabyteMap(ONE_ROOT, Nothing()), ONE_ROOT, 0)
  {
    hide Xor, Spread, PageAt, ServesOther, GigabyteMap;
    var m := GigabyteMap(ONE_ROOT, Nothing());
    KeysCollideAcrossTables();
    KeysCollideIff(ONE_ROOT, 0, 0, OTHER_VA);
    OneMappedOneNot();
    SharingSafeIff(m, ONE_ROOT, 0);
    assert PageAt(m, ONE_ROOT, 0) != PageAt(m, 0, OTHER_VA);
  }

  lemma OneMappedOneNot()
    ensures var m := GigabyteMap(ONE_ROOT, Nothing());
      PageAt(m, ONE_ROOT, 0).mapped && !PageAt(m, 0, OTHER_VA).mapped
  {
    hide Translate;
    MapsGigabyte(ONE_ROOT, Nothing(), 0);
    OtherUnmapped();
  }

  lemma OtherUnmapped()
    ensures Translate(GigabyteMap(ONE_ROOT, Nothing()), 0, OTHER_VA).None?
  {
    hide Entry, GigabyteMap, Walk;
    assert Pml4Index(OTHER_VA) == 8;
    NothingAt64();
    EntryMissing(GigabyteMap(ONE_ROOT, Nothing()), 64);
  }

  lemma NothingAt64()
    ensures GigabyteMap(ONE_ROOT, Nothing())(64).None?
  {
  }

  // ---------- a cached read that counts what the dump does not hold ----------

  /** A mapped byte missing from the dump: one to the cached read, none to the page table's. */
  lemma CachedCountTooHigh()
    ensures var m := GigabyteMap(0x3000, Nothing());
      Count(Mapped(m, 0x3000), 0x5000, 1) == 1 && Count(VirtualMemory(m, 0x3000), 0x5000, 1) == 0
  {
    hide Translate;
    var m := GigabyteMap(0x3000, Nothing());
    MapsGigabyte(0x3000, Nothing(), 0x5000);
    assert m(0x5000).None?;
    CountPrefix(Mapped(m, 0x3000), 0x5000, 1, 1);
    CountPrefix(VirtualMemory(m, 0x3000), 0x5000, 1, 0);
  }

  // ---------- kernel addresses ----------

  /** A dump that holds one byte. */
  function OneByte(at: nat, b: u8): Memory {
    (a: nat) => if a == at then Some(b) else None
  }

  const DIRECT_MAP := 0xffff_8880_0000_0000
  const PLAIN_KERNEL := KernelVa.Kernel(true, 0, DIRECT_MAP, 0, None, None)

  /** A byte of the stream that reads as 7 alone and as 0 together with the next one. */
  lemma WindowChangesByte()
    ensures var m, k, va := OneByte(5, 7), PLAIN_KERNEL, DIRECT_MAP + 5;
      && KernelVa.InitPgd(m, k) == 0
      && KernelVa.Usable(k, KernelVa.Strategies(k, 0, va), va)
      && KernelVa.Outcome(m, k, 0, KernelVa.Strategies(k, 0, va), va, [0])[0] == 7
      && KernelVa.Outcome(m, k, 0, KernelVa.Strategies(k, 0, va), va, [0, 0])[0] == 0
  {
    hide Entry, KernelVa.Outcome, KernelVa.Strategies;
    var m, va := OneByte(5, 7), DIRECT_MAP + 5;
    EntryMissing(m, 0 + 8 * Pml4Index(va));
    EntryMissing(m, 0 + 8 * Pml4Index(va + 1));
    assert Translate(m, 0, va).None? && Translate(m, 0, va + 1).None?;
    assert m(va - DIRECT_MAP) == Some(7) && m(va - DIRECT_MAP + 1) == None;
    KernVaStream.PartialPageDependsOnWindow(m, PLAIN_KERNEL, va);
  }

  /** A dump whose first eight bytes are a pointer into the kernel image. */
  function PointerAt0(offset: nat): Memory
    requires KernelVa.START_KERNEL_MAP + offset < TWO_64
  {
    (a: nat) => if a < 8 then Some(Encode(KernelVa.START_KERNEL_MAP + offset, 8)[a]) else None
  }

  /** init_mm at the start of the image, its pgd its first field. */
  const IMAGE_KERNEL := KernelVa.Kernel(true, 0, 0, 0, Some(KernelVa.START_KERNEL_MAP), Some(0))

  lemma PgdIs(offset: nat)
    requires KernelVa.START_KERNEL_MAP + offset < TWO_64
    ensures KernelVa.InitPgd(PointerAt0(offset), IMAGE_KERNEL) == offset
  {
    hide Encode, Decode, Count, Bytes, Pow256;
    PointerThere(offset);
    var m := PointerAt0(offset);
    assert KernelVa.ImagePa(IMAGE_KERNEL, KernelVa.START_KERNEL_MAP) == 0;
    assert KernelVa.ImagePa(IMAGE_KERNEL, KernelVa.START_KERNEL_MAP + offset) == offset;
  }

  lemma PointerThere(offset: nat)
    requires KernelVa.START_KERNEL_MAP + offset < TWO_64
    ensures var m := PointerAt0(offset);
      Count(m, 0, 8) == 8 && Decode(Bytes(m, 0, 8)) == KernelVa.START_KERNEL_MAP + offset
  {
    hide Encode, Decode;
    var m, e := PointerAt0(offset), KernelVa.START_KERNEL_MAP + offset;
    Pow256Values();
    DecodeEncode(e, 8);
    CountPrefix(m, 0, 8, 8);
    assert Bytes(m, 0, 8) == Encode(e, 8);
  }

  /** Two dumps opened in one process: the second is walked with the page table of the first. */
  method SecondDumpIsMisled() returns (first: u64, second: u64)
    ensures first == KernelVa.InitPgd(PointerAt0(0x1000), IMAGE_KERNEL) == 0x1000
    ensures second == 0x1000 != KernelVa.InitPgd(PointerAt0(0x2000), IMAGE_KERNEL)
  {
    hide KernelVa.InitPgd;
    PgdIs(0x1000);
    PgdIs(0x2000);
    var cache := new KernelVa.PgdCache();
    first := cache.Resolve(PointerAt0(0x1000), IMAGE_KERNEL);
    second := cache.Resolve(PointerAt0(0x2000), IMAGE_KERNEL);
  }

  // ---------- a relocated kernel image ----------

  /** A kernel loaded 8 MiB above its linked place, with no page table at hand. */
  const SHIFTED_KERNEL := KernelVa.Kernel(false, 0, 0, 0x80_0000, None, None)

  function TwoBytes(): Memory {
    (a: nat) => if a == 0x180_0000 then Some(7) else if a == 0x80_0000 then Some(9) else None
  }

  /** The shift is added: the image byte at 16 MiB is found at 24 MiB, not at 8 MiB. */
  method ShiftedImageIsRead() returns (ok: bool, b: u8)
    ensures ok && b == 7
  {
    hide KernelVa.FirstFinds, KernelVa.Outcome, KernelVa.Pick, KernelVa.Strategies;
    var va := 0xffff_ffff_8100_0000;
    var cache := new KernelVa.PgdCache();
    var dst := new u8[1];
    ghost var before := dst[..];
    KernelVa.StrategiesByRange(SHIFTED_KERNEL, 0, va);
    assert KernelVa.InitPgd(TwoBytes(), SHIFTED_KERNEL) == 0;
    assert KernelVa.Strategies(SHIFTED_KERNEL, 0, va) == [KernelVa.KernelImage];
    ok := KernelVa.KvaRead(TwoBytes(), SHIFTED_KERNEL, cache, va, dst);
    b := dst[0];
    ShiftedByte(va, before, dst[..], ok);
  }

  lemma ShiftedByte(va: u64, before: seq<u8>, after: seq<u8>, ok: bool)
    requires va == 0xffff_ffff_8100_0000 && |after| == 1
    requires KernelVa.FirstFinds(TwoBytes(), SHIFTED_KERNEL, 0, [KernelVa.KernelImage], va, before, after, ok)
    ensures ok && after == [7]
  {
    forall pa: u64 | KernelVa.ImageAt(SHIFTED_KERNEL, va, pa) ensures pa == 0x180_0000 {
      assert KernelVa.ImageAt(SHIFTED_KERNEL, va, 0x180_0000);
      KernelVa.ImagePlaceUnique(SHIFTED_KERNEL, va, pa, 0x180_0000);
    }
    assert forall b | KernelVa.Finds(TwoBytes(), SHIFTED_KERNEL, 0, KernelVa.KernelImage, va, 0, b) :: b == Some(7);
  }

  // ---------- leaves of each size ----------

  /** A dump of page-table entries alone. */
  function Tables(entries: map<nat, nat>): Memory {
    (a: nat) => if a / 8 * 8 in entries then Some(Encode(entries[a / 8 * 8], 8)[a % 8]) else None
  }

  /** A page, a 2 MiB leaf and a 1 GiB leaf below one root at 0x1000. */
  const THREE_SIZES: map<nat, nat> := map[
    0x1000 := 0x2001,
    0x2000 := 0x3001, 0x2008 := 0x8000_0083,
    0x3000 := 0x4001, 0x3008 := 0x60_0083,
    0x4000 := 0x7001]

  lemma TableEntry(entries: map<nat, nat>, at: nat)
    requires at % 8 == 0 && at in entries && entries[at] < TWO_64 && entries[at] % 2 == 1
    ensures Entry(Tables(entries), at) == Some(entries[at])
  {
    hide Encode, Entry;
    forall a | at <= a < at + 8 ensures Tables(entries)(a) == Some(Encode(entries[at], 8)[a - at]) {
      assert a / 8 * 8 == at && a % 8 == a - at;
    }
    EntryThere(Tables(entries), at, entries[at]);
  }

  lemma ThreeSizes(m: Memory)
    requires m == Tables(THREE_SIZES)
    ensures Entry(m, 0x1000) == Some(0x2001) && Entry(m, 0x2000) == Some(0x3001)
    ensures Entry(m, 0x2008) == Some(0x8000_0083)
    ensures Entry(m, 0x3000) == Some(0x4001) && Entry(m, 0x3008) == Some(0x60_0083) && Entry(m, 0x4000) == Some(0x7001)
  {
    hide Entry, Tables;
    TableEntry(THREE_SIZES, 0x1000);
    TableEntry(THREE_SIZES, 0x2000);
    TableEntry(THREE_SIZES, 0x2008);
    TableEntry(THREE_SIZES, 0x3000);
    TableEntry(THREE_SIZES, 0x3008);
    TableEntry(THREE_SIZES, 0x4000);
  }

  /** Bit 7 makes an entry a leaf: of 1 GiB in the third table level, of 2 MiB in the second. */
  lemma LeavesOfEachSize(m: Memory)
    requires m == Tables(THREE_SIZES)
    ensures Translate(m, 0x1000, 0x5) == Some(0x7005)
    ensures Translate(m, 0x1000, 0x20_0005) == Some(0x60_0005)
    ensures Translate(m, 0x1000, 0x4000_0005) == Some(0x8000_0005)
  {
    hide Entry, Tables, Translate;
    ThreeSizes(m);
    PageLeaf(m);
    MiddleLeaf(m);
    LargeLeaf(m);
  }

  lemma SmallIndices()
    ensures Pml4Index(0x5) == 0 == PdptIndex(0x5) == PdIndex(0x5) == PtIndex(0x5)
    ensures Pml4Index(0x20_0005) == 0 == PdptIndex(0x20_0005) && PdIndex(0x20_0005) == 1
    ensures Pml4Index(0x4000_0005) == 0 && PdptIndex(0x4000_0005) == 1
  {
  }

  lemma PageLeaf(m: Memory)
    requires Entry(m, 0x1000) == Some(0x2001) && Entry(m, 0x2000) == Some(0x3001)
    requires Entry(m, 0x3000) == Some(0x4001) && Entry(m, 0x4000) == Some(0x7001)
    ensures Translate(m, 0x1000, 0x5) == Some(0x7005)
  {
    hide Entry, Pml4Index, PdptIndex, PdIndex, PtIndex;
    SmallIndices();
  }

  lemma MiddleLeaf(m: Memory)
    requires Entry(m, 0x1000) == Some(0x2001) && Entry(m, 0x2000) == Some(0x3001)
    requires Entry(m, 0x3008) == Some(0x60_0083)
    ensures Translate(m, 0x1000, 0x20_0005) == Some(0x60_0005)
  {
    hide Entry, Pml4Index, PdptIndex, PdIndex;
    SmallIndices();
  }

  lemma LargeLeaf(m: Memory)
    requires Entry(m, 0x1000) == Some(0x2001) && Entry(m, 0x2008) == Some(0x8000_0083)
    ensures Translate(m, 0x1000, 0x4000_0005) == Some(0x8000_0005)
  {
    hide Entry, Pml4Index, PdptIndex;
    SmallIndices();
  }
}
