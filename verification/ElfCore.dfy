/**
 Process memory as an ELF64 core file: built eagerly (src/os/linux/elf_core.cpp)
 and served as a stream of windows (src/os/linux/elf_core_stream.cpp).
 */
module ElfCore {
  import opened Words
  import opened PhysicalLayer
  import opened Paging
  import opened PageCache

  const EHDR_SIZE := 64
  const PHDR_SIZE := 56

  datatype Vma = Vma(start: u64, end: u64, flags: nat) {
    function Size(): u64 { (end - start) % TWO_64 }
    predicate Readable() { flags % 2 == 1 }
    predicate Writable() { flags / 2 % 2 == 1 }
    predicate Executable() { flags / 4 % 2 == 1 }
  }

  /** One PT_LOAD: a VMA and how many of its bytes go into the file. */
  datatype Segment = Segment(vma: Vma, fileSize: nat)

  // ---------- the file both forms describe ----------

  function Sum(plan: seq<Segment>): nat {
    if plan == [] then 0 else Sum(plan[..|plan| - 1]) + plan[|plan| - 1].fileSize
  }

  /** Readable, non-empty VMAs in order, each cut to what the cap leaves. */
  function Plan(vmas: seq<Vma>, maxBytes: nat): (plan: seq<Segment>)
    ensures Sum(plan) <= maxBytes
  {
    if vmas == [] then []
    else
      var before, v := Plan(vmas[..|vmas| - 1], maxBytes), vmas[|vmas| - 1];
      var take := Min(v.Size(), maxBytes - Sum(before));
      if v.Readable() && take > 0 then
        assert (before + [Segment(v, take)])[..|before|] == before;
        before + [Segment(v, take)]
      else before
  }

  /** The same without a cap. */
  function FullPlan(vmas: seq<Vma>): seq<Segment> {
    if vmas == [] then []
    else
      var before, v := FullPlan(vmas[..|vmas| - 1]), vmas[|vmas| - 1];
      if v.Readable() && v.Size() > 0 then before + [Segment(v, v.Size())] else before
  }

  function DataStart(n: nat): (d: nat)
    ensures d % PAGE == 0 && EHDR_SIZE + n * PHDR_SIZE <= d
  {
    (EHDR_SIZE + n * PHDR_SIZE + 0xFFF) / PAGE * PAGE
  }

  const IDENT: seq<u8> := [0x7F, 0x45, 0x4C, 0x46, 2, 1, 1, 0, 0, 0, 0, 0, 0, 0, 0, 0]
  const EHDR_LAYOUT: seq<nat> := [2, 2, 4, 8, 8, 8, 4, 2, 2, 2, 2, 2, 2]
  const PHDR_LAYOUT: seq<nat> := [4, 4, 8, 8, 8, 8, 8, 8]

  /** e_type ET_CORE, e_machine x86-64, e_version, ..., e_phoff, ..., e_phnum (a u16). */
  function EhdrFields(n: nat): seq<nat> {
    [4, 62, 1, 0, EHDR_SIZE, 0, 0, EHDR_SIZE, PHDR_SIZE, n % 0x1_0000, 0, 0, 0]
  }

  function Ehdr(n: nat): (s: seq<u8>)
    ensures |s| == EHDR_SIZE
  {
    assert Width(EHDR_LAYOUT) == 48;
    IDENT + Pack(EhdrFields(n), EHDR_LAYOUT)
  }

  /** p_type PT_LOAD, p_flags, p_offset, p_vaddr, p_paddr, p_filesz, p_memsz, p_align. */
  function PhdrFields(s: Segment, fileOff: nat): seq<nat> {
    [1,
     (if s.vma.Executable() then 1 else 0) + (if s.vma.Writable() then 2 else 0) + (if s.vma.Readable() then 4 else 0),
     fileOff, s.vma.start, 0, s.fileSize, s.vma.Size(), PAGE]
  }

  function Phdr(s: Segment, fileOff: nat): (b: seq<u8>)
    ensures |b| == PHDR_SIZE
  {
    assert Width(PHDR_LAYOUT) == PHDR_SIZE;
    Pack(PhdrFields(s, fileOff), PHDR_LAYOUT)
  }

  function Phdrs(plan: seq<Segment>, dataStart: nat): (b: seq<u8>)
    ensures |b| == |plan| * PHDR_SIZE
  {
    if plan == [] then []
    else
      var before := plan[..|plan| - 1];
      Phdrs(before, dataStart) + Phdr(plan[|plan| - 1], dataStart + Sum(before))
  }

  function Zeros(n: nat): (z: seq<u8>)
    ensures |z| == n && forall i | 0 <= i < n :: z[i] == 0
  {
    seq<u8>(n, (i: nat) => 0)
  }

  function Header(plan: seq<Segment>): (h: seq<u8>)
    ensures |h| == DataStart(|plan|)
  {
    var d := DataStart(|plan|);
    Ehdr(|plan|) + Phdrs(plan, d) + Zeros(d - EHDR_SIZE - |plan| * PHDR_SIZE)
  }

  function Data(plan: seq<Segment>, v: Memory): (d: seq<u8>)
    ensures |d| == Sum(plan)
  {
    if plan == [] then []
    else Data(plan[..|plan| - 1], v) + Bytes(v, plan[|plan| - 1].vma.start, plan[|plan| - 1].fileSize)
  }

  function Image(plan: seq<Segment>, v: Memory): seq<u8> {
    Header(plan) + Data(plan, v)
  }

  // ---------- planning ----------

  /** Once the cap is reached, later VMAs add nothing: leaving the loop then is the same as going on. */
  lemma {:induction false} PlanFull(vmas: seq<Vma>, k: nat, maxBytes: nat)
    requires k <= |vmas| && Sum(Plan(vmas[..k], maxBytes)) == maxBytes
    ensures Plan(vmas, maxBytes) == Plan(vmas[..k], maxBytes)
  {
    if k < |vmas| {
      assert vmas[..|vmas| - 1][..k] == vmas[..k];
      PlanFull(vmas[..|vmas| - 1], k, maxBytes);
    } else {
      assert vmas[..k] == vmas;
    }
  }

  /** With a cap that covers everything, the eager plan is the stream's plan. */
  lemma {:induction false} PlanUncapped(vmas: seq<Vma>, maxBytes: nat)
    requires Sum(FullPlan(vmas)) <= maxBytes
    ensures Plan(vmas, maxBytes) == FullPlan(vmas)
  {
    if vmas != [] {
      var before, v := FullPlan(vmas[..|vmas| - 1]), vmas[|vmas| - 1];
      if v.Readable() && v.Size() > 0 {
        assert FullPlan(vmas)[..|before|] == before;
      }
      PlanUncapped(vmas[..|vmas| - 1], maxBytes);
    }
  }

  method MakePlan(vmas: seq<Vma>, maxBytes: nat) returns (plan: seq<Segment>, total: nat)
    ensures plan == Plan(vmas, maxBytes) && total == Sum(plan)
  {
    plan, total := [], 0;
    for i := 0 to |vmas|
      invariant plan == Plan(vmas[..i], maxBytes) && total == Sum(plan)
    {
      assert vmas[..i + 1][..i] == vmas[..i];
      var v := vmas[i];
      if !v.Readable() { continue; }
      var sz := v.Size();
      if sz == 0 { continue; }
      var take := Min(sz, if maxBytes > total then maxBytes - total else 0);
      if take == 0 {
        PlanFull(vmas, i, maxBytes);
        return;
      }
      assert (plan + [Segment(v, take)])[..|plan|] == plan;
      plan := plan + [Segment(v, take)];
      total := total + take;
    }
    assert vmas[..|vmas|] == vmas;
  }

  /** The size estimate is the length of the file the eager form builds, for every cap. */
  method EstimateElfCoreSize(vmas: seq<Vma>, maxBytes: nat, ghost v: Memory) returns (size: nat)
    ensures size == |Image(Plan(vmas, maxBytes), v)|
  {
    var phnum, total := 0, 0;
    for i := 0 to |vmas|
      invariant phnum == |Plan(vmas[..i], maxBytes)| && total == Sum(Plan(vmas[..i], maxBytes))
    {
      assert vmas[..i + 1][..i] == vmas[..i];
      var v := vmas[i];
      if !v.Readable() { continue; }
      var sz := v.Size();
      if sz == 0 { continue; }
      var take := Min(sz, if maxBytes > total then maxBytes - total else 0);
      if take == 0 {
        PlanFull(vmas, i, maxBytes);
        return DataStart(phnum) + total;
      }
      ghost var before := Plan(vmas[..i], maxBytes);
      assert (before + [Segment(v, take)])[..|before|] == before;
      phnum, total := phnum + 1, total + take;
    }
    assert vmas[..|vmas|] == vmas;
    return DataStart(phnum) + total;
  }

  // ---------- the eager form ----------

  method Store(dst: array<u8>, at: nat, src: seq<u8>)
    requires at + |src| <= dst.Length
    modifies dst
    ensures forall i | 0 <= i < dst.Length :: dst[i] == if at <= i < at + |src| then src[i - at] else old(dst[i])
  {
    forall i | 0 <= i < |src| {
      dst[at + i] := src[i];
    }
  }

  /** The part of the file that is final after k program headers and their data. */
  ghost predicate BuiltUpTo(out: seq<u8>, plan: seq<Segment>, k: nat, v: Memory)
    requires k <= |plan|
  {
    var d := DataStart(|plan|);
    && |out| == d + Sum(plan) && Sum(plan[..k]) <= Sum(plan)
    && out[..EHDR_SIZE] == Ehdr(|plan|)
    && out[EHDR_SIZE..EHDR_SIZE + k * PHDR_SIZE] == Phdrs(plan[..k], d)
    && (forall i | EHDR_SIZE + k * PHDR_SIZE <= i < d :: out[i] == 0)
    && out[d..d + Sum(plan[..k])] == Data(plan[..k], v)
  }

  lemma {:induction false} SumPrefix(plan: seq<Segment>, k: nat)
    requires k <= |plan|
    ensures Sum(plan[..k]) <= Sum(plan)
    ensures k < |plan| ==> Sum(plan[..k]) + plan[k].fileSize == Sum(plan[..k + 1]) <= Sum(plan)
    decreases |plan| - k
  {
    if k == |plan| {
      assert plan[..k] == plan;
    } else {
      assert plan[..k + 1][..k] == plan[..k];
      SumPrefix(plan, k + 1);
    }
  }

  /** One program header and its data added to the buffer. */
  lemma BuildStep(before: seq<u8>, after: seq<u8>, plan: seq<Segment>, k: nat, v: Memory)
    requires k < |plan| && BuiltUpTo(before, plan, k, v) && |after| == |before|
    requires var d := DataStart(|plan|); var off := d + Sum(plan[..k]);
      var hdr, data := Phdr(plan[k], off), Bytes(v, plan[k].vma.start, plan[k].fileSize);
      && forall i | 0 <= i < |after| ::
           after[i] == if EHDR_SIZE + k * PHDR_SIZE <= i < EHDR_SIZE + (k + 1) * PHDR_SIZE
                         then hdr[i - EHDR_SIZE - k * PHDR_SIZE]
                       else if off <= i < off + plan[k].fileSize then data[i - off]
                       else before[i]
    ensures BuiltUpTo(after, plan, k + 1, v)
  {
    hide Phdr, Phdrs, Data, DataStart, Ehdr, Bytes, Sum;
    var d := DataStart(|plan|);
    var lo, off := EHDR_SIZE + k * PHDR_SIZE, d + Sum(plan[..k]);
    SumPrefix(plan, k);
    OneMoreSegment(plan, k, d, v);
    HeaderFits(|plan|, k);
    SliceExtends(before, after, 0, EHDR_SIZE, []);
    SliceExtends(before, after, EHDR_SIZE, lo, Phdr(plan[k], off));
    SliceExtends(before, after, d, off, Bytes(v, plan[k].vma.start, plan[k].fileSize));
  }

  lemma OneMoreSegment(plan: seq<Segment>, k: nat, d: nat, v: Memory)
    requires k < |plan|
    ensures Phdrs(plan[..k + 1], d) == Phdrs(plan[..k], d) + Phdr(plan[k], d + Sum(plan[..k]))
    ensures Data(plan[..k + 1], v) == Data(plan[..k], v) + Bytes(v, plan[k].vma.start, plan[k].fileSize)
  {
    hide Phdr, Bytes, Sum;
    assert plan[..k + 1][..k] == plan[..k];
  }

  lemma BuildDone(out: seq<u8>, plan: seq<Segment>, v: Memory)
    requires BuiltUpTo(out, plan, |plan|, v)
    ensures out == Image(plan, v)
  {
    hide Ehdr, Phdrs, Data, DataStart;
    assert plan[..|plan|] == plan;
    var d, lo := DataStart(|plan|), EHDR_SIZE + |plan| * PHDR_SIZE;
    assert out[lo..d] == Zeros(d - lo);
    assert out == out[..EHDR_SIZE] + out[EHDR_SIZE..lo] + out[lo..d] + out[d..];
  }

  /** The eager form: headers and page-table reads written into one buffer. */
  method BuildElfCore(m: Memory, dtb: u64, vmas: seq<Vma>, maxBytes: nat) returns (file: seq<u8>)
    ensures file == Image(Plan(vmas, maxBytes), VirtualMemory(m, dtb))
  {
    hide Phdr, Phdrs, Ehdr, Data, Plan, Sum, Translate, Count, DataStart, BuiltUpTo;
    ghost var v := VirtualMemory(m, dtb);
    var plan, total := MakePlan(vmas, maxBytes);
    var dataStart := DataStart(|plan|);
    var out := new u8[dataStart + total];
    ZeroFill(out, 0, out.Length);
    Store(out, 0, Ehdr(|plan|));
    BuildStart(out[..], plan, v);
    var fileOff, i := dataStart, 0;
    while i < |plan|
      invariant 0 <= i <= |plan| && fileOff == dataStart + Sum(plan[..i])
      invariant out.Length == dataStart + Sum(plan) && BuiltUpTo(out[..], plan, i, v)
    {
      SumPrefix(plan, i);
      HeaderFits(|plan|, i);
      ghost var before := out[..];
      var seg := plan[i];
      Store(out, EHDR_SIZE + i * PHDR_SIZE, Phdr(seg, fileOff));
      var data := new u8[seg.fileSize];
      var got := Paging.Read(m, dtb, seg.vma.start, data);
      Store(out, fileOff, data[..]);
      assert data[..] == Bytes(v, seg.vma.start, seg.fileSize);
      BuildStep(before, out[..], plan, i, v);
      fileOff, i := fileOff + seg.fileSize, i + 1;
    }
    BuildDone(out[..], plan, v);
    return out[..];
  }

  lemma HeaderFits(n: nat, i: nat)
    requires i < n
    ensures EHDR_SIZE + (i + 1) * PHDR_SIZE <= DataStart(n)
  {
  }

  lemma BuildStart(out: seq<u8>, plan: seq<Segment>, v: Memory)
    requires |out| == DataStart(|plan|) + Sum(plan)
    requires forall i | 0 <= i < |out| :: out[i] == if i < EHDR_SIZE then Ehdr(|plan|)[i] else 0
    ensures BuiltUpTo(out, plan, 0, v) && Sum(plan[..0]) == 0
  {
    hide Ehdr, DataStart, Sum, Data, Phdrs;
    assert plan[..0] == [];
    EmptyPlan(DataStart(|plan|), v);
    assert out[..EHDR_SIZE] == Ehdr(|plan|);
  }

  lemma EmptyPlan(d: nat, v: Memory)
    ensures Sum([]) == 0 && Data([], v) == [] && Phdrs([], d) == []
  {
  }

  // ---------- what a reader of the file finds ----------

  predicate PageAligned(v: Vma) {
    v.start % PAGE == 0 && v.end % PAGE == 0
  }

  /** Only the last segment can be cut by the cap, so every segment starts a whole number of pages in. */
  lemma {:induction false} SumsAligned(vmas: seq<Vma>, maxBytes: nat)
    requires forall v | v in vmas :: PageAligned(v)
    ensures StartsAligned(Plan(vmas, maxBytes), maxBytes)
  {
    hide Plan, Sum, StartsAligned, PageAligned;
    EmptyPlanAligned(maxBytes);
    if vmas != [] {
      var n := |vmas| - 1;
      var before, v := Plan(vmas[..n], maxBytes), vmas[n];
      assert v in vmas && forall u | u in vmas[..n] :: u in vmas;
      SumsAligned(vmas[..n], maxBytes);
      var adds := PlanStep(vmas, maxBytes);
      if adds {
        AppendAligned(before, v, maxBytes);
      }
    }
  }

  /** The last VMA adds a segment cut at the cap, or nothing. */
  lemma PlanStep(vmas: seq<Vma>, maxBytes: nat) returns (adds: bool)
    requires vmas != []
    ensures var before, v := Plan(vmas[..|vmas| - 1], maxBytes), vmas[|vmas| - 1];
      if adds then
        && v.Readable() && v.Size() > 0 && Sum(before) < maxBytes
        && Plan(vmas, maxBytes) == before + [Segment(v, Min(v.Size(), maxBytes - Sum(before)))]
      else Plan(vmas, maxBytes) == before
  {
    hide Sum;
    adds := |Plan(vmas, maxBytes)| > |Plan(vmas[..|vmas| - 1], maxBytes)|;
  }

  lemma EmptyPlanAligned(maxBytes: nat)
    ensures StartsAligned(Plan([], maxBytes), maxBytes)
  {
  }

  ghost predicate StartsAligned(plan: seq<Segment>, maxBytes: nat) {
    && Sum(plan) <= maxBytes && (Sum(plan) % PAGE == 0 || Sum(plan) == maxBytes)
    && forall k | 0 <= k < |plan| :: AlignedAt(plan, k)
  }

  ghost predicate AlignedAt(plan: seq<Segment>, k: nat)
    requires k < |plan|
  {
    Sum(plan[..k]) % PAGE == 0 && plan[k].vma.start % PAGE == 0
  }

  lemma SumAppend(before: seq<Segment>, s: Segment)
    ensures Sum(before + [s]) == Sum(before) + s.fileSize
  {
    assert (before + [s])[..|before|] == before;
  }

  lemma AlignedAppend(before: seq<Segment>, s: Segment, k: nat)
    requires k <= |before| && (k < |before| ==> AlignedAt(before, k))
    requires Sum(before) % PAGE == 0 && s.vma.start % PAGE == 0
    ensures AlignedAt(before + [s], k)
  {
    assert (before + [s])[..k] == before[..k];
    assert before[..|before|] == before;
  }

  lemma AppendAligned(before: seq<Segment>, v: Vma, maxBytes: nat)
    requires StartsAligned(before, maxBytes) && PageAligned(v) && Sum(before) < maxBytes
    ensures StartsAligned(before + [Segment(v, Min(v.Size(), maxBytes - Sum(before)))], maxBytes)
  {
    hide Sum, AlignedAt;
    var seg := Segment(v, Min(v.Size(), maxBytes - Sum(before)));
    SizeAligned(v);
    AlignedSum(Sum(before), v.Size());
    SumAppend(before, seg);
    forall k | 0 <= k < |before| + 1 ensures AlignedAt(before + [seg], k) {
      AlignedAppend(before, seg, k);
    }
  }

  /** Page-aligned VMAs start at page-aligned file offsets, congruent to their addresses, whatever the cap. */
  lemma OffsetsAligned(vmas: seq<Vma>, maxBytes: nat, k: nat)
    requires (forall v | v in vmas :: PageAligned(v)) && k < |Plan(vmas, maxBytes)|
    ensures var plan := Plan(vmas, maxBytes);
      (DataStart(|plan|) + Sum(plan[..k])) % PAGE == 0 == plan[k].vma.start % PAGE
  {
    hide Sum, Plan;
    SumsAligned(vmas, maxBytes);
    assert AlignedAt(Plan(vmas, maxBytes), k);
    AlignedSum(DataStart(|Plan(vmas, maxBytes)|), Sum(Plan(vmas, maxBytes)[..k]));
  }

  lemma AlignedSum(a: nat, b: nat)
    requires a % PAGE == 0
    ensures (a + b) % PAGE == 0 <==> b % PAGE == 0
  {
  }

  lemma SizeAligned(v: Vma)
    requires PageAligned(v)
    ensures v.Size() % PAGE == 0
  {
    var p, q := v.start / PAGE, v.end / PAGE;
    assert v.end - v.start == (q - p) * PAGE;
    assert (v.end - v.start) % TWO_64 == v.end - v.start + if v.end < v.start then TWO_64 else 0;
  }

  function PhdrSlot(table: seq<u8>, k: nat): seq<u8>
    requires (k + 1) * PHDR_SIZE <= |table|
  {
    table[k * PHDR_SIZE..(k + 1) * PHDR_SIZE]
  }

  lemma {:induction false} PhdrAt(plan: seq<Segment>, dataStart: nat, k: nat)
    requires k < |plan|
    ensures PhdrSlot(Phdrs(plan, dataStart), k) == Phdr(plan[k], dataStart + Sum(plan[..k]))
  {
    hide Phdr, Sum;
    var n := |plan| - 1;
    if k < n {
      PhdrAt(plan[..n], dataStart, k);
      assert plan[..n][..k] == plan[..k];
      assert Phdrs(plan, dataStart)[..n * PHDR_SIZE] == Phdrs(plan[..n], dataStart);
      assert PhdrSlot(Phdrs(plan, dataStart), k) == PhdrSlot(Phdrs(plan[..n], dataStart), k);
    }
  }

  lemma PhdrReadsBack(s: Segment, fileOff: nat)
    requires s.vma.Readable() && s.fileSize <= s.vma.Size() && fileOff < TWO_64
    ensures Width(PHDR_LAYOUT) == PHDR_SIZE
    ensures Unpack(Phdr(s, fileOff), PHDR_LAYOUT) == PhdrFields(s, fileOff)
  {
    Pow256Values();
    assert Width(PHDR_LAYOUT) == PHDR_SIZE;
    UnpackPack(PhdrFields(s, fileOff), PHDR_LAYOUT);
  }

  lemma EhdrFits(n: nat)
    ensures Fits(EhdrFields(n), EHDR_LAYOUT) && Width(EHDR_LAYOUT) == EHDR_SIZE - 16
  {
    Pow256Values();
  }

  lemma EhdrReadsBack(n: nat)
    ensures Width(EHDR_LAYOUT) == EHDR_SIZE - 16
    ensures Unpack(Ehdr(n)[16..], EHDR_LAYOUT) == EhdrFields(n)
  {
    EhdrFits(n);
    UnpackPack(EhdrFields(n), EHDR_LAYOUT);
    hide Pack, Unpack, Fits, Width, EhdrFields;
    assert Ehdr(n)[16..] == Pack(EhdrFields(n), EHDR_LAYOUT);
  }

  function PhdrTable(file: seq<u8>, n: nat): (t: seq<u8>)
    requires EHDR_SIZE + n * PHDR_SIZE <= |file|
    ensures |t| == n * PHDR_SIZE
  {
    file[EHDR_SIZE..EHDR_SIZE + n * PHDR_SIZE]
  }

  lemma ImageParts(plan: seq<Segment>, v: Memory)
    ensures EHDR_SIZE + |plan| * PHDR_SIZE <= |Image(plan, v)|
    ensures Image(plan, v)[..EHDR_SIZE] == Ehdr(|plan|)
    ensures PhdrTable(Image(plan, v), |plan|) == Phdrs(plan, DataStart(|plan|))
  {
    hide Ehdr, Phdrs, Data;
  }

  /** Where a reader of the file looks for program header k. */
  function PhdrOf(file: seq<u8>, k: nat): seq<u8>
    requires EHDR_SIZE + (k + 1) * PHDR_SIZE <= |file|
  {
    file[EHDR_SIZE + k * PHDR_SIZE..EHDR_SIZE + (k + 1) * PHDR_SIZE]
  }

  lemma PhdrInTable(file: seq<u8>, table: seq<u8>, n: nat, k: nat)
    requires k < n && EHDR_SIZE + n * PHDR_SIZE <= |file| && table == PhdrTable(file, n)
    ensures EHDR_SIZE + (k + 1) * PHDR_SIZE <= |file|
    ensures PhdrOf(file, k) == PhdrSlot(table, k)
  {
    SliceOfSlice(file, EHDR_SIZE, EHDR_SIZE + n * PHDR_SIZE, k * PHDR_SIZE, (k + 1) * PHDR_SIZE);
  }

  lemma PhdrInImage(plan: seq<Segment>, v: Memory, k: nat)
    requires k < |plan|
    ensures EHDR_SIZE + (k + 1) * PHDR_SIZE <= |Image(plan, v)|
    ensures PhdrOf(Image(plan, v), k) == Phdr(plan[k], DataStart(|plan|) + Sum(plan[..k]))
  {
    hide Image, DataStart, Sum, Phdrs, Phdr, PhdrOf, PhdrTable, PhdrSlot, Ehdr;
    ImageParts(plan, v);
    PhdrInTable(Image(plan, v), Phdrs(plan, DataStart(|plan|)), |plan|, k);
    PhdrAt(plan, DataStart(|plan|), k);
  }

  /** Decoding program header k gives back the segment it was written for. */
  lemma ProgramHeaderReadsBack(plan: seq<Segment>, v: Memory, k: nat)
    requires k < |plan| && plan[k].vma.Readable() && plan[k].fileSize <= plan[k].vma.Size()
    requires DataStart(|plan|) + Sum(plan) < TWO_64
    ensures EHDR_SIZE + (k + 1) * PHDR_SIZE <= |Image(plan, v)| && Width(PHDR_LAYOUT) == PHDR_SIZE
    ensures Unpack(PhdrOf(Image(plan, v), k), PHDR_LAYOUT)
         == PhdrFields(plan[k], DataStart(|plan|) + Sum(plan[..k]))
  {
    hide Image, DataStart, Sum, PhdrFields, Phdr, PhdrOf, Unpack, Width;
    SumPrefix(plan, k);
    PhdrInImage(plan, v, k);
    PhdrReadsBack(plan[k], DataStart(|plan|) + Sum(plan[..k]));
  }

  /** e_phnum is a u16: it counts the program headers exactly when there are at most 65535. */
  lemma SegmentCountReadsBack(plan: seq<Segment>, v: Memory)
    ensures |Image(plan, v)| >= EHDR_SIZE && Width(EHDR_LAYOUT) == EHDR_SIZE - 16
    ensures var fields := Unpack(Image(plan, v)[..EHDR_SIZE][16..], EHDR_LAYOUT);
      |fields| == 13 && (fields[9] == |plan| <==> |plan| < 0x1_0000)
  {
    hide Image, Ehdr, Unpack, Width, DataStart;
    ImageParts(plan, v);
    EhdrReadsBack(|plan|);
  }
}
