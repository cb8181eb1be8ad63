/**
 The core file as a debugger reads it: words at the offsets of Elf64_Ehdr and
 Elf64_Phdr (System V ABI, chapters 4 and 5), and the memory behind them.
 */
module ElfReader {
  import opened Words
  import opened PhysicalLayer
  import opened ElfCore

  // ---------- the file header ----------

  ghost predicate IsEhdr(f: seq<u8>, segments: nat) {
    && |f| >= 64
    && f[..16] == [0x7F, 0x45, 0x4C, 0x46, 2, 1, 1, 0, 0, 0, 0, 0, 0, 0, 0, 0]
    && WordAt(f, 16, 2) == 4 && WordAt(f, 18, 2) == 62 && WordAt(f, 20, 4) == 1
    && WordAt(f, 24, 8) == 0 && WordAt(f, 32, 8) == 64 && WordAt(f, 40, 8) == 0
    && WordAt(f, 48, 4) == 0 && WordAt(f, 52, 2) == 64 && WordAt(f, 54, 2) == 56
    && WordAt(f, 56, 2) == segments % 0x1_0000
    && WordAt(f, 58, 2) == 0 && WordAt(f, 60, 2) == 0 && WordAt(f, 62, 2) == 0
  }

  lemma EhdrWidths()
    ensures |EHDR_LAYOUT| == 13 && Width(EHDR_LAYOUT) == 48
    ensures Width(EHDR_LAYOUT[..0]) == 0 && Width(EHDR_LAYOUT[..1]) == 2 && Width(EHDR_LAYOUT[..2]) == 4
    ensures Width(EHDR_LAYOUT[..3]) == 8 && Width(EHDR_LAYOUT[..4]) == 16 && Width(EHDR_LAYOUT[..5]) == 24
    ensures Width(EHDR_LAYOUT[..6]) == 32 && Width(EHDR_LAYOUT[..7]) == 36 && Width(EHDR_LAYOUT[..8]) == 38
    ensures Width(EHDR_LAYOUT[..9]) == 40 && Width(EHDR_LAYOUT[..10]) == 42 && Width(EHDR_LAYOUT[..11]) == 44
    ensures Width(EHDR_LAYOUT[..12]) == 46
  {
    hide Width;
    NoWidth(EHDR_LAYOUT);
    forall j | 0 <= j < 13 ensures Width(EHDR_LAYOUT[..j + 1]) == Width(EHDR_LAYOUT[..j]) + EHDR_LAYOUT[j] {
      WidthSnoc(EHDR_LAYOUT, j);
    }
    assert Width(EHDR_LAYOUT[..12]) == 46 && EHDR_LAYOUT[..13] == EHDR_LAYOUT;
  }

  lemma EhdrField(f: seq<u8>, n: nat, j: nat)
    requires |f| >= 64 && f[..64] == Ehdr(n) && j < 13
    ensures |EHDR_LAYOUT| == 13 && 16 + Width(EHDR_LAYOUT[..j]) + EHDR_LAYOUT[j] <= 64
    ensures WordAt(f, 16 + Width(EHDR_LAYOUT[..j]), EHDR_LAYOUT[j]) == EhdrFields(n)[j]
  {
    hide Ehdr, Unpack, Pack, EhdrFields, Width, WordAt;
    EhdrWidths();
    EhdrReadsBack(n);
    assert f[..64][16..] == f[16..64];
    UnpackAt(f[16..64], EHDR_LAYOUT, j);
    WordInSlice(f, 16, 64, Width(EHDR_LAYOUT[..j]), EHDR_LAYOUT[j]);
  }

  /** Every file starts as a 64-bit little-endian core for x86-64, its program headers right behind. */
  lemma FileHeader(plan: seq<Segment>, v: Memory)
    ensures IsEhdr(Image(plan, v), |plan|)
  {
    hide Image, Ehdr, WordAt, Width, DataStart;
    var f := Image(plan, v);
    ImageParts(plan, v);
    EhdrWidths();
    forall j | 0 <= j < 13
      ensures 16 + Width(EHDR_LAYOUT[..j]) + EHDR_LAYOUT[j] <= 64
      ensures WordAt(f, 16 + Width(EHDR_LAYOUT[..j]), EHDR_LAYOUT[j]) == EhdrFields(|plan|)[j]
    {
      EhdrField(f, |plan|, j);
    }
    Ident(f, |plan|);
  }

  lemma Ident(f: seq<u8>, n: nat)
    requires |f| >= 64 && f[..64] == Ehdr(n)
    ensures f[..16] == [0x7F, 0x45, 0x4C, 0x46, 2, 1, 1, 0, 0, 0, 0, 0, 0, 0, 0, 0]
  {
    hide Pack, EhdrFields, Width;
    assert f[..16] == f[..64][..16] == Ehdr(n)[..16] == IDENT;
  }

  // ---------- program headers ----------

  /** A loadable segment: its permissions, where its bytes are, which addresses they stand for. */
  ghost predicate IsPhdr(f: seq<u8>, at: nat, s: Segment, offset: nat) {
    && at + 56 <= |f|
    && WordAt(f, at, 4) == 1
    && WordAt(f, at + 4, 4) == (if s.vma.flags % 2 == 1 then 4 else 0)
                               + (if s.vma.flags / 2 % 2 == 1 then 2 else 0)
                               + (if s.vma.flags / 4 % 2 == 1 then 1 else 0)
    && WordAt(f, at + 8, 8) == offset && WordAt(f, at + 16, 8) == s.vma.start && WordAt(f, at + 24, 8) == 0
    && WordAt(f, at + 32, 8) == s.fileSize
    && WordAt(f, at + 40, 8) == (s.vma.end - s.vma.start) % TWO_64
    && WordAt(f, at + 48, 8) == 0x1000
  }

  lemma PhdrWidths()
    ensures |PHDR_LAYOUT| == 8 && Width(PHDR_LAYOUT) == 56
    ensures Width(PHDR_LAYOUT[..0]) == 0 && Width(PHDR_LAYOUT[..1]) == 4 && Width(PHDR_LAYOUT[..2]) == 8
    ensures Width(PHDR_LAYOUT[..3]) == 16 && Width(PHDR_LAYOUT[..4]) == 24 && Width(PHDR_LAYOUT[..5]) == 32
    ensures Width(PHDR_LAYOUT[..6]) == 40 && Width(PHDR_LAYOUT[..7]) == 48
  {
    hide Width;
    NoWidth(PHDR_LAYOUT);
    forall j | 0 <= j < 8 ensures Width(PHDR_LAYOUT[..j + 1]) == Width(PHDR_LAYOUT[..j]) + PHDR_LAYOUT[j] {
      WidthSnoc(PHDR_LAYOUT, j);
    }
    assert Width(PHDR_LAYOUT[..7]) == 48 && PHDR_LAYOUT[..8] == PHDR_LAYOUT;
  }

  lemma PhdrField(f: seq<u8>, at: nat, s: Segment, offset: nat, j: nat)
    requires at + 56 <= |f| && f[at..at + 56] == Phdr(s, offset) && j < 8
    requires s.vma.Readable() && s.fileSize <= s.vma.Size() && offset < TWO_64
    ensures |PHDR_LAYOUT| == 8 && Width(PHDR_LAYOUT[..j]) + PHDR_LAYOUT[j] <= 56
    ensures WordAt(f, at + Width(PHDR_LAYOUT[..j]), PHDR_LAYOUT[j]) == PhdrFields(s, offset)[j]
  {
    hide Phdr, Unpack, Pack, PhdrFields, Width, WordAt;
    PhdrWidths();
    PhdrReadsBack(s, offset);
    UnpackAt(f[at..at + 56], PHDR_LAYOUT, j);
    WordInSlice(f, at, at + 56, Width(PHDR_LAYOUT[..j]), PHDR_LAYOUT[j]);
  }

  lemma PhdrIs(f: seq<u8>, at: nat, s: Segment, offset: nat)
    requires at + 56 <= |f| && f[at..at + 56] == Phdr(s, offset)
    requires s.vma.Readable() && s.fileSize <= s.vma.Size() && offset < TWO_64
    ensures IsPhdr(f, at, s, offset)
  {
    hide Phdr, WordAt, Width;
    PhdrWidths();
    forall j | 0 <= j < 8
      ensures Width(PHDR_LAYOUT[..j]) + PHDR_LAYOUT[j] <= 56
      ensures WordAt(f, at + Width(PHDR_LAYOUT[..j]), PHDR_LAYOUT[j]) == PhdrFields(s, offset)[j]
    {
      PhdrField(f, at, s, offset, j);
    }
  }

  // ---------- the memory behind them ----------

  /** The first page boundary at or after the program headers. */
  lemma DataStarts(n: nat)
    ensures DataStart(n) % 0x1000 == 0 && 64 + 56 * n <= DataStart(n) < 64 + 56 * n + 0x1000
  {
  }

  lemma {:induction false} DataAt(plan: seq<Segment>, v: Memory, k: nat, i: nat)
    requires k < |plan| && i < plan[k].fileSize
    ensures Sum(plan[..k]) + i < Sum(plan)
    ensures Data(plan, v)[Sum(plan[..k]) + i] == ValueAt(v, plan[k].vma.start + i)
  {
    hide ValueAt;
    var n := |plan| - 1;
    if k < n {
      DataAt(plan[..n], v, k, i);
      assert plan[..n][..k] == plan[..k];
    }
  }

  /** From this offset of the file on, the bytes of memory from start on. */
  ghost predicate MemoryAt(f: seq<u8>, offset: nat, v: Memory, start: nat, n: nat) {
    offset + n <= |f| && f[offset..offset + n] == Bytes(v, start, n)
  }

  /**
   A debugger's reading of segment k of the file: its header, and, in the p_filesz bytes
   from p_offset on, the process's memory from p_vaddr on.
   */
  lemma SegmentReads(plan: seq<Segment>, v: Memory, k: nat)
    requires k < |plan| && plan[k].vma.Readable() && plan[k].fileSize <= plan[k].vma.Size()
    requires DataStart(|plan|) + Sum(plan) < TWO_64
    ensures var f := Image(plan, v);
      var at := 64 + 56 * k;
      && IsPhdr(f, at, plan[k], DataStart(|plan|) + Sum(plan[..k]))
      && MemoryAt(f, WordAt(f, at + 8, 8), v, WordAt(f, at + 16, 8), WordAt(f, at + 32, 8))
  {
    hide Image, DataStart, Sum, Phdr, PhdrOf, WordAt, MemoryAt;
    var f, at, d := Image(plan, v), 64 + 56 * k, DataStart(|plan|);
    SumPrefix(plan, k);
    PhdrInImage(plan, v, k);
    PhdrIsThere(f, at, k);
    PhdrIs(f, at, plan[k], d + Sum(plan[..k]));
    SegmentData(plan, v, k);
  }

  lemma SegmentData(plan: seq<Segment>, v: Memory, k: nat)
    requires k < |plan|
    ensures MemoryAt(Image(plan, v), DataStart(|plan|) + Sum(plan[..k]), v, plan[k].vma.start, plan[k].fileSize)
  {
    hide Image, DataStart, Sum, ValueAt, Data;
    var f, off, n := Image(plan, v), Sum(plan[..k]), plan[k].fileSize;
    var lo := DataStart(|plan|) + off;
    SumPrefix(plan, k);
    ImageLength(plan, v);
    var x, y := f[lo..lo + n], Bytes(v, plan[k].vma.start, n);
    forall i | 0 <= i < n ensures x[i] == y[i] {
      DataAt(plan, v, k, i);
      ImageData(plan, v, off + i);
    }
  }

  lemma ImageLength(plan: seq<Segment>, v: Memory)
    ensures |Image(plan, v)| == DataStart(|plan|) + Sum(plan)
  {
  }

  lemma PhdrIsThere(f: seq<u8>, at: nat, k: nat)
    requires at == 64 + 56 * k && at + 56 <= |f|
    ensures EHDR_SIZE + (k + 1) * PHDR_SIZE <= |f| && PhdrOf(f, k) == f[at..at + 56]
  {
  }

  lemma ImageData(plan: seq<Segment>, v: Memory, i: nat)
    requires i < Sum(plan)
    ensures DataStart(|plan|) + i < |Image(plan, v)|
    ensures Image(plan, v)[DataStart(|plan|) + i] == Data(plan, v)[i]
  {
    hide Header, Data, Sum, DataStart;
  }

  /** What the plan holds: readable VMAs of the list, each with some of its bytes and no more than it has. */
  lemma {:induction false} PlannedSegments(vmas: seq<Vma>, maxBytes: nat, k: nat)
    requires k < |Plan(vmas, maxBytes)|
    ensures var s := Plan(vmas, maxBytes)[k];
      s.vma in vmas && s.vma.flags % 2 == 1 && 0 < s.fileSize <= (s.vma.end - s.vma.start) % TWO_64
  {
    hide Plan, Sum;
    NothingPlanned(maxBytes);
    if vmas != [] {
      var n := |vmas| - 1;
      var adds := PlanStep(vmas, maxBytes);
      if k < |Plan(vmas[..n], maxBytes)| {
        PlannedSegments(vmas[..n], maxBytes, k);
      }
    }
  }

  lemma NothingPlanned(maxBytes: nat)
    ensures Plan([], maxBytes) == []
  {
  }

  /** The file built for any VMAs and any cap: each program header describes a VMA and leads to its memory. */
  lemma CoreReads(vmas: seq<Vma>, maxBytes: nat, v: Memory, k: nat)
    requires var plan := Plan(vmas, maxBytes); k < |plan| && DataStart(|plan|) + Sum(plan) < TWO_64
    ensures var plan := Plan(vmas, maxBytes);
      var f, at := Image(plan, v), 64 + 56 * k;
      && plan[k].vma in vmas && IsEhdr(f, |plan|) && IsPhdr(f, at, plan[k], DataStart(|plan|) + Sum(plan[..k]))
      && MemoryAt(f, WordAt(f, at + 8, 8), v, WordAt(f, at + 16, 8), WordAt(f, at + 32, 8))
  {
    hide Plan, Image, DataStart, Sum, IsEhdr, IsPhdr, MemoryAt, WordAt;
    PlannedSegments(vmas, maxBytes, k);
    FileHeader(Plan(vmas, maxBytes), v);
    SegmentReads(Plan(vmas, maxBytes), v, k);
    HeaderThere(Image(Plan(vmas, maxBytes), v), 64 + 56 * k, Plan(vmas, maxBytes), k);
  }

  lemma HeaderThere(f: seq<u8>, at: nat, plan: seq<Segment>, k: nat)
    requires k < |plan| && IsPhdr(f, at, plan[k], DataStart(|plan|) + Sum(plan[..k]))
    ensures at + 56 <= |f|
  {
    hide DataStart, Sum, WordAt;
  }
}
