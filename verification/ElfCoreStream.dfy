/** proc.dmp as a stream: any window of the ELF core without building it (src/os/linux/elf_core_stream.cpp). */
module ElfCoreStreaming {
  import opened Words
  import opened PhysicalLayer
  import opened Paging
  import opened PageCache
  import opened ElfCore

  /** Where one segment's data lies in the file, and where it comes from. */
  datatype Planned = Planned(fileOff: nat, fileLen: nat, vmStart: u64)

  function SegmentTable(plan: seq<Segment>, dataStart: nat): (t: seq<Planned>)
    ensures |t| == |plan|
  {
    if plan == [] then []
    else
      var before, s := plan[..|plan| - 1], plan[|plan| - 1];
      SegmentTable(before, dataStart) + [Planned(dataStart + Sum(before), s.fileSize, s.vma.start)]
  }

  lemma {:induction false} SegmentAt(plan: seq<Segment>, dataStart: nat, k: nat)
    requires k < |plan|
    ensures SegmentTable(plan, dataStart)[k]
         == Planned(dataStart + Sum(plan[..k]), plan[k].fileSize, plan[k].vma.start)
  {
    var n := |plan| - 1;
    if k < n {
      SegmentAt(plan[..n], dataStart, k);
      assert plan[..n][..k] == plan[..k];
    }
  }

  /** The data of segment k inside the file. */
  lemma {:induction false} DataAt(plan: seq<Segment>, v: Memory, k: nat)
    requires k < |plan|
    ensures Sum(plan[..k]) + plan[k].fileSize <= Sum(plan)
    ensures Data(plan, v)[Sum(plan[..k])..Sum(plan[..k]) + plan[k].fileSize]
         == Bytes(v, plan[k].vma.start, plan[k].fileSize)
  {
    hide Bytes;
    var n := |plan| - 1;
    var lo := Sum(plan[..k]);
    if k < n {
      DataAt(plan[..n], v, k);
      assert plan[..n][..k] == plan[..k];
      assert Data(plan, v)[..Sum(plan[..n])] == Data(plan[..n], v);
      assert Data(plan, v)[lo..lo + plan[k].fileSize] == Data(plan[..n], v)[lo..lo + plan[k].fileSize];
    }
  }

  /** The file as a memory: bytes up to its end, nothing after. */
  function FileMemory(file: seq<u8>): Memory {
    (a: nat) => if a < |file| then Some(file[a]) else None
  }

  /** A piece of segment k, as file bytes. */
  lemma SegmentPiece(plan: seq<Segment>, v: Memory, k: nat, lo: nat, n: nat)
    requires k < |plan|
    requires var off := DataStart(|plan|) + Sum(plan[..k]); off <= lo && lo + n <= off + plan[k].fileSize
    ensures var off := DataStart(|plan|) + Sum(plan[..k]);
      forall a | lo <= a < lo + n ::
        FileMemory(Image(plan, v))(a) == Some(ValueAt(v, plan[k].vma.start + (a - off)))
  {
    hide Header, Data, Sum, DataStart;
    var d, s := DataStart(|plan|), Sum(plan[..k]);
    DataAt(plan, v, k);
    var piece := Data(plan, v)[s..s + plan[k].fileSize];
    forall a | lo <= a < lo + n
      ensures FileMemory(Image(plan, v))(a) == Some(ValueAt(v, plan[k].vma.start + (a - (d + s))))
    {
      assert Image(plan, v)[a] == Data(plan, v)[a - d] == piece[a - d - s];
    }
  }

  lemma StoredChunk(m: Memory, offset: nat, before: seq<u8>, after: seq<u8>, p: nat, chunk: seq<u8>)
    requires Partial(m, offset, before, p) && |before| == |after| && p + |chunk| <= |before|
    requires forall i | 0 <= i < |after| :: after[i] == if p <= i < p + |chunk| then chunk[i - p] else before[i]
    requires forall a | offset + p <= a < offset + p + |chunk| :: ValueAt(m, a) == chunk[a - (offset + p)]
    ensures Partial(m, offset, after, p + |chunk|)
  {
  }

  /** The window up to file position x, once everything before from is in place. */
  function Progress(offset: nat, from: nat, end: nat, x: nat): nat
    requires offset <= from <= end
  {
    Max(from, Min(x, end)) - offset
  }

  lemma VirtualWraps(m: Memory, dtb: u64, a: nat)
    ensures VirtualMemory(m, dtb)(a) == VirtualMemory(m, dtb)(a % TWO_64)
  {
    hide Translate;
    var q, lo := a / TWO_64, a % TWO_64;
    assert a == q * 0x1_0000 * TWO_48 + lo;
    QuotientUnique(a, TWO_48, q * 0x1_0000 + lo / TWO_48, lo % TWO_48);
    SameLow48(m, dtb, a, lo);
  }

  /** Plans the stream: header blob, segment table and total size, no process memory touched. */
  method PlanStream(vmas: seq<Vma>) returns (blob: seq<u8>, segs: seq<Planned>, total: nat)
    ensures var plan := FullPlan(vmas);
      blob == Header(plan) && segs == SegmentTable(plan, DataStart(|plan|)) && total == DataStart(|plan|) + Sum(plan)
  {
    hide Ehdr, Phdr, DataStart;
    var use: seq<Segment> := [];
    for i := 0 to |vmas|
      invariant use == FullPlan(vmas[..i])
    {
      assert vmas[..i + 1][..i] == vmas[..i];
      if vmas[i].Readable() && vmas[i].Size() > 0 {
        use := use + [Segment(vmas[i], vmas[i].Size())];
      }
    }
    assert vmas[..|vmas|] == vmas;
    var padded := DataStart(|use|);
    var phdrs: seq<u8>, fileOff := [], padded;
    segs := [];
    for i := 0 to |use|
      invariant phdrs == Phdrs(use[..i], padded) && segs == SegmentTable(use[..i], padded)
      invariant fileOff == padded + Sum(use[..i])
    {
      assert use[..i + 1][..i] == use[..i];
      phdrs := phdrs + Phdr(use[i], fileOff);
      segs := segs + [Planned(fileOff, use[i].fileSize, use[i].vma.start)];
      fileOff := fileOff + use[i].fileSize;
    }
    assert use[..|use|] == use;
    blob := Ehdr(|use|) + phdrs + Zeros(padded - EHDR_SIZE - |use| * PHDR_SIZE);
    total := fileOff;
  }

  class ElfCoreStream {
    const m: Memory
    const dtb: u64
    ghost const plan: seq<Segment>
    const headerBlob: seq<u8>
    const segs: seq<Planned>
    const totalSize: nat
    const pageCache: UserPageCache

    constructor (m: Memory, dtb: u64, vmas: seq<Vma>)
      ensures Valid() && fresh(pageCache) && this.m == m && this.dtb == dtb && plan == FullPlan(vmas)
    {
      hide Header, Data, Sum, DataStart, SegmentTable, FullPlan, Coherent, Consistent;
      EmptyCacheIsFine(m, dtb, 16 * 1024 * 1024);
      var blob, table, total := PlanStream(vmas);
      var cache := new UserPageCache(16 * 1024 * 1024);
      this.m, this.dtb, this.plan := m, dtb, FullPlan(vmas);
      headerBlob, segs, totalSize, pageCache := blob, table, total, cache;
    }

    ghost predicate Valid()
      reads this, pageCache
    {
      && headerBlob == Header(plan) && segs == SegmentTable(plan, DataStart(|plan|))
      && totalSize == DataStart(|plan|) + Sum(plan)
      && pageCache.Valid(m, dtb)
    }

    /** The whole file this stream stands for. */
    ghost function File(): seq<u8>
    {
      Image(plan, VirtualMemory(m, dtb))
    }

    /**
     Any window equals that slice of the whole file, zero past its end. The
     returned length is the part inside the file, or the whole request past it.
     */
    method Read(offset: nat, dst: array<u8>) returns (n: nat)
      requires Valid() && offset + dst.Length < TWO_64
      modifies dst, pageCache
      ensures Valid()
      ensures forall i | 0 <= i < dst.Length :: dst[i] == ValueAt(FileMemory(File()), offset + i)
      ensures n == if offset >= |File()| then dst.Length else Min(dst.Length, |File()| - offset)
    {
      hide Header, Data, Sum, DataStart, SegmentTable, Partial, Translate, Coherent, Consistent, Count, Mapped;
      ghost var f := FileMemory(File());
      ZeroFill(dst, 0, dst.Length);
      BufferStart(f, offset, dst);
      if offset >= totalSize {
        SkipHole(f, offset, dst[..], 0, dst.Length);
        BufferEnd(f, offset, dst[..]);
        return dst.Length;
      }
      var len := Min(dst.Length, totalSize - offset);
      var cur, end := offset, offset + len;
      if cur < |headerBlob| {
        var take := Min(|headerBlob| - cur, len);
        ghost var before := dst[..];
        Store(dst, 0, headerBlob[cur..cur + take]);
        HeaderPiece(cur, take);
        StoredChunk(f, offset, before, dst[..], 0, headerBlob[cur..cur + take]);
        cur := cur + take;
      }
      assert Progress(offset, cur, end, DataStart(|plan|)) == cur - offset;
      if cur < end {
        Segments(offset, cur, end, dst);
      }
      SkipHole(f, offset, dst[..], len, dst.Length);
      BufferEnd(f, offset, dst[..]);
      return len;
    }

    lemma HeaderPiece(cur: nat, take: nat)
      requires Valid() && cur + take <= |headerBlob|
      ensures forall a | cur <= a < cur + take :: FileMemory(File())(a) == Some(headerBlob[a])
    {
      hide Header, Data, Sum;
    }

    /** The walk over the segments: cur and the window do not move, only the filled part grows. */
    method Segments(offset: nat, cur: nat, end: nat, dst: array<u8>)
      requires Valid() && offset <= cur < end <= offset + dst.Length && end <= totalSize
      requires Partial(FileMemory(File()), offset, dst[..], cur - offset)
      requires Progress(offset, cur, end, DataStart(|plan|)) == cur - offset
      modifies dst, pageCache
      ensures Valid() && Partial(FileMemory(File()), offset, dst[..], end - offset)
    {
      hide Header, Data, Sum, DataStart, SegmentTable, Partial, Coherent, Consistent, Count, Mapped;
      hide VirtualMemory, FileMemory, File;
      ghost var f, d := FileMemory(File()), DataStart(|plan|);
      assert Sum(plan[..0]) == 0 by { EmptySum(); }
      var k := 0;
      while k < |segs|
        invariant 0 <= k <= |segs| && Valid()
        invariant Partial(f, offset, dst[..], Progress(offset, cur, end, d + Sum(plan[..k])))
      {
        var s := segs[k];
        SegmentAt(plan, d, k);
        SumPrefix(plan, k);
        var sEnd := s.fileOff + s.fileLen;
        if sEnd <= cur {
          k := k + 1;
          continue;
        }
        if s.fileOff >= end { break; }
        var hitStart, hitEnd := Max(cur, s.fileOff), Min(end, sEnd);
        CopySegment(k, offset, hitStart, hitEnd, dst);
        k := k + 1;
      }
      assert plan[..|plan|] == plan;
    }

    /** The part of segment k inside the window, read through the page cache. */
    method CopySegment(k: nat, offset: nat, from: nat, to: nat, dst: array<u8>)
      requires Valid() && k < |plan| && offset <= from <= to <= offset + dst.Length
      requires segs[k].fileOff <= from && to <= segs[k].fileOff + segs[k].fileLen
      requires Partial(FileMemory(File()), offset, dst[..], from - offset)
      modifies dst, pageCache
      ensures Valid() && Partial(FileMemory(File()), offset, dst[..], to - offset)
    {
      hide Header, Data, Sum, DataStart, SegmentTable, Partial, Coherent, Consistent, Count, Mapped;
      hide VirtualMemory, FileMemory, File;
      var s := segs[k];
      SegmentWindow(k, from, to - from);
      var chunk := new u8[to - from];
      var got := pageCache.Read(m, dtb, (s.vmStart + (from - s.fileOff)) % TWO_64, chunk);
      ghost var before := dst[..];
      Store(dst, from - offset, chunk[..]);
      StoredChunk(FileMemory(File()), offset, before, dst[..], from - offset, chunk[..]);
    }

    /** The file bytes of a window inside segment k are the process memory it maps. */
    lemma SegmentWindow(k: nat, lo: nat, n: nat)
      requires Valid() && k < |plan|
      requires segs[k].fileOff <= lo && lo + n <= segs[k].fileOff + segs[k].fileLen
      ensures var from := (segs[k].vmStart + (lo - segs[k].fileOff)) % TWO_64;
        forall a | lo <= a < lo + n ::
          ValueAt(FileMemory(File()), a) == ValueAt(VirtualMemory(m, dtb), from + (a - lo))
    {
      hide Header, Data, Sum, DataStart, Translate;
      var v := VirtualMemory(m, dtb);
      SegmentAt(plan, DataStart(|plan|), k);
      SegmentPiece(plan, v, k, lo, n);
      var from := segs[k].vmStart + (lo - segs[k].fileOff);
      forall a | lo <= a < lo + n
        ensures ValueAt(FileMemory(File()), a) == ValueAt(v, from % TWO_64 + (a - lo))
      {
        VirtualWraps(m, dtb, from + (a - lo));
        VirtualWraps(m, dtb, from % TWO_64 + (a - lo));
        SumWraps(from, a - lo);
        assert plan[k].vma.start + (a - (DataStart(|plan|) + Sum(plan[..k]))) == from + (a - lo);
      }
    }
  }

  lemma SumWraps(x: nat, j: nat)
    ensures (x + j) % TWO_64 == (x % TWO_64 + j) % TWO_64
  {
    assert x == x / TWO_64 * TWO_64 + x % TWO_64;
  }

  lemma EmptySum()
    ensures Sum([]) == 0
  {
  }

  lemma {:induction false} CappedIsShorter(vmas: seq<Vma>, maxBytes: nat)
    ensures |Plan(vmas, maxBytes)| <= |FullPlan(vmas)|
  {
    if vmas != [] {
      CappedIsShorter(vmas[..|vmas| - 1], maxBytes);
    }
  }

  lemma DataStartGrows(a: nat, b: nat)
    requires a <= b
    ensures DataStart(a) <= DataStart(b)
  {
  }

  lemma ImageSize(plan: seq<Segment>, v: Memory)
    ensures |Image(plan, v)| == DataStart(|plan|) + Sum(plan)
  {
  }

  /** The eager builder makes the very file the stream serves exactly when its cap covers every readable VMA. */
  lemma StreamServesTheEagerFile(vmas: seq<Vma>, maxBytes: nat, v: Memory)
    ensures Image(Plan(vmas, maxBytes), v) == Image(FullPlan(vmas), v) <==> Sum(FullPlan(vmas)) <= maxBytes
  {
    hide Header, Data, Plan, FullPlan, Sum, DataStart;
    var plan, full := Plan(vmas, maxBytes), FullPlan(vmas);
    if Sum(full) <= maxBytes {
      PlanUncapped(vmas, maxBytes);
    } else {
      CappedIsShorter(vmas, maxBytes);
      DataStartGrows(|plan|, |full|);
      ImageSize(plan, v);
      ImageSize(full, v);
    }
  }
}
