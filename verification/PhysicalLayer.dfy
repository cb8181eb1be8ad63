/**
 The contract every physical layer answers to (src/formats/physical_layer.h):
 a sparse byte-addressed memory; a read fills the whole buffer, holes with zero,
 and returns the number of addresses in the window that hold data.
 */
module PhysicalLayer {
  import opened Words

  /** A sparse memory: Some(b) where the dump holds byte b, None in a hole. */
  type Memory = nat -> Option<u8>

  function ValueAt(m: Memory, a: nat): u8 {
    if m(a).Some? then m(a).value else 0
  }

  /** How many of the n addresses from pa on hold data. */
  function Count(m: Memory, pa: nat, n: nat): (c: nat)
    ensures c <= n
  {
    if n == 0 then 0 else Count(m, pa, n - 1) + if m(pa + n - 1).Some? then 1 else 0
  }

  function Bytes(m: Memory, pa: nat, n: nat): (s: seq<u8>)
    ensures |s| == n
    ensures forall i | 0 <= i < n :: s[i] == ValueAt(m, pa + i)
  {
    seq<u8>(n, (i: nat) => ValueAt(m, pa + i))
  }

  ghost predicate Reads(m: Memory, pa: nat, buf: seq<u8>, got: nat) {
    && got == Count(m, pa, |buf|)
    && forall i | 0 <= i < |buf| :: buf[i] == ValueAt(m, pa + i)
  }

  lemma {:induction false} CountSplit(m: Memory, pa: nat, a: nat, b: nat)
    ensures Count(m, pa, a + b) == Count(m, pa, a) + Count(m, pa + a, b)
  {
    if b > 0 {
      CountSplit(m, pa, a, b - 1);
    }
  }

  lemma {:induction false} CountPrefix(m: Memory, pa: nat, n: nat, k: nat)
    requires k <= n
    requires forall a | pa <= a < pa + k :: m(a).Some?
    requires forall a | pa + k <= a < pa + n :: m(a).None?
    ensures Count(m, pa, n) == k
  {
    if n > 0 {
      CountPrefix(m, pa, n - 1, Min(k, n - 1));
    }
  }

  /** A read that reports every byte present has met no hole, and conversely. */
  lemma {:induction false} CountFull(m: Memory, pa: nat, n: nat)
    ensures Count(m, pa, n) == n <==> forall a | pa <= a < pa + n :: m(a).Some?
  {
    if n > 0 {
      CountFull(m, pa, n - 1);
    }
  }

  lemma {:induction false} CountAgree(m: Memory, m': Memory, pa: nat, pa': nat, n: nat)
    requires forall a | pa <= a < pa + n :: m(a).Some? <==> m'(a - pa + pa').Some?
    ensures Count(m, pa, n) == Count(m', pa', n)
  {
    if n > 0 {
      CountAgree(m, m', pa, pa', n - 1);
    }
  }

  method ZeroFill(dst: array<u8>, at: nat, n: nat)
    requires at + n <= dst.Length
    modifies dst
    ensures forall i | 0 <= i < dst.Length :: dst[i] == if at <= i < at + n then 0 else old(dst[i])
  {
    forall i | at <= i < at + n {
      dst[i] := 0;
    }
  }

  /** A read of the backing file: short at the end of the file (src/io/memory_source.h). */
  method SourceRead(file: seq<u8>, off: nat, dst: array<u8>, at: nat, n: nat) returns (got: nat)
    requires at + n <= dst.Length
    modifies dst
    ensures got == if off <= |file| then Min(n, |file| - off) else 0
    ensures forall i | 0 <= i < dst.Length ::
      dst[i] == if at <= i < at + got then file[off + (i - at)] else old(dst[i])
  {
    got := if off <= |file| then Min(n, |file| - off) else 0;
    forall i | 0 <= i < got {
      dst[at + i] := file[off + i];
    }
  }

  /** The first n bytes of the buffer are final, the rest still zero. */
  ghost predicate Partial(m: Memory, pa: nat, buf: seq<u8>, n: nat) {
    forall i | 0 <= i < |buf| :: buf[i] == if i < n then ValueAt(m, pa + i) else 0
  }

  lemma BufferStart(m: Memory, pa: nat, dst: array<u8>)
    requires forall i | 0 <= i < dst.Length :: dst[i] == 0
    ensures Partial(m, pa, dst[..], 0) && Count(m, pa, 0) == 0
  {
  }

  lemma BufferDone(m: Memory, pa: nat, buf: seq<u8>, got: nat)
    requires Partial(m, pa, buf, |buf|) && got == Count(m, pa, |buf|)
    ensures Reads(m, pa, buf, got)
  {
  }

  lemma SkipHole(m: Memory, pa: nat, buf: seq<u8>, from: nat, to: nat)
    requires Partial(m, pa, buf, from) && from <= to
    requires forall a | pa + from <= a < pa + to :: m(a).None?
    ensures Partial(m, pa, buf, to) && Count(m, pa, to) == Count(m, pa, from)
  {
    CountPrefix(m, pa + from, to - from, 0);
    CountSplit(m, pa, from, to - from);
  }

  /** What m holds from address a on is what the file holds from off on. */
  ghost predicate FileBacked(m: Memory, file: seq<u8>, a: nat, off: nat, n: nat) {
    forall b | a <= b < a + n :: m(b) == if off + (b - a) < |file| then Some(file[off + (b - a)]) else None
  }

  /** One source read in the middle of filling a buffer: short only where the file ends. */
  method FillFromSource(ghost m: Memory, ghost pa: nat, file: seq<u8>, off: nat, dst: array<u8>, at: nat, n: nat)
    returns (got: nat)
    requires at + n <= dst.Length
    requires Partial(m, pa, dst[..], at) && FileBacked(m, file, pa + at, off, n)
    modifies dst
    ensures Partial(m, pa, dst[..], at + n)
    ensures Count(m, pa, at + n) == Count(m, pa, at) + got
  {
    got := SourceRead(file, off, dst, at, n);
    CountPrefix(m, pa + at, n, got);
    CountSplit(m, pa, at, n);
  }
}

/** Physical ranges stored verbatim in the dump file: LiME segments and kdump PT_LOADs. */
module Extents {
  import opened Words
  import opened PhysicalLayer

  datatype Extent = Extent(start: nat, length: nat, fileOff: nat) {
    function End(): nat { start + length }
    predicate Covers(a: nat) { start <= a < start + length }
  }

  /** What one extent stores at an address: nothing past the end of the file. */
  function Stored(e: Extent, file: seq<u8>, a: nat): Option<u8>
    requires e.Covers(a)
  {
    var off := e.fileOff + (a - e.start);
    if off < |file| then Some(file[off]) else None
  }

  /** The memory a list of extents describes: the first extent that covers an address backs it. */
  function At(es: seq<Extent>, file: seq<u8>, a: nat): Option<u8> {
    if es == [] then None
    else if es[0].Covers(a) then Stored(es[0], file, a)
    else At(es[1..], file, a)
  }

  function MemoryOf(es: seq<Extent>, file: seq<u8>): Memory {
    (a: nat) => At(es, file, a)
  }

  /** Sorted by address and pairwise disjoint. */
  ghost predicate Ordered(es: seq<Extent>) {
    forall i, j | 0 <= i < j < |es| :: es[i].End() <= es[j].start
  }

  lemma {:induction false} AtCovered(es: seq<Extent>, file: seq<u8>, k: nat, a: nat)
    requires Ordered(es) && k < |es| && es[k].Covers(a)
    ensures At(es, file, a) == Stored(es[k], file, a)
  {
    if k > 0 {
      assert !es[0].Covers(a);
      AtCovered(es[1..], file, k - 1, a);
    }
  }

  lemma {:induction false} AtUncovered(es: seq<Extent>, file: seq<u8>, a: nat)
    requires forall k | 0 <= k < |es| :: !es[k].Covers(a)
    ensures At(es, file, a) == None
  {
    if es != [] {
      AtUncovered(es[1..], file, a);
    }
  }

  lemma InsideExtent(es: seq<Extent>, file: seq<u8>, k: nat, lo: nat, hi: nat)
    requires Ordered(es) && k < |es| && es[k].start <= lo <= hi <= es[k].End()
    ensures FileBacked(MemoryOf(es, file), file, lo, es[k].fileOff + (lo - es[k].start), hi - lo)
  {
    forall a | lo <= a < hi ensures At(es, file, a) == Stored(es[k], file, a) {
      AtCovered(es, file, k, a);
    }
  }
}
