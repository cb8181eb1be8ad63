/**
 Anchoring the name list between its count word and the markers
 (find_names_and_count in src/symbols/kallsyms.cpp).
 */
module KallsymsAnchor {
  import opened Words
  import opened PhysicalLayer
  import opened KallsymsNames
  import opened KallsymsMarkers

  const MAX_LAST_BATCH := 16384

  datatype Anchor = Anchor(namesPa: u64, numSymsPa: u64, numSyms: nat, namesSize: nat)

  // ---------- the four conditions of an anchor ----------

  /** The size bytes that end at end are cnt whole entries, at most 256; all 16 KiB before end are in the dump. */
  ghost predicate LastBatch(m: Memory, end: nat, size: nat, cnt: nat) {
    && 2 <= size <= 16384 <= end
    && Count(m, end - 16384, 16384) == 16384
    && 1 <= cnt <= 256 && Exactly(Bytes(m, end - size, size), cnt)
  }

  /** The first 256 entries use exactly the bytes the second marker says, when that marker is below 64 KiB. */
  ghost predicate FirstBatch(m: Memory, namesPa: nat, markers: seq<nat>) {
    |markers| >= 2 && 0 < markers[1] < 0x1_0000 ==>
      && Count(m, namesPa, markers[1]) == markers[1]
      && Exactly(Bytes(m, namesPa, markers[1]), 256)
  }

  /** A four-byte word v at pa, wholly in the dump. */
  ghost predicate WordIs(m: Memory, pa: nat, v: nat) {
    Count(m, pa, 4) == 4 && Decode(Bytes(m, pa, 4)) == v
  }

  /** pa is the nearest place 4, 8, 12 or 16 bytes below the names that holds the count. */
  ghost predicate CountFound(m: Memory, namesPa: nat, v: nat, pa: nat) {
    && 0 < pa && pa + 4 <= namesPa <= pa + 16 && (namesPa - pa) % 4 == 0 && WordIs(m, pa, v)
    && forall q | pa < q < namesPa && (namesPa - q) % 4 == 0 :: !WordIs(m, q, v)
  }

  /** Everything the search demands of the pair (padding, size of the last batch). */
  ghost predicate Anchors(m: Memory, markersPa: nat, markers: seq<nat>, padding: nat, size: nat, a: Anchor)
    requires markers != []
  {
    && padding < 8 && markersPa >= 16384 + padding
    && var last := markers[|markers| - 1];
    var cnt := a.numSyms - 256 * (|markers| - 1);
    && cnt >= 0 && LastBatch(m, markersPa - padding, size, cnt)
    && a.numSyms <= 2_000_000
    && a.namesPa == (markersPa - padding - size - last) % TWO_64
    && FirstBatch(m, a.namesPa, markers)
    && CountFound(m, a.namesPa, a.numSyms, a.numSymsPa)
    && a.namesSize == last + size
  }

  ghost predicate Rejected(m: Memory, markersPa: nat, markers: seq<nat>, padding: nat, size: nat)
    requires markers != []
  {
    forall a :: !Anchors(m, markersPa, markers, padding, size, a)
  }

  // ---------- the search ----------

  method LocateCount(m: Memory, namesPa: u64, v: nat) returns (pa: u64)
    ensures pa != 0 ==> CountFound(m, namesPa, v, pa)
    ensures pa == 0 ==> forall q :: !CountFound(m, namesPa, v, q)
  {
    hide WordIs;
    pa := 0;
    var back := 4;
    while back <= 16
      invariant 4 <= back <= 20 && back % 4 == 0
      invariant forall q | 0 <= q < namesPa < q + back && (namesPa - q) % 4 == 0 :: !WordIs(m, q, v)
    {
      if namesPa >= back {
        var found := ReadsWord(m, namesPa - back, v);
        if found {
          pa := namesPa - back;
          break;
        }
      }
      back := back + 4;
    }
  }

  method ReadsWord(m: Memory, pa: nat, v: nat) returns (same: bool)
    ensures same <==> WordIs(m, pa, v)
  {
    same := Count(m, pa, 4) == 4 && Decode(Bytes(m, pa, 4)) == v;
  }

  method CheckFirstBatch(m: Memory, namesPa: u64, markers: seq<nat>) returns (ok: bool)
    ensures ok <==> FirstBatch(m, namesPa, markers)
  {
    hide WalkEntries;
    var first := if |markers| >= 2 then markers[1] else 0;
    if 0 < first < 0x1_0000 {
      if Count(m, namesPa, first) != first { return false; }
      var walked, cur, cnt := WalkBlock(Bytes(m, namesPa, first), 256);
      return walked && cur == first && cnt == 256;
    }
    ok := true;
  }

  lemma LastBatchExact(buf: seq<u8>, cnt: nat)
    requires buf != []
    ensures var w := WalkEntries(buf, 0, 256);
      1 <= cnt <= 256 && Exactly(buf, cnt) <==> !w.stuck && w.stop == |buf| && |w.entries| == cnt
  {
    hide WalkEntries;
    var w := WalkEntries(buf, 0, 256);
    assert buf[0..|buf|] == buf;
    if !w.stuck && w.stop == |buf| {
      WalkInside(buf, 0, |buf|, 0, 256);
      NonEmptyWalk(buf, 256);
    }
    if 1 <= cnt <= 256 && Exactly(buf, cnt) {
      WalkContinues(buf, 0, cnt, 256 - cnt);
      WalkEnds(buf, |buf|, 256 - cnt);
    }
  }

  lemma NonEmptyWalk(buf: seq<u8>, max: nat)
    requires buf != [] && WalkEntries(buf, 0, max).stop == |buf|
    ensures WalkEntries(buf, 0, max).entries != []
  {
  }

  /** One pair of the double loop. */
  method TryAnchor(m: Memory, markersPa: u64, markers: seq<nat>, padding: nat, size: nat, lbuf: seq<u8>)
    returns (r: Option<Anchor>)
    requires markers != [] && markers[|markers| - 1] < MAX_NAMES
    requires padding < 8 && markersPa >= MAX_LAST_BATCH + padding && 2 <= size <= MAX_LAST_BATCH
    requires var end := markersPa - padding;
      && Count(m, end - MAX_LAST_BATCH, MAX_LAST_BATCH) == MAX_LAST_BATCH
      && lbuf == Bytes(m, end - MAX_LAST_BATCH, MAX_LAST_BATCH)
    ensures r.Some? ==> Anchors(m, markersPa, markers, padding, size, r.value)
    ensures r.None? ==> Rejected(m, markersPa, markers, padding, size)
  {
    hide WalkEntries, Exactly, Count, FirstBatch, CountFound, Bytes;
    var end := markersPa - padding;
    var block := lbuf[|lbuf| - size..];
    assert block == Bytes(m, end - size, size) by { BytesTail(m, end - MAX_LAST_BATCH, MAX_LAST_BATCH, size); }
    var ok, cur, cnt := WalkBlock(block, 256);
    if !ok || cur != size || cnt == 0 || cnt > 256 {
      forall c: nat | LastBatch(m, end, size, c) ensures false { LastBatchExact(block, c); }
      return None;
    }
    LastBatchExact(block, cnt);
    forall c: nat | LastBatch(m, end, size, c) ensures c == cnt { LastBatchExact(block, c); }
    var numSyms := 256 * (|markers| - 1) + cnt;
    if numSyms > MAX_NUM_SYMS { return None; }
    var namesPa := (end - size - markers[|markers| - 1]) % TWO_64;
    var first := CheckFirstBatch(m, namesPa, markers);
    if !first { return None; }
    var numSymsPa := LocateCount(m, namesPa, numSyms);
    if numSymsPa == 0 { return None; }
    r := Some(Anchor(namesPa, numSymsPa, numSyms, markers[|markers| - 1] + size));
  }

  lemma BytesTail(m: Memory, pa: nat, n: nat, k: nat)
    requires k <= n
    ensures Bytes(m, pa, n)[n - k..] == Bytes(m, pa + n - k, k)
  {
  }

  /** The least accepted padding, and for it the least accepted size; none only if every pair is rejected. */
  method FindNamesAndCount(m: Memory, markersPa: u64, markers: seq<nat>)
    returns (r: Option<Anchor>, padding: nat, size: nat)
    requires markers == [] || (|markers| <= MAX_MARKERS && markers[|markers| - 1] < MAX_NAMES)
    ensures markers == [] ==> r.None?
    ensures r.Some? ==> Anchors(m, markersPa, markers, padding, size, r.value)
    ensures r.Some? ==> forall p: nat, k: nat | p < padding || (p == padding && k < size) ::
      Rejected(m, markersPa, markers, p, k)
    ensures r.None? && markers != [] ==> forall p: nat, k: nat :: Rejected(m, markersPa, markers, p, k)
  {
    hide Anchors, Rejected, Count, Bytes;
    r, padding, size := None, 0, 0;
    if markers == [] { return; }
    while padding < 8
      invariant padding <= 8
      invariant forall p: nat, k: nat | p < padding :: Rejected(m, markersPa, markers, p, k)
    {
      size := 2;
      OutOfRange(m, markersPa, markers, padding);
      if markersPa >= MAX_LAST_BATCH + padding {
        var end := markersPa - padding;
        if Count(m, end - MAX_LAST_BATCH, MAX_LAST_BATCH) == MAX_LAST_BATCH {
          var lbuf := Bytes(m, end - MAX_LAST_BATCH, MAX_LAST_BATCH);
          while size <= MAX_LAST_BATCH
            invariant 2 <= size <= MAX_LAST_BATCH + 1
            invariant forall k: nat | k < size :: Rejected(m, markersPa, markers, padding, k)
          {
            r := TryAnchor(m, markersPa, markers, padding, size, lbuf);
            if r.Some? { return; }
            size := size + 1;
          }
        }
      }
      padding := padding + 1;
    }
    OutOfRange(m, markersPa, markers, 8);
    forall p: nat, k: nat ensures Rejected(m, markersPa, markers, p, k) {
      if p >= 8 { OutOfRange(m, markersPa, markers, p); }
    }
    r := None;
  }

  lemma OutOfRange(m: Memory, markersPa: nat, markers: seq<nat>, padding: nat)
    requires markers != []
    ensures forall k: nat | k < 2 || k > MAX_LAST_BATCH || padding >= 8 :: Rejected(m, markersPa, markers, padding, k)
    ensures markersPa < MAX_LAST_BATCH + padding
      || Count(m, markersPa - padding - MAX_LAST_BATCH, MAX_LAST_BATCH) != MAX_LAST_BATCH
      ==> forall k: nat :: Rejected(m, markersPa, markers, padding, k)
  {
    hide Count, Bytes, Exactly, FirstBatch, CountFound;
  }

  // ---------- what an anchor means ----------

  /**
   The count is 256 for every full batch plus those of the last, which makes the
   number of markers its quotient rounded up; and the names end where the markers
   (less padding) begin.
   */
  lemma AnchorSound(m: Memory, markersPa: u64, markers: seq<nat>, padding: nat, size: nat, a: Anchor)
    requires markers != [] && Anchors(m, markersPa, markers, padding, size, a)
    ensures 0 < a.numSyms <= MAX_NUM_SYMS && (a.numSyms + 255) / 256 == |markers|
    ensures (a.namesPa + a.namesSize) % TWO_64 == markersPa - padding
    ensures markers[|markers| - 1] + size <= markersPa - padding ==> a.namesPa + a.namesSize == markersPa - padding
    ensures WordIs(m, a.numSymsPa, a.numSyms)
  {
    hide LastBatch, FirstBatch, WordIs;
    assert LastBatch(m, markersPa - padding, size, a.numSyms - 256 * (|markers| - 1));
    LastBatchCount(m, markersPa - padding, size, a.numSyms - 256 * (|markers| - 1));
  }

  lemma LastBatchCount(m: Memory, end: nat, size: nat, cnt: nat)
    requires LastBatch(m, end, size, cnt)
    ensures 1 <= cnt <= 256
  {
  }

  /** With every intermediate batch meeting its marker, decoding yields numSyms symbols from namesSize bytes. */
  lemma AnchoredNamesDecode(m: Memory, markersPa: u64, markers: seq<nat>, padding: nat, size: nat, a: Anchor,
                            tokens: seq<string>, offsets: seq<int>, base: u64)
    requires markers != [] && Anchors(m, markersPa, markers, padding, size, a)
    requires markers[|markers| - 1] + size <= markersPa - padding
    requires BatchesMeetMarkers(Bytes(m, a.namesPa, a.namesSize), markers)
    requires |tokens| == 256 && |offsets| == a.numSyms
    ensures Exactly(Bytes(m, a.namesPa, a.namesSize), a.numSyms)
    ensures |Symbols(WalkEntries(Bytes(m, a.namesPa, a.namesSize), 0, a.numSyms).entries, tokens, offsets, base)|
         == a.numSyms
  {
    hide BatchesMeetMarkers, WalkEntries, FirstBatch, CountFound, Count, Symbols, Bytes;
    AnchorSound(m, markersPa, markers, padding, size, a);
    var k := |markers| - 1;
    var cnt := a.numSyms - 256 * k;
    BytesTail(m, a.namesPa, a.namesSize, size);
    assert LastBatch(m, markersPa - padding, size, cnt);
    WalkWhole(Bytes(m, a.namesPa, a.namesSize), markers, cnt);
  }

  // ---------- the layout the kernel writes is always accepted ----------

  /** Marker i is where entry 256*i begins. */
  ghost predicate MarkersOf(es: seq<seq<u8>>, markers: seq<nat>) {
    && AllEncodable(es) && markers != []
    && 256 * (|markers| - 1) < |es| <= 256 * |markers|
    && forall i | 0 <= i < |markers| :: markers[i] == |NameBytes(es[..256 * i])|
  }

  /** Memory holds the encoded names right below the markers (less padding), and the count word below them. */
  ghost predicate KernelLayout(m: Memory, es: seq<seq<u8>>, markersPa: u64, markers: seq<nat>, padding: nat,
                               namesPa: u64, countPa: u64) {
    && MarkersOf(es, markers) && |es| <= MAX_NUM_SYMS && padding < 8
    && namesPa + |NameBytes(es)| + padding == markersPa
    && Bytes(m, namesPa, |NameBytes(es)|) == NameBytes(es)
    && Count(m, namesPa, |NameBytes(es)|) == |NameBytes(es)|
    && markersPa >= MAX_LAST_BATCH + padding
    && Count(m, markersPa - padding - MAX_LAST_BATCH, MAX_LAST_BATCH) == MAX_LAST_BATCH
    && |NameBytes(es)| - markers[|markers| - 1] <= MAX_LAST_BATCH
    && CountFound(m, namesPa, |es|, countPa)
  }

  lemma PrefixBytes(es: seq<seq<u8>>, i: nat, j: nat)
    requires AllEncodable(es) && i <= j <= |es|
    ensures AllEncodable(es[..i]) && AllEncodable(es[..j]) && AllEncodable(es[i..j])
    ensures |NameBytes(es[..i])| + |NameBytes(es[i..j])| == |NameBytes(es[..j])| <= |NameBytes(es)|
    ensures NameBytes(es)[|NameBytes(es[..i])|..|NameBytes(es[..j])|] == NameBytes(es[i..j])
  {
    hide NameBytes, Encodable;
    assert es[..j] == es[..i] + es[i..j] && es == es[..j] + es[j..];
    NameBytesConcat(es[..i], es[i..j]);
    NameBytesConcat(es[..j], es[j..]);
  }

  lemma BytesInside(m: Memory, pa: nat, n: nat, lo: nat, hi: nat)
    requires lo <= hi <= n
    ensures Bytes(m, pa, n)[lo..hi] == Bytes(m, pa + lo, hi - lo)
  {
  }

  lemma EncodedExactly(es: seq<seq<u8>>)
    requires AllEncodable(es)
    ensures Exactly(NameBytes(es), |es|)
  {
    hide WalkEntries, NameBytes;
    assert NameBytes(es)[0..0 + |NameBytes(es)|] == NameBytes(es);
    WalkInvertsEncoding(NameBytes(es), 0, es);
  }

  lemma {:induction false} EntriesTakeTwoBytes(es: seq<seq<u8>>)
    requires AllEncodable(es)
    ensures |NameBytes(es)| >= 2 * |es|
  {
    hide EntryBytes;
    if es != [] {
      EntryNotEmpty(es[0]);
      EntriesTakeTwoBytes(es[1..]);
    }
  }

  /** Entries i..j of the list, found in memory between the places of entries i and j, are exactly j - i entries. */
  lemma PartExactly(m: Memory, namesPa: nat, es: seq<seq<u8>>, i: nat, j: nat)
    requires AllEncodable(es) && i <= j <= |es|
    requires Bytes(m, namesPa, |NameBytes(es)|) == NameBytes(es)
    ensures AllEncodable(es[..i]) && AllEncodable(es[..j])
    ensures |NameBytes(es[..i])| + 2 * (j - i) <= |NameBytes(es[..j])| <= |NameBytes(es)|
    ensures Exactly(Bytes(m, namesPa + |NameBytes(es[..i])|, |NameBytes(es[..j])| - |NameBytes(es[..i])|), j - i)
  {
    hide NameBytes, Exactly, Encodable, Bytes;
    PrefixBytes(es, i, j);
    BytesInside(m, namesPa, |NameBytes(es)|, |NameBytes(es[..i])|, |NameBytes(es[..j])|);
    EncodedExactly(es[i..j]);
    EntriesTakeTwoBytes(es[i..j]);
  }

  /**
   The true layout is never rejected: with its own padding and last-batch size it
   is an anchor, so the search never comes back empty-handed.
   */
  lemma KernelLayoutAnchors(m: Memory, es: seq<seq<u8>>, markersPa: u64, markers: seq<nat>, padding: nat,
                            namesPa: u64, countPa: u64)
    requires KernelLayout(m, es, markersPa, markers, padding, namesPa, countPa)
    ensures var size := |NameBytes(es)| - markers[|markers| - 1];
      size >= 2 && Anchors(m, markersPa, markers, padding, size, Anchor(namesPa, countPa, |es|, |NameBytes(es)|))
  {
    hide NameBytes, Exactly, CountFound, Bytes, Count, Encodable, AllEncodable;
    var k := |markers| - 1;
    PartExactly(m, namesPa, es, 256 * k, |es|);
    assert es[..|es|] == es;
    assert markers[k] == |NameBytes(es[..256 * k])|;
    if |markers| >= 2 {
      PartExactly(m, namesPa, es, 0, 256);
      assert markers[1] == |NameBytes(es[..256 * 1])| && markers[0] == |NameBytes(es[..256 * 0])|;
      assert markers[0] == 0 by { EmptyNames(es[..0]); }
      CountWithin(m, namesPa, |NameBytes(es)|, namesPa, markers[1]);
      assert FirstBatch(m, namesPa, markers);
    }
    assert LastBatch(m, markersPa - padding, |NameBytes(es)| - markers[k], |es| - 256 * k);
  }

  lemma EmptyNames(es: seq<seq<u8>>)
    requires es == []
    ensures AllEncodable(es) && NameBytes(es) == []
  {
  }

  /** And its batches meet its markers. */
  lemma KernelLayoutBatches(m: Memory, es: seq<seq<u8>>, markersPa: u64, markers: seq<nat>, padding: nat,
                            namesPa: u64, countPa: u64)
    requires KernelLayout(m, es, markersPa, markers, padding, namesPa, countPa)
    ensures BatchesMeetMarkers(Bytes(m, namesPa, |NameBytes(es)|), markers)
  {
    hide NameBytes, Exactly, CountFound, Bytes, Count, Encodable, AllEncodable;
    var names := Bytes(m, namesPa, |NameBytes(es)|);
    EmptyNames(es[..256 * 0]);
    forall i | 0 <= i < |markers| ensures markers[i] <= |names| {
      PrefixBytes(es, 256 * i, 256 * i);
    }
    forall i | 0 <= i < |markers| - 1 ensures markers[i] <= markers[i + 1] {
      MarkedBatch(m, es, markers, namesPa, i);
    }
    forall i | 0 <= i < |markers| - 1 ensures Exactly(names[markers[i]..markers[i + 1]], 256) {
      MarkedBatch(m, es, markers, namesPa, i);
    }
  }

  lemma MarkedBatch(m: Memory, es: seq<seq<u8>>, markers: seq<nat>, namesPa: nat, i: nat)
    requires MarkersOf(es, markers) && Bytes(m, namesPa, |NameBytes(es)|) == NameBytes(es) && i + 1 < |markers|
    ensures markers[i] <= markers[i + 1] <= |NameBytes(es)|
    ensures Exactly(Bytes(m, namesPa, |NameBytes(es)|)[markers[i]..markers[i + 1]], 256)
  {
    hide NameBytes, Exactly, Bytes, Encodable, AllEncodable;
    PartExactly(m, namesPa, es, 256 * i, 256 * (i + 1));
    assert markers[i] == |NameBytes(es[..256 * i])| && markers[i + 1] == |NameBytes(es[..256 * (i + 1)])|;
    BytesInside(m, namesPa, |NameBytes(es)|, markers[i], markers[i + 1]);
  }

  // ---------- when the first acceptance has the kernel's own count ----------

  /** A place the search looks for the count at: 4 to 16 bytes below some list of names it considers. */
  ghost predicate LookedAt(markersPa: u64, last: nat, q: nat) {
    exists padding: nat, size: nat ::
      padding < 8 && 2 <= size <= MAX_LAST_BATCH && q + 4 <= NamesStart(markersPa, last, padding, size) <= q + 16
  }

  function NamesStart(markersPa: u64, last: nat, padding: nat, size: nat): u64 {
    (markersPa - padding - size - last) % TWO_64
  }

  /** Of the places looked at only countPa holds a count that needs that many markers. */
  ghost predicate SoleCount(m: Memory, markersPa: u64, markers: seq<nat>, countPa: u64)
    requires markers != []
  {
    forall q: nat, v: nat | WordIs(m, q, v) && LookedAt(markersPa, markers[|markers| - 1], q)
        && 0 < v <= MAX_NUM_SYMS && (v + 255) / 256 == |markers| :: q == countPa
  }

  /**
   On the kernel's layout the search accepts a pair, and if no other place it looks at
   holds a possible count, whatever pair it accepts first has the kernel's count word,
   and names that begin where the count can precede them.
   */
  lemma OwnCountFound(m: Memory, es: seq<seq<u8>>, markersPa: u64, markers: seq<nat>, padding: nat,
                      namesPa: u64, countPa: u64, p: nat, k: nat, a: Anchor)
    requires KernelLayout(m, es, markersPa, markers, padding, namesPa, countPa)
    requires SoleCount(m, markersPa, markers, countPa)
    requires Anchors(m, markersPa, markers, p, k, a)
    ensures a.numSyms == |es| && a.numSymsPa == countPa
    ensures -12 <= a.namesPa - namesPa <= 12 && (a.namesPa - namesPa) % 4 == 0
    ensures (a.namesPa + a.namesSize) % TWO_64 == markersPa - p
  {
    hide KernelLayout, LastBatch, FirstBatch, WordIs;
    CountBelow(m, es, markersPa, markers, padding, namesPa, countPa);
    AnchorSound(m, markersPa, markers, p, k, a);
    AcceptedPlace(m, markersPa, markers, p, k, a);
    SameWord(m, countPa, |es|, a.numSyms);
  }

  lemma AcceptedPlace(m: Memory, markersPa: u64, markers: seq<nat>, p: nat, k: nat, a: Anchor)
    requires markers != [] && Anchors(m, markersPa, markers, p, k, a)
    ensures LookedAt(markersPa, markers[|markers| - 1], a.numSymsPa)
    ensures a.numSymsPa + 4 <= a.namesPa <= a.numSymsPa + 16 && (a.namesPa - a.numSymsPa) % 4 == 0
  {
    hide FirstBatch, WordIs;
    assert a.namesPa == NamesStart(markersPa, markers[|markers| - 1], p, k);
  }

  lemma CountBelow(m: Memory, es: seq<seq<u8>>, markersPa: u64, markers: seq<nat>, padding: nat,
                   namesPa: u64, countPa: u64)
    requires KernelLayout(m, es, markersPa, markers, padding, namesPa, countPa)
    ensures markers != [] && WordIs(m, countPa, |es|)
    ensures countPa + 4 <= namesPa <= countPa + 16 && (namesPa - countPa) % 4 == 0
  {
    hide WordIs, Bytes, Count, NameBytes;
  }

  lemma SameWord(m: Memory, pa: nat, v: nat, w: nat)
    requires WordIs(m, pa, v) && WordIs(m, pa, w)
    ensures v == w
  {
  }
}
