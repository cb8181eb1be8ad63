/**
 The markers array of kallsyms, found by walking back from the token table
 (find_markers and find_markers_width in src/symbols/kallsyms.cpp).
 */
module KallsymsMarkers {
  import opened Words
  import opened PhysicalLayer

  const WINDOW := 16 * 1024 * 1024
  const MAX_NAMES := 64 * 1024 * 1024
  const MAX_NUM_SYMS := 2_000_000
  const MAX_MARKERS := MAX_NUM_SYMS / 256 + 2

  datatype Markers = Markers(pa: nat, width: nat, values: seq<nat>)

  /** The topmost slot that can lie before the token table. */
  function ScanTop(tableStart: nat, width: nat): nat
    requires 0 < width <= tableStart
  {
    var aligned := tableStart / width * width;
    if aligned == tableStart then aligned - width else aligned
  }

  function ReadStart(top: nat, width: nat): nat {
    if top > WINDOW then top - WINDOW + width else 0
  }

  /** How many whole slots the window holds, the topmost one included. */
  function SlotCount(top: nat, width: nat): nat
    requires width > 0
  {
    if top > WINDOW then WINDOW / width else top / width + 1
  }

  /** The window as a list of little-endian words. */
  function Slots(m: Memory, start: nat, width: nat, n: nat): (s: seq<nat>)
    ensures |s| == n
  {
    seq(n, (j: nat) => Decode(Bytes(m, start + j * width, width)))
  }

  // ---------- runs in a list of words ----------

  ghost predicate StrictlyIncreasing(s: seq<nat>) {
    forall i, j | 0 <= i < j < |s| :: s[i] < s[j]
  }

  /** What the kernel emits: a strictly increasing list from zero, of bounded length and size. */
  ghost predicate MarkerList(s: seq<nat>) {
    && 2 <= |s| <= 7814
    && s[0] == 0 && s[|s| - 1] < 0x400_0000
    && StrictlyIncreasing(s)
  }

  /** A marker list ends the slots, but for at most one zero slot of padding. */
  ghost predicate RunIn(slots: seq<nat>, lo: nat, hi: nat) {
    && lo <= hi <= |slots|
    && MarkerList(slots[lo..hi])
    && (hi == |slots| || (hi + 1 == |slots| && slots[hi] == 0))
  }

  ghost predicate NoRun(slots: seq<nat>) {
    forall a: nat, b: nat :: !RunIn(slots, a, b)
  }

  ghost predicate OneRun(slots: seq<nat>, lo: nat, hi: nat) {
    forall a: nat, b: nat :: RunIn(slots, a, b) <==> a == lo && b == hi
  }

  /** The slots lo..hi can still be the upper part of a run that starts further down. */
  ghost predicate UpperPart(slots: seq<nat>, lo: nat, hi: nat) {
    && lo < hi <= |slots|
    && (hi == |slots| || (hi + 1 == |slots| && slots[hi] == 0))
    && (forall i | lo <= i < hi :: 0 < slots[i] < MAX_NAMES)
    && (forall i, j | lo <= i < j < hi :: slots[i] < slots[j])
  }

  lemma RunAt(slots: seq<nat>, lo: nat, hi: nat)
    requires RunIn(slots, lo, hi)
    ensures lo + 2 <= hi && slots[lo] == 0 && slots[hi - 1] < MAX_NAMES
    ensures forall i, j | lo <= i < j < hi :: slots[i] < slots[j]
  {
    var s := slots[lo..hi];
    assert s[0] == slots[lo] && s[|s| - 1] == slots[hi - 1];
    forall i, j | lo <= i < j < hi ensures slots[i] < slots[j] {
      assert s[i - lo] < s[j - lo];
    }
  }

  lemma RunBelow(slots: seq<nat>, lo: nat, hi: nat, a: nat, b: nat)
    requires UpperPart(slots, lo, hi) && RunIn(slots, a, b)
    ensures b == hi && a < lo && slots[lo - 1] < slots[lo]
  {
    hide MarkerList;
    RunAt(slots, a, b);
    assert slots[b - 1] > slots[a];
    assert slots[hi - 1] > 0;
  }

  lemma NoRunInZeros(slots: seq<nat>, j: nat)
    requires j + 2 <= |slots| && slots[|slots| - 1] == 0 && slots[|slots| - 2] == 0
    ensures NoRun(slots)
  {
    hide MarkerList;
    forall a: nat, b: nat ensures !RunIn(slots, a, b) {
      if RunIn(slots, a, b) {
        RunAt(slots, a, b);
      }
    }
  }

  lemma UpperPartStops(slots: seq<nat>, lo: nat, hi: nat)
    requires UpperPart(slots, lo, hi)
    requires lo == 0 || slots[lo - 1] >= slots[lo]
    ensures NoRun(slots)
  {
    hide UpperPart, RunIn;
    forall a: nat, b: nat ensures !RunIn(slots, a, b) {
      if RunIn(slots, a, b) {
        RunBelow(slots, lo, hi, a, b);
      }
    }
  }

  lemma TopTooLarge(slots: seq<nat>, hi: nat)
    requires 0 < hi <= |slots| && (hi == |slots| || (hi + 1 == |slots| && slots[hi] == 0))
    requires slots[hi - 1] >= MAX_NAMES
    ensures NoRun(slots)
  {
    hide MarkerList;
    forall a: nat, b: nat ensures !RunIn(slots, a, b) {
      if RunIn(slots, a, b) {
        RunAt(slots, a, b);
      }
    }
  }

  lemma NothingNonzero(slots: seq<nat>)
    requires |slots| <= 1 && (|slots| == 1 ==> slots[0] == 0)
    ensures NoRun(slots)
  {
    hide MarkerList;
    forall a: nat, b: nat ensures !RunIn(slots, a, b) {
      if RunIn(slots, a, b) {
        RunAt(slots, a, b);
      }
    }
  }

  /** Once the zero below an increasing stretch is met, that stretch is the only candidate. */
  lemma ZeroFound(slots: seq<nat>, lo: nat, hi: nat)
    requires UpperPart(slots, lo, hi) && lo > 0 && slots[lo - 1] == 0
    ensures if hi - (lo - 1) <= MAX_MARKERS then OneRun(slots, lo - 1, hi) else NoRun(slots)
  {
    hide RunIn, UpperPart;
    if hi - (lo - 1) <= MAX_MARKERS {
      StretchIsRun(slots, lo, hi);
    }
    forall a: nat, b: nat ensures RunIn(slots, a, b) ==> a == lo - 1 && b == hi && hi - a <= MAX_MARKERS {
      if RunIn(slots, a, b) {
        RunIsStretch(slots, lo, hi, a, b);
      }
    }
  }

  lemma RunIsStretch(slots: seq<nat>, lo: nat, hi: nat, a: nat, b: nat)
    requires UpperPart(slots, lo, hi) && lo > 0 && slots[lo - 1] == 0 && RunIn(slots, a, b)
    ensures a == lo - 1 && b == hi && hi - a <= MAX_MARKERS
  {
    RunBelow(slots, lo, hi, a, b);
    RunAt(slots, a, b);
    assert |slots[a..b]| == b - a;
  }

  lemma StretchIsRun(slots: seq<nat>, lo: nat, hi: nat)
    requires UpperPart(slots, lo, hi) && lo > 0 && slots[lo - 1] == 0 && hi - (lo - 1) <= MAX_MARKERS
    ensures RunIn(slots, lo - 1, hi)
  {
    var s := slots[lo - 1..hi];
    forall i, j | 0 <= i < j < |s| ensures s[i] < s[j] {
      assert s[i] == slots[lo - 1 + i] && s[j] == slots[lo - 1 + j];
    }
    assert s[|s| - 1] == slots[hi - 1];
  }

  // ---------- runs in memory ----------

  /**
   The markers for a token table: the window is wholly in the dump, the list
   reads back word by word at the reported address, and it ends where the window
   does, but for one zero slot.
   */
  ghost predicate MarkerRun(m: Memory, tableStart: nat, width: nat, r: Markers)
    requires width > 0
  {
    tableStart >= width &&
    var top := ScanTop(tableStart, width);
    var start, n := ReadStart(top, width), SlotCount(top, width);
    && r.width == width
    && Count(m, start, n * width) == n * width
    && exists lo: nat, hi: nat :: RunFits(Slots(m, start, width, n), lo, hi, start, r)
  }

  ghost predicate RunFits(slots: seq<nat>, lo: nat, hi: nat, start: nat, r: Markers) {
    RunIn(slots, lo, hi) && r.pa == start + lo * r.width && r.values == slots[lo..hi]
  }

  lemma DivideExactly(x: nat, d: nat)
    requires d > 0 && x % d == 0
    ensures x / d * d == x
  {
  }

  lemma WindowGeometry(top: nat, width: nat)
    requires width == 4 || width == 8
    requires top % width == 0
    ensures ReadStart(top, width) + SlotCount(top, width) * width == top + width
  {
    if top > WINDOW {
      DivideExactly(WINDOW, width);
    } else {
      DivideExactly(top, width);
    }
  }

  /**
   The slots looked at: whole ones up to and including the last that begins below the
   table, all of them, or the topmost 16 MiB where that one begins above 16 MiB.
   */
  ghost predicate Window(tableStart: nat, width: nat, start: nat, n: nat)
    requires width > 0
  {
    var end := start + n * width;
    && end % width == 0 && end - width < tableStart <= end
    && if end - width > 0x100_0000 then n * width == 0x100_0000 else start == 0
  }

  lemma WindowIs(tableStart: nat, width: nat)
    requires width == 4 || width == 8
    requires tableStart >= width
    ensures var top := ScanTop(tableStart, width);
      Window(tableStart, width, ReadStart(top, width), SlotCount(top, width))
  {
    hide ReadStart, SlotCount;
    var top := ScanTop(tableStart, width);
    ScanTopAligned(tableStart, width);
    WindowGeometry(top, width);
    WindowLength(top, width);
  }

  lemma WindowLength(top: nat, width: nat)
    requires width == 4 || width == 8
    ensures if top > 0x100_0000 then SlotCount(top, width) * width == 0x100_0000 else ReadStart(top, width) == 0
  {
  }

  lemma ScanTopAligned(tableStart: nat, width: nat)
    requires width == 4 || width == 8
    requires tableStart >= width
    ensures var top := ScanTop(tableStart, width);
      top % width == 0 && top < tableStart <= top + width
  {
  }

  lemma SlotOfBuffer(m: Memory, start: nat, width: nat, n: nat, j: nat)
    requires j < n && j * width + width <= n * width
    ensures Decode(Bytes(m, start, n * width)[j * width..j * width + width]) == Slots(m, start, width, n)[j]
  {
    hide Decode;
    var buf := Bytes(m, start, n * width);
    assert buf[j * width..j * width + width] == Bytes(m, start + j * width, width);
  }

  lemma SlotInside(n: nat, j: nat, width: nat)
    requires j < n
    ensures j * width + width <= n * width
  {
    assert (j + 1) * width <= n * width;
  }

  /** The buffer's words, lowest first. */
  ghost predicate WordsOf(buf: seq<u8>, width: nat, slots: seq<nat>) {
    && |slots| * width == |buf|
    && forall j | 0 <= j < |slots| ::
      0 <= j * width && j * width + width <= |buf| && slots[j] == Decode(buf[j * width..j * width + width])
  }

  ghost predicate Mirrors(rev: seq<nat>, slots: seq<nat>, hi: nat) {
    |rev| <= hi <= |slots| && forall k | 0 <= k < |rev| :: rev[k] == slots[hi - 1 - k]
  }

  function Backwards(rev: seq<nat>): (values: seq<nat>)
    ensures |values| == |rev| && forall k | 0 <= k < |rev| :: values[k] == rev[|rev| - 1 - k]
  {
    seq(|rev|, (k: nat) requires k < |rev| => rev[|rev| - 1 - k])
  }

  /** The scan has come down to slot j over zeros of padding and an increasing stretch. */
  ghost predicate Walked(slots: seq<nat>, j: nat, rev: seq<nat>, zeros: nat) {
    && j + |rev| + zeros == |slots| && zeros <= 1 && (zeros == 1 ==> slots[|slots| - 1] == 0)
    && (rev != [] ==>
         && Mirrors(rev, slots, |slots| - zeros) && rev[|rev| - 1] != 0
         && UpperPart(slots, j, |slots| - zeros))
  }

  /** The scan has met the zero below the stretch, at slot j. */
  ghost predicate Bottomed(slots: seq<nat>, j: nat, rev: seq<nat>, zeros: nat) {
    && j + |rev| + zeros == |slots| && rev != [] && rev[|rev| - 1] == 0
    && Mirrors(rev, slots, |slots| - zeros) && slots[j] == 0 && UpperPart(slots, j + 1, |slots| - zeros)
  }

  lemma StartsWalked(slots: seq<nat>)
    ensures Walked(slots, |slots|, [], 0)
  {
  }

  lemma PastZero(slots: seq<nat>, j: nat, zeros: nat)
    requires Walked(slots, j + 1, [], zeros) && slots[j] == 0
    ensures if zeros == 0 then Walked(slots, j, [], 1) else NoRun(slots)
  {
    hide NoRun;
    if zeros > 0 { NoRunInZeros(slots, j); }
  }

  lemma AtTop(slots: seq<nat>, j: nat, zeros: nat)
    requires Walked(slots, j + 1, [], zeros) && slots[j] != 0
    ensures if slots[j] >= MAX_NAMES then NoRun(slots) else Walked(slots, j, [slots[j]], zeros)
  {
    hide NoRun, UpperPart;
    if slots[j] >= MAX_NAMES { TopTooLarge(slots, j + 1); } else { FirstOfUpperPart(slots, j); }
  }

  lemma FurtherDown(slots: seq<nat>, j: nat, rev: seq<nat>, zeros: nat)
    requires Walked(slots, j + 1, rev, zeros) && rev != []
    ensures if slots[j] == 0 then Bottomed(slots, j, rev + [0], zeros)
      else if slots[j] >= MAX_NAMES || slots[j] >= rev[|rev| - 1] then NoRun(slots)
      else Walked(slots, j, rev + [slots[j]], zeros)
  {
    hide NoRun, UpperPart;
    var hi := |slots| - zeros;
    assert rev[|rev| - 1] == slots[j + 1];
    if slots[j] != 0 {
      if slots[j] >= MAX_NAMES || slots[j] >= slots[j + 1] {
        TooLargeStops(slots, j + 1, hi);
      } else {
        ExtendUpperPart(slots, j, hi);
      }
    }
  }

  /** What the scan knows when its loop is over. */
  lemma ScanOver(slots: seq<nat>, j: nat, rev: seq<nat>, zeros: nat)
    requires (j == 0 && Walked(slots, j, rev, zeros)) || Bottomed(slots, j, rev, zeros)
    ensures rev == [] || rev[|rev| - 1] != 0 ==> NoRun(slots)
    ensures rev != [] && rev[|rev| - 1] == 0 ==>
      && |rev| >= 2 && j + |rev| + zeros == |slots| && Backwards(rev) == slots[j..j + |rev|]
      && if |rev| <= MAX_MARKERS then OneRun(slots, j, j + |rev|) else NoRun(slots)
  {
    hide NoRun, OneRun, UpperPart;
    if rev != [] && rev[|rev| - 1] == 0 {
      ZeroFound(slots, j + 1, j + |rev|);
      AtLeastTwo(slots, j + 1, j + |rev|);
    } else if rev == [] {
      NothingNonzero(slots);
    } else {
      UpperPartStops(slots, 0, |slots| - zeros);
    }
  }

  /** The backward scan: the values of the only run in the buffer, the slot it starts at, and the padding above it. */
  method WalkBack(buf: seq<u8>, width: nat, ghost slots: seq<nat>)
    returns (found: bool, values: seq<nat>, lo: nat, zeroPadding: nat)
    requires width > 0 && WordsOf(buf, width, slots)
    ensures !found ==> NoRun(slots)
    ensures found ==> lo + |values| + zeroPadding == |slots| && values == slots[lo..lo + |values|]
    ensures found ==> OneRun(slots, lo, lo + |values|)
  {
    hide Decode, NoRun, OneRun, WordsOf, Walked, Bottomed, Backwards;
    var j := |buf| / width;
    WordsCount(buf, width, slots);
    var rev: seq<nat>, seenNonzero := [], false;
    found, values, lo, zeroPadding := false, [], 0, 0;
    StartsWalked(slots);
    while j > 0
      invariant 0 <= j <= |slots| && 0 <= zeroPadding <= 1 && (seenNonzero <==> rev != [])
      invariant Walked(slots, j, rev, zeroPadding)
      decreases j
    {
      j := j - 1;
      WordHere(buf, width, slots, j);
      var v := Decode(buf[j * width..j * width + width]);
      if !seenNonzero {
        if v == 0 {
          PastZero(slots, j, zeroPadding);
          zeroPadding := zeroPadding + 1;
          if zeroPadding > 1 { return; }
          continue;
        }
        AtTop(slots, j, zeroPadding);
        if v >= MAX_NAMES { return; }
        seenNonzero := true;
        rev := [v];
        continue;
      }
      FurtherDown(slots, j, rev, zeroPadding);
      if v == 0 {
        rev := rev + [0];
        break;
      }
      if v >= MAX_NAMES || v >= rev[|rev| - 1] { return; }
      rev := rev + [v];
    }
    ScanOver(slots, j, rev, zeroPadding);
    if rev == [] || rev[|rev| - 1] != 0 { return; }
    if |rev| < 2 || |rev| > MAX_NUM_SYMS / 256 + 2 { return; }
    found, lo := true, j;
    values := Backwards(rev);
  }

  lemma WordsCount(buf: seq<u8>, width: nat, slots: seq<nat>)
    requires width > 0 && WordsOf(buf, width, slots)
    ensures |buf| / width == |slots|
  {
    DivideProduct(|slots|, width);
  }

  lemma WordHere(buf: seq<u8>, width: nat, slots: seq<nat>, j: nat)
    requires WordsOf(buf, width, slots) && j < |slots|
    ensures 0 <= j * width && j * width + width <= |buf| && slots[j] == Decode(buf[j * width..j * width + width])
  {
  }

  lemma DivideProduct(n: nat, width: nat)
    requires width > 0
    ensures n * width / width == n
  {
    var q, x := n * width / width, n * width;
    assert x == q * width + x % width;
    assert q > n ==> q * width >= (n + 1) * width;
    assert q < n ==> (q + 1) * width <= n * width;
  }

  lemma BufferWords(m: Memory, start: nat, width: nat, n: nat)
    ensures WordsOf(Bytes(m, start, n * width), width, Slots(m, start, width, n))
  {
    hide Decode, Slots, Bytes;
    forall j | 0 <= j < n
      ensures 0 <= j * width && j * width + width <= n * width
      ensures Slots(m, start, width, n)[j] == Decode(Bytes(m, start, n * width)[j * width..j * width + width])
    {
      SlotInside(n, j, width);
      SlotOfBuffer(m, start, width, n, j);
    }
  }

  method FindMarkersWidth(m: Memory, tableStart: nat, width: nat) returns (r: Option<Markers>)
    requires width == 4 || width == 8
    ensures r.Some? ==> MarkerRun(m, tableStart, width, r.value)
    ensures forall q | MarkerRun(m, tableStart, width, q) :: r == Some(q)
  {
    hide Slots, Decode, NoRun, OneRun, Bytes, Count, WordsOf, MarkerRun, ScanTop, ReadStart, SlotCount;
    if tableStart < width { NeedsWindow(m, tableStart, width); return None; }
    var top := ScanTop(tableStart, width);
    var start := ReadStart(top, width);
    var span := top + width - start;
    ScanTopAligned(tableStart, width);
    WindowGeometry(top, width);
    ghost var n := SlotCount(top, width);
    if Count(m, start, span) != span { NeedsWindow(m, tableStart, width); return None; }
    var buf := Bytes(m, start, span);
    BufferWords(m, start, width, n);
    var found, values, lo, zeroPadding := WalkBack(buf, width, Slots(m, start, width, n));
    if !found {
      NoRunNoMarkers(m, tableStart, width);
      return None;
    }
    var markersEnd := top + width - width * zeroPadding;
    MarkersPa(start, n, width, zeroPadding, lo, |values|);
    r := Some(Markers(markersEnd - width * |values|, width, values));
    OnlyRun(m, tableStart, width, lo, lo + |values|, r.value);
  }

  lemma AtLeastTwo(slots: seq<nat>, lo: nat, hi: nat)
    requires UpperPart(slots, lo, hi)
    ensures lo < hi
  {
  }

  lemma FirstOfUpperPart(slots: seq<nat>, j: nat)
    requires j < |slots| && 0 < slots[j] < MAX_NAMES
    requires j + 1 == |slots| || (j + 2 == |slots| && slots[j + 1] == 0)
    ensures UpperPart(slots, j, j + 1)
  {
  }

  lemma ExtendUpperPart(slots: seq<nat>, j: nat, hi: nat)
    requires UpperPart(slots, j + 1, hi) && 0 < slots[j] < slots[j + 1]
    ensures UpperPart(slots, j, hi)
  {
    assert slots[j + 1] < MAX_NAMES;
    forall a: nat, b: nat | j <= a < b < hi ensures slots[a] < slots[b] {
      assert slots[j + 1] <= slots[b];
    }
  }

  lemma TooLargeStops(slots: seq<nat>, lo: nat, hi: nat)
    requires UpperPart(slots, lo, hi) && lo > 0 && (slots[lo - 1] >= MAX_NAMES || slots[lo - 1] >= slots[lo])
    ensures NoRun(slots)
  {
    assert slots[lo] < MAX_NAMES;
    UpperPartStops(slots, lo, hi);
  }

  lemma MarkersPa(start: nat, n: nat, width: nat, padding: nat, j: nat, len: nat)
    requires j + len + padding == n
    ensures start + n * width - width * padding - width * len == start + j * width
  {
    assert n * width == j * width + len * width + padding * width;
  }

  lemma NoRunNoMarkers(m: Memory, tableStart: nat, width: nat)
    requires width > 0 && tableStart >= width
    requires var top := ScanTop(tableStart, width);
      NoRun(Slots(m, ReadStart(top, width), width, SlotCount(top, width)))
    ensures forall q :: !MarkerRun(m, tableStart, width, q)
  {
    hide RunIn;
  }

  lemma NeedsWindow(m: Memory, tableStart: nat, width: nat)
    requires width > 0
    requires tableStart >= width ==>
      var top := ScanTop(tableStart, width);
      var n := SlotCount(top, width) * width;
      Count(m, ReadStart(top, width), n) != n
    ensures forall q :: !MarkerRun(m, tableStart, width, q)
  {
  }

  lemma OnlyRun(m: Memory, tableStart: nat, width: nat, lo: nat, hi: nat, r: Markers)
    requires width > 0 && tableStart >= width && r.width == width
    requires var top := ScanTop(tableStart, width);
      var slots := Slots(m, ReadStart(top, width), width, SlotCount(top, width));
      && OneRun(slots, lo, hi) && lo <= hi <= |slots| && r.values == slots[lo..hi]
      && r.pa == ReadStart(top, width) + lo * width
    requires var top := ScanTop(tableStart, width);
      var n := SlotCount(top, width) * width; Count(m, ReadStart(top, width), n) == n
    ensures MarkerRun(m, tableStart, width, r)
    ensures forall q | MarkerRun(m, tableStart, width, q) :: q == r
  {
    hide RunIn, Slots, ReadStart, SlotCount, ScanTop, Count;
    var top := ScanTop(tableStart, width);
    var start := ReadStart(top, width);
    var slots := Slots(m, start, width, SlotCount(top, width));
    assert RunFits(slots, lo, hi, start, r);
  }

  /** Four-byte markers first, then the older eight-byte layout. */
  method FindMarkers(m: Memory, tableStart: nat) returns (r: Option<Markers>)
    ensures r.None? <==> forall w, q | w in {4, 8} :: !MarkerRun(m, tableStart, w, q)
    ensures r.Some? ==> r.value.width in {4, 8} && MarkerRun(m, tableStart, r.value.width, r.value)
    ensures r.Some? && r.value.width == 8 ==> forall q :: !MarkerRun(m, tableStart, 4, q)
  {
    hide MarkerRun;
    r := FindMarkersWidth(m, tableStart, 4);
    if r.Some? {
      WidthOf(m, tableStart, 4, r.value);
      return;
    }
    r := FindMarkersWidth(m, tableStart, 8);
    if r.Some? {
      WidthOf(m, tableStart, 8, r.value);
    }
  }

  lemma WidthOf(m: Memory, tableStart: nat, width: nat, r: Markers)
    requires width > 0 && MarkerRun(m, tableStart, width, r)
    ensures r.width == width
  {
  }

  // ---------- what a run means ----------

  /** Each marker is the word stored at its place, and the array ends below the token table. */
  lemma MarkersReadBack(m: Memory, tableStart: nat, width: nat, r: Markers)
    requires width == 4 || width == 8
    requires MarkerRun(m, tableStart, width, r)
    ensures MarkerList(r.values)
    ensures forall i | 0 <= i < |r.values| :: r.values[i] == Decode(Bytes(m, r.pa + i * width, width))
    ensures tableStart <= r.pa + (|r.values| + 1) * width < tableStart + 2 * width
         || tableStart <= r.pa + |r.values| * width < tableStart + width
    ensures Count(m, r.pa, |r.values| * width) == |r.values| * width
  {
    hide Decode, Slots, MarkerList, RunIn, ScanTop, ReadStart, SlotCount, Count, Bytes;
    var top := ScanTop(tableStart, width);
    var start, n := ReadStart(top, width), SlotCount(top, width);
    ScanTopAligned(tableStart, width);
    WindowGeometry(top, width);
    var slots := Slots(m, start, width, n);
    var lo: nat, hi: nat :| RunFits(slots, lo, hi, start, r);
    RunEnds(slots, lo, hi);
    RunWords(m, start, width, n, lo, hi);
    RunSpan(tableStart, top, start, n, lo, hi, width);
    CountWithin(m, start, n * width, r.pa, |r.values| * width);
  }

  lemma RunWords(m: Memory, start: nat, width: nat, n: nat, lo: nat, hi: nat)
    requires lo <= hi <= n && |Slots(m, start, width, n)| == n
    ensures forall i | 0 <= i < hi - lo ::
      Slots(m, start, width, n)[lo..hi][i] == Decode(Bytes(m, start + lo * width + i * width, width))
  {
    hide Decode, Slots, Bytes;
    forall i | 0 <= i < hi - lo
      ensures Slots(m, start, width, n)[lo + i] == Decode(Bytes(m, start + lo * width + i * width, width))
    {
      SlotWord(m, start, width, n, lo + i);
      assert (lo + i) * width == lo * width + i * width;
    }
  }

  /** A run that ends the window, or one slot before it, ends just below the table. */
  lemma RunSpan(tableStart: nat, top: nat, start: nat, n: nat, lo: nat, hi: nat, width: nat)
    requires lo <= hi <= n <= hi + 1 && start + n * width == top + width && top < tableStart <= top + width
    ensures var pa, len := start + lo * width, hi - lo;
      && pa + len * width <= start + n * width
      && (tableStart <= pa + (len + 1) * width < tableStart + 2 * width
          || tableStart <= pa + len * width < tableStart + width)
  {
    RunPlace(n, lo, hi, width);
    assert (hi - lo + 1) * width == (hi - lo) * width + width;
  }

  lemma RunPlace(n: nat, lo: nat, hi: nat, width: nat)
    requires lo <= hi <= n <= hi + 1
    ensures lo * width + (hi - lo) * width <= n * width
    ensures n * width == lo * width + (hi - lo) * width || n * width == lo * width + (hi - lo + 1) * width
  {
    assert lo * width + (hi - lo) * width == hi * width;
    assert hi == n || lo * width + (hi - lo + 1) * width == n * width;
  }

  lemma CountWithin(m: Memory, pa: nat, n: nat, pa': nat, n': nat)
    requires Count(m, pa, n) == n && pa <= pa' && pa' + n' <= pa + n
    ensures Count(m, pa', n') == n'
  {
    CountFull(m, pa, n);
    CountFull(m, pa', n');
  }

  lemma RunEnds(slots: seq<nat>, lo: nat, hi: nat)
    requires RunIn(slots, lo, hi)
    ensures lo <= hi <= |slots| <= hi + 1 && MarkerList(slots[lo..hi])
  {
  }

  lemma SlotWord(m: Memory, start: nat, width: nat, n: nat, j: nat)
    requires j < n
    ensures Slots(m, start, width, n)[j] == Decode(Bytes(m, start + j * width, width))
  {
  }
}
