/**
 The length-prefixed, token-compressed name list of kallsyms
 (walk_block and decode_names in src/symbols/kallsyms.cpp).
 */
module KallsymsNames {
  import opened Words
  import opened PhysicalLayer

  // ---------- reading entries ----------

  /** Where one entry's token bytes start and end. */
  datatype Span = Span(first: nat, end: nat)

  function SpanOf(buf: seq<u8>, first: nat, len: nat): (e: Option<Span>)
    ensures e.Some? ==> e.value.first == first < e.value.end == first + len <= |buf|
  {
    if len == 0 || first + len > |buf| then None else Some(Span(first, first + len))
  }

  /** The two-byte length: seven low bits, then the high ones. */
  function LongLength(b0: nat, b1: nat): nat {
    b0 % 0x80 + 0x80 * b1
  }

  /** The entry whose prefix starts at cur: one length byte, or two when the top bit is set. */
  function EntryAt(buf: seq<u8>, cur: nat): (e: Option<Span>)
    requires cur < |buf|
    ensures e.Some? ==> cur < e.value.first < e.value.end <= |buf|
  {
    if buf[cur] < 0x80 then SpanOf(buf, cur + 1, buf[cur])
    else if cur + 1 >= |buf| then None
    else SpanOf(buf, cur + 2, LongLength(buf[cur], buf[cur + 1]))
  }

  /** The token strings read, where reading stopped, and whether it stopped at something malformed. */
  datatype Walk = Walk(entries: seq<seq<u8>>, stop: nat, stuck: bool)

  function WalkEntries(buf: seq<u8>, cur: nat, max: nat): (w: Walk)
    requires cur <= |buf|
    ensures cur <= w.stop <= |buf| && |w.entries| <= max
    decreases max
  {
    if cur == |buf| || max == 0 then Walk([], cur, false)
    else
      match EntryAt(buf, cur)
      case None => Walk([], cur, true)
      case Some(e) =>
        var w := WalkEntries(buf, e.end, max - 1);
        Walk([buf[e.first..e.end]] + w.entries, w.stop, w.stuck)
  }

  /** The buffer is exactly n well-formed entries. */
  ghost predicate Exactly(buf: seq<u8>, n: nat) {
    var w := WalkEntries(buf, 0, n);
    !w.stuck && w.stop == |buf| && |w.entries| == n
  }

  function Prepend(es: seq<seq<u8>>, w: Walk): Walk {
    Walk(es + w.entries, w.stop, w.stuck)
  }

  lemma WalkTurn(buf: seq<u8>, cur: nat, max: nat)
    requires cur < |buf| && max > 0
    ensures WalkEntries(buf, cur, max)
         == match EntryAt(buf, cur)
            case None => Walk([], cur, true)
            case Some(e) => Prepend([buf[e.first..e.end]], WalkEntries(buf, e.end, max - 1))
  {
    hide EntryAt;
  }

  lemma WalkOver(buf: seq<u8>, cur: nat, max: nat)
    requires cur == |buf| || (cur < |buf| && max == 0)
    ensures WalkEntries(buf, cur, max) == Walk([], cur, false)
  {
  }

  lemma NothingToWalk(buf: seq<u8>, cur: nat)
    requires cur <= |buf|
    ensures WalkEntries(buf, cur, 0) == Walk([], cur, false)
  {
  }

  /** A walk that has read all it was asked for can be continued. */
  lemma {:induction false} WalkContinues(buf: seq<u8>, cur: nat, a: nat, b: nat)
    requires cur <= |buf|
    requires !WalkEntries(buf, cur, a).stuck && |WalkEntries(buf, cur, a).entries| == a
    ensures var w := WalkEntries(buf, cur, a);
      WalkEntries(buf, cur, a + b) == Prepend(w.entries, WalkEntries(buf, w.stop, b))
    decreases a
  {
    hide EntryAt, WalkEntries;
    if a == 0 {
      NothingToWalk(buf, cur);
    } else {
      if cur == |buf| { WalkOver(buf, cur, a); }
      WalkTurn(buf, cur, a);
      WalkTurn(buf, cur, a + b);
      var e := EntryAt(buf, cur).value;
      WalkContinues(buf, e.end, a - 1, b);
      assert a - 1 + b == a + b - 1;
    }
  }

  lemma EntryInside(buf: seq<u8>, lo: nat, hi: nat, cur: nat)
    requires lo <= hi <= |buf| && cur < hi - lo && EntryAt(buf[lo..hi], cur).Some?
    ensures var e := EntryAt(buf[lo..hi], cur).value;
      && EntryAt(buf, lo + cur) == Some(Span(lo + e.first, lo + e.end))
      && buf[lo..hi][e.first..e.end] == buf[lo + e.first..lo + e.end]
  {
    var e := EntryAt(buf[lo..hi], cur).value;
    assert buf[lo..hi][cur] == buf[lo + cur];
    assert cur + 1 < hi - lo ==> buf[lo..hi][cur + 1] == buf[lo + cur + 1];
    SliceOfSlice(buf, lo, hi, e.first, e.end);
  }

  /** A walk that succeeds on a part of a buffer succeeds in place, byte for byte the same. */
  lemma {:induction false} WalkInside(buf: seq<u8>, lo: nat, hi: nat, cur: nat, max: nat)
    requires lo <= hi <= |buf| && cur <= hi - lo && !WalkEntries(buf[lo..hi], cur, max).stuck
    ensures var w := WalkEntries(buf[lo..hi], cur, max);
      WalkEntries(buf, lo + cur, |w.entries|) == Walk(w.entries, lo + w.stop, false)
    decreases max
  {
    hide EntryAt, WalkEntries;
    var w := WalkEntries(buf[lo..hi], cur, max);
    if cur < hi - lo && max > 0 {
      WalkTurn(buf[lo..hi], cur, max);
      EntryInside(buf, lo, hi, cur);
      var e := EntryAt(buf[lo..hi], cur).value;
      WalkInside(buf, lo, hi, e.end, max - 1);
      var v := WalkEntries(buf[lo..hi], e.end, max - 1);
      assert |w.entries| - 1 == |v.entries|;
      WalkTurn(buf, lo + cur, |w.entries|);
    } else {
      WalkOver(buf[lo..hi], cur, max);
      NothingToWalk(buf, lo + cur);
    }
  }

  // ---------- writing entries ----------

  /** Token strings an entry can hold: not empty, and a length of at most fifteen bits. */
  predicate Encodable(e: seq<u8>) {
    0 < |e| < 0x8000
  }

  ghost predicate AllEncodable(es: seq<seq<u8>>) {
    forall e | e in es :: Encodable(e)
  }

  function LengthPrefix(n: nat): seq<u8>
    requires n < 0x8000
  {
    if n < 0x80 then [n] else [0x80 + n % 0x80, n / 0x80]
  }

  function EntryBytes(e: seq<u8>): seq<u8>
    requires Encodable(e)
  {
    LengthPrefix(|e|) + e
  }

  function NameBytes(es: seq<seq<u8>>): seq<u8>
    requires AllEncodable(es)
  {
    if es == [] then [] else EntryBytes(es[0]) + NameBytes(es[1..])
  }

  lemma EntryReadsBack(buf: seq<u8>, cur: nat, e: seq<u8>)
    requires Encodable(e) && cur + |EntryBytes(e)| <= |buf| && buf[cur..cur + |EntryBytes(e)|] == EntryBytes(e)
    ensures EntryAt(buf, cur) == Some(Span(cur + |LengthPrefix(|e|)|, cur + |EntryBytes(e)|))
    ensures buf[cur + |LengthPrefix(|e|)|..cur + |EntryBytes(e)|] == e
  {
    var p := |LengthPrefix(|e|)|;
    var s := buf[cur..cur + |EntryBytes(e)|];
    assert s[0] == buf[cur] && s[0] == LengthPrefix(|e|)[0];
    if p == 2 {
      assert s[1] == buf[cur + 1] && s[1] == LengthPrefix(|e|)[1];
    }
    assert s[p..] == e;
    SliceOfSlice(buf, cur, cur + |EntryBytes(e)|, p, |EntryBytes(e)|);
  }

  /** Reading what was written gives back exactly the entries and uses exactly the bytes. */
  lemma {:induction false} WalkInvertsEncoding(buf: seq<u8>, cur: nat, es: seq<seq<u8>>)
    requires AllEncodable(es) && cur + |NameBytes(es)| <= |buf|
    requires buf[cur..cur + |NameBytes(es)|] == NameBytes(es)
    ensures WalkEntries(buf, cur, |es|) == Walk(es, cur + |NameBytes(es)|, false)
    decreases |es|
  {
    hide EntryAt, EntryBytes, LengthPrefix, Encodable, WalkEntries;
    NothingToWalk(buf, cur);
    if es != [] {
      var head, rest := EntryBytes(es[0]), NameBytes(es[1..]);
      var end := cur + |NameBytes(es)|;
      assert es[0] in es;
      SliceOfSlice(buf, cur, end, 0, |head|);
      SliceOfSlice(buf, cur, end, |head|, |NameBytes(es)|);
      assert NameBytes(es)[..|head|] == head && NameBytes(es)[|head|..|NameBytes(es)|] == rest;
      EntryNotEmpty(es[0]);
      EntryReadsBack(buf, cur, es[0]);
      WalkInvertsEncoding(buf, cur + |head|, es[1..]);
      WalkTurn(buf, cur, |es|);
      assert es == [es[0]] + es[1..];
    }
  }

  lemma EntryNotEmpty(e: seq<u8>)
    requires Encodable(e)
    ensures |EntryBytes(e)| >= 2
  {
  }

  lemma {:induction false} NameBytesConcat(a: seq<seq<u8>>, b: seq<seq<u8>>)
    requires AllEncodable(a) && AllEncodable(b)
    ensures AllEncodable(a + b) && NameBytes(a + b) == NameBytes(a) + NameBytes(b)
  {
    hide EntryBytes, Encodable;
    if a == [] {
      assert a + b == b;
    } else {
      NameBytesConcat(a[1..], b);
      assert (a + b)[1..] == a[1..] + b;
    }
  }

  // ---------- walk_block ----------

  /** Counts the entries of a block, up to a maximum; fails on a malformed one. */
  method WalkBlock(buf: seq<u8>, maxEntries: nat) returns (ok: bool, cur: nat, cnt: nat)
    ensures var w := WalkEntries(buf, 0, maxEntries);
      ok == !w.stuck && (ok ==> cur == w.stop && cnt == |w.entries|)
  {
    hide WalkEntries, EntryAt;
    ok, cur, cnt := true, 0, 0;
    ghost var whole := WalkEntries(buf, 0, maxEntries);
    ghost var done: seq<seq<u8>> := [];
    assert whole == Prepend([], whole);
    while cur < |buf| && cnt < maxEntries
      invariant cur <= |buf| && cnt <= maxEntries && |done| == cnt
      invariant whole == Prepend(done, WalkEntries(buf, cur, maxEntries - cnt))
      decreases maxEntries - cnt
    {
      ghost var start := cur;
      var hdr: nat, len: nat := 1, buf[cur];
      if buf[cur] >= 0x80 {
        if cur + 1 >= |buf| { WalkStep(buf, cur, maxEntries - cnt, done, 0, 0); return false, 0, 0; }
        hdr, len := 2, LongLength(buf[cur], buf[cur + 1]);
      }
      WalkStep(buf, cur, maxEntries - cnt, done, hdr, len);
      if len == 0 || cur + hdr + len > |buf| { return false, 0, 0; }
      done := done + [buf[cur + hdr..cur + hdr + len]];
      cur := cur + hdr + len;
      cnt := cnt + 1;
    }
    WalkEnds(buf, cur, maxEntries - cnt);
  }

  lemma WalkEnds(buf: seq<u8>, cur: nat, max: nat)
    requires cur <= |buf| && (cur == |buf| || max == 0)
    ensures WalkEntries(buf, cur, max) == Walk([], cur, false)
  {
  }

  /** One unfolding of the walk, phrased by the header the loops read. */
  lemma WalkStep(buf: seq<u8>, cur: nat, max: nat, done: seq<seq<u8>>, hdr: nat, len: nat)
    requires cur < |buf| && max > 0
    requires buf[cur] < 0x80 ==> hdr == 1 && len == buf[cur]
    requires buf[cur] >= 0x80 && cur + 1 < |buf| ==> hdr == 2 && len == LongLength(buf[cur], buf[cur + 1])
    ensures (buf[cur] >= 0x80 && cur + 1 >= |buf|) || len == 0 || cur + hdr + len > |buf| ==>
      WalkEntries(buf, cur, max) == Walk([], cur, true)
    ensures (buf[cur] < 0x80 || cur + 1 < |buf|) && len > 0 && cur + hdr + len <= |buf| ==>
      Prepend(done, WalkEntries(buf, cur, max))
        == Prepend(done + [buf[cur + hdr..cur + hdr + len]], WalkEntries(buf, cur + hdr + len, max - 1))
  {
    hide WalkEntries;
    WalkTurn(buf, cur, max);
    if (buf[cur] < 0x80 || cur + 1 < |buf|) && len > 0 && cur + hdr + len <= |buf| {
      PrependTwice(done, buf[cur + hdr..cur + hdr + len], WalkEntries(buf, cur + hdr + len, max - 1));
    }
  }

  lemma PrependTwice(done: seq<seq<u8>>, e: seq<u8>, w: Walk)
    ensures Prepend(done, Prepend([e], w)) == Prepend(done + [e], w)
  {
    assert done + ([e] + w.entries) == done + [e] + w.entries;
  }

  // ---------- decode_names ----------

  datatype Symbol = Symbol(kind: char, name: string, address: u64)

  /** The tokens of an entry, written out. */
  function Expand(e: seq<u8>, tokens: seq<string>): string
    requires |tokens| == 256
  {
    if e == [] then "" else Expand(e[..|e| - 1], tokens) + tokens[e[|e| - 1]]
  }

  /** Offsets are relative to the base, or, when negative, absolute in disguise; both wrap at 64 bits. */
  function AddressOf(base: u64, offset: int): u64 {
    (if offset >= 0 then base + offset % TWO_32 else base + (-1 - offset) % TWO_64) % TWO_64
  }

  function SymbolOf(e: seq<u8>, tokens: seq<string>, offset: int, base: u64): Symbol
    requires |tokens| == 256
  {
    var s := Expand(e, tokens);
    Symbol(if s == "" then '?' else s[0], if s == "" then "" else s[1..], AddressOf(base, offset))
  }

  function Symbols(es: seq<seq<u8>>, tokens: seq<string>, offsets: seq<int>, base: u64): (s: seq<Symbol>)
    requires |tokens| == 256 && |es| <= |offsets|
    ensures |s| == |es| && forall i | 0 <= i < |es| :: s[i] == SymbolOf(es[i], tokens, offsets[i], base)
  {
    seq(|es|, (i: nat) requires i < |es| => SymbolOf(es[i], tokens, offsets[i], base))
  }

  // ---------- what a symbol says ----------

  /** The entry's tokens one after another, first byte first. */
  function Text(e: seq<u8>, tokens: seq<string>): string
    requires |tokens| == 256
  {
    if e == [] then "" else tokens[e[0]] + Text(e[1..], tokens)
  }

  /**
   Kind and name spell the entry's tokens, and the address counts up from the base or,
   by a negative offset, from -1 down.
   */
  ghost predicate Says(s: Symbol, e: seq<u8>, tokens: seq<string>, offset: int, base: u64)
    requires |tokens| == 256
  {
    && (if Text(e, tokens) == "" then s.kind == '?' && s.name == "" else [s.kind] + s.name == Text(e, tokens))
    && (0 <= offset < TWO_32 ==> s.address == (base + offset) % TWO_64)
    && (-TWO_32 <= offset < 0 ==> (s.address + 1 + offset) % TWO_64 == base)
  }

  lemma {:induction false} ExpandIsText(e: seq<u8>, tokens: seq<string>)
    requires |tokens| == 256
    ensures Expand(e, tokens) == Text(e, tokens)
  {
    if e != [] {
      TextLast(e, tokens);
      ExpandIsText(e[..|e| - 1], tokens);
    }
  }

  lemma {:induction false} TextLast(e: seq<u8>, tokens: seq<string>)
    requires |tokens| == 256 && e != []
    ensures Text(e, tokens) == Text(e[..|e| - 1], tokens) + tokens[e[|e| - 1]]
  {
    hide Text;
    TextFirst(e, tokens);
    if |e| > 1 {
      TextLast(e[1..], tokens);
      TextFirst(e[..|e| - 1], tokens);
      assert e[1..][..|e| - 2] == e[..|e| - 1][1..];
    } else {
      assert e[1..] == [] && e[..0] == [];
      NoText(tokens);
    }
  }

  lemma TextFirst(e: seq<u8>, tokens: seq<string>)
    requires |tokens| == 256 && e != []
    ensures Text(e, tokens) == tokens[e[0]] + Text(e[1..], tokens)
  {
  }

  lemma NoText(tokens: seq<string>)
    requires |tokens| == 256
    ensures Text([], tokens) == ""
  {
  }

  lemma SymbolSays(e: seq<u8>, tokens: seq<string>, offset: int, base: u64)
    requires |tokens| == 256
    ensures Says(SymbolOf(e, tokens, offset, base), e, tokens, offset, base)
  {
    hide Expand, Text;
    ExpandIsText(e, tokens);
    AddressIs(base, offset);
  }

  lemma AddressIs(base: u64, offset: int)
    ensures 0 <= offset < TWO_32 ==> AddressOf(base, offset) == (base + offset) % TWO_64
    ensures -TWO_32 <= offset < 0 ==> (AddressOf(base, offset) + 1 + offset) % TWO_64 == base
  {
  }

  method DecodeNames(m: Memory, namesPa: nat, namesSize: nat, numSyms: nat, tokens: seq<string>,
                     offsets: seq<int>, base: u64) returns (out: seq<Symbol>)
    requires |tokens| == 256 && |offsets| == numSyms
    ensures out == Symbols(WalkEntries(Bytes(m, namesPa, namesSize), 0, numSyms).entries, tokens, offsets, base)
    ensures var es := WalkEntries(Bytes(m, namesPa, namesSize), 0, numSyms).entries;
      |out| == |es| && forall i | 0 <= i < |out| :: Says(out[i], es[i], tokens, offsets[i], base)
  {
    hide WalkEntries, EntryAt, SymbolOf, Says;
    var buf := Bytes(m, namesPa, namesSize);
    out := [];
    var cur: nat := 0;
    ghost var whole := WalkEntries(buf, 0, numSyms);
    ghost var done: seq<seq<u8>> := [];
    assert whole == Prepend([], whole);
    var i := 0;
    while i < numSyms
      invariant i == |done| <= numSyms && cur <= |buf|
      invariant out == Symbols(done, tokens, offsets, base)
      invariant whole == Prepend(done, WalkEntries(buf, cur, numSyms - i))
    {
      if cur >= |buf| { WalkEnds(buf, cur, numSyms - i); break; }
      var hdr: nat, len: nat := 1, buf[cur];
      if buf[cur] >= 0x80 {
        if cur + 1 >= |buf| { WalkStep(buf, cur, numSyms - i, done, 0, 0); break; }
        hdr, len := 2, LongLength(buf[cur], buf[cur + 1]);
      }
      WalkStep(buf, cur, numSyms - i, done, hdr, len);
      if len == 0 || cur + hdr + len > |buf| { break; }
      var entry := buf[cur + hdr..cur + hdr + len];
      var s := DecodeOne(entry, tokens, offsets[i], base);
      done := done + [entry];
      out := out + [s];
      cur := cur + hdr + len;
      i := i + 1;
    }
    if i == numSyms { WalkEnds(buf, cur, 0); }
    assert whole.entries == done;
    forall k | 0 <= k < |out| ensures Says(out[k], done[k], tokens, offsets[k], base) {
      SymbolSays(done[k], tokens, offsets[k], base);
    }
  }

  /** The inner loop: one entry's tokens appended in turn. */
  method DecodeOne(entry: seq<u8>, tokens: seq<string>, offset: int, base: u64) returns (s: Symbol)
    requires |tokens| == 256
    ensures s == SymbolOf(entry, tokens, offset, base)
  {
    var decoded := "";
    for j := 0 to |entry|
      invariant decoded == Expand(entry[..j], tokens)
    {
      assert entry[..j + 1][..j] == entry[..j];
      decoded := decoded + tokens[entry[j]];
    }
    assert entry[..|entry|] == entry;
    s := Symbol(if decoded == "" then '?' else decoded[0], if decoded == "" then "" else decoded[1..],
      AddressOf(base, offset));
  }

  /** Where memory holds an encoded name list, decoding gives every symbol and no other. */
  lemma DecodeInvertsEncoding(m: Memory, namesPa: nat, es: seq<seq<u8>>, tokens: seq<string>,
                              offsets: seq<int>, base: u64)
    requires AllEncodable(es) && |tokens| == 256 && |offsets| == |es|
    requires Bytes(m, namesPa, |NameBytes(es)|) == NameBytes(es)
    ensures Symbols(WalkEntries(Bytes(m, namesPa, |NameBytes(es)|), 0, |es|).entries, tokens, offsets, base)
         == Symbols(es, tokens, offsets, base)
  {
    var buf := Bytes(m, namesPa, |NameBytes(es)|);
    assert buf[0..0 + |NameBytes(es)|] == buf;
    WalkInvertsEncoding(buf, 0, es);
  }

  /** A symbol as the kernel's writer has it: relative to the base, or absolute. */
  datatype Written = Written(entry: seq<u8>, relative: bool, address: nat)

  /** Relative addresses are stored below -1, absolute ones as they are; both in 32 bits, signed. */
  function OffsetOf(w: Written, base: u64): int {
    if w.relative then base - 1 - w.address else w.address
  }

  ghost predicate Writable(w: Written, base: u64) {
    && Encodable(w.entry)
    && if w.relative then base <= w.address < TWO_64 && w.address - base < 0x8000_0000 else w.address < 0x8000_0000
  }

  /**
   The round trip with that writer: every relative symbol comes back with its own
   address, an absolute one with the base added, and each with the text of its tokens.
   */
  lemma WrittenSymbolsRead(m: Memory, namesPa: nat, ws: seq<Written>, tokens: seq<string>, base: u64,
                           es: seq<seq<u8>>, offsets: seq<int>)
    requires |tokens| == 256 && |es| == |offsets| == |ws| && forall w | w in ws :: Writable(w, base)
    requires forall i | 0 <= i < |ws| :: es[i] == ws[i].entry && offsets[i] == OffsetOf(ws[i], base)
    ensures AllEncodable(es)
    ensures Bytes(m, namesPa, |NameBytes(es)|) == NameBytes(es) ==>
      var out := Symbols(WalkEntries(Bytes(m, namesPa, |NameBytes(es)|), 0, |es|).entries, tokens, offsets, base);
      && |out| == |ws|
      && forall i | 0 <= i < |ws| ::
           && out[i].address == (if ws[i].relative then ws[i].address else (base + ws[i].address) % TWO_64)
           && (Text(ws[i].entry, tokens) != "" ==> [out[i].kind] + out[i].name == Text(ws[i].entry, tokens))
  {
    hide WalkEntries, NameBytes, Text, SymbolOf, Bytes, Encodable;
    forall e | e in es ensures Encodable(e) {
      var i :| 0 <= i < |es| && es[i] == e;
      assert ws[i] in ws;
    }
    if Bytes(m, namesPa, |NameBytes(es)|) == NameBytes(es) {
      DecodeInvertsEncoding(m, namesPa, es, tokens, offsets, base);
      forall i | 0 <= i < |ws|
        ensures Says(SymbolOf(es[i], tokens, offsets[i], base), es[i], tokens, offsets[i], base)
        ensures SymbolOf(es[i], tokens, offsets[i], base).address
             == (if ws[i].relative then ws[i].address else (base + ws[i].address) % TWO_64)
      {
        assert ws[i] in ws;
        SymbolSays(es[i], tokens, offsets[i], base);
        OffsetBack(ws[i], base, SymbolOf(es[i], tokens, offsets[i], base).address);
      }
    }
  }

  lemma OffsetBack(w: Written, base: u64, address: u64)
    requires Writable(w, base)
    requires var offset := OffsetOf(w, base);
      && (0 <= offset < TWO_32 ==> address == (base + offset) % TWO_64)
      && (-TWO_32 <= offset < 0 ==> (address + 1 + offset) % TWO_64 == base)
    ensures address == if w.relative then w.address else (base + w.address) % TWO_64
  {
    if w.relative {
      var d: int := address - w.address;
      assert (base + d) % TWO_64 == base;
      assert d == 0;
    }
  }

  // ---------- batches of 256 ----------

  /** Every batch but the last walks, 256 entries, exactly to where the next marker says it ends. */
  ghost predicate BatchesMeetMarkers(names: seq<u8>, markers: seq<nat>) {
    && markers != [] && markers[0] == 0
    && (forall i | 0 <= i < |markers| - 1 :: markers[i] <= markers[i + 1])
    && (forall i | 0 <= i < |markers| :: markers[i] <= |names|)
    && (forall i | 0 <= i < |markers| - 1 :: Exactly(names[markers[i]..markers[i + 1]], 256))
  }

  lemma {:induction false} WalkBatches(names: seq<u8>, markers: seq<nat>, i: nat)
    requires BatchesMeetMarkers(names, markers) && i < |markers|
    ensures var w := WalkEntries(names, 0, 256 * i);
      !w.stuck && |w.entries| == 256 * i && w.stop == markers[i]
    decreases i
  {
    hide WalkEntries;
    if i == 0 {
      WalkEnds(names, 0, 0);
    } else {
      WalkBatches(names, markers, i - 1);
      ExactBatch(names, markers, i - 1);
      WalkInside(names, markers[i - 1], markers[i], 0, 256);
      WalkContinues(names, 0, 256 * (i - 1), 256);
      assert 256 * i == 256 * (i - 1) + 256;
    }
  }

  lemma ExactBatch(names: seq<u8>, markers: seq<nat>, i: nat)
    requires BatchesMeetMarkers(names, markers) && i + 1 < |markers|
    ensures markers[i] <= markers[i + 1] <= |names|
    ensures var w := WalkEntries(names[markers[i]..markers[i + 1]], 0, 256);
      !w.stuck && |w.entries| == 256 && w.stop == markers[i + 1] - markers[i]
  {
    assert Exactly(names[markers[i]..markers[i + 1]], 256);
  }

  /** If in addition the last batch fills the rest, the whole list is 256 for every full batch plus the last count. */
  lemma WalkWhole(names: seq<u8>, markers: seq<nat>, cnt: nat)
    requires BatchesMeetMarkers(names, markers) && cnt <= 256
    requires Exactly(names[markers[|markers| - 1]..], cnt)
    ensures Exactly(names, 256 * (|markers| - 1) + cnt)
  {
    hide WalkEntries;
    var k := |markers| - 1;
    var last := markers[k];
    WalkBatches(names, markers, k);
    assert names[last..] == names[last..|names|];
    WalkInside(names, last, |names|, 0, cnt);
    WalkContinues(names, 0, 256 * k, cnt);
  }
}
