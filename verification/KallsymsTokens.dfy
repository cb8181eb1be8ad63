/**
 The token index and the token table of kallsyms (plausible_token_index and
 validate_token_table in src/symbols/kallsyms.cpp).
 */
module KallsymsTokens {
  import opened Words
  import opened PhysicalLayer

  const MAX_TABLE := 4096

  // ---------- the token index ----------

  /** The 256 two-byte words of a 512-byte window. */
  function Indices(buf: seq<u8>): (v: seq<nat>)
    requires |buf| == 512
    ensures |v| == 256
  {
    seq(256, (i: nat) requires i < 256 => Decode(buf[2 * i..2 * i + 2]))
  }

  /** Little-endian words one after another. */
  lemma IndicesAre(buf: seq<u8>, i: nat)
    requires |buf| == 512 && i < 256
    ensures Indices(buf)[i] == (buf[2 * i] as int) + 256 * (buf[2 * i + 1] as int)
  {
    var w := buf[2 * i..2 * i + 2];
    assert w[1..][1..] == [] && Decode(w[1..]) == w[1];
  }

  function WideSteps(v: seq<nat>, n: nat): nat
    requires n < |v|
  {
    if n == 0 then 0 else WideSteps(v, n - 1) + if v[n] > v[n - 1] + 1 then 1 else 0
  }

  /** Starts of 256 NUL-terminated tokens: from zero, never falling, steps of at most 40, most of them above 1. */
  ghost predicate Plausible(v: seq<nat>) {
    && |v| == 256 && v[0] == 0 && 256 <= v[255] < 4096
    && (forall i | 0 < i < 256 :: v[i - 1] <= v[i] <= v[i - 1] + 40)
    && WideSteps(v, 255) >= 200
  }

  method PlausibleTokenIndex(buf: seq<u8>) returns (ok: bool)
    requires |buf| == 512
    ensures ok <==> Plausible(Indices(buf))
  {
    hide Indices;
    var v := Indices(buf);
    if v[0] != 0 || v[255] < 256 || v[255] >= MAX_TABLE { return false; }
    var nonempty := 0;
    for i := 1 to 256
      invariant forall j | 0 < j < i :: v[j - 1] <= v[j] <= v[j - 1] + 40
      invariant nonempty == WideSteps(v, i - 1)
    {
      if v[i] < v[i - 1] || v[i] - v[i - 1] > 40 { return false; }
      if v[i] - v[i - 1] > 1 { nonempty := nonempty + 1; }
    }
    ok := nonempty >= 200;
  }

  lemma {:induction false} Ascending(v: seq<nat>, i: nat, j: nat)
    requires Plausible(v) && i <= j < 256
    ensures v[i] <= v[j] <= v[255]
    decreases 255 - i
  {
    if i < j {
      Ascending(v, i + 1, j);
    } else if i < 255 {
      Ascending(v, i + 1, 255);
    }
  }

  // ---------- the token table ----------

  predicate FragmentChar(c: u8) {
    || 0x61 <= c <= 0x7a || 0x41 <= c <= 0x5a || 0x30 <= c <= 0x39
    || c == 0x5f || c == 0x2e || c == 0x24 || c == 0x20
  }

  /** Letters, digits, and the four other characters of symbol names and of the tokens between them. */
  lemma FragmentChars(c: u8)
    ensures FragmentChar(c) <==>
      var ch := c as char;
      'a' <= ch <= 'z' || 'A' <= ch <= 'Z' || '0' <= ch <= '9' || ch in {'_', '.', '$', ' '}
  {
  }

  function NonNul(s: seq<u8>): nat {
    if s == [] then 0 else NonNul(s[..|s| - 1]) + if s[|s| - 1] != 0 then 1 else 0
  }

  function Fragments(s: seq<u8>): nat {
    if s == [] then 0 else Fragments(s[..|s| - 1]) + if s[|s| - 1] != 0 && FragmentChar(s[|s| - 1]) then 1 else 0
  }

  /** At least nine tenths of the bytes that are not NUL are symbol-name characters. */
  predicate LooksLikeNames(s: seq<u8>) {
    NonNul(s) != 0 && Fragments(s) * 10 >= NonNul(s) * 9
  }

  /** Every token but the first begins right after a NUL, and so does whatever follows the buffer. */
  ghost predicate Terminated(buf: seq<u8>, start: nat, v: seq<nat>)
    requires |buf| == MAX_TABLE && Plausible(v) && start + v[255] < MAX_TABLE
  {
    && buf[MAX_TABLE - 1] == 0
    && forall i | 0 < i < 256 :: EndsBefore(buf, start, v, i)
  }

  ghost predicate EndsBefore(buf: seq<u8>, start: nat, v: seq<nat>, i: nat)
    requires |buf| == MAX_TABLE && i < |v|
  {
    0 < start + v[i] <= MAX_TABLE && buf[start + v[i] - 1] == 0
  }

  /** The last size bytes of the buffer are a token table that starts eight-byte aligned. */
  ghost predicate Accepts(buf: seq<u8>, v: seq<nat>, end: nat, size: nat)
    requires |buf| == MAX_TABLE <= end && Plausible(v)
  {
    && v[255] < size <= MAX_TABLE
    && (end - size) % 8 == 0
    && Terminated(buf, MAX_TABLE - size, v)
    && LooksLikeNames(buf[MAX_TABLE - size..])
  }

  function TokenEnd(table: seq<u8>, v: seq<nat>, i: nat): nat
    requires |v| == 256 && i < 256
  {
    if i < 255 then v[i + 1] else |table|
  }

  /** Token i without its NUL; empty when the next token starts no later. */
  function Token(table: seq<u8>, v: seq<nat>, i: nat): seq<u8>
    requires |v| == 256 && i < 256 && TokenEnd(table, v, i) <= |table|
  {
    if TokenEnd(table, v, i) <= v[i] then [] else table[v[i]..TokenEnd(table, v, i) - 1]
  }

  lemma TokenEnds(table: seq<u8>, v: seq<nat>, i: nat)
    requires Plausible(v) && v[255] < |table| && i < 256
    ensures v[i] <= TokenEnd(table, v, i) <= |table|
  {
    Ascending(v, i, 255);
    if i < 255 { Ascending(v, i, i + 1); }
  }

  method Score(s: seq<u8>) returns (ok: bool)
    ensures ok <==> LooksLikeNames(s)
  {
    var total, fragment := 0, 0;
    for i := 0 to |s|
      invariant total == NonNul(s[..i]) && fragment == Fragments(s[..i])
    {
      assert s[..i + 1][..i] == s[..i];
      if s[i] != 0 {
        total := total + 1;
        if FragmentChar(s[i]) { fragment := fragment + 1; }
      }
    }
    assert s[..|s|] == s;
    ok := total != 0 && fragment * 10 >= total * 9;
  }

  method CheckTerminators(buf: seq<u8>, v: seq<nat>, start: nat) returns (ok: bool)
    requires |buf| == MAX_TABLE && Plausible(v) && start + v[255] < MAX_TABLE
    ensures ok <==> Terminated(buf, start, v)
  {
    ok := buf[MAX_TABLE - 1] == 0;
    var i := 1;
    while ok && i < 256
      invariant 1 <= i <= 256
      invariant ok ==> buf[MAX_TABLE - 1] == 0 && forall j | 0 < j < i :: EndsBefore(buf, start, v, j)
      invariant !ok ==> !Terminated(buf, start, v)
    {
      Ascending(v, i, 255);
      var off := start + v[i];
      if off == 0 || buf[off - 1] != 0 {
        assert !EndsBefore(buf, start, v, i);
        ok := false;
      }
      i := i + 1;
    }
  }

  datatype TokenTable = TokenTable(pa: nat, size: nat, tokens: seq<seq<u8>>)

  /** The table that ends at a token index found at end, v its 256 starts. */
  ghost predicate TableBefore(m: Memory, end: nat, v: seq<nat>, t: TokenTable)
    requires Plausible(v)
  {
    && end >= 4096 && Count(m, end - 4096, 4096) == 4096
    && var buf := Bytes(m, end - 4096, 4096);
    && Accepts(buf, v, end, t.size)
    && (forall s: nat | s < t.size :: !Accepts(buf, v, end, s))
    && t.pa + t.size == end
    && t.tokens == Tokens(buf[MAX_TABLE - t.size..], v)
  }

  function Tokens(table: seq<u8>, v: seq<nat>): (t: seq<seq<u8>>)
    requires Plausible(v) && v[255] < |table|
    ensures |t| == 256
  {
    seq(256, (i: nat) requires i < 256 => TokenEnds(table, v, i); Token(table, v, i))
  }

  /** The least size that is accepted wins; its 256 tokens are cut out of the buffer. */
  method ValidateTokenTable(m: Memory, end: nat, v: seq<nat>) returns (r: Option<TokenTable>)
    requires Plausible(v)
    ensures r.Some? ==> TableBefore(m, end, v, r.value)
    ensures r.None? ==> forall t :: !TableBefore(m, end, v, t)
  {
    hide LooksLikeNames, Terminated, Bytes, Count, Plausible;
    r := None;
    if end < MAX_TABLE { return; }
    if Count(m, end - MAX_TABLE, MAX_TABLE) != MAX_TABLE { return; }
    var buf := Bytes(m, end - MAX_TABLE, MAX_TABLE);
    IndexBounds(v);
    var size := v[255] + 1;
    while size <= MAX_TABLE
      invariant v[255] < size
      invariant forall s: nat | s < size :: !Accepts(buf, v, end, s)
    {
      if (end - size) % 8 == 0 {
        var ok := CheckTerminators(buf, v, MAX_TABLE - size);
        if ok {
          var named := Score(buf[MAX_TABLE - size..]);
          if named {
            var tokens := CutTokens(buf[MAX_TABLE - size..], v);
            return Some(TokenTable(end - size, size, tokens));
          }
        }
      }
      size := size + 1;
    }
  }

  lemma IndexBounds(v: seq<nat>)
    requires Plausible(v)
    ensures |v| == 256 && v[0] == 0 && 256 <= v[255] < MAX_TABLE
  {
  }

  method CutTokens(table: seq<u8>, v: seq<nat>) returns (tokens: seq<seq<u8>>)
    requires Plausible(v) && v[255] < |table|
    ensures tokens == Tokens(table, v)
  {
    tokens := [];
    for i := 0 to 256
      invariant |tokens| == i && tokens == Tokens(table, v)[..i]
    {
      TokenEnds(table, v, i);
      var s, e := v[i], if i < 255 then v[i + 1] else |table|;
      tokens := tokens + [if e <= s then [] else table[s..e - 1]];
    }
  }

  // ---------- what the tokens are ----------

  /** The first n tokens laid out again, each with its NUL. */
  function Joined(table: seq<u8>, v: seq<nat>, n: nat): seq<u8>
    requires Plausible(v) && v[255] < |table| && n <= 256
  {
    if n == 0 then [] else Joined(table, v, n - 1) + (Tokens(table, v)[n - 1] + [0])
  }

  /** Tokens that start where the next one does: they get an empty string but have no byte of their own. */
  function Empty(v: seq<nat>, n: nat): nat
    requires |v| == 256 && n <= 256
  {
    if n == 0 then 0 else Empty(v, n - 1) + if n < 256 && v[n] <= v[n - 1] then 1 else 0
  }

  lemma {:induction false} JoinedLength(table: seq<u8>, v: seq<nat>, n: nat)
    requires Plausible(v) && v[255] < |table| && 0 < n <= 256
    ensures |Joined(table, v, n)| == TokenEnd(table, v, n - 1) + Empty(v, n)
  {
    hide Plausible;
    IndexBounds(v);
    TokenEnds(table, v, n - 1);
    assert Joined(table, v, n) == Joined(table, v, n - 1) + (Tokens(table, v)[n - 1] + [0]);
    if n > 1 {
      JoinedLength(table, v, n - 1);
    } else {
      assert Joined(table, v, 0) == [] && Empty(v, 0) == 0;
    }
  }

  lemma TableSlice(buf: seq<u8>, v: seq<nat>, end: nat, size: nat, i: nat)
    requires |buf| == MAX_TABLE <= end && Plausible(v) && Accepts(buf, v, end, size) && i < 256
    requires v[i] < TokenEnd(buf[MAX_TABLE - size..], v, i)
    ensures var table := buf[MAX_TABLE - size..];
      TokenEnd(table, v, i) <= |table| && Tokens(table, v)[i] + [0] == table[v[i]..TokenEnd(table, v, i)]
  {
    hide Plausible, LooksLikeNames;
    IndexBounds(v);
    var table := buf[MAX_TABLE - size..];
    TokenEnds(table, v, i);
    var e := TokenEnd(table, v, i);
    if i < 255 {
      assert EndsBefore(buf, MAX_TABLE - size, v, i + 1);
    }
    assert table[e - 1] == 0;
    assert table[v[i]..e] == table[v[i]..e - 1] + [table[e - 1]];
  }

  lemma {:induction false} JoinedPrefix(buf: seq<u8>, v: seq<nat>, end: nat, size: nat, n: nat)
    requires |buf| == MAX_TABLE <= end && Plausible(v) && Accepts(buf, v, end, size) && 0 < n <= 256
    requires forall i | 0 < i < 256 :: v[i - 1] < v[i]
    ensures var table := buf[MAX_TABLE - size..];
      TokenEnd(table, v, n - 1) <= |table| && Joined(table, v, n) == table[..TokenEnd(table, v, n - 1)]
  {
    hide Plausible, Accepts, Tokens;
    AcceptedSize(buf, v, end, size);
    var table := buf[MAX_TABLE - size..];
    IndexBounds(v);
    TokenEnds(table, v, n - 1);
    TableSlice(buf, v, end, size, n - 1);
    if n > 1 {
      JoinedPrefix(buf, v, end, size, n - 1);
      JoinSlices(table, 0, v[n - 1], TokenEnd(table, v, n - 1));
    } else {
      assert Joined(table, v, 0) == [];
    }
  }

  lemma AcceptedSize(buf: seq<u8>, v: seq<nat>, end: nat, size: nat)
    requires |buf| == MAX_TABLE <= end && Plausible(v) && Accepts(buf, v, end, size)
    ensures v[255] < size <= MAX_TABLE
  {
  }

  /**
   Laying the recovered tokens out again, each with its terminator, gives back the
   table exactly when no two tokens share a start.
   */
  lemma TokensRoundTripIff(buf: seq<u8>, v: seq<nat>, end: nat, size: nat)
    requires |buf| == MAX_TABLE <= end && Plausible(v) && Accepts(buf, v, end, size)
    ensures Joined(buf[MAX_TABLE - size..], v, 256) == buf[MAX_TABLE - size..]
      <==> forall i | 0 < i < 256 :: v[i - 1] < v[i]
  {
    hide Plausible, Accepts;
    AcceptedSize(buf, v, end, size);
    var table := buf[MAX_TABLE - size..];
    IndexBounds(v);
    if forall i | 0 < i < 256 :: v[i - 1] < v[i] {
      JoinedPrefix(buf, v, end, size, 256);
    } else {
      var i :| 0 < i < 256 && v[i - 1] >= v[i];
      JoinedLength(table, v, 256);
      EmptyAtLeast(v, i, 256);
    }
  }

  lemma {:induction false} EmptyAtLeast(v: seq<nat>, i: nat, n: nat)
    requires |v| == 256 && 0 < i < 256 && v[i - 1] >= v[i] && i <= n <= 256
    ensures Empty(v, n) >= 1
  {
    if n > i {
      EmptyAtLeast(v, i, n - 1);
    }
  }
}
