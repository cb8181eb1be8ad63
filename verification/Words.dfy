/** Fixed-width words, little-endian byte strings, and the two result types used throughout. */
module Words {

  datatype Option<+T> = None | Some(value: T)

  type u8 = x: int | 0 <= x < 0x100
  type u32 = x: int | 0 <= x < 0x1_0000_0000
  type u64 = x: int | 0 <= x < TWO_64

  const TWO_32 := 0x1_0000_0000
  const TWO_64 := 0x1_0000_0000_0000_0000

  function Min(a: int, b: int): int {
    if a <= b then a else b
  }

  function Max(a: int, b: int): int {
    if a <= b then b else a
  }

  function Pow256(n: nat): (p: nat)
    ensures p > 0
  {
    if n == 0 then 1 else 256 * Pow256(n - 1)
  }

  /** The n low-order bytes of v, least significant first. */
  function Encode(v: nat, n: nat): (s: seq<u8>)
    ensures |s| == n
  {
    if n == 0 then [] else [v % 256] + Encode(v / 256, n - 1)
  }

  /** The value of a little-endian byte string. */
  function Decode(s: seq<u8>): nat {
    if s == [] then 0 else s[0] + 256 * Decode(s[1..])
  }

  lemma {:induction false} DecodeEncode(v: nat, n: nat)
    requires v < Pow256(n)
    ensures Decode(Encode(v, n)) == v
  {
    if n > 0 {
      DecodeEncode(v / 256, n - 1);
      assert Encode(v, n)[1..] == Encode(v / 256, n - 1);
    }
  }

  lemma {:induction false} EncodeDecode(s: seq<u8>)
    ensures Decode(s) < Pow256(|s|)
    ensures Encode(Decode(s), |s|) == s
  {
    if s != [] {
      EncodeDecode(s[1..]);
      assert s == [s[0]] + s[1..];
    }
  }

  lemma Pow256Values()
    ensures Pow256(1) == 0x100 && Pow256(2) == 0x1_0000 && Pow256(3) == 0x100_0000
    ensures Pow256(4) == TWO_32 && Pow256(8) == TWO_64
  {
    assert Pow256(0) == 1;
    assert Pow256(1) == 256 * Pow256(0);
    assert Pow256(2) == 256 * Pow256(1);
    assert Pow256(3) == 256 * Pow256(2);
    assert Pow256(4) == 256 * Pow256(3);
    assert Pow256(5) == 256 * Pow256(4);
    assert Pow256(6) == 256 * Pow256(5);
    assert Pow256(7) == 256 * Pow256(6);
  }

  /** The n-byte little-endian word at offset off. */
  function WordAt(s: seq<u8>, off: nat, n: nat): (v: nat)
    requires off + n <= |s|
    ensures v < Pow256(n)
  {
    EncodeDecode(s[off..off + n]);
    Decode(s[off..off + n])
  }

  // ---------- slices ----------

  lemma JoinSlices<T>(s: seq<T>, a: nat, b: nat, c: nat)
    requires a <= b <= c <= |s|
    ensures s[..c] == s[..a] + (s[a..b] + s[b..c])
  {
  }

  lemma BlockSlices<T>(s: seq<T>, a: seq<T>, b: seq<T>, c: seq<T>)
    requires a + (b + c) <= s
    ensures s[..|a|] == a && s[|a|..|a| + |b|] == b && s[|a| + |b|..|a| + |b| + |c|] == c
  {
    assert s == (a + (b + c)) + s[|a| + |b| + |c|..];
  }

  lemma SliceOfSlice<T>(s: seq<T>, a: nat, b: nat, i: nat, j: nat)
    requires a <= b <= |s| && i <= j <= b - a
    ensures s[a..b][i..j] == s[a + i..a + j]
  {
    var x, y := s[a..b][i..j], s[a + i..a + j];
    forall k | 0 <= k < |x| ensures x[k] == y[k] {
      assert x[k] == s[a..b][i + k] == s[a + (i + k)];
    }
  }

  lemma SliceExtends<T>(before: seq<T>, after: seq<T>, lo: nat, mid: nat, x: seq<T>)
    requires lo <= mid && mid + |x| <= |after| == |before|
    requires forall i | lo <= i < mid :: after[i] == before[i]
    requires forall i | mid <= i < mid + |x| :: after[i] == x[i - mid]
    ensures after[lo..mid + |x|] == before[lo..mid] + x
  {
  }

  // ---------- packed records: one little-endian field after another ----------

  function Width(widths: seq<nat>): nat {
    if widths == [] then 0 else widths[0] + Width(widths[1..])
  }

  predicate Fits(fields: seq<nat>, widths: seq<nat>) {
    |fields| == |widths| && forall i | 0 <= i < |fields| :: fields[i] < Pow256(widths[i])
  }

  function Pack(fields: seq<nat>, widths: seq<nat>): (s: seq<u8>)
    requires |fields| == |widths|
    ensures |s| == Width(widths)
  {
    if fields == [] then [] else Encode(fields[0], widths[0]) + Pack(fields[1..], widths[1..])
  }

  function Unpack(s: seq<u8>, widths: seq<nat>): (fields: seq<nat>)
    requires |s| == Width(widths)
    ensures Fits(fields, widths)
  {
    if widths == [] then []
    else
      EncodeDecode(s[..widths[0]]);
      [Decode(s[..widths[0]])] + Unpack(s[widths[0]..], widths[1..])
  }

  lemma {:induction false} UnpackPack(fields: seq<nat>, widths: seq<nat>)
    requires Fits(fields, widths)
    ensures Unpack(Pack(fields, widths), widths) == fields
  {
    if fields != [] {
      DecodeEncode(fields[0], widths[0]);
      UnpackPack(fields[1..], widths[1..]);
      var s := Pack(fields, widths);
      assert s[..widths[0]] == Encode(fields[0], widths[0]) && s[widths[0]..] == Pack(fields[1..], widths[1..]);
    }
  }

  lemma {:induction false} PackUnpack(s: seq<u8>, widths: seq<nat>)
    requires |s| == Width(widths)
    ensures Pack(Unpack(s, widths), widths) == s
  {
    if widths != [] {
      EncodeDecode(s[..widths[0]]);
      PackUnpack(s[widths[0]..], widths[1..]);
      assert s == s[..widths[0]] + s[widths[0]..];
    }
  }

  /** Field j of a record is the word as far in as the fields before it are wide. */
  lemma {:induction false} UnpackAt(s: seq<u8>, widths: seq<nat>, j: nat)
    requires |s| == Width(widths) && j < |widths|
    ensures Width(widths[..j]) + widths[j] <= |s|
    ensures Unpack(s, widths)[j] == WordAt(s, Width(widths[..j]), widths[j])
  {
    hide Decode, Unpack, Width, WordAt;
    UnpackStep(s, widths);
    WidthSnoc(widths, j);
    if j > 0 {
      UnpackAt(s[widths[0]..], widths[1..], j - 1);
      WidthFirst(widths, j);
      assert s[widths[0]..|s|] == s[widths[0]..];
      WordInSlice(s, widths[0], |s|, Width(widths[1..][..j - 1]), widths[j]);
    } else {
      NoWidth(widths);
      FirstWord(s, widths[0]);
    }
  }

  lemma UnpackStep(s: seq<u8>, widths: seq<nat>)
    requires |s| == Width(widths) && widths != []
    ensures widths[0] <= |s| && |s[widths[0]..]| == Width(widths[1..])
    ensures Unpack(s, widths) == [Decode(s[..widths[0]])] + Unpack(s[widths[0]..], widths[1..])
  {
    hide Decode;
  }

  lemma FirstWord(s: seq<u8>, n: nat)
    requires n <= |s|
    ensures WordAt(s, 0, n) == Decode(s[..n])
  {
    hide Decode;
    assert s[0..0 + n] == s[..n];
  }

  lemma WidthFirst(widths: seq<nat>, j: nat)
    requires 0 < j <= |widths|
    ensures Width(widths[..j]) == widths[0] + Width(widths[1..][..j - 1])
  {
    assert widths[..j][1..] == widths[1..][..j - 1];
  }

  lemma NoWidth(widths: seq<nat>)
    ensures Width(widths[..0]) == 0
  {
  }

  lemma {:induction false} WidthSnoc(widths: seq<nat>, j: nat)
    requires j < |widths|
    ensures Width(widths[..j + 1]) == Width(widths[..j]) + widths[j]
    ensures Width(widths[..j + 1]) <= Width(widths)
  {
    hide Width;
    WidthFirst(widths, j + 1);
    WidthFirst(widths, |widths|);
    assert widths[1..][..|widths| - 1] == widths[1..] && widths[..|widths|] == widths;
    if j > 0 {
      WidthSnoc(widths[1..], j - 1);
      WidthFirst(widths, j);
    } else {
      NoWidth(widths);
      NoWidth(widths[1..]);
    }
  }

  lemma WordInSlice(s: seq<u8>, a: nat, b: nat, off: nat, n: nat)
    requires a <= b <= |s| && off + n <= b - a
    ensures WordAt(s[a..b], off, n) == WordAt(s, a + off, n)
  {
    SliceOfSlice(s, a, b, off, off + n);
  }

  /** Two 4-byte and three 8-byte fields. */
  lemma FiveFields(s: seq<u8>)
    requires |s| == 32
    ensures Width([4, 4, 8, 8, 8]) == 32
    ensures Unpack(s, [4, 4, 8, 8, 8])
      == [WordAt(s, 0, 4), WordAt(s, 4, 4), WordAt(s, 8, 8), WordAt(s, 16, 8), WordAt(s, 24, 8)]
  {
    hide Decode, Unpack, Width, WordAt;
    var widths: seq<nat> := [4, 4, 8, 8, 8];
    NoWidth(widths);
    WidthSnoc(widths, 0);
    WidthSnoc(widths, 1);
    WidthSnoc(widths, 2);
    WidthSnoc(widths, 3);
    WidthSnoc(widths, 4);
    assert widths[..5] == widths;
    forall j | 0 <= j < 5
      ensures Width(widths[..j]) + widths[j] <= 32
      ensures Unpack(s, widths)[j] == WordAt(s, Width(widths[..j]), widths[j])
    {
      UnpackAt(s, widths, j);
    }
  }
}
