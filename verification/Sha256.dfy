/** SHA-256 as FIPS 180-4 defines it. */
module Sha256Standard {
  import opened Words

  /** Section 3.2: rotation to the right. */
  function Rotr(x: bv32, n: nat): bv32
    requires 0 < n < 32
  {
    (x >> n) | (x << (32 - n))
  }

  /** Section 2.2.2: addition modulo 2^32. */
  function Plus(x: bv32, y: bv32): bv32 { x + y }

  // Section 4.1.2
  function Ch(x: bv32, y: bv32, z: bv32): bv32 { (x & y) ^ (!x & z) }
  function Maj(x: bv32, y: bv32, z: bv32): bv32 { (x & y) ^ (x & z) ^ (y & z) }
  function BigSigma0(x: bv32): bv32 { Rotr(x, 2) ^ Rotr(x, 13) ^ Rotr(x, 22) }
  function BigSigma1(x: bv32): bv32 { Rotr(x, 6) ^ Rotr(x, 11) ^ Rotr(x, 25) }
  function Sigma0(x: bv32): bv32 { Rotr(x, 7) ^ Rotr(x, 18) ^ (x >> 3) }
  function Sigma1(x: bv32): bv32 { Rotr(x, 17) ^ Rotr(x, 19) ^ (x >> 10) }

  /** Section 4.2.2, in rows of eight. */
  const K_ROWS: seq<seq<bv32>> := [
    [0x428a2f98, 0x71374491, 0xb5c0fbcf, 0xe9b5dba5, 0x3956c25b, 0x59f111f1, 0x923f82a4, 0xab1c5ed5],
    [0xd807aa98, 0x12835b01, 0x243185be, 0x550c7dc3, 0x72be5d74, 0x80deb1fe, 0x9bdc06a7, 0xc19bf174],
    [0xe49b69c1, 0xefbe4786, 0x0fc19dc6, 0x240ca1cc, 0x2de92c6f, 0x4a7484aa, 0x5cb0a9dc, 0x76f988da],
    [0x983e5152, 0xa831c66d, 0xb00327c8, 0xbf597fc7, 0xc6e00bf3, 0xd5a79147, 0x06ca6351, 0x14292967],
    [0x27b70a85, 0x2e1b2138, 0x4d2c6dfc, 0x53380d13, 0x650a7354, 0x766a0abb, 0x81c2c92e, 0x92722c85],
    [0xa2bfe8a1, 0xa81a664b, 0xc24b8b70, 0xc76c51a3, 0xd192e819, 0xd6990624, 0xf40e3585, 0x106aa070],
    [0x19a4c116, 0x1e376c08, 0x2748774c, 0x34b0bcb5, 0x391c0cb3, 0x4ed8aa4a, 0x5b9cca4f, 0x682e6ff3],
    [0x748f82ee, 0x78a5636f, 0x84c87814, 0x8cc70208, 0x90befffa, 0xa4506ceb, 0xbef9a3f7, 0xc67178f2]
  ]

  function K(t: nat): bv32
    requires t < 64
  {
    K_ROWS[t / 8][t % 8]
  }

  datatype Hash = Hash(a: bv32, b: bv32, c: bv32, d: bv32, e: bv32, f: bv32, g: bv32, h: bv32)

  /** Section 5.3.3. */
  const H0: Hash := Hash(0x6a09e667, 0xbb67ae85, 0x3c6ef372, 0xa54ff53a, 0x510e527f, 0x9b05688c, 0x1f83d9ab, 0x5be0cd19)

  /** A 512-bit block's big-endian words. */
  function BlockWord(block: seq<bv8>, t: nat): bv32
    requires |block| == 64 && t < 16
  {
    ((block[4 * t] as bv32) << 24) | ((block[4 * t + 1] as bv32) << 16)
    | ((block[4 * t + 2] as bv32) << 8) | (block[4 * t + 3] as bv32)
  }

  /** Section 6.2.2, step 1: the message schedule. */
  function Schedule(block: seq<bv8>, t: nat): bv32
    requires |block| == 64
  {
    if t < 16 then BlockWord(block, t)
    else
      Plus(Plus(Plus(Sigma1(Schedule(block, t - 2)), Schedule(block, t - 7)), Sigma0(Schedule(block, t - 15))),
           Schedule(block, t - 16))
  }

  /** Section 6.2.2, step 3: one round. */
  function Round(s: Hash, k: bv32, w: bv32): Hash {
    var t1 := Plus(Plus(Plus(Plus(s.h, BigSigma1(s.e)), Ch(s.e, s.f, s.g)), k), w);
    var t2 := Plus(BigSigma0(s.a), Maj(s.a, s.b, s.c));
    Hash(Plus(t1, t2), s.a, s.b, s.c, Plus(s.d, t1), s.e, s.f, s.g)
  }

  function Rounds(s: Hash, block: seq<bv8>, t: nat): Hash
    requires |block| == 64 && t <= 64
  {
    if t == 0 then s else Round(Rounds(s, block, t - 1), K(t - 1), Schedule(block, t - 1))
  }

  function Add(s: Hash, r: Hash): Hash {
    Hash(Plus(s.a, r.a), Plus(s.b, r.b), Plus(s.c, r.c), Plus(s.d, r.d),
         Plus(s.e, r.e), Plus(s.f, r.f), Plus(s.g, r.g), Plus(s.h, r.h))
  }

  /** Section 6.2.2, step 4. */
  function Compress(s: Hash, block: seq<bv8>): Hash
    requires |block| == 64
  {
    Add(s, Rounds(s, block, 64))
  }

  function HashBlocks(m: seq<bv8>): Hash
    requires |m| % 64 == 0
  {
    if m == [] then H0 else Compress(HashBlocks(m[..|m| - 64]), m[|m| - 64..])
  }

  function Zeros(n: nat): (z: seq<bv8>)
    ensures |z| == n
  {
    if n == 0 then [] else Zeros(n - 1) + [0]
  }

  /** Byte i of a number, counted from the least significant. */
  function ByteOf(v: nat, i: nat): bv8 {
    (v / Pow256(i) % 256) as bv8
  }

  /** The length field: eight bytes, most significant first. */
  function LengthField(v: nat): (s: seq<bv8>)
    ensures |s| == 8
    ensures forall i | 0 <= i < 8 :: s[i] == ByteOf(v, 7 - i)
  {
    seq(8, i requires 0 <= i < 8 => ByteOf(v, 7 - i))
  }

  /** The least number of zero bytes that puts the length field at the end of a block. */
  function ZeroBytes(len: nat): (k: nat)
    ensures (len + 1 + k) % 64 == 56
  {
    (55 - len) % 64
  }

  /** Section 5.1.1: a one bit, zeros, and the length in bits as a 64-bit number. */
  function Padded(m: seq<bv8>): (p: seq<bv8>)
    ensures |p| % 64 == 0
  {
    m + [0x80] + Zeros(ZeroBytes(|m|)) + LengthField(8 * |m|)
  }

  function HexDigit(d: nat): char
    requires d < 16
  {
    "0123456789abcdef"[d]
  }

  function HexOf(v: nat, n: nat): (s: string)
    ensures |s| == n
  {
    if n == 0 then [] else HexOf(v / 16, n - 1) + [HexDigit(v % 16)]
  }

  function HexWord(w: bv32): string {
    HexOf(w as nat, 8)
  }

  function HexWords(ws: seq<bv32>): string {
    if ws == [] then "" else HexWords(ws[..|ws| - 1]) + HexWord(ws[|ws| - 1])
  }

  function HexHash(s: Hash): string {
    HexWords([s.a, s.b, s.c, s.d, s.e, s.f, s.g, s.h])
  }

  /** The digest of a message of fewer than 2^64 bits, as lower-case hexadecimal. */
  function HexDigest(m: seq<bv8>): string {
    HexHash(HashBlocks(Padded(m)))
  }
}

/** The streaming hasher behind the symbol cache's banner keys (src/symbols/symbol_cache_http.cpp). */
module Sha256 {
  import opened Sha256Standard
  import opened Words

  const TWO_61 := 0x2000_0000_0000_0000

  function HashOf(h: seq<bv32>): Hash
    requires |h| == 8
  {
    Hash(h[0], h[1], h[2], h[3], h[4], h[5], h[6], h[7])
  }

  /** Hexadecimal as a stream prints it: no leading zeros. */
  function PlainHex(v: nat): string {
    if v < 16 then [HexDigit(v)] else PlainHex(v / 16) + [HexDigit(v % 16)]
  }

  function Filled(n: nat): string {
    if n == 0 then "" else "0" + Filled(n - 1)
  }

  /** setw(width) with fill '0'. */
  function SetW(s: string, width: nat): string {
    if |s| < width then Filled(width - |s|) + s else s
  }

  function Pow16(n: nat): nat {
    if n == 0 then 1 else 16 * Pow16(n - 1)
  }

  lemma {:induction false} PaddedHex(v: nat, n: nat)
    requires n > 0 && v < Pow16(n)
    ensures |PlainHex(v)| <= n && SetW(PlainHex(v), n) == HexOf(v, n)
  {
    if v < 16 {
      SmallHex(v, n);
    } else {
      PaddedHex(v / 16, n - 1);
      assert SetW(PlainHex(v / 16), n - 1) + [HexDigit(v % 16)] == SetW(PlainHex(v), n);
    }
  }

  lemma {:induction false} SmallHex(v: nat, n: nat)
    requires n > 0 && v < 16
    ensures SetW([HexDigit(v)], n) == HexOf(v, n)
  {
    if n > 1 {
      SmallHex(0, n - 1);
      assert Filled(n - 1) == Filled(n - 2) + "0" by { FilledTail(n - 2); }
      assert Filled(n - 1) + [HexDigit(v)] == (Filled(n - 2) + "0") + [HexDigit(v)];
      assert HexOf(v, n) == HexOf(0, n - 1) + [HexDigit(v)];
    } else {
      assert HexOf(v, 1) == HexOf(v / 16, 0) + [HexDigit(v % 16)];
    }
  }

  lemma {:induction false} FilledTail(n: nat)
    ensures |Filled(n)| == n && Filled(n + 1) == Filled(n) + "0"
  {
    if n > 0 {
      FilledTail(n - 1);
    }
  }

  lemma FromWords(ws: seq<bv32>)
    requires |ws| == 8
    ensures Hash(ws[0], ws[1], ws[2], ws[3], ws[4], ws[5], ws[6], ws[7]) == HashOf(ws)
  {
  }

  method LoadWord(buf: array<bv8>, i: nat) returns (w: bv32)
    requires buf.Length == 64 && i < 16
    ensures w == BlockWord(buf[..], i)
  {
    w := ((buf[i * 4] as bv32) << 24) | ((buf[i * 4 + 1] as bv32) << 16)
         | ((buf[i * 4 + 2] as bv32) << 8) | (buf[i * 4 + 3] as bv32);
  }

  method NextWord(w16: bv32, w15: bv32, w7: bv32, w2: bv32) returns (w: bv32)
    ensures w == Plus(Plus(Plus(Sigma1(w2), w7), Sigma0(w15)), w16)
  {
    hide Rotr, Plus;
    var s0 := Rotr(w15, 7) ^ Rotr(w15, 18) ^ (w15 >> 3);
    var s1 := Rotr(w2, 17) ^ Rotr(w2, 19) ^ (w2 >> 10);
    AddOrder(w16, s0, w7, s1);
    w := Plus(Plus(Plus(w16, s0), w7), s1);
  }

  lemma ScheduleAt(block: seq<bv8>, t: nat)
    requires |block| == 64
    ensures t < 16 ==> Schedule(block, t) == BlockWord(block, t)
    ensures t >= 16 ==>
      var s := Plus(Plus(Sigma1(Schedule(block, t - 2)), Schedule(block, t - 7)), Sigma0(Schedule(block, t - 15)));
      Schedule(block, t) == Plus(s, Schedule(block, t - 16))
  {
    hide Sigma0, Sigma1, BlockWord, Plus;
  }

  /** The message schedule of a block, in an array. */
  method Expand(buf: array<bv8>) returns (w: array<bv32>)
    requires buf.Length == 64
    ensures fresh(w) && w.Length == 64 && forall j | 0 <= j < 64 :: w[j] == Schedule(buf[..], j)
  {
    hide Sigma0, Sigma1, BlockWord, Plus, Schedule;
    w := new bv32[64];
    var i := 0;
    while i < 16
      invariant 0 <= i <= 16 && forall j | 0 <= j < i :: w[j] == Schedule(buf[..], j)
    {
      ScheduleAt(buf[..], i);
      w[i] := LoadWord(buf, i);
      i := i + 1;
    }
    while i < 64
      invariant 16 <= i <= 64 && forall j | 0 <= j < i :: w[j] == Schedule(buf[..], j)
    {
      ScheduleAt(buf[..], i);
      w[i] := NextWord(w[i - 16], w[i - 15], w[i - 7], w[i - 2]);
      i := i + 1;
    }
  }

  method OneRound(a: bv32, b: bv32, c: bv32, d: bv32, e: bv32, f: bv32, g: bv32, hh: bv32, k: bv32, w: bv32)
    returns (a': bv32, b': bv32, c': bv32, d': bv32, e': bv32, f': bv32, g': bv32, hh': bv32)
    ensures Hash(a', b', c', d', e', f', g', hh') == Round(Hash(a, b, c, d, e, f, g, hh), k, w)
  {
    hide Rotr, Plus;
    a', b', c', d', e', f', g', hh' := a, b, c, d, e, f, g, hh;
    var bigS1 := Rotr(e, 6) ^ Rotr(e, 11) ^ Rotr(e, 25);
    var ch := (e & f) ^ (!e & g);
    var t1 := Plus(Plus(Plus(Plus(hh, bigS1), ch), k), w);
    var bigS0 := Rotr(a, 2) ^ Rotr(a, 13) ^ Rotr(a, 22);
    var mj := (a & b) ^ (a & c) ^ (b & c);
    var t2 := Plus(bigS0, mj);
    hh' := g'; g' := f'; f' := e'; e' := Plus(d', t1);
    d' := c'; c' := b'; b' := a'; a' := Plus(t1, t2);
  }

  method AddWords(h: array<bv32>, a: bv32, b: bv32, c: bv32, d: bv32, e: bv32, f: bv32, g: bv32, hh: bv32)
    requires h.Length == 8
    modifies h
    ensures HashOf(h[..]) == Add(old(HashOf(h[..])), Hash(a, b, c, d, e, f, g, hh))
  {
    hide Plus;
    h[0], h[1], h[2], h[3] := Plus(h[0], a), Plus(h[1], b), Plus(h[2], c), Plus(h[3], d);
    h[4], h[5], h[6], h[7] := Plus(h[4], e), Plus(h[5], f), Plus(h[6], g), Plus(h[7], hh);
  }

  /** The chaining value covers the whole blocks absorbed; the first n bytes of the buffer are the rest. */
  ghost predicate Holds(hash: Hash, buf: seq<bv8>, n: nat, msg: seq<bv8>) {
    && |buf| == 64 && n == |msg| % 64
    && hash == HashBlocks(msg[..|msg| - n])
    && buf[..n] == msg[|msg| - n..]
  }

  lemma InitialHash(h: seq<bv32>)
    requires |h| == 8
    requires h[0] == 0x6a09e667 && h[1] == 0xbb67ae85 && h[2] == 0x3c6ef372 && h[3] == 0xa54ff53a
    requires h[4] == 0x510e527f && h[5] == 0x9b05688c && h[6] == 0x1f83d9ab && h[7] == 0x5be0cd19
    ensures HashOf(h) == HashBlocks([])
    ensures forall buf: seq<bv8> | |buf| == 64 :: Holds(HashOf(h), buf, 0, [])
  {
    hide Compress;
  }

  class Sha256 {
    const h: array<bv32>
    const buf: array<bv8>
    var n: nat
    var tot: nat            // a u64
    ghost var msg: seq<bv8> // everything absorbed so far

    constructor ()
      ensures Valid() && msg == [] && fresh(h) && fresh(buf)
    {
      hide HashOf, HashBlocks, Holds;
      h := new bv32[8];
      buf := new bv8[64];
      n, tot, msg := 0, 0, [];
      new;
      h[0], h[1], h[2], h[3] := 0x6a09e667, 0xbb67ae85, 0x3c6ef372, 0xa54ff53a;
      h[4], h[5], h[6], h[7] := 0x510e527f, 0x9b05688c, 0x1f83d9ab, 0x5be0cd19;
      InitialHash(h[..]);
    }

    ghost predicate Absorbed()
      reads this, h, buf
    {
      h.Length == 8 && buf.Length == 64 && Holds(HashOf(h[..]), buf[..], n, msg)
    }

    ghost predicate Valid()
      reads this, h, buf
    {
      Absorbed() && tot == |msg| % TWO_64
    }

    method Block()
      requires h.Length == 8 && buf.Length == 64
      modifies h
      ensures HashOf(h[..]) == Compress(old(HashOf(h[..])), buf[..])
    {
      hide Round, Schedule, Add, K, HashOf;
      ghost var block, start := buf[..], HashOf(h[..]);
      var w := Expand(buf);
      var a, b, c, d, e, f, g, hh := h[0], h[1], h[2], h[3], h[4], h[5], h[6], h[7];
      FromWords(h[..]);
      var i := 0;
      while i < 64
        invariant 0 <= i <= 64 && h[..] == old(h[..])
        invariant forall j | 0 <= j < 64 :: w[j] == Schedule(block, j)
        invariant Hash(a, b, c, d, e, f, g, hh) == Rounds(start, block, i)
      {
        a, b, c, d, e, f, g, hh := OneRound(a, b, c, d, e, f, g, hh, K(i), w[i]);
        i := i + 1;
      }
      AddWords(h, a, b, c, d, e, f, g, hh);
    }

    /** One turn of the update loop: bytes that fit the buffer, compressed if they fill it. */
    method Take(p: seq<bv8>)
      requires Absorbed() && |p| <= 64 - n
      modifies this`n, this`msg, h, buf
      ensures Absorbed() && msg == old(msg) + p
    {
      hide HashOf, Holds, Compress;
      HeldInBuffer(HashOf(h[..]), buf[..], n, msg);
      forall j | 0 <= j < |p| {
        buf[n + j] := p[j];
      }
      assert h[..] == old(h[..]) && buf[..n + |p|] == old(buf[..n]) + p;
      Held(HashOf(h[..]), old(buf[..]), buf[..], n, msg, p);
      n := n + |p|;
      msg := msg + p;
      if n == 64 {
        Block();
        n := 0;
      }
    }

    /** Absorbs p: however a message is cut into calls, the state depends on the concatenation only. */
    method Update(p: seq<bv8>)
      requires Valid()
      modifies this, h, buf
      ensures Valid() && msg == old(msg) + p
    {
      hide Compress, HashOf, Holds;
      tot := (tot + |p|) % TWO_64;
      TotalWraps(|msg|, |p|);
      var done := 0;
      assert msg + p[..0] == msg;
      while done < |p|
        invariant 0 <= done <= |p| && Absorbed() && msg == old(msg) + p[..done]
        invariant tot == (|old(msg)| + |p|) % TWO_64
      {
        HeldInBuffer(HashOf(h[..]), buf[..], n, msg);
        var r := if 64 - n < |p| - done then 64 - n else |p| - done;
        Take(p[done..done + r]);
        AppendSlice(old(msg), p, done, r);
        done := done + r;
      }
      assert p[..|p|] == p;
    }

    /** Padding by updates of one byte, the length field, and the digest in hexadecimal. */
    method HexFinal() returns (s: string)
      requires Valid()
      modifies this, h, buf
      ensures |old(msg)| < TWO_61 ==> s == HexDigest(old(msg))
    {
      hide HashBlocks, Zeros, LengthField, ZeroBytes, HashOf, HexHash, Holds, Padded;
      ghost var m := msg;
      var bits := tot * 8 % TWO_64;
      Update([0x80]);
      ghost var zeros := 0;
      NoZeros(m + [0x80]);
      HeldInBuffer(HashOf(h[..]), buf[..], n, msg);
      while n != 56
        invariant Valid() && msg == m + [0x80] + Zeros(zeros) && zeros <= ZeroBytes(|m|)
        invariant n == (|m| + 1 + zeros) % 64
        decreases ZeroBytes(|m|) - zeros
      {
        ZeroCount(|m|, zeros);
        Update([0]);
        OneMoreZero(m + [0x80], zeros);
        zeros := zeros + 1;
        HeldInBuffer(HashOf(h[..]), buf[..], n, msg);
      }
      ZeroCount(|m|, zeros);
      WriteLength(bits);
      s := Output();
      if |m| < TWO_61 {
        PaddedNow(m, msg, bits);
        AllCompressed(HashOf(h[..]), buf[..], n, msg);
      }
    }

    /** The eight length bytes, most significant first. */
    method WriteLength(bits: nat)
      requires Valid()
      modifies this, h, buf
      ensures Valid() && msg == old(msg) + LengthField(bits)
    {
      hide HashBlocks, HashOf, ByteOf, Holds;
      ghost var field := LengthField(bits);
      var i := 8;
      assert msg + field[..0] == msg;
      while i > 0
        invariant 0 <= i <= 8 && Valid() && msg == old(msg) + field[..8 - i]
      {
        i := i - 1;
        Update([ByteOf(bits, i)]);
        assert field[7 - i..7 - i + 1] == [ByteOf(bits, i)];
        AppendSlice(old(msg), field, 7 - i, 1);
      }
      assert field[..8] == field;
    }

    /** The chaining value as text, each word printed eight wide. */
    method Output() returns (s: string)
      requires h.Length == 8
      ensures s == HexHash(HashOf(h[..]))
    {
      hide HexWord, PlainHex, SetW, HexHash, HashOf;
      s := "";
      var i := 0;
      while i < 8
        invariant 0 <= i <= 8 && s == HexWords(h[..i])
      {
        HexWordsNext(h[..], i);
        assert h[..][..i] == h[..i] && h[..][..i + 1] == h[..i + 1];
        WordHex(h[i]);
        s := s + SetW(PlainHex(h[i] as nat), 8);
        i := i + 1;
      }
      assert h[..8] == h[..];
      HexWordsOfHash(h[..]);
    }
  }

  lemma TotalWraps(a: nat, b: nat)
    ensures (a % TWO_64 + b) % TWO_64 == (a + b) % TWO_64
  {
    assert a == a / TWO_64 * TWO_64 + a % TWO_64;
  }

  lemma AppendSlice(m: seq<bv8>, p: seq<bv8>, done: nat, r: nat)
    requires done + r <= |p|
    ensures m + p[..done] + p[done..done + r] == m + p[..done + r]
  {
  }

  lemma NoZeros(m: seq<bv8>)
    ensures m + Zeros(0) == m
  {
  }

  lemma OneMoreZero(m: seq<bv8>, z: nat)
    ensures m + Zeros(z) + [0] == m + Zeros(z + 1)
  {
  }

  lemma PaddedNow(m: seq<bv8>, msg: seq<bv8>, bits: nat)
    requires |m| < TWO_61 && bits == |m| % TWO_64 * 8 % TWO_64
    requires msg == m + [0x80] + Zeros(ZeroBytes(|m|)) + LengthField(bits)
    ensures msg == Padded(m) && |msg| % 64 == 0
  {
    hide Zeros, LengthField, ZeroBytes;
    assert bits == 8 * |m|;
  }

  lemma PlusCommutes(a: bv32, b: bv32)
    ensures Plus(a, b) == Plus(b, a)
  {
  }

  lemma PlusAssociates(a: bv32, b: bv32, c: bv32)
    ensures Plus(Plus(a, b), c) == Plus(a, Plus(b, c))
  {
    assert Plus(a, b) == a + b && Plus(b, c) == b + c;
    assert Plus(a + b, c) == a + b + c && Plus(a, b + c) == a + (b + c);
    assert a + b + c == a + (b + c);
  }

  /** The schedule adds its four terms in another order than the standard. */
  lemma AddOrder(a: bv32, b: bv32, c: bv32, d: bv32)
    ensures Plus(Plus(Plus(a, b), c), d) == Plus(Plus(Plus(d, c), b), a)
  {
    hide Plus;
    PlusCommutes(a, b);
    PlusAssociates(b, a, c);
    PlusCommutes(Plus(b, Plus(a, c)), d);
    PlusCommutes(b, Plus(a, c));
    PlusCommutes(a, c);
    PlusAssociates(c, a, b);
    PlusCommutes(a, b);
    PlusAssociates(c, b, a);
    PlusAssociates(d, Plus(c, b), a);
    PlusAssociates(d, c, b);
  }

  /** The buffered bytes and the new ones make a block: it is compressed. */
  lemma AllCompressed(hash: Hash, buf: seq<bv8>, n: nat, msg: seq<bv8>)
    requires Holds(hash, buf, n, msg) && |msg| % 64 == 0
    ensures hash == HashBlocks(msg)
  {
    hide HashBlocks;
    assert msg[..|msg| - 0] == msg;
  }

  lemma HeldInBuffer(hash: Hash, buf: seq<bv8>, n: nat, msg: seq<bv8>)
    requires Holds(hash, buf, n, msg)
    ensures n == |msg| % 64 < 64 == |buf|
  {
  }

  /** Bytes put behind those in the buffer: a full block is compressed, fewer stay buffered. */
  lemma Held(hash: Hash, buf: seq<bv8>, buf': seq<bv8>, n: nat, msg: seq<bv8>, p: seq<bv8>)
    requires Holds(hash, buf, n, msg) && n + |p| <= 64 == |buf'| && buf'[..n + |p|] == buf[..n] + p
    ensures n + |p| < 64 ==> Holds(hash, buf', n + |p|, msg + p)
    ensures n + |p| == 64 ==> Holds(Compress(hash, buf'), buf', 0, msg + p)
  {
    hide Compress, HashBlocks;
    if n + |p| == 64 {
      assert buf' == buf'[..64];
      BlockDone(msg, p, n, buf');
      assert (msg + p)[..|msg + p| - 0] == msg + p;
    } else {
      Buffered(msg, p, n, n + |p|);
    }
  }

  lemma BlockDone(m: seq<bv8>, p: seq<bv8>, n: nat, block: seq<bv8>)
    requires n == |m| % 64 && |p| == 64 - n && block == m[|m| - n..] + p
    ensures (|m| - n) % 64 == 0 == |m + p| % 64 && |m[..|m| - n]| == |m| - n && |block| == 64
    ensures HashBlocks(m + p) == Compress(HashBlocks(m[..|m| - n]), block)
  {
    hide Compress;
    WholeBlocks(|m|, n, |p|);
    var m' := m + p;
    assert m'[..|m'| - 64] == m[..|m| - n];
    assert m'[|m'| - 64..] == block;
  }

  lemma WholeBlocks(len: nat, n: nat, more: nat)
    requires n == len % 64 && more == 64 - n
    ensures (len - n) % 64 == 0 == (len + more) % 64
  {
  }

  /** The new bytes do not fill the block: they stay buffered. */
  lemma Buffered(m: seq<bv8>, p: seq<bv8>, n: nat, n': nat)
    requires n == |m| % 64 && n' == n + |p| < 64
    ensures n' == |m + p| % 64
    ensures (m + p)[..|m + p| - n'] == m[..|m| - n] && (m + p)[|m + p| - n'..] == m[|m| - n..] + p
  {
  }

  lemma ZeroCount(len: nat, z: nat)
    requires z <= ZeroBytes(len)
    ensures (len + 1 + z) % 64 == 56 <==> z == ZeroBytes(len)
  {
  }

  lemma WordHex(x: bv32)
    ensures SetW(PlainHex(x as nat), 8) == HexWord(x)
  {
    assert Pow16(4) == 0x1_0000;
    assert Pow16(8) == 0x1_0000_0000;
    PaddedHex(x as nat, 8);
  }

  lemma HexWordsOfHash(ws: seq<bv32>)
    requires |ws| == 8
    ensures HexWords(ws) == HexHash(HashOf(ws))
  {
    hide HexWords;
    assert [ws[0], ws[1], ws[2], ws[3], ws[4], ws[5], ws[6], ws[7]] == ws;
  }

  lemma HexWordsNext(ws: seq<bv32>, k: nat)
    requires k < |ws|
    ensures HexWords(ws[..k + 1]) == HexWords(ws[..k]) + HexWord(ws[k])
  {
    assert ws[..k + 1][..k] == ws[..k];
  }

  // ---------- callers ----------

  function Concat(pieces: seq<seq<bv8>>): seq<bv8> {
    if pieces == [] then [] else Concat(pieces[..|pieces| - 1]) + pieces[|pieces| - 1]
  }

  /** A message hashed piece by piece has the digest of the whole, wherever it is cut. */
  method HashPieces(pieces: seq<seq<bv8>>) returns (s: string)
    requires |Concat(pieces)| < TWO_61
    ensures s == HexDigest(Concat(pieces))
  {
    var hasher := new Sha256();
    for i := 0 to |pieces|
      invariant fresh(hasher) && fresh(hasher.h) && fresh(hasher.buf) && hasher.Valid()
      invariant hasher.msg == Concat(pieces[..i])
    {
      assert pieces[..i + 1][..i] == pieces[..i];
      hasher.Update(pieces[i]);
    }
    assert pieces[..|pieces|] == pieces;
    s := hasher.HexFinal();
  }

  /** banner_cache_key: the cache entry's name is the banner's SHA-256. */
  method BannerCacheKey(banner: seq<bv8>) returns (s: string)
    requires |banner| < TWO_61
    ensures s == HexDigest(banner)
  {
    var hasher := new Sha256();
    hasher.Update(banner);
    assert [] + banner == banner;
    s := hasher.HexFinal();
  }
}
