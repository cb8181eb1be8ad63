/**
 Where the words of SHA-256 come from (FIPS 180-4, sections 4.2.2 and 5.3.3): the first
 32 bits of the fractional parts of the cube roots of the first 64 primes, and of the
 square roots of the first eight.
 */
module Sha256Constants {
  import opened Words
  import opened Sha256Standard

  const PRIMES: seq<seq<nat>> := [
    [2, 3, 5, 7, 11, 13, 17, 19],
    [23, 29, 31, 37, 41, 43, 47, 53],
    [59, 61, 67, 71, 73, 79, 83, 89],
    [97, 101, 103, 107, 109, 113, 127, 131],
    [137, 139, 149, 151, 157, 163, 167, 173],
    [179, 181, 191, 193, 197, 199, 211, 223],
    [227, 229, 233, 239, 241, 251, 257, 263],
    [269, 271, 277, 281, 283, 293, 307, 311]
  ]

  function Square(x: nat): nat { x * x }
  function Cube(x: nat): nat { x * x * x }

  /** The whole part of the cube root of a number below 343. */
  function WholeCubeRoot(p: nat): nat {
    if p < 8 then 1 else if p < 27 then 2 else if p < 64 then 3 else if p < 125 then 4 else if p < 216 then 5 else 6
  }

  /** The whole part of the square root of a number below 25. */
  function WholeSquareRoot(p: nat): nat {
    if p < 4 then 1 else if p < 9 then 2 else if p < 16 then 3 else 4
  }

  /** The whole part with k as the first 32 bits of a fraction is not above the root, and the next such number is. */
  predicate CubeRootBits(p: nat, k: nat) {
    var x := WholeCubeRoot(p) * TWO_32 + k;
    Cube(x) <= p * Cube(TWO_32) < Cube(x + 1)
  }

  predicate SquareRootBits(p: nat, k: nat) {
    var x := WholeSquareRoot(p) * TWO_32 + k;
    Square(x) <= p * Square(TWO_32) < Square(x + 1)
  }

  ghost predicate RowCheck(ps: seq<nat>, ks: seq<bv32>)
    requires |ps| == 8 == |ks|
  {
    && CubeRootBits(ps[0], ks[0] as nat) && CubeRootBits(ps[1], ks[1] as nat)
    && CubeRootBits(ps[2], ks[2] as nat) && CubeRootBits(ps[3], ks[3] as nat)
    && CubeRootBits(ps[4], ks[4] as nat) && CubeRootBits(ps[5], ks[5] as nat)
    && CubeRootBits(ps[6], ks[6] as nat) && CubeRootBits(ps[7], ks[7] as nat)
  }

  lemma Row0()
    ensures RowCheck(PRIMES[0], K_ROWS[0])
  {
  }

  lemma Row1()
    ensures RowCheck(PRIMES[1], K_ROWS[1])
  {
  }

  lemma Row2()
    ensures RowCheck(PRIMES[2], K_ROWS[2])
  {
  }

  lemma Row3()
    ensures RowCheck(PRIMES[3], K_ROWS[3])
  {
  }

  lemma Row4()
    ensures RowCheck(PRIMES[4], K_ROWS[4])
  {
  }

  lemma Row5()
    ensures RowCheck(PRIMES[5], K_ROWS[5])
  {
  }

  lemma Row6()
    ensures RowCheck(PRIMES[6], K_ROWS[6])
  {
  }

  lemma Row7()
    ensures RowCheck(PRIMES[7], K_ROWS[7])
  {
  }

  lemma RowAt(ps: seq<nat>, ks: seq<bv32>, c: nat)
    requires |ps| == 8 == |ks| && RowCheck(ps, ks) && c < 8
    ensures CubeRootBits(ps[c], ks[c] as nat)
  {
    hide CubeRootBits;
  }

  /** Each round constant is what the standard says of it. */
  lemma RoundConstants(t: nat)
    requires t < 64
    ensures CubeRootBits(PRIMES[t / 8][t % 8], K(t) as nat)
  {
    hide RowCheck, CubeRootBits;
    Row0();
    Row1();
    Row2();
    Row3();
    Row4();
    Row5();
    Row6();
    Row7();
    RowAt(PRIMES[t / 8], K_ROWS[t / 8], t % 8);
  }

  lemma InitialValue()
    ensures SquareRootBits(2, H0.a as nat)
    ensures SquareRootBits(3, H0.b as nat)
    ensures SquareRootBits(5, H0.c as nat)
    ensures SquareRootBits(7, H0.d as nat)
    ensures SquareRootBits(11, H0.e as nat)
    ensures SquareRootBits(13, H0.f as nat)
    ensures SquareRootBits(17, H0.g as nat)
    ensures SquareRootBits(19, H0.h as nat)
  {
  }

  /** Bits that leave on the right come back on the left. */
  lemma RotationExamples()
    ensures Rotr(1, 1) == 0x8000_0000 && Rotr(0x8000_0000, 1) == 0x4000_0000
    ensures Rotr(0x1234_5678, 8) == 0x7812_3456
  {
  }

  /** The length field has its most significant byte first. */
  lemma LengthExample()
    ensures LengthField(0x0102_0304_0506_0708) == [1, 2, 3, 4, 5, 6, 7, 8]
  {
    hide LengthField, ByteOf;
    var v := 0x0102_0304_0506_0708;
    LowBytes(v);
    HighBytes(v);
    assert |LengthField(v)| == 8;
  }

  lemma LowBytes(v: nat)
    requires v == 0x0102_0304_0506_0708
    ensures ByteOf(v, 0) == 8 && ByteOf(v, 1) == 7 && ByteOf(v, 2) == 6 && ByteOf(v, 3) == 5
  {
    hide Pow256;
    Pow256Values();
    assert Pow256(0) == 1 by { NoBytes(); }
    assert v / 0x100 % 256 == 7 && v / 0x1_0000 % 256 == 6 && v / 0x100_0000 % 256 == 5;
  }

  lemma NoBytes()
    ensures Pow256(0) == 1
  {
  }

  lemma HighBytes(v: nat)
    requires v == 0x0102_0304_0506_0708
    ensures ByteOf(v, 4) == 4 && ByteOf(v, 5) == 3 && ByteOf(v, 6) == 2 && ByteOf(v, 7) == 1
  {
    hide Pow256;
    HigherPowers();
    assert v / 0x1_0000_0000 % 256 == 4 && v / 0x100_0000_0000 % 256 == 3;
    assert v / 0x1_0000_0000_0000 % 256 == 2 && v / 0x100_0000_0000_0000 % 256 == 1;
  }

  lemma HigherPowers()
    ensures Pow256(4) == 0x1_0000_0000 && Pow256(5) == 0x100_0000_0000
    ensures Pow256(6) == 0x1_0000_0000_0000 && Pow256(7) == 0x100_0000_0000_0000
  {
    Pow256Values();
    assert Pow256(5) == 256 * Pow256(4) && Pow256(6) == 256 * Pow256(5) && Pow256(7) == 256 * Pow256(6);
  }
}
