/**
 The names flattened fields and repeated types get (src/symbols/btf_to_isf.cpp): a
 decimal suffix settles collisions.
 */
module FieldNames {

  function Digit(d: nat): char
    requires d < 10
  {
    ['0', '1', '2', '3', '4', '5', '6', '7', '8', '9'][d]
  }

  predicate IsDigit(c: char) { '0' <= c <= '9' }

  predicate AllDigits(s: string) {
    forall c | c in s :: IsDigit(c)
  }

  function Decimal(n: nat): (s: string)
    ensures s != ""
  {
    if n < 10 then [Digit(n)] else Decimal(n / 10) + [Digit(n % 10)]
  }

  lemma {:induction false} DecimalDigits(n: nat)
    ensures AllDigits(Decimal(n))
  {
    if n >= 10 {
      DecimalDigits(n / 10);
    }
  }

  /** The number a string of digits stands for. */
  function ValueOf(s: string): nat
    requires AllDigits(s)
  {
    if s == "" then 0
    else
      var c := s[|s| - 1];
      assert IsDigit(c);
      10 * ValueOf(s[..|s| - 1]) + (c as int - '0' as int)
  }

  /** A number's digits read as that number. */
  lemma {:induction false} DecimalReads(n: nat)
    ensures AllDigits(Decimal(n)) && ValueOf(Decimal(n)) == n
  {
    DecimalDigits(n);
    if n >= 10 {
      DecimalReads(n / 10);
      assert Decimal(n)[..|Decimal(n)| - 1] == Decimal(n / 10);
    } else {
      assert [Digit(n)][..0] == [];
    }
  }

  lemma {:induction false} DecimalInjective(a: nat, b: nat)
    requires Decimal(a) == Decimal(b)
    ensures a == b
    decreases a
  {
    var s := Decimal(a);
    assert s[|s| - 1] == Digit(a % 10) == Digit(b % 10);
    DigitInjective(a % 10, b % 10);
    if a >= 10 {
      assert s[..|s| - 1] == Decimal(a / 10);
      if b >= 10 {
        assert s[..|s| - 1] == Decimal(b / 10);
        DecimalInjective(a / 10, b / 10);
      }
    }
  }

  lemma DigitInjective(a: nat, b: nat)
    requires a < 10 && b < 10 && Digit(a) == Digit(b)
    ensures a == b
  {
    assert Digit(a) == '0' + a as char;
    assert Digit(b) == '0' + b as char;
  }

  function Suffixed(name: string, n: nat): string {
    name + "_" + Decimal(n)
  }

  /** A name that ends in an underscore and decimal digits. */
  ghost predicate EndsInNumber(s: string) {
    exists i :: 0 <= i < |s| - 1 && s[i] == '_' && AllDigits(s[i + 1..])
  }

  lemma SuffixedEnds(name: string, n: nat)
    ensures EndsInNumber(Suffixed(name, n))
  {
    var s := Suffixed(name, n);
    DecimalDigits(n);
    assert s[|name|] == '_' && s[|name| + 1..] == Decimal(n);
  }

  /** A suffixed name tells its number, whatever stands before it. */
  lemma SuffixUnique(a: string, m: nat, b: string, n: nat)
    requires Suffixed(a, m) == Suffixed(b, n)
    ensures m == n
  {
    SuffixNotLonger(a, m, b, n);
    SuffixNotLonger(b, n, a, m);
    assert Suffixed(a, m)[|a| + 1..] == Decimal(m) && Suffixed(b, n)[|b| + 1..] == Decimal(n);
    DecimalInjective(m, n);
  }

  lemma SuffixNotLonger(a: string, m: nat, b: string, n: nat)
    requires Suffixed(a, m) == Suffixed(b, n)
    ensures |a| <= |b|
  {
    assert Suffixed(a, m)[|a|] == '_';
    if |a| > |b| {
      DigitAfter(b, n, |a|);
    }
  }

  lemma DigitAfter(b: string, n: nat, k: nat)
    requires |b| < k < |Suffixed(b, n)|
    ensures IsDigit(Suffixed(b, n)[k])
  {
    DecimalDigits(n);
    assert Suffixed(b, n)[k] == Decimal(n)[k - |b| - 1];
  }
}
