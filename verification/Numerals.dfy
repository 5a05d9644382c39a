/** Decimal numerals as src/util.c writes and reads them: `simple_itoa` and `boa_atoi`. */
module Numerals {

  /** Largest value of a 32-bit signed `int`. */
  const INT_MAX := 0x7FFF_FFFF
  /** Largest value of a 32-bit `unsigned int`. */
  const UINT_MAX := 0xFFFF_FFFF

  predicate IsDigit(c: char) {
    '0' <= c <= '9'
  }

  function DigitChar(d: nat): (c: char)
    requires d < 10
    ensures IsDigit(c) && DigitValue(c) == d
  {
    '0' + d as char
  }

  function DigitValue(c: char): (d: nat)
    requires IsDigit(c)
    ensures d < 10
  {
    c as int - '0' as int
  }

  /** The canonical numeral of n: no leading zero, most significant digit first. */
  function Decimal(n: nat): (s: string)
    ensures s != []
  {
    if n < 10 then [DigitChar(n)] else Decimal(n / 10) + [DigitChar(n % 10)]
  }

  predicate AllDigits(s: string) {
    forall i :: 0 <= i < |s| ==> IsDigit(s[i])
  }

  /** The number a digit string denotes, leading zeros included. */
  function Value(s: string): nat
    requires AllDigits(s)
  {
    if s == [] then 0 else 10 * Value(s[..|s| - 1]) + DigitValue(s[|s| - 1])
  }

  lemma {:induction false} DecimalDenotes(n: nat)
    ensures AllDigits(Decimal(n)) && Value(Decimal(n)) == n
  {
    if n < 10 {
      assert Decimal(n)[..0] == [];
    } else {
      DecimalDenotes(n / 10);
      var s := Decimal(n);
      assert s[..|s| - 1] == Decimal(n / 10);
    }
  }

  /** A digit string is some number's numeral exactly when it has no leading zero. */
  predicate Canonical(s: string) {
    s != [] && AllDigits(s) && (s[0] == '0' ==> |s| == 1)
  }

  lemma {:induction false} DecimalIsCanonical(n: nat)
    ensures Canonical(Decimal(n))
    ensures Decimal(n)[0] == '0' ==> n == 0
  {
    DecimalDenotes(n);
    if n >= 10 {
      DecimalIsCanonical(n / 10);
    }
  }

  lemma {:induction false} CanonicalIsDecimal(s: string)
    requires Canonical(s)
    ensures s == Decimal(Value(s))
    ensures s[0] != '0' ==> Value(s) > 0
  {
    var init := s[..|s| - 1];
    if |s| == 1 {
      assert init == [];
    } else {
      CanonicalIsDecimal(init);
      assert s == init + [s[|s| - 1]];
    }
  }

  lemma {:induction false} DecimalLength(n: nat, k: nat, bound: nat)
    requires k > 0 && bound == Pow10(k) && n < bound
    ensures |Decimal(n)| <= k
  {
    if n >= 10 {
      assert k > 1;
      assert n / 10 < Pow10(k - 1);
      DecimalLength(n / 10, k - 1, Pow10(k - 1));
    }
  }

  function Pow10(k: nat): nat {
    if k == 0 then 1 else 10 * Pow10(k - 1)
  }

  /** Every unsigned int fits the ten characters the comment in `simple_itoa` counts on. */
  lemma UnsignedFits(n: nat)
    requires n <= UINT_MAX
    ensures 1 <= |Decimal(n)| <= 10
  {
    assert Pow10(10) == 10_000_000_000 by {
      assert Pow10(4) == 10_000;
      assert Pow10(7) == 10_000_000;
    }
    DecimalLength(n, 10, 10_000_000_000);
  }

  /** `simple_itoa`: fills a 22-byte scratch area from the right and returns the text found there. */
  method SimpleItoa(i: nat) returns (text: string)
    requires i <= UINT_MAX
    ensures text == Decimal(i)
  {
    UnsignedFits(i);
    var local := new char[22](_ => '\0');
    var p := 21;
    var rest := i;
    p := p - 1;
    local[p] := DigitChar(rest % 10);
    rest := rest / 10;
    while rest != 0
      invariant 0 < p <= 20
      invariant local[21] == '\0'
      invariant Decimal(i) == (if rest == 0 then [] else Decimal(rest)) + local[p..21]
      decreases rest
    {
      assert Decimal(rest) == (if rest < 10 then [] else Decimal(rest / 10)) + [DigitChar(rest % 10)];
      assert p > 11;
      ghost var tail := local[p..21];
      p := p - 1;
      local[p] := DigitChar(rest % 10);
      assert local[p..21] == [DigitChar(rest % 10)] + tail;
      rest := rest / 10;
    }
    text := local[p..21];
  }

  /** What the C library's `atoi` returns for a string that starts with a digit: the value of the
      longest digit prefix, clamped as `strtol` clamps a 32-bit long. */
  function DigitPrefix(s: string): (p: string)
    ensures p <= s && AllDigits(p)
    ensures |p| < |s| ==> !IsDigit(s[|p|])
  {
    if s == [] || !IsDigit(s[0]) then [] else [s[0]] + DigitPrefix(s[1..])
  }

  function Atoi(s: string): int {
    var v := Value(DigitPrefix(s));
    if v > INT_MAX then INT_MAX else v
  }

  /** `boa_atoi`: -1 unless converting back gives the same characters. `memcmp` runs over
      strlen(s) bytes of the reconverted text, whose own NUL ends the agreement. */
  method BoaAtoi(s: string) returns (r: int)
    requires '\0' !in s
    ensures r >= 0 <==> Canonical(s) && Value(s) <= INT_MAX
    ensures r >= 0 ==> s == Decimal(r)
    ensures r < 0 ==> r == -1
  {
    if s == [] || !IsDigit(s[0]) {
      return -1;
    }
    var retval := Atoi(s);
    var reconv := SimpleItoa(retval);
    if !(s <= reconv) {
      if Canonical(s) && Value(s) <= INT_MAX {
        WholePrefix(s);
        CanonicalIsDecimal(s);
      }
      return -1;
    }
    RoundTrip(s, retval);
    return retval;
  }

  lemma {:induction false} WholePrefix(s: string)
    requires AllDigits(s)
    ensures DigitPrefix(s) == s
  {
    if s != [] {
      WholePrefix(s[1..]);
    }
  }

  lemma {:induction false} PrefixBound(s: string, t: string)
    requires AllDigits(t) && s <= t
    ensures Value(s) <= Value(t)
    ensures |s| < |t| && s != [] && s[0] != '0' ==> Value(s) < Value(t)
  {
    if |s| == |t| {
      assert s == t;
    } else {
      var u := t[..|t| - 1];
      assert s <= u;
      PrefixBound(s, u);
      if s != [] && s[0] != '0' {
        CanonicalIsDecimal(s);
      }
    }
  }

  /** A digit-initial prefix of the reconverted numeral is the whole numeral. */
  lemma RoundTrip(s: string, r: nat)
    requires s != [] && IsDigit(s[0]) && s <= Decimal(r) && r == Atoi(s)
    ensures Canonical(s) && s == Decimal(r) && Value(s) == r
  {
    DecimalDenotes(r);
    DecimalIsCanonical(r);
    var d := Decimal(r);
    assert AllDigits(s) by {
      assert forall i :: 0 <= i < |s| ==> s[i] == d[i];
    }
    WholePrefix(s);
    PrefixBound(s, d);
    assert s[0] == d[0];
  }
}
