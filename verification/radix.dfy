/**
  Positional notation for non-negative integers, as JavaScript's
  `Number.prototype.toString(radix)` writes them: lowercase digits, most
  significant first, no leading zero except for the number 0 itself.
  The component uses radix 16 for colours and radix 10 (template-literal
  interpolation) for the indices of its exports.
 */
module Radix {

  /** The radixes this model handles: enough for decimal and hexadecimal. */
  predicate IsRadix(radix: nat) {
    2 <= radix <= 16
  }

  function Pow(b: nat, k: nat): nat {
    if k == 0 then 1 else b * Pow(b, k - 1)
  }

  /** A character of the lowercase digit alphabet `0-9a-f`. */
  predicate IsLowerHexChar(c: char) {
    '0' <= c <= '9' || 'a' <= c <= 'f'
  }

  function DigitValue(c: char): (d: nat)
    requires IsLowerHexChar(c)
    ensures d < 16
    ensures d < 10 <==> '0' <= c <= '9'
  {
    if c <= '9' then c as int - '0' as int else c as int - 'a' as int + 10
  }

  function DigitChar(d: nat): (c: char)
    requires d < 16
    ensures IsLowerHexChar(c)
    ensures DigitValue(c) == d
  {
    if d < 10 then ('0' as int + d) as char else ('a' as int + d - 10) as char
  }

  predicate IsDigit(c: char, radix: nat) {
    IsLowerHexChar(c) && DigitValue(c) < radix
  }

  predicate AllDigits(s: string, radix: nat) {
    forall i :: 0 <= i < |s| ==> IsDigit(s[i], radix)
  }

  /** No leading zero, except the single digit "0". */
  predicate IsCanonical(s: string) {
    |s| >= 1 && (s[0] == '0' ==> |s| == 1)
  }

  function Zeros(k: nat): (z: string)
    ensures |z| == k
    ensures forall i :: 0 <= i < k ==> z[i] == '0'
  {
    seq(k, _ => '0')
  }

  /** `n.toString(radix)` for a non-negative integer `n`. */
  function ToString(n: nat, radix: nat): (s: string)
    requires IsRadix(radix)
    ensures AllDigits(s, radix)
    ensures IsCanonical(s)
    ensures s[0] == '0' <==> n == 0
    decreases n
  {
    if n < radix then [DigitChar(n)]
    else
      DivModShrinks(n, radix);
      ToString(n / radix, radix) + [DigitChar(n % radix)]
  }

  /** The value of a digit string, most significant digit first; "" reads as 0. */
  function Parse(s: string, radix: nat): nat
    requires IsRadix(radix) && AllDigits(s, radix)
    decreases |s|
  {
    if s == [] then 0
    else
      DropLastDigit(s, radix);
      Parse(s[..|s| - 1], radix) * radix + DigitValue(s[|s| - 1])
  }

  lemma DropLastDigit(s: string, radix: nat)
    requires |s| > 0 && AllDigits(s, radix)
    ensures AllDigits(s[..|s| - 1], radix)
    ensures IsDigit(s[|s| - 1], radix)
  {
  }

  /** A string of k digits is worth less than radix^k. */
  lemma {:induction false} ParseBound(s: string, radix: nat)
    requires IsRadix(radix) && AllDigits(s, radix)
    ensures Parse(s, radix) < Pow(radix, |s|)
    decreases |s|
  {
    if s != [] {
      var t := s[..|s| - 1];
      DropLastDigit(s, radix);
      ParseBound(t, radix);
      var p, d := Parse(t, radix), DigitValue(s[|s| - 1]);
      MulStrict(p, Pow(radix, |t|), d, radix);
      assert Pow(radix, |s|) == radix * Pow(radix, |t|);
    }
  }

  lemma MulStrict(a: nat, b: nat, d: nat, r: nat)
    requires a < b && d < r
    ensures a * r + d < b * r
  {
    assert (a + 1) * r <= b * r;
  }

  lemma MulMonotone(a: nat, b: nat, r: nat)
    requires a <= b
    ensures a * r <= b * r
  {
  }

  lemma PowMonotone(b: nat, j: nat, k: nat)
    requires b >= 1 && j <= k
    ensures Pow(b, j) <= Pow(b, k)
    decreases k
  {
    if j < k {
      PowMonotone(b, j, k - 1);
    }
  }

  /** Reading back what `ToString` wrote yields the number. */
  lemma {:induction false} ParseToString(n: nat, radix: nat)
    requires IsRadix(radix)
    ensures Parse(ToString(n, radix), radix) == n
    decreases n
  {
    var s := ToString(n, radix);
    if n < radix {
      assert s[..|s| - 1] == [];
    } else {
      var q, m := n / radix, n % radix;
      DivModShrinks(n, radix);
      ParseToString(q, radix);
      var t := s[..|s| - 1];
      assert t == ToString(q, radix);
      assert DigitValue(s[|s| - 1]) == m;
      assert Parse(s, radix) == Parse(t, radix) * radix + DigitValue(s[|s| - 1]);
    }
  }

  /** Every canonical digit string is what `ToString` writes for its value. */
  lemma {:induction false} ToStringParse(s: string, radix: nat)
    requires IsRadix(radix) && AllDigits(s, radix) && IsCanonical(s)
    ensures ToString(Parse(s, radix), radix) == s
    decreases |s|
  {
    var n := Parse(s, radix);
    if |s| == 1 {
      assert s[..0] == [];
      assert Parse(s[..0], radix) == 0;
      assert n == Parse(s[..0], radix) * radix + DigitValue(s[0]);
      assert [DigitChar(n)] == s;
    } else {
      var t := s[..|s| - 1];
      var d := DigitValue(s[|s| - 1]);
      assert t[0] == s[0];
      ParseLowerBound(t, radix);
      ToStringParse(t, radix);
      var p := Parse(t, radix);
      assert n == p * radix + d;
      DivModOfDigits(p, d, radix);
      assert p >= 1;
      MulMonotone(1, p, radix);
      assert n >= radix;
      assert ToString(n, radix) == ToString(p, radix) + [DigitChar(d)];
      assert DigitChar(d) == s[|s| - 1];
      assert s == t + [s[|s| - 1]];
    }
  }

  lemma DivModShrinks(n: nat, radix: nat)
    requires 2 <= radix <= n
    ensures 1 <= n / radix < n
    ensures n % radix < radix
    ensures n == (n / radix) * radix + n % radix
  {
    var q, m := n / radix, n % radix;
    assert n == q * radix + m && 0 <= m < radix;
    MulMonotone(2, radix, q);
    assert q * radix >= q * 2;
  }

  lemma DivModOfDigits(p: nat, d: nat, radix: nat)
    requires d < radix
    ensures (p * radix + d) / radix == p
    ensures (p * radix + d) % radix == d
  {
    var n := p * radix + d;
    var q, m := n / radix, n % radix;
    assert n == q * radix + m && 0 <= m < radix;
    if q < p {
      MulStrict(q, p, m, radix);
    } else if p < q {
      MulStrict(p, q, d, radix);
    }
  }

  /** A digit string that starts with a non-zero digit is worth at least radix^(|s|-1). */
  lemma {:induction false} ParseLowerBound(s: string, radix: nat)
    requires IsRadix(radix) && AllDigits(s, radix)
    requires |s| >= 1 && s[0] != '0'
    ensures Parse(s, radix) >= Pow(radix, |s| - 1)
    decreases |s|
  {
    var t := s[..|s| - 1];
    if |s| == 1 {
      assert t == [];
    } else {
      assert t[0] == s[0];
      ParseLowerBound(t, radix);
      var p := Parse(t, radix);
      assert Parse(s, radix) >= p * radix;
      MulMonotone(Pow(radix, |t| - 1), p, radix);
      assert Pow(radix, |s| - 1) == radix * Pow(radix, |t| - 1);
    }
  }

  /** `ToString(n)` fits in k digits exactly when n < radix^k. */
  lemma ToStringFits(n: nat, radix: nat, k: nat)
    requires IsRadix(radix) && k >= 1
    ensures |ToString(n, radix)| <= k <==> n < Pow(radix, k)
  {
    var s := ToString(n, radix);
    ParseToString(n, radix);
    ParseBound(s, radix);
    if |s| <= k {
      PowMonotone(radix, |s|, k);
    } else {
      ParseLowerBound(s, radix);
      PowMonotone(radix, k, |s| - 1);
    }
  }

  /** Leading zeros do not change the value. */
  lemma {:induction false} ParseLeadingZeros(k: nat, s: string, radix: nat)
    requires IsRadix(radix) && AllDigits(s, radix)
    ensures AllDigits(Zeros(k) + s, radix)
    ensures Parse(Zeros(k) + s, radix) == Parse(s, radix)
    decreases |s|
  {
    var z := Zeros(k);
    assert AllDigits(z + s, radix) by {
      forall i | 0 <= i < |z + s|
        ensures IsDigit((z + s)[i], radix)
      {
        if i < k {
          assert (z + s)[i] == '0';
        } else {
          assert (z + s)[i] == s[i - k];
        }
      }
    }
    if s == [] {
      assert z + s == z;
      ParseZeros(k, radix);
    } else {
      var t := s[..|s| - 1];
      assert (z + s)[..|z + s| - 1] == z + t;
      ParseLeadingZeros(k, t, radix);
    }
  }

  lemma {:induction false} ParseZeros(k: nat, radix: nat)
    requires IsRadix(radix)
    ensures AllDigits(Zeros(k), radix)
    ensures Parse(Zeros(k), radix) == 0
    decreases k
  {
    if k > 0 {
      assert Zeros(k)[..k - 1] == Zeros(k - 1);
      ParseZeros(k - 1, radix);
    }
  }

  /** Two digit strings of the same length with the same value are the same string. */
  lemma {:induction false} ParseInjective(a: string, b: string, radix: nat)
    requires IsRadix(radix) && AllDigits(a, radix) && AllDigits(b, radix)
    requires |a| == |b| && Parse(a, radix) == Parse(b, radix)
    ensures a == b
    decreases |a|
  {
    if |a| > 0 {
      var a', b' := a[..|a| - 1], b[..|b| - 1];
      var x, y := a[|a| - 1], b[|b| - 1];
      var pa, pb := Parse(a', radix), Parse(b', radix);
      if pa < pb {
        MulStrict(pa, pb, DigitValue(x), radix);
      } else if pb < pa {
        MulStrict(pb, pa, DigitValue(y), radix);
      }
      ParseInjective(a', b', radix);
      assert DigitChar(DigitValue(x)) == x;
      assert DigitChar(DigitValue(y)) == y;
      assert a == a' + [x] && b == b' + [y];
    }
  }
}
