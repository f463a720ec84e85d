/**
  Decimal rendering of non-negative integers, as JavaScript's `n + ''`
  produces it for a timestamp or a day of the month, together with the
  digit-string reading that inverts it.
 */
module Decimal {

  predicate IsDigit(c: char) {
    '0' <= c <= '9'
  }

  predicate AllDigits(s: string) {
    forall i | 0 <= i < |s| :: IsDigit(s[i])
  }

  function DigitValue(c: char): (d: nat)
    requires IsDigit(c)
    ensures d < 10
  {
    c as int - '0' as int
  }

  function DigitChar(d: nat): (c: char)
    requires d < 10
    ensures IsDigit(c) && DigitValue(c) == d
  {
    ('0' as int + d) as char
  }

  function Pow10(k: nat): (p: nat)
    ensures p >= 1
  {
    if k == 0 then 1 else 10 * Pow10(k - 1)
  }

  /** `n + ''`: the shortest decimal numeral of `n`, without sign or leading zero. */
  function FromNat(n: nat): (s: string)
    ensures |s| >= 1 && AllDigits(s)
    ensures (s[0] == '0') == (n == 0)
  {
    if n < 10 then [DigitChar(n)]
    else
      var s := FromNat(n / 10) + [DigitChar(n % 10)];
      assert s[0] == FromNat(n / 10)[0];
      s
  }

  /** The value of a string of decimal digits; leading zeros are allowed. */
  function ToNat(s: string): nat
    requires AllDigits(s)
  {
    if s == [] then 0 else ToNat(s[..|s| - 1]) * 10 + DigitValue(s[|s| - 1])
  }

  /** A numeral of L digits names a number in [10^(L-1), 10^L), or 0 when L is 1. */
  lemma {:induction false} NumeralBounds(n: nat)
    ensures n < Pow10(|FromNat(n)|)
    ensures |FromNat(n)| > 1 ==> Pow10(|FromNat(n)| - 1) <= n
  {
    if n >= 10 {
      var q := n / 10;
      NumeralBounds(q);
      var l := |FromNat(q)|;
      assert |FromNat(n)| == l + 1;
      assert n == 10 * q + n % 10;
      assert Pow10(l + 1) == 10 * Pow10(l);
    }
  }

  lemma Pow10Monotonic(j: nat, k: nat)
    requires j <= k
    ensures Pow10(j) <= Pow10(k)
  {
    if j < k {
      Pow10Monotonic(j, k - 1);
    }
  }

  /** A number of at least 10^k has a numeral longer than `k` digits. */
  lemma LongNumeral(n: nat, k: nat)
    ensures Pow10(k) <= n ==> |FromNat(n)| > k
  {
    NumeralBounds(n);
    if |FromNat(n)| <= k {
      Pow10Monotonic(|FromNat(n)|, k);
    }
  }

  lemma DigitsSuffix(s: string, j: nat)
    requires AllDigits(s) && j <= |s|
    ensures AllDigits(s[j..])
  {
    forall i | 0 <= i < |s| - j ensures IsDigit(s[j..][i]) {
      assert s[j..][i] == s[j + i];
    }
  }

  /** Reading back a rendered numeral gives the number rendered. */
  lemma {:induction false} ToNatFromNat(n: nat)
    ensures ToNat(FromNat(n)) == n
  {
    var s := FromNat(n);
    if n >= 10 {
      ToNatFromNat(n / 10);
      assert s[..|s| - 1] == FromNat(n / 10);
    }
  }

  /** Rendering is injective: distinct numbers have distinct numerals. */
  lemma FromNatInjective(m: nat, n: nat)
    requires FromNat(m) == FromNat(n)
    ensures m == n
  {
    ToNatFromNat(m);
    ToNatFromNat(n);
  }

  /** Two digit strings of the same length with the same value are the same string. */
  lemma {:induction false} ToNatInjective(a: string, b: string)
    requires AllDigits(a) && AllDigits(b) && |a| == |b|
    requires ToNat(a) == ToNat(b)
    ensures a == b
  {
    if a != [] {
      var k := |a| - 1;
      var a', b' := a[..k], b[..k];
      assert a == a' + [a[k]] && b == b' + [b[k]];
      ToNatSnoc(a', a[k]);
      ToNatSnoc(b', b[k]);
      DivModUnique(ToNat(a'), DigitValue(a[k]), ToNat(b'), DigitValue(b[k]));
      ToNatInjective(a', b');
    }
  }

  lemma DivModUnique(q1: nat, r1: nat, q2: nat, r2: nat)
    requires r1 < 10 && r2 < 10
    requires q1 * 10 + r1 == q2 * 10 + r2
    ensures q1 == q2 && r1 == r2
  {
  }

  /** Splitting off the lowest decimal digit commutes with reduction modulo 10^(k+1). */
  lemma ModPow10Step(n: nat, k: nat)
    ensures (n / 10) % Pow10(k) * 10 + n % 10 == n % Pow10(k + 1)
  {
    ModTenStep(n, Pow10(k));
  }

  lemma ModTenStep(n: nat, p: nat)
    requires p > 0
    ensures (n / 10) % p * 10 + n % 10 == n % (10 * p)
  {
    var q, r := n / 10, n % 10;
    var a, b := q / p, q % p;
    assert q == p * a + b;
    assert n == 10 * q + r;
    assert 10 * q == (10 * p) * a + 10 * b by {
      MulAssociates(10, p, a);
    }
    ModUnique(n, 10 * p, a, 10 * b + r);
  }

  lemma MulAssociates(x: int, y: int, z: int)
    ensures x * (y * z) == (x * y) * z
  {
  }

  lemma ModUnique(n: nat, m: nat, a: nat, b: nat)
    requires m > 0 && b < m && n == m * a + b
    ensures n % m == b
  {
    var a', b' := n / m, n % m;
    assert n == m * a' + b';
    if a < a' {
      MulAtLeast(m, a' - a);
    } else if a' < a {
      MulAtLeast(m, a - a');
    }
  }

  lemma MulAtLeast(m: nat, d: nat)
    requires d >= 1
    ensures m * d >= m
  {
  }

  lemma ToNatSnoc(s: string, c: char)
    requires AllDigits(s) && IsDigit(c)
    ensures AllDigits(s + [c])
    ensures ToNat(s + [c]) == ToNat(s) * 10 + DigitValue(c)
  {
    assert (s + [c])[..|s|] == s;
  }

  /** The last `k` characters of the numeral of `n` spell `n` modulo 10^k. */
  lemma SuffixValue(n: nat, k: nat)
    requires k <= |FromNat(n)|
    ensures AllDigits(FromNat(n)[|FromNat(n)| - k..])
    ensures ToNat(FromNat(n)[|FromNat(n)| - k..]) == n % Pow10(k)
  {
    SuffixMod(FromNat(n), k);
    ToNatFromNat(n);
  }

  /** The last `k` digits of a digit string spell its value modulo 10^k. */
  lemma {:induction false} SuffixMod(s: string, k: nat)
    requires AllDigits(s) && k <= |s|
    ensures AllDigits(s[|s| - k..])
    ensures ToNat(s[|s| - k..]) == ToNat(s) % Pow10(k)
  {
    DigitsSuffix(s, |s| - k);
    if k == 0 {
      assert s[|s|..] == [];
    } else {
      var p, c := s[..|s| - 1], s[|s| - 1];
      assert s == p + [c];
      DigitsSuffix(s, 0);
      assert AllDigits(p) by {
        forall i | 0 <= i < |p| ensures IsDigit(p[i]) {
          assert p[i] == s[i];
        }
      }
      var t' := p[|p| - (k - 1)..];
      SuffixMod(p, k - 1);
      assert s[|s| - k..] == t' + [c];
      ToNatSnoc(t', c);
      ToNatSnoc(p, c);
      ModStep(ToNat(p), DigitValue(c), k - 1);
    }
  }

  /** Appending digit `d` to a number multiplies it by ten and adds `d`, also modulo powers of ten. */
  lemma ModStep(x: nat, d: nat, k: nat)
    requires d < 10
    ensures (x % Pow10(k)) * 10 + d == (x * 10 + d) % Pow10(k + 1)
  {
    var n := x * 10 + d;
    assert n / 10 == x && n % 10 == d;
    ModPow10Step(n, k);
  }
}
