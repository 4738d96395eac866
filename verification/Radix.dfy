/** Positional numerals, most significant digit first, and long multiplication in place. */
module Radix {

  function Pow(b: nat, e: nat): nat {
    if e == 0 then 1 else b * Pow(b, e - 1)
  }

  lemma {:induction false} PowPositive(b: nat, e: nat)
    requires b > 0
    ensures Pow(b, e) > 0
  {
    if e > 0 {
      PowPositive(b, e - 1);
    }
  }

  lemma MulAssociative(a: int, b: int, c: int)
    ensures (a * b) * c == a * (b * c)
  {
  }

  lemma {:induction false} PowAdd(b: nat, m: nat, n: nat)
    ensures Pow(b, m + n) == Pow(b, m) * Pow(b, n)
    decreases m
  {
    if m > 0 {
      PowAdd(b, m - 1, n);
      MulAssociative(b, Pow(b, m - 1), Pow(b, n));
    }
  }

  lemma {:induction false} PowPow(b: nat, m: nat, n: nat)
    ensures Pow(Pow(b, m), n) == Pow(b, m * n)
    decreases n
  {
    if n == 0 {
      assert m * n == 0;
    } else {
      PowPow(b, m, n - 1);
      PowAdd(b, m, m * (n - 1));
      assert m * n == m + m * (n - 1);
    }
  }

  lemma MulMonotone(a: nat, b: nat, c: nat, d: nat)
    requires a <= b && c <= d
    ensures a * c <= b * d
  {
  }

  lemma {:induction false} PowBaseMonotone(a: nat, b: nat, e: nat)
    requires a <= b
    ensures Pow(a, e) <= Pow(b, e)
    decreases e
  {
    if e > 0 {
      PowBaseMonotone(a, b, e - 1);
      MulMonotone(a, b, Pow(a, e - 1), Pow(b, e - 1));
    }
  }

  lemma PowGrows(b: nat, m: nat, n: nat)
    requires b > 0 && m <= n
    ensures Pow(b, m) <= Pow(b, n)
  {
    PowAdd(b, m, n - m);
    PowPositive(b, n - m);
    MulMonotone(Pow(b, m), Pow(b, m), 1, Pow(b, n - m));
  }

  /** Larger powers come from larger bases. */
  lemma PowRoot(a: nat, b: nat, e: nat)
    requires Pow(a, e) < Pow(b, e)
    ensures a < b
  {
    if b <= a {
      PowBaseMonotone(b, a, e);
    }
  }

  ghost predicate Digits(base: nat, s: seq<nat>) {
    forall i :: 0 <= i < |s| ==> s[i] < base
  }

  /** What the digits s denote. */
  function Value(base: nat, s: seq<nat>): nat {
    if s == [] then 0 else Value(base, s[..|s| - 1]) * base + s[|s| - 1]
  }

  lemma ValueSnoc(base: nat, s: seq<nat>, d: nat)
    ensures Value(base, s + [d]) == Value(base, s) * base + d
  {
    assert (s + [d])[..|s|] == s;
  }

  lemma {:induction false} ValueAppend(base: nat, s: seq<nat>, t: seq<nat>)
    ensures Value(base, s + t) == Value(base, s) * Pow(base, |t|) + Value(base, t)
    decreases |t|
  {
    if t == [] {
      assert s + t == s;
    } else {
      var init, d := t[..|t| - 1], t[|t| - 1];
      assert s + t == (s + init) + [d] && t == init + [d];
      ValueAppend(base, s, init);
      ValueSnoc(base, s + init, d);
      ValueSnoc(base, init, d);
      hide *;
      PowStep(base, |t|);
      Distribute(Value(base, s), Pow(base, |init|), Value(base, init), base);
    }
  }

  lemma PowStep(b: nat, e: nat)
    requires e > 0
    ensures Pow(b, e) == b * Pow(b, e - 1)
  {
  }

  lemma Distribute(a: nat, p: nat, v: nat, base: nat)
    ensures (a * p + v) * base == a * (base * p) + v * base
  {
    MulAssociative(a, p, base);
  }

  lemma {:induction false} ValueBound(base: nat, s: seq<nat>)
    requires Digits(base, s)
    ensures Value(base, s) < Pow(base, |s|)
    decreases |s|
  {
    hide *;
    if s == [] {
      ValueOfNothing(base);
    } else {
      var n := |s| - 1;
      SplitLast(base, s);
      ValueBound(base, s[..n]);
      ValueSnoc(base, s[..n], s[n]);
      PowStep(base, |s|);
      MulMonotone(Value(base, s[..n]) + 1, Pow(base, n), base, base);
    }
  }

  lemma ValueOfNothing(base: nat)
    ensures Value(base, []) == 0 && Pow(base, 0) == 1
  {
  }

  lemma SplitLast(base: nat, s: seq<nat>)
    requires Digits(base, s) && s != []
    ensures s == s[..|s| - 1] + [s[|s| - 1]] && Digits(base, s[..|s| - 1]) && s[|s| - 1] < base
  {
  }

  lemma {:induction false} ValueOfZeros(base: nat, s: seq<nat>)
    requires forall i :: 0 <= i < |s| ==> s[i] == 0
    ensures Value(base, s) == 0
    decreases |s|
  {
    if s != [] {
      ValueOfZeros(base, s[..|s| - 1]);
    }
  }

  /** Leading zeros do not matter. */
  lemma ValueSkipsZeros(base: nat, s: seq<nat>, k: nat)
    requires k <= |s| && forall i :: 0 <= i < k ==> s[i] == 0
    ensures Value(base, s) == Value(base, s[k..])
  {
    ValueOfZeros(base, s[..k]);
    ValueAppend(base, s[..k], s[k..]);
    assert s == s[..k] + s[k..];
  }

  lemma DivMod(base: nat, q: nat, r: nat)
    requires r < base
    ensures (q * base + r) / base == q && (q * base + r) % base == r
  {
    QuotientIs(base, q * base + r, q, r);
  }

  lemma QuotientIs(base: nat, x: nat, q: nat, r: nat)
    requires r < base && x == q * base + r
    ensures x / base == q && x % base == r
  {
    DivStep(base, x);
    QuotientAtMost(base, x, q, r, x / base, x % base);
    QuotientAtMost(base, x, x / base, x % base, q, r);
  }

  lemma QuotientAtMost(base: nat, x: nat, q: nat, r: nat, p: nat, t: nat)
    requires x == q * base + r && x == p * base + t && r < base
    ensures p <= q && (p == q ==> r == t)
  {
    if q < p {
      MulMonotone(q + 1, p, base, base);
      Successor(q, base);
    }
  }

  lemma Successor(q: nat, base: nat)
    ensures (q + 1) * base == q * base + base
  {
  }

  lemma DivStep(base: nat, n: nat)
    requires base > 0
    ensures n == (n / base) * base + n % base && n % base < base
    ensures base >= 2 && n > 0 ==> n / base < n
  {
    if base >= 2 && n > 0 && n / base >= n {
      MulMonotone(n, n / base, 2, base);
    }
  }

  /** Numerals of one length are told apart by their values. */
  lemma {:induction false} ValueInjective(base: nat, s: seq<nat>, t: seq<nat>)
    requires |s| == |t| && Digits(base, s) && Digits(base, t) && Value(base, s) == Value(base, t)
    ensures s == t
    decreases |s|
  {
    if s != [] {
      var n := |s| - 1;
      DivMod(base, Value(base, s[..n]), s[n]);
      DivMod(base, Value(base, t[..n]), t[n]);
      ValueInjective(base, s[..n], t[..n]);
      assert s == s[..n] + [s[n]] && t == t[..n] + [t[n]];
    }
  }

  /** The digits of n without leading zeros. */
  function MinimalDigits(base: nat, n: nat): (r: seq<nat>)
    requires base >= 2
    ensures Digits(base, r)
  {
    if n == 0 then [] else MinimalDigits(base, n / base) + [n % base]
  }

  lemma {:induction false} MinimalDigitsOfValue(base: nat, s: seq<nat>)
    requires base >= 2 && Digits(base, s) && (s != [] ==> s[0] > 0)
    ensures MinimalDigits(base, Value(base, s)) == s
    ensures s != [] ==> Value(base, s) > 0
    decreases |s|
  {
    if s != [] {
      var n := |s| - 1;
      var high := Value(base, s[..n]);
      assert Value(base, s) == high * base + s[n] && s == s[..n] + [s[n]];
      assert Digits(base, s[..n]) && s[n] < base && (n > 0 ==> s[..n][0] == s[0]);
      hide *;
      MinimalDigitsOfValue(base, s[..n]);
      DivMod(base, high, s[n]);
      if high == 0 {
        assert n == 0;
      } else {
        MulMonotone(1, high, base, base);
      }
      MinimalDigitsStep(base, high * base + s[n]);
    }
  }

  lemma MinimalDigitsStep(base: nat, n: nat)
    requires base >= 2 && n > 0
    ensures MinimalDigits(base, n) == MinimalDigits(base, n / base) + [n % base]
  {
  }

  lemma MinimalDigitsOfZero(base: nat)
    requires base >= 2
    ensures MinimalDigits(base, 0) == []
  {
  }

  lemma {:induction false} ValueOfMinimalDigits(base: nat, n: nat)
    requires base >= 2
    ensures Value(base, MinimalDigits(base, n)) == n
    ensures n > 0 ==> MinimalDigits(base, n)[0] > 0
    decreases n
  {
    MinimalDigitsOfZero(base);
    if n > 0 {
      hide *;
      var q, d := n / base, n % base;
      DivStep(base, n);
      ValueOfMinimalDigits(base, q);
      MinimalDigitsStep(base, n);
      var high := MinimalDigits(base, q);
      FromLastDigit(base, high + [d], high, n, q, d);
      if q == 0 {
        MinimalDigitsOfZero(base);
        ZeroTimes(base, 1);
      }
    }
  }

  lemma FromLastDigit(base: nat, s: seq<nat>, high: seq<nat>, n: nat, q: nat, d: nat)
    requires s == high + [d] && n == q * base + d && Value(base, high) == q
    ensures Value(base, s) == n
  {
    hide *;
    ValueSnoc(base, high, d);
  }

  lemma ZeroTimes(a: nat, b: nat)
    ensures 0 * a == 0 && (a * 0 + 0) * b == 0
  {
  }

  // Multiplying a numeral in place, from its last digit to its first.

  /** All but the first k digits of `orig` have been multiplied by `mult`, leaving a carry. */
  ghost predicate Carrying(base: nat, mult: nat, s: seq<nat>, orig: seq<nat>, k: nat, carry: nat, total: nat) {
    && k <= |s| == |orig| && Digits(base, s) && carry < mult
    && s[..k] == orig[..k]
    && (mult * Value(base, orig[..k]) + carry) * Pow(base, |s| - k) + Value(base, s[k..]) == total
  }

  lemma CarryStart(base: nat, mult: nat, s: seq<nat>, carry: nat)
    requires Digits(base, s) && carry < mult
    ensures Carrying(base, mult, s, s, |s|, carry, mult * Value(base, s) + carry)
  {
    assert s[..|s|] == s;
  }

  lemma CarryBound(base: nat, mult: nat, carry: nat, d: nat)
    requires carry < mult && d < base
    ensures (carry + mult * d) / base < mult
  {
    MulMonotone(mult, mult, d, base - 1);
    var c := carry + mult * d;
    assert c < mult * base;
    if c / base >= mult {
      MulMonotone(mult, c / base, base, base);
    }
  }

  /** One digit of the multiplication: what it is worth does not change. */
  lemma CarryWorth(base: nat, mult: nat, p: nat, v: nat, d: nat, carry: nat, low: nat)
    requires base > 0
    ensures var c := carry + mult * d;
      (mult * v + c / base) * (base * p) + (c % base * p + low) == (mult * (v * base + d) + carry) * p + low
  {
    var c := carry + mult * d;
    assert c == base * (c / base) + c % base;
    var q := mult * v + c / base;
    MulAssociative(q, base, p);
    MulAssociative(mult, v, base);
    assert q * base + c % base == mult * (v * base + d) + carry;
  }

  lemma CarryStep(base: nat, mult: nat, s: seq<nat>, orig: seq<nat>, k: nat, carry: nat, total: nat, c: nat)
    requires Carrying(base, mult, s, orig, k, carry, total) && k > 0 && c == carry + mult * s[k - 1]
    ensures base > 0 && Carrying(base, mult, s[k - 1 := c % base], orig, k - 1, c / base, total)
  {
    var d := s[k - 1];
    assert d < base;
    var p, low := Pow(base, |s| - k), s[k..];
    var t := s[k - 1 := c % base];
    assert t[k - 1..] == [c % base] + low && |low| == |s| - k;
    assert Digits(base, t) && t[..k - 1] == s[..k][..k - 1] == orig[..k][..k - 1] == orig[..k - 1];
    assert orig[..k] == orig[..k - 1] + [d] by {
      assert orig[..k][k - 1] == s[..k][k - 1];
    }
    hide Value, Pow, Digits;
    CarryBound(base, mult, carry, d);
    CarryWorth(base, mult, p, Value(base, orig[..k - 1]), d, carry, Value(base, low));
    ValueSnoc(base, orig[..k - 1], d);
    ValueAppend(base, [c % base], low);
    ValueOne(base, c % base);
    PowStep(base, |s| - (k - 1));
  }

  lemma ValueOne(base: nat, d: nat)
    ensures Value(base, [d]) == d
  {
    assert [d][..0] == [];
  }

  /** The multiplication is complete once all remaining digits are zero and nothing is carried. */
  lemma CarryEnd(base: nat, mult: nat, s: seq<nat>, orig: seq<nat>, k: nat, total: nat)
    requires Carrying(base, mult, s, orig, k, 0, total)
    requires forall i :: 0 <= i < k ==> s[i] == 0
    ensures Value(base, s) == total
  {
    assert forall i :: 0 <= i < k ==> orig[..k][i] == s[..k][i] == s[i];
    hide Value, Pow;
    ValueOfZeros(base, orig[..k]);
    ValueSkipsZeros(base, s, k);
    ZeroTimes(mult, Pow(base, |s| - k));
  }

  /** A carry out of the first digit means that the product does not fit. */
  lemma CarryOverflow(base: nat, mult: nat, s: seq<nat>, orig: seq<nat>, carry: nat, total: nat)
    requires Carrying(base, mult, s, orig, 0, carry, total)
    ensures carry > 0 ==> total >= Pow(base, |s|)
    ensures carry == 0 ==> total == Value(base, s) < Pow(base, |s|)
  {
    assert s[0..] == s && Value(base, orig[..0]) == 0;
    ValueBound(base, s);
    if carry > 0 {
      MulMonotone(1, carry, Pow(base, |s|), Pow(base, |s|));
    }
  }
}
