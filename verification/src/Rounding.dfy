/** What C's division does to a rational number: it truncates toward zero, which is not always
    the closest integer.
 */
module Rounding {
  import opened Machine
  import opened Numerals

  /** How far the integer `v` is from the rational n/d, times |d|. */
  function Miss(n: int, d: int, v: int): nat {
    Abs(n - d * v)
  }

  /** No integer is closer to n/d. */
  ghost predicate Closest(n: int, d: int, v: int) {
    forall w: int :: Miss(n, d, v) <= Miss(n, d, w)
  }

  lemma {:induction false} AbsProduct(x: int, y: int)
    ensures Abs(x * y) == Abs(x) * Abs(y)
  {
    assert x * y == Abs(x) * Abs(y) || x * y == -(Abs(x) * Abs(y));
    assert Abs(x) * Abs(y) >= 0;
  }

  /** What is cut off is the remainder of the magnitudes, with the sign of the number. */
  lemma {:induction false} TruncRemainder(n: int, d: int)
    requires d != 0
    ensures n - d * TruncDiv(n, d) == if n < 0 then -(Abs(n) % Abs(d)) else Abs(n) % Abs(d)
  {
    Euclid(Abs(n), Abs(d));
    SignedRemainder(n, d, Abs(n) / Abs(d), Abs(n) % Abs(d));
  }

  lemma {:induction false} SignedRemainder(n: int, d: int, q: int, r: int)
    requires Abs(n) == Abs(d) * q + r
    ensures n - d * (if (n < 0) == (d < 0) then q else -q) == if n < 0 then -r else r
  {
    assert d < 0 ==> Abs(d) * q == -(d * q);
    assert d * -q == -(d * q);
  }

  /** The result is less than one unit from the true value. */
  lemma {:induction false} TruncWithinOne(n: int, d: int)
    requires d != 0
    ensures Miss(n, d, TruncDiv(n, d)) == Abs(n) % Abs(d) < Abs(d)
  {
    hide TruncDiv;
    TruncRemainder(n, d);
    Euclid(Abs(n), Abs(d));
  }

  /** A multiple of the divisor is divided exactly. */
  lemma {:induction false} TruncExact(d: int, v: int, n: int)
    requires d != 0 && n == d * v
    ensures TruncDiv(n, d) == v
  {
    AbsProduct(d, v);
    DivModUnique(Abs(d), Abs(v), 0);
    ProductSign(d, v);
  }

  lemma {:induction false} ProductSign(x: int, y: int)
    ensures x * y > 0 <==> x != 0 && y != 0 && (x < 0) == (y < 0)
    ensures x * y == 0 <==> x == 0 || y == 0
  {
    if x > 0 && y > 0 {
      assert x * y > 0;
    } else if x < 0 && y < 0 {
      assert x * y > 0;
    } else if x != 0 && y != 0 {
      assert x * y < 0;
    }
  }

  lemma {:induction false} FloorOfEqualRatios(n: nat, d: nat, m: nat, q: nat)
    requires d > 0 && q > 0 && q * n == d * m
    ensures n / d == m / q
  {
    var k, r := m / q, m % q;
    Euclid(m, q);
    Rearrange(n, d, m, q, k, r);
    var s := n - d * k;
    Between(q, s, d, r);
    assert n == d * k + s;
    DivModUnique(d, k, s);
  }

  lemma {:induction false} Rearrange(n: int, d: int, m: int, q: int, k: int, r: int)
    requires q * n == d * m && m == q * k + r
    ensures q * (n - d * k) == d * r
  {
    assert d * (q * k + r) == d * (q * k) + d * r;
    assert d * (q * k) == q * (d * k);
    assert q * (n - d * k) == q * n - q * (d * k);
  }

  lemma {:induction false} Between(q: int, s: int, d: int, r: int)
    requires q > 0 && d > 0 && 0 <= r < q && q * s == d * r
    ensures 0 <= s < d
  {
    assert 0 <= d * r < d * q;
  }

  lemma {:induction false} FloorsAgree(n: int, d: int, m: int, q: int)
    requires d != 0 && q != 0 && q * n == d * m
    ensures Abs(n) / Abs(d) == Abs(m) / Abs(q)
  {
    AbsProduct(q, n);
    AbsProduct(d, m);
    assert Abs(d) > 0 && Abs(q) > 0;
    hide Abs;
    FloorOfEqualRatios(Abs(n), Abs(d), Abs(m), Abs(q));
  }

  lemma {:induction false} SignsAgree(n: int, d: int, m: int, q: int)
    requires d != 0 && q != 0 && q * n == d * m
    ensures n == 0 <==> m == 0
    ensures n != 0 ==> ((n < 0) == (d < 0) <==> (m < 0) == (q < 0))
  {
    ProductSign(q, n);
    ProductSign(d, m);
  }

  /** Equal rationals truncate to the same integer. */
  lemma {:induction false} TruncOfEqualRatios(n: int, d: int, m: int, q: int)
    requires d != 0 && q != 0 && q * n == d * m
    ensures TruncDiv(n, d) == TruncDiv(m, q)
  {
    FloorsAgree(n, d, m, q);
    SignsAgree(n, d, m, q);
    if n == 0 {
      DivModUnique(Abs(d), 0, 0);
    }
  }

  /** Truncation gives a closest integer exactly when at most half a unit is cut off. */
  lemma {:induction false} TruncClosestExactly(n: int, d: int)
    requires d != 0
    ensures Closest(n, d, TruncDiv(n, d)) <==> 2 * (Abs(n) % Abs(d)) <= Abs(d)
  {
    hide TruncDiv, Miss;
    var t, r := TruncDiv(n, d), Abs(n) % Abs(d);
    TruncWithinOne(n, d);
    if 2 * r <= Abs(d) {
      forall w: int ensures Miss(n, d, t) <= Miss(n, d, w) {
        OtherMiss(n, d, t, w);
      }
    } else {
      var w := if (n < 0) == (d < 0) then t + 1 else t - 1;
      NextMiss(n, d);
      assert Miss(n, d, w) < Miss(n, d, t);
    }
  }

  /** Two integers cannot both be close: their misses add up to the distance between them. */
  lemma {:induction false} MissesAdd(n: int, d: int, t: int, w: int)
    ensures Miss(n, d, w) + Miss(n, d, t) >= Abs(d) * Abs(t - w)
  {
    AbsProduct(d, t - w);
    assert d * (t - w) == d * t - d * w;
  }

  lemma {:induction false} OtherMiss(n: int, d: int, t: int, w: int)
    ensures w == t || Miss(n, d, w) >= Abs(d) - Miss(n, d, t)
  {
    if w != t {
      hide Miss;
      MissesAdd(n, d, t, w);
      MulAtLeast(Abs(d), Abs(t - w));
    }
  }

  lemma {:induction false} FarMiss(n: int, d: int, t: int, w: int)
    requires Abs(t - w) >= 2
    ensures Miss(n, d, w) >= 2 * Abs(d) - Miss(n, d, t)
  {
    hide Miss, Abs;
    MissesAdd(n, d, t, w);
    AtLeastTwice(Abs(d), Abs(t - w));
  }

  lemma {:induction false} AtLeastTwice(b: nat, k: nat)
    requires k >= 2
    ensures b * k >= 2 * b
  {
    assert b * (k - 2) >= 0;
  }

  /** Stored in 32 bits, the result is less than one unit from the true value exactly when it fits,
      and a closest integer exactly when besides at most half a unit is cut off. */
  lemma {:induction false} StoredMiss(n: int, d: int)
    requires d != 0
    ensures var t := TruncDiv(n, d);
            && (Miss(n, d, ToInt(t)) < Abs(d) <==> INT_MIN <= t < 0x8000_0000)
            && (Closest(n, d, ToInt(t)) <==> INT_MIN <= t < 0x8000_0000 && 2 * (Abs(n) % Abs(d)) <= Abs(d))
  {
    hide TruncDiv, Miss, ToInt;
    var t := TruncDiv(n, d);
    TruncWithinOne(n, d);
    TruncClosestExactly(n, d);
    ToIntExact(t);
    if ToInt(t) != t {
      var k := ToIntCongruent(t);
      FarMiss(n, d, t, ToInt(t));
    }
  }

  lemma {:induction false} NextMiss(n: int, d: int)
    requires d != 0
    ensures var w := TruncDiv(n, d) + if (n < 0) == (d < 0) then 1 else -1;
            Miss(n, d, w) == Abs(d) - Abs(n) % Abs(d)
  {
    hide TruncDiv;
    TruncRemainder(n, d);
    Euclid(Abs(n), Abs(d));
    var t := TruncDiv(n, d);
    assert d * (t + 1) == d * t + d && d * (t - 1) == d * t - d;
  }

  /** k/d is at least 0 and less than 1. */
  predicate Fraction(k: int, d: int) {
    if d > 0 then 0 <= k < d else d < k <= 0
  }

  /** A positive result of truncation is exactly what a fraction was cut off from. */
  lemma {:induction false} TruncToPositive(n: int, d: int, v: int)
    requires d != 0 && v > 0
    ensures TruncDiv(n, d) == v <==> Fraction(n - d * v, d)
  {
    if Fraction(n - d * v, d) {
      FractionCutOff(n, d, v);
    } else if TruncDiv(n, d) == v {
      hide TruncDiv;
      TruncRemainder(n, d);
      Euclid(Abs(n), Abs(d));
      ProductSign(d, v);
    }
  }

  lemma {:induction false} FractionCutOff(n: int, d: int, v: int)
    requires d != 0 && v > 0 && Fraction(n - d * v, d)
    ensures TruncDiv(n, d) == v
  {
    var r := Abs(n - d * v);
    ProductSign(d, v);
    AbsProduct(d, v);
    assert Abs(n) == Abs(d) * v + r && r < Abs(d) && (n < 0) == (d < 0);
    QuotientFrom(Abs(n), Abs(d), v, r);
  }

  lemma {:induction false} QuotientFrom(n: nat, d: nat, q: nat, r: nat)
    requires r < d && n == d * q + r
    ensures n / d == q
  {
    DivModUnique(d, q, r);
  }

  lemma {:induction false} TruncNegated(n: int, d: int)
    requires d != 0
    ensures TruncDiv(-n, d) == -TruncDiv(n, d)
  {
    if n == 0 {
      DivModUnique(Abs(d), 0, 0);
    }
  }

  /** k/d is j times 2^32 and a fraction, which points the same way as j. */
  predicate FractionPast(k: int, d: int, j: int) {
    var rest := k - d * (j * 0x1_0000_0000);
    Fraction(if j >= 0 then rest else -rest, d)
  }

  /** k/d is a fraction, apart from a multiple of 2^32. */
  ghost predicate WrappedFraction(k: int, d: int) {
    exists j: int :: FractionPast(k, d, j)
  }

  lemma {:induction false} TruncToShifted(n: int, d: int, v: int, j: int)
    requires d != 0 && 0 < v < 0x8000_0000
    ensures TruncDiv(n, d) == v + j * 0x1_0000_0000 <==> FractionPast(n - d * v, d, j)
  {
    hide TruncDiv, Fraction;
    var w := v + j * 0x1_0000_0000;
    assert d * w == d * v + d * (j * 0x1_0000_0000);
    if j >= 0 {
      TruncToPositive(n, d, w);
    } else {
      TruncNegated(n, d);
      assert d * -w == -(d * w);
      TruncToPositive(-n, d, -w);
    }
  }

  /** A positive int is what is stored exactly when the quotient exceeds it by a fraction, or by a
      multiple of 2^32 and a fraction. */
  lemma {:induction false} TruncStored(n: int, d: int, v: int)
    requires d != 0 && 0 < v < 0x8000_0000
    ensures ToInt(TruncDiv(n, d)) == v <==> WrappedFraction(n - d * v, d)
  {
    hide TruncDiv, ToInt, FractionPast;
    var t, k := TruncDiv(n, d), n - d * v;
    if ToInt(t) == v {
      var j := ToIntCongruent(t);
      TruncToShifted(n, d, v, j);
      assert FractionPast(k, d, j);
    }
    if WrappedFraction(k, d) {
      var j: int :| FractionPast(k, d, j);
      TruncToShifted(n, d, v, j);
      ToIntShift(v, j);
      ToIntExact(v);
    }
  }
}
