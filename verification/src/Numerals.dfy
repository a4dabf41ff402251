/** Positional numerals as text, most significant digit first: the reference that every
    digit loop of rprintf.c is compared with.
 */
module Numerals {
  import opened Machine

  const LOWER: Byte := 97  // 'a', used by rprintf2RamRom
  const UPPER: Byte := 65  // 'A', used by HexChars

  function Glyph(d: nat, alpha: Byte): Byte
    requires d < 16 && alpha <= 240
  {
    if d < 10 then 48 + d else alpha + d - 10
  }

  function DigitValue(c: Byte): (d: nat)
    ensures d < 16
  {
    if 48 <= c <= 57 then c - 48
    else if 97 <= c <= 102 then c - 87
    else if 65 <= c <= 70 then c - 55
    else 0
  }

  /** The digits are 0123456789abcdef and 0123456789ABCDEF. */
  lemma {:induction false} DigitTable(d: nat)
    requires d < 16
    ensures var lower := [48, 49, 50, 51, 52, 53, 54, 55, 56, 57, 97, 98, 99, 100, 101, 102];
            var upper := [48, 49, 50, 51, 52, 53, 54, 55, 56, 57, 65, 66, 67, 68, 69, 70];
            && Glyph(d, LOWER) == lower[d] && Glyph(d, UPPER) == upper[d]
            && DigitValue(lower[d]) == DigitValue(upper[d]) == d
  {}

  predicate IsDigit(c: Byte) {
    48 <= c <= 57
  }

  predicate Letters(alpha: Byte) {
    alpha == LOWER || alpha == UPPER
  }

  lemma {:induction false} DivShrinks(n: nat, b: nat)
    requires 2 <= b <= n
    ensures 0 < n / b < n && n == b * (n / b) + n % b
  {
    assert n == b * (n / b) + n % b;
  }

  function Numeral(n: nat, b: nat, alpha: Byte): (t: seq<Byte>)
    requires 2 <= b <= 16 && Letters(alpha)
    ensures |t| > 0
  {
    if n < b then [Glyph(n, alpha)]
    else DivShrinks(n, b); Numeral(n / b, b, alpha) + [Glyph(n % b, alpha)]
  }

  function Decimal(n: nat): (t: seq<Byte>)
    ensures |t| > 0
  {
    Numeral(n, 10, LOWER)
  }

  /** The number a digit string denotes. */
  function Horner(t: seq<Byte>, b: nat): nat {
    if t == [] then 0 else b * Horner(t[..|t| - 1], b) + DigitValue(t[|t| - 1])
  }

  predicate IsGlyph(c: Byte, b: nat, alpha: Byte)
    requires 2 <= b <= 16 && Letters(alpha)
  {
    DigitValue(c) < b && c == Glyph(DigitValue(c), alpha)
  }

  /** A canonical numeral: digits of the base only, and no leading zero except for 0. */
  predicate IsNumeral(t: seq<Byte>, b: nat, alpha: Byte)
    requires 2 <= b <= 16 && Letters(alpha)
  {
    && |t| > 0
    && (forall i :: 0 <= i < |t| ==> IsGlyph(t[i], b, alpha))
    && (|t| > 1 ==> t[0] != 48)
  }

  lemma {:induction false} AppendGlyph(t: seq<Byte>, r: nat, b: nat, alpha: Byte)
    requires 2 <= b <= 16 && Letters(alpha) && r < b
    requires IsNumeral(t, b, alpha) && t[0] != 48
    ensures IsNumeral(t + [Glyph(r, alpha)], b, alpha)
    ensures Horner(t + [Glyph(r, alpha)], b) == b * Horner(t, b) + r
  {
    var u := t + [Glyph(r, alpha)];
    assert u[..|u| - 1] == t;
  }

  lemma {:induction false} NumeralIsCanonical(n: nat, b: nat, alpha: Byte)
    requires 2 <= b <= 16 && Letters(alpha)
    ensures IsNumeral(Numeral(n, b, alpha), b, alpha)
    ensures Horner(Numeral(n, b, alpha), b) == n
    ensures Numeral(n, b, alpha)[0] == 48 <==> n == 0
    decreases n
  {
    hide IsNumeral, Horner, Numeral;
    if n < b {
      SingleGlyph(n, b, alpha);
    } else {
      NumeralUnfold(n, b, alpha);
      NumeralIsCanonical(n / b, b, alpha);
      AppendGlyph(Numeral(n / b, b, alpha), n % b, b, alpha);
    }
  }

  lemma {:induction false} NumeralUnfold(n: nat, b: nat, alpha: Byte)
    requires 2 <= b <= 16 && Letters(alpha) && n >= b
    ensures 0 < n / b < n && n == b * (n / b) + n % b
    ensures Numeral(n, b, alpha) == Numeral(n / b, b, alpha) + [Glyph(n % b, alpha)]
  {
    DivShrinks(n, b);
  }

  /** One turn of a digit loop peels the last glyph off the numeral. */
  lemma {:induction false} LastGlyph(n: nat, b: nat, alpha: Byte)
    requires 2 <= b <= 16 && Letters(alpha)
    ensures var q := Quotient(n, b);
            && (q > 0 ==> q < n)
            && Numeral(n, b, alpha) ==
               (if q > 0 then Numeral(q, b, alpha) else []) + [Glyph(Remainder(n, b), alpha)]
  {
    hide Numeral;
    if n < b {
      DivModUnique(b, 0, n);
      SingleGlyph(n, b, alpha);
    } else {
      NumeralUnfold(n, b, alpha);
    }
  }

  lemma {:induction false} SingleGlyph(d: nat, b: nat, alpha: Byte)
    requires d < b && 2 <= b <= 16 && Letters(alpha)
    ensures IsNumeral([Glyph(d, alpha)], b, alpha)
    ensures Horner([Glyph(d, alpha)], b) == d
    ensures Numeral(d, b, alpha) == [Glyph(d, alpha)]
  {
    assert [Glyph(d, alpha)][..0] == [];
  }

  lemma {:induction false} HornerPositive(t: seq<Byte>, b: nat, alpha: Byte)
    requires 2 <= b <= 16 && Letters(alpha)
    requires IsNumeral(t, b, alpha) && t[0] != 48
    ensures Horner(t, b) > 0
  {
    if |t| == 1 {
      assert t[..0] == [];
      assert IsGlyph(t[0], b, alpha);
    } else {
      var init := t[..|t| - 1];
      assert IsNumeral(init, b, alpha);
      HornerPositive(init, b, alpha);
      MulAtLeast(b, Horner(init, b));
    }
  }

  lemma {:induction false} MulAtLeast(b: nat, k: int)
    requires k >= 1
    ensures b * k >= b
  {}

  lemma {:induction false} Euclid(n: nat, b: nat)
    requires b > 0
    ensures n == b * Quotient(n, b) + Remainder(n, b)
  {}

  lemma {:induction false} DivModUnique(b: nat, q: nat, r: nat)
    requires r < b
    ensures (b * q + r) / b == q && (b * q + r) % b == r
  {
    var n := b * q + r;
    var d := n / b - q;
    assert b * d == r - n % b by {
      assert n == b * (n / b) + n % b;
      assert b * d == b * (n / b) - b * q;
    }
    if d >= 1 {
      MulAtLeast(b, d);
    } else if d <= -1 {
      MulAtLeast(b, -d);
    }
  }

  lemma {:induction false} NumeralStep(q: nat, r: nat, b: nat, alpha: Byte)
    requires 2 <= b <= 16 && Letters(alpha) && q > 0 && r < b
    ensures Numeral(b * q + r, b, alpha) == Numeral(q, b, alpha) + [Glyph(r, alpha)]
  {
    DivModUnique(b, q, r);
    MulAtLeast(b, q);
  }

  /** There is only one canonical numeral for each number. */
  lemma {:induction false} NumeralIsUnique(t: seq<Byte>, b: nat, alpha: Byte)
    requires 2 <= b <= 16 && Letters(alpha)
    requires IsNumeral(t, b, alpha)
    ensures Numeral(Horner(t, b), b, alpha) == t
  {
    hide Numeral;
    var init, d := t[..|t| - 1], DigitValue(t[|t| - 1]);
    assert IsGlyph(t[|t| - 1], b, alpha);
    assert t == init + [Glyph(d, alpha)];
    if |t| == 1 {
      assert Horner(t, b) == d;
      SingleGlyph(d, b, alpha);
    } else {
      assert IsNumeral(init, b, alpha);
      NumeralIsUnique(init, b, alpha);
      HornerPositive(init, b, alpha);
      NumeralStep(Horner(init, b), d, b, alpha);
    }
  }

  /** `k` digits are enough exactly for the numbers below b^k. */
  lemma {:induction false} NumeralLength(n: nat, b: nat, alpha: Byte, k: nat)
    requires 2 <= b <= 16 && Letters(alpha) && k > 0
    ensures |Numeral(n, b, alpha)| <= k <==> n < Pow(b, k)
    decreases k
  {
    hide Numeral;
    var p := Pow(b, k - 1);
    assert Pow(b, k) == b * p;
    if n < b {
      SingleGlyph(n, b, alpha);
      PowGrows(b, k);
    } else if k == 1 {
      assert p == 1;
      NumeralUnfold(n, b, alpha);
    } else {
      NumeralUnfold(n, b, alpha);
      NumeralLength(n / b, b, alpha, k - 1);
      DivBound(n, b, p);
    }
  }

  lemma {:induction false} PowPositive(b: nat, k: nat)
    requires b > 0
    ensures Pow(b, k) > 0
  {
    if k > 0 {
      PowPositive(b, k - 1);
      MulAtLeast(b, Pow(b, k - 1));
    }
  }

  lemma {:induction false} PowGrows(b: nat, k: nat)
    requires b >= 2 && k > 0
    ensures Pow(b, k) >= b
  {
    if k > 1 {
      PowGrows(b, k - 1);
    }
  }

  lemma {:induction false} DivBound(n: nat, b: nat, p: nat)
    requires b > 0
    ensures n / b < p <==> n < b * p
  {
    assert n == b * (n / b) + n % b;
    if n / b < p {
      assert b * (n / b) <= b * (p - 1);
    } else {
      assert b * (n / b) >= b * p;
    }
  }
}
