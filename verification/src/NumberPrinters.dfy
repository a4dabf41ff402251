/** The fixed-width printers: the nibble cascade rprintfu04/08/16/32 and the general
    rprintfNum, which fills a 32-byte buffer from the right.
 */
module NumberPrinters {
  import opened Machine
  import opened Numerals
  import C = Console

  /** The low `k` digits of `n`, leading zeros included. */
  function FixedDigits(n: nat, b: nat, k: nat): (t: seq<Byte>)
    requires 2 <= b <= 16
    ensures |t| == k
    decreases k
  {
    if k == 0 then [] else FixedDigits(Quotient(n, b), b, k - 1) + [Glyph(Remainder(n, b), UPPER)]
  }

  // ----- the nibble cascade

  method Rprintfu04(con: C.Console, data: Byte)
    requires con.Valid()
    modifies con
    ensures con.Valid() && con.log == old(con.log) + FixedDigits(data, 16, 1)
  {
    con.RprintfChar(Glyph(data % 16, UPPER));
  }

  method Rprintfu08(con: C.Console, data: Byte)
    requires con.Valid()
    modifies con
    ensures con.Valid() && con.log == old(con.log) + FixedDigits(data, 16, 2)
  {
    hide C.Wire, FixedDigits;
    FixedSplit(data, 16, 1, 1);
    assert Pow(16, 1) == 16;
    Rprintfu04(con, data / 16);
    Rprintfu04(con, data);
  }

  method Rprintfu16(con: C.Console, data: nat)
    requires con.Valid() && data < 0x1_0000
    modifies con
    ensures con.Valid() && con.log == old(con.log) + FixedDigits(data, 16, 4)
  {
    hide C.Wire, FixedDigits;
    FixedSplit(data, 16, 2, 2);
    assert Pow(16, 2) == 256;
    FixedMod(data, 16, 2);
    Rprintfu08(con, data / 256);
    Rprintfu08(con, data % 256);
  }

  method Rprintfu32(con: C.Console, data: Word)
    requires con.Valid()
    modifies con
    ensures con.Valid() && con.log == old(con.log) + FixedDigits(data, 16, 8)
  {
    hide C.Wire, FixedDigits;
    FixedSplit(data, 16, 4, 4);
    assert Pow(16, 4) == 0x1_0000;
    FixedMod(data, 16, 4);
    Rprintfu16(con, data / 0x1_0000);
    Rprintfu16(con, data % 0x1_0000);
  }

  /** Printing j + k digits is printing the high j and then the low k. */
  lemma {:induction false} FixedSplit(n: nat, b: nat, j: nat, k: nat)
    requires 2 <= b <= 16
    ensures Pow(b, k) > 0
    ensures FixedDigits(n, b, j + k) == FixedDigits(Quotient(n, Pow(b, k)), b, j) + FixedDigits(n, b, k)
    decreases k
  {
    PowPositive(b, k);
    if k == 0 {
      assert Quotient(n, 1) == n;
      assert FixedDigits(n, b, j) + [] == FixedDigits(n, b, j);
    } else {
      hide Quotient, Remainder;
      var p, m := Pow(b, k - 1), Quotient(n, b);
      FixedSplit(m, b, j, k - 1);
      DivModStep(n, b, p);
      var high, low, last := FixedDigits(Quotient(m, p), b, j), FixedDigits(m, b, k - 1), Glyph(Remainder(n, b), UPPER);
      assert high + low + [last] == high + (low + [last]);
    }
  }

  /** The low digits depend only on the number modulo b^k. */
  lemma {:induction false} FixedMod(n: nat, b: nat, k: nat)
    requires 2 <= b <= 16
    ensures Pow(b, k) > 0
    ensures FixedDigits(Remainder(n, Pow(b, k)), b, k) == FixedDigits(n, b, k)
    decreases k
  {
    hide Quotient, Remainder;
    PowPositive(b, k);
    if k > 0 {
      var p, m := Pow(b, k - 1), Quotient(n, b);
      FixedMod(m, b, k - 1);
      DivModStep(n, b, p);
      DivModFrom(Remainder(n, Pow(b, k)), b, Remainder(m, p), Remainder(n, b));
    }
  }

  /** The digits denote the number modulo b^k. */
  lemma {:induction false} FixedDenotes(n: nat, b: nat, k: nat)
    requires 2 <= b <= 16
    ensures Pow(b, k) > 0 && Horner(FixedDigits(n, b, k), b) == Remainder(n, Pow(b, k))
    decreases k
  {
    PowPositive(b, k);
    if k == 0 {
      assert Remainder(n, 1) == 0;
    } else {
      hide Quotient, Remainder;
      var p, m := Pow(b, k - 1), Quotient(n, b);
      FixedDenotes(m, b, k - 1);
      var t := FixedDigits(n, b, k);
      assert t[..|t| - 1] == FixedDigits(m, b, k - 1);
      DivModStep(n, b, p);
    }
  }

  lemma {:induction false} Recombine(b: nat, p: nat, q: nat, r: nat, s: nat)
    requires s < b && r < p
    ensures b * (p * q + r) + s == (b * p) * q + (b * r + s)
    ensures b * r + s < b * p
  {
    assert b * (p * q + r) == b * (p * q) + b * r;
    assert b * (p * q) == (b * p) * q;
    MulAtLeast(b, p - r);
    assert b * (p - r) == b * p - b * r;
  }

  /** Dividing by b and then by p is dividing by b * p. */
  lemma {:induction false} DivModStep(n: nat, b: nat, p: nat)
    requires b > 0 && p > 0
    ensures b * p > 0
    ensures Quotient(n, b * p) == Quotient(Quotient(n, b), p)
    ensures Remainder(n, b * p) == b * Remainder(Quotient(n, b), p) + Remainder(n, b)
  {
    hide Quotient, Remainder;
    var m := Quotient(n, b);
    var q, r, s := Quotient(m, p), Remainder(m, p), Remainder(n, b);
    MulAtLeast(b, p);
    Euclid(n, b);
    Euclid(m, p);
    Recombine(b, p, q, r, s);
    DivModFrom(n, b * p, q, b * r + s);
  }

  lemma {:induction false} DivModFrom(n: nat, c: nat, q: nat, r: nat)
    requires r < c && n == c * q + r
    ensures Quotient(n, c) == q && Remainder(n, c) == r
  {
    DivModUnique(c, q, r);
  }

  /** A digit position holds 0 to 9 or A to F. */
  lemma {:induction false} FixedGlyphs(n: nat, b: nat, k: nat)
    requires 2 <= b <= 16
    ensures forall i :: 0 <= i < k ==>
              48 <= FixedDigits(n, b, k)[i] <= 57 || (b > 10 && 65 <= FixedDigits(n, b, k)[i] <= 70)
    decreases k
  {
    hide Quotient, Remainder;
    if k > 0 {
      FixedGlyphs(Quotient(n, b), b, k - 1);
    }
  }

  // ----- rprintfNum

  /** The magnitude that is printed: a signed negative number is negated, and an unsigned print
      takes the bits as they are. The most negative long negates to 2^31, which a Word holds. */
  function Magnitude(isSigned: bool, n: Int32): Word {
    if isSigned && n < 0 then -(n as int) else ToWord(n)
  }

  function SignChar(n: Int32): Byte {
    if n < 0 then MINUS else if n > 0 then PLUS else SPACE
  }

  /** `m` bytes: the numeral padded on the left, or its last `m` digits when it is longer. */
  function RightAligned(t: seq<Byte>, m: nat, pad: Byte): (r: seq<Byte>)
    ensures |r| == m
  {
    if |t| <= m then Fill(pad, m - |t|) + t else t[|t| - m..]
  }

  /** `hexchar(d)`: the table is indexed with the low four bits. */
  function HexChar(d: nat): Byte {
    Glyph(d % 16, UPPER)
  }

  /** `k` characters to the left of those printed so far, `x` being what is left of the number. */
  function LeftPart(x: nat, base: nat, k: nat, pad: Byte): (t: seq<Byte>)
    requires base > 0
    ensures |t| == k
    decreases k
  {
    if k == 0 then []
    else if x == 0 then Fill(pad, k)
    else LeftPart(Quotient(x, base), base, k - 1, pad) + [HexChar(Remainder(x, base))]
  }

  /** `m` characters, the last digit being printed in any case. */
  function Body(x: nat, base: nat, m: nat, pad: Byte): (t: seq<Byte>)
    requires base > 0 && m > 0
    ensures |t| == m
  {
    LeftPart(Quotient(x, base), base, m - 1, pad) + [HexChar(Remainder(x, base))]
  }

  /** The specification of rprintfNum: the sign leftmost, before the padding. */
  function NumText(base: nat, numDigits: nat, isSigned: bool, pad: Byte, n: Int32): (t: seq<Byte>)
    requires base > 0 && (if isSigned then 2 else 1) <= numDigits
    ensures |t| == numDigits
  {
    var x := Magnitude(isSigned, n);
    if isSigned then [SignChar(n)] + Body(x, base, numDigits - 1, pad) else Body(x, base, numDigits, pad)
  }

  // In the bases that have digits, this is the numeral.

  lemma {:induction false} AlignedSnoc(t: seq<Byte>, c: Byte, k: nat, pad: Byte)
    ensures RightAligned(t + [c], k + 1, pad) == RightAligned(t, k, pad) + [c]
  {
    hide Fill;
    if |t| <= k {
      assert Fill(pad, k - |t|) + (t + [c]) == Fill(pad, k - |t|) + t + [c];
    }
  }

  lemma {:induction false} HexCharOfDigit(d: nat)
    requires d < 16
    ensures HexChar(d) == Glyph(d, UPPER)
  {}

  lemma {:induction false} LeftPartIsAligned(x: nat, base: nat, k: nat, pad: Byte)
    requires 2 <= base <= 16
    ensures LeftPart(x, base, k, pad) ==
            RightAligned(if x == 0 then [] else Numeral(x, base, UPPER), k, pad)
    decreases k
  {
    hide Numeral, Quotient, Remainder, HexChar, Fill;
    if x == 0 {
      assert Fill(pad, k) + [] == Fill(pad, k);
    } else if k > 0 {
      var q, c := Quotient(x, base), HexChar(Remainder(x, base));
      LastGlyph(x, base, UPPER);
      HexCharOfDigit(Remainder(x, base));
      LeftPartIsAligned(q, base, k - 1, pad);
      AlignedSnoc(if q == 0 then [] else Numeral(q, base, UPPER), c, k - 1, pad);
    }
  }

  /** The numeral padded on the left, or its last digits when it is longer. */
  lemma {:induction false} BodyIsAligned(x: nat, base: nat, m: nat, pad: Byte)
    requires 2 <= base <= 16 && m > 0
    ensures Body(x, base, m, pad) == RightAligned(Numeral(x, base, UPPER), m, pad)
  {
    hide Numeral, Quotient, Remainder, HexChar, LeftPart, RightAligned;
    var q, c := Quotient(x, base), HexChar(Remainder(x, base));
    LastGlyph(x, base, UPPER);
    HexCharOfDigit(Remainder(x, base));
    LeftPartIsAligned(q, base, m - 1, pad);
    AlignedSnoc(if q == 0 then [] else Numeral(q, base, UPPER), c, m - 1, pad);
  }

  /** `*--p = c` */
  method Prepend(buf: array<Byte>, p: nat, c: Byte) returns (p': nat)
    requires buf.Length == 32 && 0 < p < 32
    modifies buf
    ensures p' == p - 1 && buf[p'..31] == [c] + old(buf[p..31])
  {
    p' := p - 1;
    buf[p'] := c;
  }

  /** The digit and padding part of rprintfNum: `m` characters ending at buf[30]. */
  method FillDigits(buf: array<Byte>, base: nat, m: nat, padchar: Byte, x0: Word) returns (p: nat)
    requires buf.Length == 32 && base > 0 && 1 <= m <= 31
    modifies buf
    ensures p == 31 - m && buf[p..31] == Body(x0, base, m, padchar)
  {
    hide Quotient, Remainder, HexChar, Fill;
    ghost var text := Body(x0, base, m, padchar);
    var x: nat, count := x0, m - 1;
    p := 31;
    buf[p] := 0;
    p := Prepend(buf, p, HexChar(Remainder(x, base)));
    x := Quotient(x, base);
    while count > 0
      invariant 0 <= count < m && p == 31 - (m - count)
      invariant text == LeftPart(x, base, count, padchar) + buf[p..31]
    {
      ghost var done, rest := buf[p..31], LeftPart(x, base, count, padchar);
      var c := if x != 0 then HexChar(Remainder(x, base)) else padchar;
      LeftPartStep(x, base, count, padchar);
      p := Prepend(buf, p, c);
      x := if x != 0 then Quotient(x, base) else x;
      count := count - 1;
      assert rest == LeftPart(x, base, count, padchar) + [c];
      assert LeftPart(x, base, count, padchar) + [c] + done == LeftPart(x, base, count, padchar) + ([c] + done);
    }
    assert text == [] + buf[p..31] == buf[p..31];
  }

  lemma {:induction false} LeftPartStep(x: nat, base: nat, k: nat, pad: Byte)
    requires base > 0 && k > 0
    ensures LeftPart(x, base, k, pad) ==
            LeftPart(if x == 0 then x else Quotient(x, base), base, k - 1, pad) +
            [if x == 0 then pad else HexChar(Remainder(x, base))]
  {
    hide Quotient, Remainder, HexChar, Fill;
    if x == 0 {
      FillStep(pad, k - 1);
      FillNone(pad);
    }
  }

  lemma {:induction false} FillNone(pad: Byte)
    ensures Fill(pad, 0) == []
  {}

  /** The base is anything but zero; digits of 16 and more are printed modulo 16. The digit count
      is one that keeps the buffer from overflowing. */
  method RprintfNum(con: C.Console, base: nat, numDigits: nat, isSigned: bool, padchar: Byte, n: Int32)
    requires con.Valid() && base > 0
    requires (if isSigned then 2 else 1) <= numDigits <= 31
    modifies con
    ensures con.Valid() && con.log == old(con.log) + NumText(base, numDigits, isSigned, padchar, n)
  {
    hide C.Wire, Body;
    var buf := new Byte[32](_ => 0);
    var x := Magnitude(isSigned, n);
    var p := FillDigits(buf, base, numDigits - (if isSigned then 1 else 0), padchar, x);
    if isSigned {
      p := Prepend(buf, p, SignChar(n));
    }
    ghost var text, start := buf[p..31], p;
    var count := numDigits;
    while count > 0
      invariant 0 <= count <= numDigits && p == start + (numDigits - count) && buf[start..31] == text
      invariant con.Valid() && con.log == old(con.log) + text[..numDigits - count]
    {
      assert text[p - start] == buf[start..31][p - start] == buf[p];
      assert text[..numDigits - count + 1] == text[..numDigits - count] + [buf[p]];
      con.RprintfChar(buf[p]);
      p := p + 1;
      count := count - 1;
    }
  }

  /** The whole numeral is printed exactly when it fits the digits asked for. */
  lemma {:induction false} NumTextComplete(base: nat, numDigits: nat, isSigned: bool, pad: Byte, n: Int32)
    requires 2 <= base <= 16 && (if isSigned then 2 else 1) <= numDigits
    ensures var m := numDigits - if isSigned then 1 else 0;
            var x := Magnitude(isSigned, n);
            var digits := Numeral(x, base, UPPER);
            var t := NumText(base, numDigits, isSigned, pad, n);
            (|digits| <= |t| - (if isSigned then 1 else 0) && t[|t| - |digits|..] == digits) <==> x < Pow(base, m)
  {
    hide Numeral, Body;
    var m := numDigits - if isSigned then 1 else 0;
    BodyIsAligned(Magnitude(isSigned, n), base, m, pad);
    NumeralLength(Magnitude(isSigned, n), base, UPPER, m);
  }

  /** A signed print that fits can be read back: its first character tells the sign and its
      digits the magnitude. */
  lemma {:induction false} NumTextReadsBack(base: nat, numDigits: nat, pad: Byte, n: Int32)
    requires 2 <= base <= 16 && 2 <= numDigits
    requires Magnitude(true, n) < Pow(base, numDigits - 1)
    ensures var t := NumText(base, numDigits, true, pad, n);
            var k := |Numeral(Magnitude(true, n), base, UPPER)|;
            && k < |t| && IsNumeral(t[|t| - k..], base, UPPER)
            && Horner(t[|t| - k..], base) == if t[0] == MINUS then -(n as int) else n
  {
    hide Numeral, Horner, IsNumeral;
    NumTextComplete(base, numDigits, true, pad, n);
    NumeralIsCanonical(Magnitude(true, n), base, UPPER);
  }

  lemma {:induction false} SignedNumText(base: nat, k: nat, pad: Byte, n: Int32)
    requires 2 <= base <= 16 && 2 <= k
    ensures NumText(base, k, true, pad, n) ==
            [SignChar(n)] + RightAligned(Numeral(Magnitude(true, n), base, UPPER), k - 1, pad)
  {
    hide Body, Numeral, RightAligned;
    BodyIsAligned(Magnitude(true, n), base, k - 1, pad);
  }

  /** The first character of a signed print: '-', '+' or, for 0 alone, a space. */
  lemma {:induction false} SignPrinted(base: nat, k: nat, pad: Byte, n: Int32)
    requires base > 0 && 2 <= k
    ensures var c := NumText(base, k, true, pad, n)[0];
            && (c == 45 <==> n < 0) && (c == 43 <==> n > 0) && (c == 32 <==> n == 0)
  {
    hide Body;
  }

  /** Between the sign and the numeral there is nothing but the pad byte. */
  lemma {:induction false} PaddingPrinted(base: nat, k: nat, pad: Byte, n: Int32, i: nat)
    requires 2 <= base <= 16 && 1 <= i < k - |Numeral(Magnitude(true, n), base, UPPER)|
    ensures NumText(base, k, true, pad, n)[i] == pad
  {
    hide Numeral, NumText;
    SignedNumText(base, k, pad, n);
  }

  lemma {:induction false} LeftPartAt(x: nat, base: nat, k: nat, pad: Byte, i: nat)
    requires base > 0 && i < k
    ensures Pow(base, i) > 0
    ensures var q := Quotient(x, Pow(base, i));
            LeftPart(x, base, k, pad)[k - 1 - i] == if q > 0 then HexChar(Remainder(q, base)) else pad
    decreases k
  {
    hide HexChar;
    PowPositive(base, i);
    var p := Pow(base, i);
    if x == 0 {
      DivModUnique(p, 0, 0);
    } else if i == 0 {
      assert Quotient(x, 1) == x;
    } else {
      hide Quotient, Remainder;
      LeftPartAt(Quotient(x, base), base, k - 1, pad, i - 1);
      DivModStep(x, base, Pow(base, i - 1));
    }
  }

  lemma {:induction false} BodyAt(x: nat, base: nat, m: nat, pad: Byte, i: nat)
    requires base > 0 && i < m
    ensures Pow(base, i) > 0
    ensures var q := Quotient(x, Pow(base, i));
            Body(x, base, m, pad)[m - 1 - i] == if i == 0 || q > 0 then HexChar(Remainder(q, base)) else pad
  {
    hide HexChar, LeftPart;
    PowPositive(base, i);
    if i == 0 {
      assert Quotient(x, 1) == x;
    } else {
      hide Quotient, Remainder;
      LeftPartAt(Quotient(x, base), base, m - 1, pad, i - 1);
      DivModStep(x, base, Pow(base, i - 1));
    }
  }

  /** Each character of a print, counted from the right, in any base: the digit of the magnitude at
      that position, modulo 16, or the pad byte where there is none. */
  lemma {:induction false} DigitPrinted(base: nat, k: nat, isSigned: bool, pad: Byte, n: Int32, i: nat)
    requires base > 0 && i < k - (if isSigned then 1 else 0)
    ensures Pow(base, i) > 0
    ensures var u := if n >= 0 then n else if isSigned then -(n as int) else n + 0x1_0000_0000;
            var q := u / Pow(base, i);
            NumText(base, k, isSigned, pad, n)[k - 1 - i] ==
            if i == 0 || q > 0 then Glyph(q % base % 16, 65) else pad
  {
    hide Body;
    BodyAt(Magnitude(isSigned, n), base, k - (if isSigned then 1 else 0), pad, i);
  }

  lemma {:induction false} SignIsNoDigit(t: seq<Byte>, base: nat, n: Int32, i: nat)
    requires 2 <= base <= 16 && IsNumeral(t, base, UPPER) && i < |t|
    ensures t[i] != SignChar(n)
  {
    assert IsGlyph(t[i], base, UPPER);
  }

  /** The sign is printed right before the digits, after the padding, exactly when there is no
      padding to see: the digits fill the field, or they fit it and the pad byte is the sign. */
  lemma {:induction false} SignBeforeDigits(base: nat, k: nat, pad: Byte, n: Int32)
    requires 2 <= base <= 16 && 2 <= k
    ensures var t := Numeral(Magnitude(true, n), base, UPPER);
            NumText(base, k, true, pad, n) == RightAligned([SignChar(n)] + t, k, pad) <==>
            |t| == k - 1 || (|t| < k - 1 && pad == SignChar(n))
  {
    hide Numeral, Horner, IsNumeral, NumText, Magnitude, SignChar;
    var t, c := Numeral(Magnitude(true, n), base, UPPER), SignChar(n);
    NumeralIsCanonical(Magnitude(true, n), base, UPPER);
    SignedNumText(base, k, pad, n);
    if |t| >= k {
      SignIsNoDigit(t, base, n, |t| - k);
      assert RightAligned([c] + t, k, pad)[0] == t[|t| - k];
    } else {
      SignAligned(c, t, k, pad);
    }
  }

  lemma {:induction false} SignAligned(c: Byte, t: seq<Byte>, k: nat, pad: Byte)
    requires |t| < k
    ensures [c] + RightAligned(t, k - 1, pad) == RightAligned([c] + t, k, pad) <==> |t| == k - 1 || pad == c
  {
    var room := k - 1 - |t|;
    if room > 0 {
      FillStep(pad, room - 1);
      assert RightAligned([c] + t, k, pad)[0] == pad;
      if pad == c {
        assert [c] + Fill(c, room - 1) == Fill(c, room - 1) + [c];
        assert [c] + (Fill(c, room) + t) == Fill(c, room) + ([c] + t);
      }
    } else {
      assert Fill(pad, 0) + t == t && Fill(pad, 0) + ([c] + t) == [c] + t;
    }
  }

  /** The example in the comment: 1234 in six characters is "+ 1234" and not " +1234". */
  lemma {:induction false} SignExample(n: Int32)
    requires n == 1234
    ensures NumText(10, 6, true, SPACE, n) == [PLUS, SPACE, 49, 50, 51, 52]
    ensures RightAligned([PLUS] + Numeral(n, 10, UPPER), 6, SPACE) == [SPACE, PLUS, 49, 50, 51, 52]
  {
    hide NumText, Numeral;
    SignedNumText(10, 6, SPACE, n);
    DigitsOf1234(n);
    assert Fill(SPACE, 1) == [SPACE];
  }

  lemma {:induction false} DigitsOf1234(n: nat)
    requires n == 1234
    ensures Numeral(n, 10, UPPER) == [49, 50, 51, 52]
  {
    hide Numeral;
    NumeralUnfold(n, 10, UPPER);
    NumeralUnfold(123, 10, UPPER);
    NumeralUnfold(12, 10, UPPER);
    SingleGlyph(1, 10, UPPER);
  }

  /** Zero padding turns right alignment into fixed-width digits. */
  lemma {:induction false} ZeroPadded(x: nat, b: nat, k: nat)
    requires 2 <= b <= 16
    ensures RightAligned(Numeral(x, b, UPPER), k, ZERO) == FixedDigits(x, b, k)
    decreases k
  {
    hide Numeral;
    var t := Numeral(x, b, UPPER);
    if k > 0 {
      if x < b {
        DivModUnique(b, 0, x);
        SingleGlyph(x, b, UPPER);
        SingleGlyph(0, b, UPPER);
        ZeroPadded(0, b, k - 1);
        assert RightAligned([ZERO], k - 1, ZERO) == Fill(ZERO, k - 1);
        assert RightAligned(t, k, ZERO) == Fill(ZERO, k - 1) + t;
      } else {
        NumeralUnfold(x, b, UPPER);
        ZeroPadded(x / b, b, k - 1);
      }
    }
  }

  /** The nibble cascade and the division loop print the same eight characters, and these
      denote the number. */
  lemma {:induction false} CascadeIsDivision(n: Int32)
    ensures NumText(16, 8, false, ZERO, n) == FixedDigits(ToWord(n), 16, 8)
    ensures Horner(FixedDigits(ToWord(n), 16, 8), 16) == ToWord(n)
  {
    hide Numeral, RightAligned, FixedDigits, Horner, Body;
    BodyIsAligned(ToWord(n), 16, 8, ZERO);
    ZeroPadded(ToWord(n), 16, 8);
    FixedDenotes(ToWord(n), 16, 8);
    assert Pow(16, 8) == 0x1_0000_0000;
  }
}
