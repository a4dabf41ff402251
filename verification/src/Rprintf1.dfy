/** rprintf1RamRom, the simple printf: its top-down division loop, and where it agrees with
    rprintf2RamRom.
 */
module Rprintf1 {
  import opened Machine
  import opened Numerals
  import opened Directives
  import opened Render
  import opened NumberPrinters
  import FieldLaws
  import C = Console

  // ----- specification

  /** %d has five digit positions; a larger magnitude overflows the first one, which prints the
      low nibble of a quotient that no longer is a digit. */
  function ShortDecimal(u: nat): (t: seq<Byte>) {
    if u <= 99999 then Decimal(u)
    else [Glyph(u / 10000 % 16, UPPER)] + FixedDigits(u % 10000, 10, 4)
  }

  function ShortSigned(l: Int32): seq<Byte> {
    Opt(l < 0, MINUS) + ShortDecimal(Magnitude(true, l))
  }

  /** One directive of the simple printf; a letter it does not know prints itself, and the
      terminator is such a letter. */
  function SimpleDirective(flag: Byte, args: seq<Arg>): Outcome {
    if flag == LETTER_C || flag == LETTER_D || flag == LETTER_X then
      if args == [] || !args[0].Int? then Outcome([], args, BadArgument)
      else
        var w := args[0].w;
        var text := if flag == LETTER_C then [w % 256]
                    else if flag == LETTER_D then ShortSigned(ToInt(w))
                    else FixedDigits(w, 16, 4);
        Outcome(text, args[1..], Done)
    else Outcome([flag], args, if flag == 0 then PastEnd else Done)
  }

  /** The first item of a format: a literal character or a directive. */
  function FirstText(f: seq<Byte>, args: seq<Arg>): Outcome
    requires Head(f) != 0
  {
    if f[0] != PERCENT then Outcome([f[0]], args, Done) else SimpleDirective(Head(f[1..]), args)
  }

  function AfterText(f: seq<Byte>): (r: seq<Byte>)
    requires Head(f) != 0
    ensures |r| < |f|
  {
    if f[0] == PERCENT && |f| > 1 then f[2..] else f[1..]
  }

  function Print1(f: seq<Byte>, args: seq<Arg>): Outcome
    decreases |f|
  {
    if Head(f) == 0 then Outcome([], args, Done)
    else
      var first := FirstText(f, args);
      InTurn(first, Print1(AfterText(f), first.rest))
  }

  // ----- the division loop

  /** What the loop prints when it starts at b^k. */
  function DivText(u: nat, b: nat, k: nat): (t: seq<Byte>)
    requires 2 <= b <= 16
  {
    PowPositive(b, k);
    [Glyph(Quotient(u, Pow(b, k)) % 16, UPPER)] + FixedDigits(Remainder(u, Pow(b, k)), b, k)
  }

  lemma {:induction false} FixedOne(n: nat, b: nat)
    requires 2 <= b <= 16
    ensures FixedDigits(n, b, 1) == [Glyph(Remainder(n, b), UPPER)]
  {
    assert FixedDigits(Quotient(n, b), b, 0) == [];
  }

  /** As long as the top position does not overflow these are the low k + 1 digits. */
  lemma {:induction false} DivTextIsFixed(u: nat, b: nat, k: nat)
    requires 2 <= b <= 16
    requires b == 16 || u < Pow(b, k + 1)
    ensures DivText(u, b, k) == FixedDigits(u, b, k + 1)
  {
    hide Quotient, Remainder, FixedDigits;
    PowPositive(b, k);
    var top := Quotient(u, Pow(b, k));
    FixedMod(u, b, k);
    FixedSplit(u, b, 1, k);
    FixedOne(top, b);
    TopDigit(u, b, Pow(b, k));
    assert 1 + k == k + 1;
  }

  lemma {:induction false} TopDigit(u: nat, b: nat, p: nat)
    requires 2 <= b <= 16 && p > 0
    ensures b == 16 || u < b * p ==> Quotient(u, p) % 16 == Remainder(Quotient(u, p), b)
  {
    var q := Quotient(u, p);
    if b != 16 && u < b * p {
      DivBound(u, p, b);
      SmallRemainder(q, b);
    }
  }

  lemma {:induction false} SmallRemainder(q: nat, b: nat)
    requires q < b
    ensures Remainder(q, b) == q
  {
    DivModUnique(b, 0, q);
  }

  lemma {:induction false} LowNibble(q: nat)
    ensures Remainder(q % 256, 16) == q % 16
  {
    assert q == 256 * (q / 256) + q % 256;
  }

  lemma {:induction false} NibbleOfByte(q: nat)
    ensures FixedDigits(q % 256, 16, 1) == [Glyph(q % 16, UPPER)]
  {
    hide FixedDigits, Remainder;
    FixedOne(q % 256, 16);
    LowNibble(q);
  }

  lemma {:induction false} RemainderBound(u: nat, p: nat)
    requires p > 0
    ensures Remainder(u, p) < p && Remainder(u, p) <= u
  {}

  lemma {:induction false} PowDown(b: nat, k: nat)
    requires b >= 2
    ensures Pow(b, k) > 0
    ensures Quotient(Pow(b, k), b) == if k == 0 then 0 else Pow(b, k - 1)
    ensures k > 0 ==> 0 < Pow(b, k - 1) < Pow(b, k)
  {
    hide Quotient, Remainder;
    PowPositive(b, k);
    if k == 0 {
      DivModFrom(1, b, 0, 1);
    } else {
      PowPositive(b, k - 1);
      DivModFrom(Pow(b, k), b, Pow(b, k - 1), 0);
      assert b * Pow(b, k - 1) >= 2 * Pow(b, k - 1);
    }
  }

  /** One turn of the loop prints the top position and goes on with the rest. */
  lemma {:induction false} LoopStep(u: nat, b: nat, k: nat)
    requires 2 <= b <= 16
    ensures Pow(b, k) > 0
    ensures DivText(u, b, k) ==
            [Glyph(Quotient(u, Pow(b, k)) % 16, UPPER)] +
            if k == 0 then [] else DivText(Remainder(u, Pow(b, k)), b, k - 1)
  {
    hide Quotient, Remainder;
    PowPositive(b, k);
    var r := Remainder(u, Pow(b, k));
    if k > 0 {
      RemainderBound(u, Pow(b, k));
      hide FixedDigits;
      DivTextIsFixed(r, b, k - 1);
      assert k - 1 + 1 == k;
    }
  }

  /** `do { rprintfu04(u_val/div_val); ... } while (div_val)` from div_val = base^top. */
  method ConversionLoop(con: C.Console, n: Word, base: nat, div: nat, ghost top: nat)
    requires con.Valid() && 2 <= base <= 16 && div == Pow(base, top) > 0
    modifies con
    ensures con.Valid() && con.log == old(con.log) + DivText(n, base, top)
  {
    hide C.Wire, FixedDigits, DivText, Pow, Quotient, Remainder;
    var u: nat, divVal := n, div;
    ghost var k, rest := top, DivText(n, base, top);
    ghost var goal := con.log + rest;
    while divVal != 0
      invariant con.Valid() && goal == con.log + rest
      invariant if divVal != 0 then divVal == Pow(base, k) && rest == DivText(u, base, k) else rest == []
      decreases divVal
    {
      LoopStep(u, base, k);
      PowDown(base, k);
      NibbleOfByte(Quotient(u, divVal));
      ghost var c := Glyph(Quotient(u, divVal) % 16, UPPER);
      ghost var printed := con.log;
      Rprintfu04(con, Quotient(u, divVal) % 256);
      u := Remainder(u, divVal);
      divVal := Quotient(divVal, base);
      rest := rest[1..];
      assert printed + ([c] + rest) == printed + [c] + rest;
      if k > 0 {
        k := k - 1;
      }
    }
  }

  // ----- %d

  lemma {:induction false} SameDecimal(n: nat)
    ensures Numeral(n, 10, UPPER) == Decimal(n)
    decreases n
  {
    if n >= 10 {
      SameDecimal(n / 10);
    }
  }

  /** Starting at the power of ten at or below the magnitude, the loop prints its numeral. */
  lemma {:induction false} DivTextIsDecimal(u: nat, k: nat)
    requires u < Pow(10, k + 1) && (k > 0 ==> Pow(10, k) <= u)
    ensures DivText(u, 10, k) == Decimal(u)
  {
    hide Numeral, FixedDigits, DivText;
    DivTextIsFixed(u, 10, k);
    ZeroPadded(u, 10, k + 1);
    SameDecimal(u);
    NumeralLength(u, 10, LOWER, k + 1);
    if k > 0 {
      NumeralLength(u, 10, LOWER, k);
    }
    assert |Decimal(u)| == k + 1;
  }

  lemma {:induction false} TenPowers()
    ensures Pow(10, 0) == 1 && Pow(10, 1) == 10 && Pow(10, 2) == 100 && Pow(10, 3) == 1000
    ensures Pow(10, 4) == 10000 && Pow(10, 5) == 100000
  {}

  /** The two branches of ShortDecimal are what the loop prints. */
  lemma {:induction false} ShortDecimalIsDivText(u: nat, k: nat)
    requires k <= 4 && (k > 0 ==> Pow(10, k) <= u) && (k < 4 ==> u < Pow(10, k + 1))
    ensures DivText(u, 10, k) == ShortDecimal(u)
  {
    hide Numeral, FixedDigits, Pow;
    TenPowers();
    if u <= 99999 {
      DivTextIsDecimal(u, k);
    }
  }

  /** `while (div_val > 1 && div_val > u_val) div_val /= 10` */
  method TopPower(u: Word) returns (divVal: nat, ghost k: nat)
    ensures k <= 4 && divVal == Pow(10, k) > 0
    ensures (k > 0 ==> Pow(10, k) <= u) && (k < 4 ==> u < Pow(10, k + 1))
  {
    hide Pow;
    TenPowers();
    divVal, k := 10000, 4;
    while divVal > 1 && divVal > u
      invariant k <= 4 && divVal == Pow(10, k) > 0 && (k < 4 ==> u < Pow(10, k + 1))
      decreases k
    {
      divVal := divVal / 10;
      k := k - 1;
    }
  }

  lemma {:induction false} Negated(l: Int32)
    ensures Magnitude(true, l) == if l < 0 then ToWord(0 - ToWord(l)) else ToWord(l)
  {}

  method PrintSigned(con: C.Console, l: Int32)
    requires con.Valid()
    modifies con
    ensures con.Valid() && con.log == old(con.log) + ShortSigned(l)
  {
    hide C.Wire, ShortDecimal, DivText, Pow, ToWord, Magnitude;
    Negated(l);
    var u: Word := ToWord(l);
    if l < 0 {
      u := ToWord(0 - u);
      con.RprintfChar(MINUS);
    }
    assert u == Magnitude(true, l);
    ghost var signed := con.log;
    var divVal, k := TopPower(u);
    ShortDecimalIsDivText(u, k);
    ConversionLoop(con, u, 10, divVal, k);
    assert signed + ShortDecimal(u) == old(con.log) + (Opt(l < 0, MINUS) + ShortDecimal(u));
  }

  /** The two printfs print the same %d exactly for magnitudes of at most five digits. */
  lemma {:induction false} SignedAgreesExactly(l: Int32)
    ensures ShortSigned(l) == SignedText(l) <==> -99999 <= l <= 99999
  {
    hide Numeral, FixedDigits, Pow;
    TenPowers();
    var u := Magnitude(true, l);
    NumeralLength(u, 10, LOWER, 5);
    if u <= 99999 {
      assert [] + Decimal(u) == Decimal(u);
    } else {
      assert |ShortDecimal(u)| == 5;
      assert l != INT_MIN ==> |SignedText(l)| == |Opt(l < 0, MINUS)| + |Decimal(u)|;
    }
  }

  /** And it prints its argument right exactly for those. */
  lemma {:induction false} ShortSignedDenotes(l: Int32)
    ensures FieldLaws.Denotes(ShortSigned(l), l) <==> -99999 <= l <= 99999
  {
    hide ShortDecimal, FieldLaws.Denotes, SignedText;
    SignedAgreesExactly(l);
    FieldLaws.SignedTextDenotes(l);
    if !(-99999 <= l <= 99999) {
      FiveCharacters(Magnitude(true, l));
      FiveTooFew(ShortSigned(l), l);
    }
  }

  lemma {:induction false} FiveCharacters(u: nat)
    requires u > 99999
    ensures |ShortDecimal(u)| == 5
  {
    hide FixedDigits;
  }

  /** No numeral of five digits denotes a larger magnitude. */
  lemma {:induction false} FiveTooFew(t: seq<Byte>, l: Int32)
    requires !(-99999 <= l <= 99999) && |t| == if l < 0 then 6 else 5
    ensures !FieldLaws.Denotes(t, l)
  {
    hide Numeral, Horner, IsNumeral, Pow;
    TenPowers();
    var digits := if l < 0 then t[1..] else t;
    if IsNumeral(digits, 10, LOWER) {
      NumeralIsUnique(digits, 10, LOWER);
      NumeralLength(Horner(digits, 10), 10, LOWER, 5);
    }
  }

  lemma {:induction false} PrintOneDirective(flag: Byte, args: seq<Arg>)
    requires SimpleDirective(flag, args).status == Done
    ensures Print1([PERCENT, flag], args) == SimpleDirective(flag, args)
  {
    var f, first := [PERCENT, flag], SimpleDirective(flag, args);
    hide SimpleDirective;
    assert f[1..] == [flag] && f[2..] == [];
    assert Print1([], first.rest) == Outcome([], first.rest, Done);
    assert first.out + [] == first.out;
  }

  lemma {:induction false} FourZeros(b: nat)
    requires 2 <= b <= 16
    ensures FixedDigits(0, b, 4) == [48, 48, 48, 48]
  {
    DivModUnique(b, 0, 0);
    assert FixedDigits(0, b, 1) == [48];
    assert FixedDigits(0, b, 2) == [48, 48];
    assert FixedDigits(0, b, 3) == [48, 48, 48];
  }

  lemma {:induction false} ShortHundredThousand()
    ensures ShortSigned(100000) == [65, 48, 48, 48, 48]
  {
    hide FixedDigits;
    FourZeros(10);
    assert [] + ([65] + [48, 48, 48, 48]) == [65, 48, 48, 48, 48];
  }

  /** "%d" of 100000 prints "A0000". */
  lemma {:induction false} HundredThousandPrintsWrong()
    ensures Print1([PERCENT, LETTER_D], [Int(100000)]) == Outcome([65, 48, 48, 48, 48], [], Done)
  {
    hide Print1, ShortSigned;
    ShortHundredThousand();
    assert ToInt(100000) == 100000;
    PrintOneDirective(LETTER_D, [Int(100000)]);
  }

  // ----- whole formats

  method PrintDirective(con: C.Console, flag: Byte, args: seq<Arg>) returns (status: Status, rest: seq<Arg>)
    requires con.Valid()
    modifies con
    ensures con.Valid()
    ensures var o := SimpleDirective(flag, args);
            con.log == old(con.log) + o.out && rest == o.rest && status == o.status
  {
    hide C.Wire, ShortSigned, FixedDigits, Pow, DivText;
    status, rest := Done, args;
    if flag == LETTER_C || flag == LETTER_D || flag == LETTER_X {
      if args == [] || !args[0].Int? {
        status := BadArgument;
        return;
      }
      var w := args[0].w;
      rest := args[1..];
      if flag == LETTER_C {
        con.RprintfChar(w % 256);
      } else if flag == LETTER_D {
        PrintSigned(con, ToInt(w));
      } else {
        assert Pow(16, 3) == 0x1000 by { SixteenCubed(); }
        DivTextIsFixed(w, 16, 3);
        ConversionLoop(con, w, 16, 0x1000, 3);
      }
    } else {
      con.RprintfChar(flag);
      status := if flag == 0 then PastEnd else Done;
    }
  }

  lemma {:induction false} SixteenCubed()
    ensures Pow(16, 3) == 0x1000
  {}

  /** The item under the cursor. */
  method PrintItem(con: C.Console, format: seq<Byte>, k: nat, args: seq<Arg>)
    returns (status: Status, rest: seq<Arg>, next: nat)
    requires con.Valid() && k < |format| && format[k] != 0
    modifies con
    ensures con.Valid()
    ensures var o := FirstText(format[k..], args);
            con.log == old(con.log) + o.out && rest == o.rest && status == o.status
    ensures k < next <= |format| && format[next..] == AfterText(format[k..])
  {
    hide C.Wire, SimpleDirective;
    if format[k] != PERCENT {
      con.RprintfChar(format[k]);
      status, rest, next := Done, args, k + 1;
    } else {
      var flag := if k + 1 < |format| then format[k + 1] else 0;
      status, rest := PrintDirective(con, flag, args);
      next := if k + 1 < |format| then k + 2 else k + 1;
    }
  }

  /** %x prints what rprintfu16 prints for the low 16 bits. */
  lemma {:induction false} SimpleHexIsU16(w: Word)
    ensures SimpleDirective(LETTER_X, [Int(w)]) == Outcome(FixedDigits(w % 0x1_0000, 16, 4), [], Done)
  {
    hide FixedDigits;
    FixedMod(w, 16, 4);
    assert Pow(16, 4) == 0x1_0000;
  }

  /** So it is right exactly for the arguments below 2^16. */
  lemma {:induction false} SimpleHexDenotes(w: Word)
    ensures Horner(SimpleDirective(LETTER_X, [Int(w)]).out, 16) == w <==> w < 0x1_0000
  {
    hide FixedDigits, Horner, SimpleDirective;
    SimpleHexIsU16(w);
    FixedDenotes(w % 0x1_0000, 16, 4);
    assert Pow(16, 4) == 0x1_0000;
  }

  /** "%x" of 0x10000 prints "0000". */
  lemma {:induction false} HexPrintsWrong(w: Word)
    requires w == 0x1_0000
    ensures Print1([PERCENT, LETTER_X], [Int(w)]) == Outcome([48, 48, 48, 48], [], Done)
  {
    hide Print1, FixedDigits, SimpleDirective;
    SimpleHexIsU16(w);
    FourZeros(16);
    PrintOneDirective(LETTER_X, [Int(w)]);
  }

  lemma {:induction false} Print1Unfold(f: seq<Byte>, args: seq<Arg>)
    ensures Head(f) == 0 ==> Print1(f, args) == Outcome([], args, Done)
    ensures Head(f) != 0 ==>
              var first := FirstText(f, args);
              Print1(f, args) == InTurn(first, Print1(AfterText(f), first.rest))
  {
    hide FirstText, AfterText;
  }

  /** rprintf1RamRom prints what Print1 says. */
  method Rprintf1RamRom(con: C.Console, format: seq<Byte>, args: seq<Arg>) returns (status: Status, ap: seq<Arg>)
    requires con.Valid()
    modifies con
    ensures con.Valid()
    ensures var o := Print1(format, args);
            con.log == old(con.log) + o.out && ap == o.rest && status == o.status
  {
    hide C.Wire, FirstText, AfterText, Print1, Resumed;
    ResumeStart(args, Print1(format, args));
    ap, status := args, Done;
    var k := 0;
    ghost var done, tail := [], format;
    while status == Done && k < |format| && format[k] != 0
      invariant 0 <= k <= |format| && tail == format[k..]
      invariant con.Valid() && con.log == old(con.log) + done
      invariant Print1(format, args) == Resumed(done, status, ap, Print1(tail, ap))
      decreases |format| - k
    {
      Print1Unfold(tail, ap);
      ghost var first := FirstText(tail, ap);
      ResumeStep(done, ap, first, Print1(AfterText(tail), first.rest));
      done := done + first.out;
      tail := AfterText(tail);
      status, ap, k := PrintItem(con, format, k, ap);
    }
    Print1Unfold(tail, ap);
    ResumeEnd(done, status, ap, Print1(tail, ap));
  }

  /** Formats both printfs understand alike: %d, %c and %% without modifiers, and every %d
      argument of at most five digits. */
  predicate Common(f: seq<Byte>, args: seq<Arg>)
    decreases |f|
  {
    Head(f) == 0
    || (f[0] != PERCENT && Common(f[1..], args))
    || (f[0] == PERCENT && |f| > 1 &&
        if f[1] == PERCENT then Common(f[2..], args)
        else
          && (f[1] == LETTER_D || f[1] == LETTER_C)
          && (args != [] && args[0].Int? ==>
                && (f[1] == LETTER_D ==> -99999 <= ToInt(args[0].w) <= 99999)
                && Common(f[2..], args[1..])))
  }

  lemma {:induction false} BareField(body: seq<Byte>)
    requires |body| < 0x8000_0000
    ensures Field(body, 0, false, SPACE) == body
  {}

  lemma {:induction false} BareScan(s: seq<Byte>)
    requires Head(s) == PERCENT || Head(s) == LETTER_D || Head(s) == LETTER_C
    ensures Scan(s) == Scanned(Directive(false, false, Absent, Absent, false, false, s[0]), s)
  {}

  lemma {:induction false} BareDirective(flag: Byte, args: seq<Arg>)
    requires flag == PERCENT || flag == LETTER_D || flag == LETTER_C
    requires flag == LETTER_D && args != [] && args[0].Int? ==> -99999 <= ToInt(args[0].w) <= 99999
    ensures RenderDirective(Directive(false, false, Absent, Absent, false, false, flag), args) ==
            SimpleDirective(flag, args)
  {
    hide Field, ShortSigned, SignedText;
    assert Supplies(args, [WantInt]) <==> args != [] && Accepts([WantInt][0], args[0]);
    if args != [] && args[0].Int? {
      var l := ToInt(args[0].w);
      SignedAgreesExactly(l);
      FieldLaws.BodyBound(l, LETTER_U, false, 0);
      BareField(SignedText(l));
    }
  }

  /** On those formats the simple printf and the complex one are the same function. */
  lemma {:induction false} PrintfsAgree(f: seq<Byte>, args: seq<Arg>)
    requires Common(f, args)
    ensures Print1(f, args) == Print(f, args)
    decreases |f|
  {
    hide RenderDirective, SimpleDirective, Scan;
    if Head(f) != 0 {
      assert Parse(f)[0] == FirstItem(f) && Parse(f)[1..] == Parse(AfterFirst(f));
      if f[0] != PERCENT {
        PrintfsAgree(f[1..], args);
      } else {
        BareScan(f[1..]);
        BareDirective(f[1], args);
        assert f[1..][1..] == f[2..] == AfterText(f);
        var first := SimpleDirective(f[1], args);
        if first.status == Done {
          SimpleRest(f[1], args);
          PrintfsAgree(f[2..], first.rest);
        }
      }
    }
  }

  lemma {:induction false} SimpleRest(flag: Byte, args: seq<Arg>)
    requires flag == PERCENT || flag == LETTER_D || flag == LETTER_C
    requires SimpleDirective(flag, args).status == Done
    ensures SimpleDirective(flag, args).rest == if flag == PERCENT then args else args[1..]
    ensures flag != PERCENT ==> args != [] && args[0].Int?
  {}
}
