/** What the fields printed by rprintf2RamRom look like: their numerals, lengths and sides. */
module FieldLaws {
  import opened Machine
  import opened Numerals
  import opened Directives
  import opened Render

  /** The text is a sign and the canonical decimal numeral of `l`. */
  predicate Denotes(t: seq<Byte>, l: Int32) {
    if l < 0 then
      && |t| > 1 && t[0] == 45
      && IsNumeral(t[1..], 10, LOWER) && Horner(t[1..], 10) == -(l as int)
    else IsNumeral(t, 10, LOWER) && Horner(t, 10) == l
  }

  /** %d is right for every long except the most negative one. */
  lemma {:induction false} SignedTextDenotes(l: Int32)
    ensures Denotes(SignedText(l), l) <==> l != INT_MIN
  {
    hide Numeral, Horner;
    var t := SignedText(l);
    if l == INT_MIN {
      assert t[1..] == [40];
      assert !IsGlyph(40, 10, LOWER);
      assert t[1..][0] == 40;
    } else if l < 0 {
      NumeralIsCanonical(-l, 10, LOWER);
      assert t[1..] == Decimal(-l);
    } else {
      NumeralIsCanonical(l, 10, LOWER);
    }
  }

  // ----- formats of one directive

  /** Printing the text of one directive is rendering it. */
  lemma {:induction false} PrintOne(d: Directive, args: seq<Arg>)
    requires Writable(d) && d.conv != 0
    ensures Print(Format([Conv(d)]), args) == RenderDirective(d, args)
  {
    hide Writable, RenderDirective, Parse, Format;
    assert WritableItem(Conv(d));
    ParseFormat([Conv(d)]);
    var o := RenderDirective(d, args);
    assert [Conv(d)][1..] == [] && o.out + [] == o.out;
    assert RenderAll([], o.rest) == Outcome([], o.rest, Done);
  }

  const BARE_D := Directive(false, false, Absent, Absent, false, false, LETTER_D)

  lemma {:induction false} BareText()
    ensures Writable(BARE_D) && Format([Conv(BARE_D)]) == [PERCENT, LETTER_D]
  {
    WritableKnown(BARE_D);
    assert [Conv(BARE_D)][1..] == [];
    assert Format([]) == [];
  }

  /** "%d" of the most negative long prints "-(". */
  lemma {:induction false} MinimumPrintsWrong()
    ensures Print([PERCENT, LETTER_D], [Int(0x8000_0000)]) == Outcome([45, 40], [], Done)
  {
    hide Print, Format, RenderDirective, Field, Writable, Decimal;
    BareText();
    var args := [Int(0x8000_0000)];
    PrintOne(BARE_D, args);
    assert args == args + [];
    NumericRender(BARE_D, args, 0, args, INF, 0x8000_0000, []);
    assert NumericBody(BARE_D, 0x8000_0000) == [45, 40];
    NoRoom([45, 40], 0, false, SPACE);
  }

  /** %u, %o and %x are the canonical numeral in their base, after the prefix that '#' asks for. */
  lemma {:induction false} UnsignedTextDenotes(conv: Byte, hash: bool, w: Word)
    requires conv == LETTER_U || conv == LETTER_O || conv == LETTER_X
    ensures var base := if conv == LETTER_U then 10 else if conv == LETTER_O then 8 else 16;
            var prefix := if !hash || conv == LETTER_U then 0 else if conv == LETTER_O then 1 else 2;
            var t := UnsignedText(conv, hash, w);
            && |t| > prefix && t[..prefix] == [ZERO, LETTER_X][..prefix]
            && IsNumeral(t[prefix..], base, LOWER) && Horner(t[prefix..], base) == w
  {
    hide Numeral, Horner, IsNumeral;
    var base := if conv == LETTER_U then 10 else if conv == LETTER_O then 8 else 16;
    var prefix := if !hash || conv == LETTER_U then 0 else if conv == LETTER_O then 1 else 2;
    NumeralIsCanonical(w, base, LOWER);
    assert UnsignedText(conv, hash, w)[prefix..] == Numeral(w, base, LOWER);
  }

  /** The scratch buffer is used for at most 12 of its 128 bytes, and that much only by %#o. */
  lemma {:induction false} BodyBound(l: Int32, conv: Byte, hash: bool, w: Word)
    requires conv == LETTER_U || conv == LETTER_O || conv == LETTER_X
    ensures |SignedText(l)| <= 11
    ensures |UnsignedText(conv, hash, w)| <= 12
    ensures |UnsignedText(conv, hash, w)| == 12 <==> conv == LETTER_O && hash && w >= 0x4000_0000
  {
    hide Numeral, Pow;
    Powers();
    var m := if l < 0 then -(l as int) else l;
    NumeralLength(m, 10, LOWER, 10);
    NumeralLength(w, 10, LOWER, 10);
    NumeralLength(w, 8, LOWER, 11);
    NumeralLength(w, 8, LOWER, 10);
    NumeralLength(w, 16, LOWER, 8);
  }

  lemma {:induction false} Powers()
    ensures Pow(10, 10) == 10_000_000_000 && Pow(8, 11) == 0x2_0000_0000
    ensures Pow(8, 10) == 0x4000_0000 && Pow(16, 8) == 0x1_0000_0000
  {}

  function Max(a: int, b: int): int {
    if a >= b then a else b
  }

  /** The text is the body in one piece, flush to one side, and padding: spaces on the right, the
      pad byte on the left. */
  predicate Aligned(t: seq<Byte>, body: seq<Byte>, left: bool, pad: Byte) {
    && |t| >= |body|
    && (if left then t[..|body|] == body && forall i :: |body| <= i < |t| ==> t[i] == 32
        else t[|t| - |body|..] == body && forall i :: 0 <= i < |t| - |body| ==> t[i] == pad)
  }

  /** The room beside `n` bytes is representable, or wraps to nothing. */
  predicate RoomFits(width: Int32, n: nat) {
    width - n >= INT_MIN || ToInt(width - n) <= 0
  }

  /** For fewer than 2^31 bytes that says: the width is not within `n` of the most negative int. */
  lemma {:induction false} RoomFitsShort(width: Int32, n: nat)
    requires n < 0x8000_0000
    ensures RoomFits(width, n) <==> width - n >= INT_MIN
  {}

  /** The padding loop fills the room exactly when the room fits. */
  lemma {:induction false} RoomLength(width: Int32, n: nat, pad: Byte)
    ensures |Fill(pad, ToInt(width - n))| == Max(width - n, 0) <==> RoomFits(width, n)
  {}

  /** A field is as long as the larger of its width and its body exactly when its room fits. */
  lemma {:induction false} FieldLength(body: seq<Byte>, width: Int32, left: bool, pad: Byte)
    ensures |Field(body, width, left, pad)| == Max(width, |body|) <==> RoomFits(width, |body|)
  {
    hide ToInt, Fill, RoomFits;
    RoomLength(width, |body|, if left then SPACE else pad);
  }

  /** The body is in one piece, flush to the side asked for, and the rest is padding. */
  lemma {:induction false} FieldSides(body: seq<Byte>, width: Int32, left: bool, pad: Byte)
    ensures Aligned(Field(body, width, left, pad), body, left, pad)
  {
    hide Aligned;
    PaddedSides(body, ToInt(width - |body|), left, pad);
  }

  lemma {:induction false} PaddedSides(body: seq<Byte>, room: int, left: bool, pad: Byte)
    ensures Aligned(if left then body + Fill(SPACE, room) else Fill(pad, room) + body, body, left, pad)
  {
    hide Fill;
    if left {
      assert (body + Fill(SPACE, room))[..|body|] == body;
    } else {
      assert (Fill(pad, room) + body)[|Fill(pad, room)|..] == body;
    }
  }

  /** A string field: padding computed from the whole string, and a prefix of it flush to the
      side asked for. */
  lemma {:induction false} StringFieldLaw(s: seq<Byte>, width: Int32, prec: Int32, left: bool, pad: Byte)
    ensures var t := StringField(s, width, prec, left, pad);
            var shown := s[..Max(0, if prec < |s| then prec else |s|)];
            && (|t| == Max(width - |s|, 0) + |shown| <==> RoomFits(width, |s|))
            && Aligned(t, shown, left, pad)
  {
    hide ToInt, Fill, RoomFits, Aligned;
    RoomLength(width, |s|, if left then SPACE else pad);
    PaddedSides(s[..Clamp(prec, 0, |s|)], ToInt(width - |s|), left, pad);
  }

  function NumericBody(d: Directive, w: Word): seq<Byte> {
    if d.conv == LETTER_D then SignedText(ToInt(w)) else UnsignedText(d.conv, d.hash, w)
  }

  predicate Numeric(conv: Byte) {
    conv == LETTER_D || conv == LETTER_O || conv == LETTER_X || conv == LETTER_U
  }

  /** A whole numeric directive: its argument's text, as wide as asked, on the side asked for,
      zero-padded (before the sign) if asked. */
  lemma {:induction false} NumericDirective(d: Directive, args: seq<Arg>, width: Int32, args1: seq<Arg>,
                                            prec: Int32, w: Word, rest: seq<Arg>)
    requires Numeric(d.conv)
    requires TakeAmount(d.width, 0, args) == Taken(width, args1)
    requires TakeAmount(d.prec, INF, args1) == Taken(prec, [Int(w)] + rest)
    ensures var o, body := RenderDirective(d, args), NumericBody(d, w);
            && o.status == Done && o.rest == rest
            && (|o.out| == Max(width, |body|) <==> width - |body| >= INT_MIN)
            && Aligned(o.out, body, d.left, PadOf(d))
  {
    hide TakeAmount, Field, RoomFits, Aligned;
    var body := NumericBody(d, w);
    BodyShort(d, w);
    hide NumericBody;
    NumericRender(d, args, width, args1, prec, w, rest);
    FieldLength(body, width, d.left, PadOf(d));
    FieldSides(body, width, d.left, PadOf(d));
    RoomFitsShort(width, |body|);
  }

  lemma {:induction false} BodyShort(d: Directive, w: Word)
    requires Numeric(d.conv)
    ensures 0 < |NumericBody(d, w)| <= 12
  {
    hide SignedText, UnsignedText;
    BodyBound(ToInt(w), if d.conv == LETTER_D then LETTER_U else d.conv, d.hash, w);
  }

  lemma {:induction false} NumericRender(d: Directive, args: seq<Arg>, width: Int32, args1: seq<Arg>,
                                         prec: Int32, w: Word, rest: seq<Arg>)
    requires Numeric(d.conv)
    requires TakeAmount(d.width, 0, args) == Taken(width, args1)
    requires TakeAmount(d.prec, INF, args1) == Taken(prec, [Int(w)] + rest)
    ensures RenderDirective(d, args) == Outcome(Field(NumericBody(d, w), width, d.left, PadOf(d)), rest, Done)
  {
    hide TakeAmount, Field, SignedText, UnsignedText;
    assert Supplies([Int(w)] + rest, [WantInt]);
  }

  lemma {:induction false} ByteCount(body: seq<Byte>, width: Int32, left: bool, pad: Byte)
    ensures |Field(body, width, left, pad)| == |body| + Max(ToInt(width - |body|), 0)
  {
    hide ToInt;
  }

  lemma {:induction false} NoRoom(body: seq<Byte>, width: Int32, left: bool, pad: Byte)
    requires ToInt(width - |body|) <= 0
    ensures Field(body, width, left, pad) == body
  {
    hide ToInt;
  }

  lemma {:induction false} WrappedWidth(n: nat, k: nat)
    requires 0 < k <= 12
    ensures k + Max(ToInt(ToInt(n) - k), 0) == Max(n, k) <==> n - k < 0x8000_0000
  {
    ToIntAdd(n, -(k as int));
    ToIntExact(n - k);
  }

  /** A width written out in the format is met exactly when it exceeds the body by less than 2^31,
      although it is read into an int. */
  lemma {:induction false} LiteralWidth(d: Directive, n: nat, args: seq<Arg>, prec: Int32, w: Word, rest: seq<Arg>)
    requires Numeric(d.conv) && d.width == Literal(n)
    requires TakeAmount(d.prec, INF, args) == Taken(prec, [Int(w)] + rest)
    ensures |RenderDirective(d, args).out| == Max(n, |NumericBody(d, w)|) <==> n - |NumericBody(d, w)| < 0x8000_0000
  {
    assert TakeAmount(d.width, 0, args) == Taken(ToInt(n), args);
    BodyShort(d, w);
    hide TakeAmount, NumericBody, RenderDirective, Field, ToInt;
    var body := NumericBody(d, w);
    NumericRender(d, args, ToInt(n), args, prec, w, rest);
    ByteCount(body, ToInt(n), d.left, PadOf(d));
    WrappedWidth(n, |body|);
  }

  lemma {:induction false} ZeroBody(d: Directive)
    requires d.conv == LETTER_D
    ensures NumericBody(d, 0) == [ZERO]
  {}

  /** Such as 2147483649: from there to 2^32 a width makes "%d" of 0 print one character. */
  lemma {:induction false} LiteralWidthOverflows(n: nat)
    requires 0x8000_0001 <= n <= 0x1_0000_0000
    ensures Print(Format([Conv(BARE_D.(width := Literal(n)))]), [Int(0)]) == Outcome([ZERO], [], Done)
  {
    var d := BARE_D.(width := Literal(n));
    hide Print, Format, RenderDirective, Field, Writable, NumericBody, Numeral;
    WritableKnown(d);
    PrintOne(d, [Int(0)]);
    assert [Int(0)] == [Int(0)] + [];
    NumericRender(d, [Int(0)], ToInt(n), [Int(0)], INF, 0, []);
    ZeroBody(d);
    NoRoom([ZERO], ToInt(n), false, SPACE);
  }

  /** With "%*d" a width so close to the most negative int that the room wraps prints billions of
      characters, 2^31 at the worst. */
  lemma {:induction false} StarWidthOverflows(w: Word)
    requires w == 0x8000_0000
    ensures |Print(Format([Conv(BARE_D.(width := Star))]), [Int(w), Int(0)]).out| == 0x8000_0000
  {
    hide Print, Format;
    StarWidth(w);
  }

  lemma {:induction false} StarTaken(w: Word)
    ensures TakeAmount(Star, 0, [Int(w), Int(0)]) == Taken(ToInt(w), [Int(0)])
    ensures TakeAmount(Absent, INF, [Int(0)]) == Taken(INF, [Int(0)] + [])
  {
    hide ToInt;
    assert [Int(w), Int(0)][1..] == [Int(0)];
  }

  lemma {:induction false} StarWidth(w: Word)
    ensures |Print(Format([Conv(BARE_D.(width := Star))]), [Int(w), Int(0)]).out| == 1 + Max(ToInt(ToInt(w) - 1), 0)
  {
    var d := BARE_D.(width := Star);
    var args := [Int(w), Int(0)];
    WritableKnown(d);
    hide Print, Format, RenderDirective, Field, Writable, NumericBody, ToInt, TakeAmount;
    PrintOne(d, args);
    StarTaken(w);
    NumericRender(d, args, ToInt(w), [Int(0)], INF, 0, []);
    ZeroBody(d);
    ByteCount([ZERO], ToInt(w), false, SPACE);
  }

  /** A whole string directive: the prefix the precision allows, aligned the same way. */
  lemma {:induction false} StringDirective(d: Directive, args: seq<Arg>, width: Int32, args1: seq<Arg>,
                                           prec: Int32, arg: Arg, rest: seq<Arg>)
    requires d.conv == LETTER_S && !arg.Int?
    requires TakeAmount(d.width, 0, args) == Taken(width, args1)
    requires TakeAmount(d.prec, INF, args1) == Taken(prec, [arg] + rest)
    ensures var o, s := RenderDirective(d, args), StringOf(arg);
            var shown := s[..Clamp(prec, 0, |s|)];
            && o.status == Done && o.rest == rest && Aligned(o.out, shown, d.left, PadOf(d))
            && (|o.out| == Max(width - |s|, 0) + |shown| <==> RoomFits(width, |s|))
  {
    hide TakeAmount, StringOf, StringField, Aligned, RoomFits;
    assert Supplies([arg] + rest, [WantText]);
    StringFieldLaw(StringOf(arg), width, prec, d.left, PadOf(d));
  }

  /** The decimal parser undoes the decimal printer exactly for the values that fit an int. */
  lemma {:induction false} AtoiOfDecimal(n: nat, rest: seq<Byte>)
    requires !IsDigit(Head(rest))
    ensures DigitRun(Decimal(n) + rest) == Decimal(n)
    ensures ToInt(Horner(DigitRun(Decimal(n) + rest), 10)) == n <==> n < 0x8000_0000
  {
    hide Numeral, Horner;
    DecimalDigits(n);
    DigitRunConcat(Decimal(n), rest);
    assert DigitRun(rest) == [];
    assert Decimal(n) + [] == Decimal(n);
  }
}
