/** What rprintf2RamRom prints for formats written out byte by byte.

    Joined by `Render.PrintConcat`, these laws say what every format prints, without reference to
    the functions that specify the interpreter.
 */
module Formats {
  import opened Machine
  import opened Numerals
  import opened Directives
  import opened Render
  import opened FieldLaws

  // ----- literal text

  /** Text without '%' prints itself. */
  lemma {:induction false} LiteralText(f: seq<Byte>, args: seq<Arg>)
    requires 0 !in f && 37 !in f
    ensures Print(f, args) == Outcome(f, args, Done)
  {
    hide Print;
    PrintUnfold(f, args);
    if f != [] {
      assert f[0] in f && 0 !in f[1..] && 37 !in f[1..];
      LiteralText(f[1..], args);
      assert f == [f[0]] + f[1..];
    }
  }

  /** Nothing after the terminator is printed. */
  lemma {:induction false} TerminatedFormat(f: seq<Byte>, g: seq<Byte>, args: seq<Arg>)
    ensures Print(f + [0] + g, args) == Print(f, args)
  {
    hide Parse, RenderAll;
    ParseTerminated(f, g);
    assert f + [0] + g == f + ([0] + g);
  }

  // ----- the bytes of a directive

  function AmountBytes(a: Amount): seq<Byte> {
    match a
    case Absent => []
    case Star => [42]
    case Literal(n) => Decimal(n)
  }

  /** '%', then '-', '0', a width, '.' and a precision, '#' and 'l', each if present, and the
      letter. */
  function Spelling(d: Directive): seq<Byte> {
    var letter := (if d.long then [108] else []) + [d.conv];
    var prec := (if d.prec.Absent? then [] else [46] + AmountBytes(d.prec)) + ((if d.hash then [35] else []) + letter);
    [37] + ((if d.left then [45] else []) + ((if d.zero then [48] else []) + (AmountBytes(d.width) + prec)))
  }

  /** A zero width has the pad flag before it, and a precision a pad flag or a width. */
  predicate Spelled(d: Directive) {
    (d.width == Literal(0) ==> d.zero) && (d.prec != Absent ==> d.zero || d.width != Absent)
  }

  lemma {:induction false} LetterSpelled(d: Directive)
    ensures LongOn(d, []) == (if d.long then [108] else []) + [d.conv]
    ensures HashOn(d, []) == (if d.hash then [35] else []) + LongOn(d, [])
  {}

  lemma {:induction false} AmountSpelled(a: Amount)
    ensures AmountText(a) == AmountBytes(a)
    ensures PrecisionText(a) == if a.Absent? then [] else [46] + AmountBytes(a)
  {
    hide Decimal;
  }

  lemma {:induction false} FlagsSpelled(d: Directive)
    ensures Unparse(d, []) == (if d.left then [45] else []) + ((if d.zero then [48] else []) + WidthOn(d, []))
  {
    hide WidthOn;
  }

  lemma {:induction false} SpellingIsFormat(d: Directive)
    ensures Format([Conv(d)]) == Spelling(d)
  {
    hide Unparse, HashOn, LongOn, AmountText, PrecisionText, AmountBytes;
    assert [Conv(d)][1..] == [] && Format([]) == [];
    LetterSpelled(d);
    AmountSpelled(d.width);
    AmountSpelled(d.prec);
    FlagsSpelled(d);
  }

  /** The terminator in place of the letter cuts a directive short. */
  lemma {:induction false} PrintCutShort(d: Directive, args: seq<Arg>)
    requires d.conv == 0 && Spelled(d)
    ensures Print(Spelling(d), args) == RenderDirective(d, args)
  {
    SpellingIsFormat(d);
    SpelledIsWritable(d);
    ScanUnparse(d, []);
    var f := Spelling(d);
    assert f[0] == PERCENT && f[1..] == Unparse(d, []);
    hide Spelling, RenderDirective, Unparse, Scan, Writable;
    assert [Conv(d)][1..] == [];
    var o := RenderDirective(d, args);
    assert FirstItem(f) == Conv(d) && AfterFirst(f) == [];
    PrintUnfold(f, args);
    PrintUnfold([], o.rest);
    assert o.out + [] == o.out;
  }

  lemma {:induction false} SpelledIsWritable(d: Directive)
    requires (KnownConversion(d.conv) || d.conv == 0) && Spelled(d)
    ensures Writable(d)
  {
    Heads(d, []);
    if d.width.Literal? {
      DecimalDigits(d.width.n);
    }
  }

  lemma {:induction false} PrintSpelling(d: Directive, args: seq<Arg>)
    requires (KnownConversion(d.conv) || d.conv == 0) && Spelled(d)
    ensures Print(Spelling(d), args) == RenderDirective(d, args)
  {
    hide Print, RenderDirective, Spelling, Writable, Format, Spelled;
    if d.conv == 0 {
      PrintCutShort(d, args);
    } else {
      SpelledIsWritable(d);
      SpellingIsFormat(d);
      PrintOne(d, args);
    }
  }

  /** A '.' right after '%' or "%-" is another zero-pad flag, not the start of a precision. */
  lemma {:induction false} DotPads(left: bool, s: seq<Byte>, args: seq<Arg>)
    ensures var minus := if left then [45] else [];
            Print([37] + minus + [46] + s, args) == Print([37] + minus + [48] + s, args)
  {
    var minus := if left then [45] else [];
    var f, g := [37] + minus + [46] + s, [37] + minus + [48] + s;
    assert f[1..] == minus + [46] + s && g[1..] == minus + [48] + s;
    DotScans(left, s);
    hide Print, Scan, RenderItem;
    PrintUnfold(f, args);
    PrintUnfold(g, args);
  }

  lemma {:induction false} DotScans(left: bool, s: seq<Byte>)
    ensures var minus := if left then [45] else [];
            Scan(minus + [46] + s) == Scan(minus + [48] + s)
  {
    hide ScanAmount, ScanPrecision, ScanEnd;
    var f, g := (if left then [45] else []) + [46] + s, (if left then [45] else []) + [48] + s;
    var f1, g1 := Skip(f, left), Skip(g, left);
    assert f1 == [46] + s && g1 == [48] + s;
    assert Skip(f1, true) == s && Skip(g1, true) == s;
  }

  // ----- the arguments of a directive

  /** An amount takes an argument exactly when it is '*'. */
  function AmountArgs(a: Amount, v: Word): seq<Arg> {
    if a.Star? then [Int(v)] else []
  }

  function AmountValue(a: Amount, v: Word, default: Int32): Int32 {
    match a
    case Absent => default
    case Star => ToInt(v)
    case Literal(n) => ToInt(n)
  }

  /** The width argument `a`, the precision argument `b`, and then the rest. */
  function Args(d: Directive, a: Word, b: Word, rest: seq<Arg>): seq<Arg> {
    AmountArgs(d.width, a) + (AmountArgs(d.prec, b) + rest)
  }

  lemma {:induction false} TakesAmount(a: Amount, v: Word, default: Int32, rest: seq<Arg>)
    ensures TakeAmount(a, default, AmountArgs(a, v) + rest) == Taken(AmountValue(a, v, default), rest)
  {
    assert a.Star? ==> (AmountArgs(a, v) + rest)[1..] == rest;
    assert !a.Star? ==> AmountArgs(a, v) + rest == rest;
  }

  lemma {:induction false} TakesAmounts(d: Directive, a: Word, b: Word, rest: seq<Arg>)
    ensures TakeAmount(d.width, 0, Args(d, a, b, rest)) ==
            Taken(AmountValue(d.width, a, 0), AmountArgs(d.prec, b) + rest)
    ensures TakeAmount(d.prec, 32766, AmountArgs(d.prec, b) + rest) == Taken(AmountValue(d.prec, b, 32766), rest)
  {
    hide TakeAmount, AmountArgs, AmountValue;
    TakesAmount(d.width, a, 0, AmountArgs(d.prec, b) + rest);
    TakesAmount(d.prec, b, 32766, rest);
  }

  // ----- numbers

  /** The text of a number: after the prefix that '#' asks for, the canonical numeral in the base of
      the letter; for 'd' with its sign, and "-(" for the most negative long. */
  predicate NumberText(conv: Byte, hash: bool, w: Word, t: seq<Byte>) {
    if conv == 100 then
      if w == 0x8000_0000 then t == [45, 40] else Denotes(t, if w < 0x8000_0000 then w else w - 0x1_0000_0000)
    else
      var base := if conv == 117 then 10 else if conv == 111 then 8 else 16;
      var prefix := if !hash || conv == 117 then [] else if conv == 111 then [48] else [48, 120];
      && |t| > |prefix| && t[..|prefix|] == prefix
      && IsNumeral(t[|prefix|..], base, 97) && Horner(t[|prefix|..], base) == w
  }

  lemma {:induction false} BodyIsNumberText(d: Directive, w: Word)
    requires d.conv == 100 || d.conv == 111 || d.conv == 117 || d.conv == 120
    ensures NumberText(d.conv, d.hash, w, NumericBody(d, w))
  {
    hide SignedText, UnsignedText, Denotes, IsNumeral, Horner;
    if d.conv == 100 {
      SignedTextDenotes(ToInt(w));
      MinimumText();
    } else {
      UnsignedTextDenotes(d.conv, d.hash, w);
    }
  }

  lemma {:induction false} MinimumText()
    ensures SignedText(-0x8000_0000) == [45, 40]
  {}

  /** %d, %o, %u and %x with any flags, width and precision: the text of the number, flush to one
      side of a field as wide as asked, unless the room for it is not representable. */
  lemma {:induction false} NumberFormat(d: Directive, a: Word, b: Word, w: Word, rest: seq<Arg>)
    returns (body: seq<Byte>)
    requires d.conv == 100 || d.conv == 111 || d.conv == 117 || d.conv == 120
    requires Spelled(d)
    ensures NumberText(d.conv, d.hash, w, body)
    ensures var o, width := Print(Spelling(d), Args(d, a, b, [Int(w)] + rest)), AmountValue(d.width, a, 0);
            && o.status == Done && o.rest == rest
            && Aligned(o.out, body, d.left, if d.zero then 48 else 32)
            && (|o.out| == Max(width, |body|) <==> width - |body| >= -0x8000_0000)
  {
    body := NumericBody(d, w);
    BodyIsNumberText(d, w);
    hide NumberText, NumericBody, Print, Spelling, Args, RenderDirective, Aligned, TakeAmount, AmountArgs, AmountValue;
    var args := Args(d, a, b, [Int(w)] + rest);
    PrintSpelling(d, args);
    TakesAmounts(d, a, b, [Int(w)] + rest);
    NumericDirective(d, args, AmountValue(d.width, a, 0), AmountArgs(d.prec, b) + ([Int(w)] + rest),
                     AmountValue(d.prec, b, 32766), w, rest);
  }

  // ----- strings

  /** The argument points to the bytes `t` and a terminator, or is null and `t` is "(nil)". */
  predicate PointsTo(arg: Arg, t: seq<Byte>, more: seq<Byte>) {
    if arg.Null? then t == [40, 110, 105, 108, 41] else 0 !in t && arg == Text(t + [0] + more)
  }

  lemma {:induction false} CStringOf(t: seq<Byte>, more: seq<Byte>)
    requires 0 !in t
    ensures CString(t + [0] + more) == t
  {
    if t == [] {
      assert t + [0] + more == [0] + more;
    } else {
      CStringOf(t[1..], more);
      assert (t + [0] + more)[1..] == t[1..] + [0] + more;
      assert t == [t[0]] + t[1..];
    }
  }

  lemma {:induction false} StringOfPointer(arg: Arg, t: seq<Byte>, more: seq<Byte>)
    requires PointsTo(arg, t, more)
    ensures !arg.Int? && StringOf(arg) == t
  {
    hide CString;
    if arg.Text? {
      CStringOf(t, more);
    }
  }

  /** The first bytes of a string, as many as the precision allows. */
  function Shown(t: seq<Byte>, prec: int): seq<Byte> {
    if prec <= 0 then [] else if prec < |t| then t[..prec] else t
  }

  lemma {:induction false} ShownIsClamped(t: seq<Byte>, prec: int)
    ensures t[..Clamp(prec, 0, |t|)] == Shown(t, prec)
  {}

  /** %s with any flags, width and precision: the bytes before the terminator in order, cut to the
      precision (32766 unless given), in a field whose padding is reckoned from the whole string. */
  lemma {:induction false} StringFormat(d: Directive, a: Word, b: Word, arg: Arg, t: seq<Byte>, more: seq<Byte>,
                                        rest: seq<Arg>)
    requires d.conv == 115 && Spelled(d) && PointsTo(arg, t, more)
    ensures var o, width := Print(Spelling(d), Args(d, a, b, [arg] + rest)), AmountValue(d.width, a, 0);
            var shown := Shown(t, AmountValue(d.prec, b, 32766));
            && o.status == Done && o.rest == rest
            && Aligned(o.out, shown, d.left, if d.zero then 48 else 32)
            && (|o.out| == Max(width - |t|, 0) + |shown| <==> RoomFits(width, |t|))
  {
    hide Print, Spelling, Args, RenderDirective, Aligned, TakeAmount, AmountArgs, AmountValue;
    hide StringOf, RoomFits, PointsTo, Shown, Clamp;
    StringOfPointer(arg, t, more);
    var args := Args(d, a, b, [arg] + rest);
    PrintSpelling(d, args);
    TakesAmounts(d, a, b, [arg] + rest);
    var prec := AmountValue(d.prec, b, 32766);
    ShownIsClamped(t, prec);
    StringDirective(d, args, AmountValue(d.width, a, 0), AmountArgs(d.prec, b) + ([arg] + rest), prec, arg, rest);
  }

  const BARE_S := Directive(false, false, Absent, Absent, false, false, 115)

  /** A bare "%s" prints the string, up to 32766 bytes of it. */
  lemma {:induction false} BareString(arg: Arg, t: seq<Byte>, more: seq<Byte>)
    requires PointsTo(arg, t, more) && |t| < 0x8000_0000
    ensures Print([37, 115], [arg]) == Outcome(Shown(t, 32766), [], Done)
  {
    hide Print, Aligned, Shown, PointsTo, RoomFits;
    StringFormat(BARE_S, 0, 0, arg, t, more, []);
    assert Spelling(BARE_S) == [37, 115];
    assert Args(BARE_S, 0, 0, [arg] + []) == [arg];
    var o := Print([37, 115], [arg]);
    RoomFitsShort(0, |t|);
    JustBody(o.out, Shown(t, 32766), 32);
  }

  lemma {:induction false} JustBody(t: seq<Byte>, body: seq<Byte>, pad: Byte)
    requires Aligned(t, body, false, pad) && |t| == |body|
    ensures t == body
  {}

  // ----- characters

  lemma {:induction false} NoField(d: Directive, a: Word, b: Word, rest: seq<Arg>, args: seq<Arg>)
    requires d.conv == 99 || d.conv == 37
    requires if d.conv == 99 then args != [] && args[0].Int? && rest == args[1..] else rest == args
    ensures RenderDirective(d, Args(d, a, b, args)) ==
            Outcome([if d.conv == 99 then args[0].w % 256 else 37], rest, Done)
  {
    hide TakeAmount, AmountArgs, AmountValue, Args;
    TakesAmounts(d, a, b, args);
    assert d.conv == 99 ==> Supplies(args, [WantInt]);
    assert args[0..] == args;
  }

  /** %c prints the low byte of its argument, whatever flags, width and precision it has. */
  lemma {:induction false} CharFormat(d: Directive, a: Word, b: Word, w: Word, rest: seq<Arg>)
    requires d.conv == 99 && Spelled(d)
    ensures Print(Spelling(d), Args(d, a, b, [Int(w)] + rest)) == Outcome([w % 256], rest, Done)
  {
    hide Print, Spelling, Args, RenderDirective, Spelled;
    PrintSpelling(d, Args(d, a, b, [Int(w)] + rest));
    NoField(d, a, b, rest, [Int(w)] + rest);
  }

  /** %% prints a percent sign. */
  lemma {:induction false} PercentFormat(d: Directive, a: Word, b: Word, rest: seq<Arg>)
    requires d.conv == 37 && Spelled(d)
    ensures Print(Spelling(d), Args(d, a, b, rest)) == Outcome([37], rest, Done)
  {
    hide Print, Spelling, Args, RenderDirective, Spelled;
    PrintSpelling(d, Args(d, a, b, rest));
    NoField(d, a, b, rest, rest);
  }

  /** No flag, width or precision starts with this byte, and no conversion is meant by it. */
  predicate Meaningless(c: Byte) {
    && c != 0 && c != 45 && c != 46 && c != 42 && c != 35 && c != 108 && !(48 <= c <= 57)
    && c != 100 && c != 111 && c != 120 && c != 117 && c != 99 && c != 115 && c != 37
  }

  /** A letter without meaning prints nothing and takes nothing. */
  lemma {:induction false} UnknownFormat(c: Byte, args: seq<Arg>)
    requires Meaningless(c)
    ensures Print([37, c], args) == Outcome([], args, Done)
  {
    var d := Directive(false, false, Absent, Absent, false, false, c);
    assert Writable(d);
    hide Print, RenderDirective, Writable, Format;
    PrintOne(d, args);
    SpellingIsFormat(d);
    assert Spelling(d) == [37, c];
    UnknownRender(d, args);
  }

  lemma {:induction false} UnknownRender(d: Directive, args: seq<Arg>)
    requires Meaningless(d.conv) && d.width == Absent && d.prec == Absent
    ensures RenderDirective(d, args) == Outcome([], args, Done)
  {
    assert Supplies(args, []) && args[0..] == args;
  }

  // ----- formats that cannot be printed to their end

  /** What a directive wants: an integer for each '*', and what its letter calls for. */
  function Wants(d: Directive): seq<Kind> {
    (if d.width.Star? then [WantInt] else []) + (if d.prec.Star? then [WantInt] else []) +
    (if d.conv == 115 then [WantText] else if d.conv == 37 || d.conv == 0 then [] else [WantInt])
  }

  /** An argument is missing or of the wrong kind: nothing is printed, and those before it are
      used up. */
  lemma {:induction false} ArgumentMissing(d: Directive, args: seq<Arg>, k: nat)
    requires (KnownConversion(d.conv) || d.conv == 0) && Spelled(d)
    requires k < |Wants(d)| && k <= |args| && (k == |args| || !Accepts(Wants(d)[k], args[k]))
    requires forall i :: 0 <= i < k ==> Accepts(Wants(d)[i], args[i])
    ensures Print(Spelling(d), args) == Outcome([], args[k..], BadArgument)
  {
    hide Print, Spelling, Spelled;
    PrintSpelling(d, args);
    MissingRender(d, args, k);
  }

  lemma {:induction false} MissingRender(d: Directive, args: seq<Arg>, k: nat)
    requires KnownConversion(d.conv) || d.conv == 0
    requires k < |Wants(d)| && k <= |args| && (k == |args| || !Accepts(Wants(d)[k], args[k]))
    requires forall i :: 0 <= i < k ==> Accepts(Wants(d)[i], args[i])
    ensures RenderDirective(d, args) == Outcome([], args[k..], BadArgument)
  {
    hide ConversionText;
    assert args[0..] == args;
    if k > 0 {
      assert Accepts(Wants(d)[0], args[0]);
    }
    if k > 1 {
      assert Accepts(Wants(d)[1], args[1]) && args[1..][1..] == args[2..];
    }
  }

  /** The format ends inside the directive: nothing is printed after its arguments are taken. */
  lemma {:induction false} FormatCutShort(d: Directive, a: Word, b: Word, rest: seq<Arg>)
    requires d.conv == 0 && Spelled(d)
    ensures Print(Spelling(d), Args(d, a, b, rest)) == Outcome([], rest, PastEnd)
  {
    hide Print, Spelling, Spelled, Args, TakeAmount, AmountArgs, AmountValue;
    PrintSpelling(d, Args(d, a, b, rest));
    TakesAmounts(d, a, b, rest);
  }

  // ----- a precision that is none

  /** "%.3s" and its like do not cut the string: the number is a width, padded with zeros. */
  lemma {:induction false} DotString(n: nat, arg: Arg, t: seq<Byte>, more: seq<Byte>)
    requires PointsTo(arg, t, more)
    ensures var o := Print([37, 46] + Decimal(n) + [115], [arg]);
            && o.status == Done && o.rest == [] && Aligned(o.out, Shown(t, 32766), false, 48)
            && (|o.out| == Max(ToInt(n) - |t|, 0) + |Shown(t, 32766)| <==> RoomFits(ToInt(n), |t|))
  {
    var d := Directive(false, true, Literal(n), Absent, false, false, 115);
    DotSpelled(n);
    hide Print, Decimal, Aligned, Shown, PointsTo, RoomFits, ToInt, Spelling;
    DotPads(false, Decimal(n) + [115], [arg]);
    StringFormat(d, 0, 0, arg, t, more, []);
    assert Args(d, 0, 0, [arg] + []) == [arg];
  }

  lemma {:induction false} DotSpelled(n: nat)
    ensures [37] + [] + [46] + (Decimal(n) + [115]) == [37, 46] + Decimal(n) + [115]
    ensures [37] + [] + [48] + (Decimal(n) + [115]) ==
            Spelling(Directive(false, true, Literal(n), Absent, false, false, 115))
  {
    hide Decimal;
  }

  /** "%.3s" prints the whole of any longer string. */
  lemma {:induction false} DotThreeString(t: seq<Byte>)
    requires 0 !in t && 3 <= |t| <= 32766
    ensures Print([37, 46, 51, 115], [Text(t + [0])]) == Outcome(t, [], Done)
  {
    hide Print, Aligned, RoomFits, Decimal;
    var arg := Text(t + [0]);
    assert t + [0] + [] == t + [0];
    ThreeDigit(3);
    DotString(3, arg, t, []);
    assert [37, 46] + [51] + [115] == [37, 46, 51, 115];
    RoomFitsShort(3, |t|);
    JustBody(Print([37, 46, 51, 115], [arg]).out, t, 48);
  }

  lemma {:induction false} ThreeDigit(n: nat)
    requires n == 3
    ensures Decimal(n) == [51] && ToInt(n) == 3
  {
    SingleGlyph(n, 10, LOWER);
  }
}
