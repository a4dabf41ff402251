/** What rprintf1RamRom prints for formats written out byte by byte; joined by `Print1Concat`, these
    laws say what every format prints.
 */
module SimpleFormats {
  import opened Machine
  import opened Numerals
  import opened Directives
  import opened Render
  import opened NumberPrinters
  import opened Rprintf1
  import FieldLaws

  /** Text without '%' prints itself. */
  lemma {:induction false} LiteralText1(f: seq<Byte>, args: seq<Arg>)
    requires 0 !in f && 37 !in f
    ensures Print1(f, args) == Outcome(f, args, Done)
  {
    hide Print1;
    Print1Unfold(f, args);
    if f != [] {
      assert f[0] in f && 0 !in f[1..] && 37 !in f[1..];
      LiteralText1(f[1..], args);
      assert f == [f[0]] + f[1..];
    }
  }

  /** Nothing after the terminator is printed. */
  lemma {:induction false} TerminatedFormat1(f: seq<Byte>, g: seq<Byte>, args: seq<Arg>)
    ensures Print1(f + ([0] + g), args) == Print1(f, args)
    decreases |f|
  {
    hide Print1, SimpleDirective;
    var z := [0] + g;
    Print1Unfold(f, args);
    Print1Unfold(f + z, args);
    if Head(f) != 0 {
      assert (f + z)[1..] == f[1..] + z;
      assert f[0] != PERCENT || |f| > 1 ==> AfterText(f + z) == AfterText(f) + z;
      var first := FirstText(f, args);
      assert FirstText(f + z, args) == first;
      if f[0] == PERCENT && |f| == 1 {
        assert first.status == PastEnd by {
          EndOfText(args);
        }
      } else {
        TerminatedFormat1(AfterText(f), g, first.rest);
      }
    }
  }

  lemma {:induction false} EndOfText(args: seq<Arg>)
    ensures SimpleDirective(0, args) == Outcome([0], args, PastEnd)
  {}

  lemma {:induction false} DirectiveFrame(flag: Byte, args: seq<Arg>, more: seq<Arg>)
    requires SimpleDirective(flag, args).status == Done
    ensures var o := SimpleDirective(flag, args); SimpleDirective(flag, args + more) == o.(rest := o.rest + more)
  {
    hide ShortSigned, FixedDigits;
    if args != [] {
      assert (args + more)[0] == args[0] && (args + more)[1..] == args[1..] + more;
    }
  }

  lemma {:induction false} FirstTextFrame(f: seq<Byte>, g: seq<Byte>, args: seq<Arg>, more: seq<Arg>)
    requires 0 !in f && f != [] && FirstText(f, args).status == Done
    ensures var o := FirstText(f, args); FirstText(f + g, args + more) == o.(rest := o.rest + more)
    ensures AfterText(f + g) == AfterText(f) + g && 0 !in AfterText(f)
  {
    hide SimpleDirective;
    assert f[0] in f;
    EndOfText(args);
    if f[0] == PERCENT {
      assert |f| > 1;
      DirectiveFrame(f[1], args, more);
    }
  }

  /** Printing two formats joined, with their arguments joined, prints the one and then the other. */
  lemma {:induction false} Print1Concat(f: seq<Byte>, g: seq<Byte>, fargs: seq<Arg>, gargs: seq<Arg>)
    requires 0 !in f
    requires Print1(f, fargs).status == Done && Print1(f, fargs).rest == []
    ensures var o := Print1(g, gargs);
            Print1(f + g, fargs + gargs) == o.(out := Print1(f, fargs).out + o.out)
    decreases |f|
  {
    hide Print1, FirstText, AfterText;
    Print1Unfold(f, fargs);
    if f == [] {
      assert f + g == g && fargs + gargs == gargs;
      assert [] + Print1(g, gargs).out == Print1(g, gargs).out;
    } else {
      assert f[0] in f;
      FirstTextFrame(f, g, fargs, gargs);
      Print1Unfold(f + g, fargs + gargs);
      var first := FirstText(f, fargs);
      Print1Concat(AfterText(f), g, first.rest, gargs);
      var o, t := Print1(g, gargs), Print1(AfterText(f), first.rest).out;
      assert first.out + (t + o.out) == first.out + t + o.out;
    }
  }

  // ----- directives

  /** %c prints the low byte of its argument. */
  lemma {:induction false} CharFormat1(w: Word, rest: seq<Arg>)
    ensures Print1([37, 99], [Int(w)] + rest) == Outcome([w % 256], rest, Done)
  {
    hide Print1;
    PrintOneDirective(99, [Int(w)] + rest);
  }

  /** A letter other than c, d and x prints itself, '%' among them. */
  lemma {:induction false} OtherFormat1(c: Byte, args: seq<Arg>)
    requires c != 0 && c != 99 && c != 100 && c != 120
    ensures Print1([37, c], args) == Outcome([c], args, Done)
  {
    hide Print1;
    PrintOneDirective(c, args);
  }

  /** %x prints four digits of 0123456789ABCDEF that denote the low half of its argument. */
  lemma {:induction false} HexFormat1(w: Word, rest: seq<Arg>)
    ensures var o := Print1([37, 120], [Int(w)] + rest);
            && o.status == Done && o.rest == rest && |o.out| == 4 && Horner(o.out, 16) == w % 0x1_0000
            && forall i :: 0 <= i < 4 ==> 48 <= o.out[i] <= 57 || 65 <= o.out[i] <= 70
  {
    hide Print1, FixedDigits, Horner;
    PrintOneDirective(120, [Int(w)] + rest);
    FixedDenotes(w, 16, 4);
    assert Pow(16, 4) == 0x1_0000;
    FixedGlyphs(w, 16, 4);
  }

  /** %d: a minus for negative numbers; then the canonical numeral up to 99999, and beyond that five
      positions of which the last four hold the low decimal digits and the first the low nibble of
      what is left. */
  predicate SimpleNumber(t: seq<Byte>, l: Int32) {
    if -99999 <= l <= 99999 then FieldLaws.Denotes(t, l)
    else
      var u, s := if l < 0 then -(l as int) else l, if l < 0 then 1 else 0;
      && |t| == s + 5 && (l < 0 ==> t[0] == 45)
      && DigitValue(t[s]) == u / 10000 % 16 && (48 <= t[s] <= 57 || 65 <= t[s] <= 70)
      && Horner(t[s + 1..], 10) == u % 10000 && forall i :: s < i < s + 5 ==> 48 <= t[i] <= 57
  }

  lemma {:induction false} SignedFormat1(w: Word, rest: seq<Arg>)
    ensures var o := Print1([37, 100], [Int(w)] + rest);
            && o.status == Done && o.rest == rest
            && SimpleNumber(o.out, if w < 0x8000_0000 then w else w - 0x1_0000_0000)
  {
    hide Print1, ShortSigned, SimpleNumber;
    PrintOneDirective(100, [Int(w)] + rest);
    ShortIsSimple(ToInt(w));
  }

  lemma {:induction false} ShortIsSimple(l: Int32)
    ensures SimpleNumber(ShortSigned(l), l)
  {
    hide FieldLaws.Denotes, FixedDigits, Horner;
    ShortSignedDenotes(l);
    var u, s := Magnitude(true, l), if l < 0 then 1 else 0;
    if u > 99999 {
      var t, low := ShortSigned(l), FixedDigits(u % 10000, 10, 4);
      FixedDenotes(u % 10000, 10, 4);
      TenPowers();
      FixedGlyphs(u % 10000, 10, 4);
      assert t[s + 1..] == low;
      forall i | s < i < s + 5 ensures 48 <= t[i] <= 57 {
        assert t[i] == low[i - s - 1];
      }
    }
  }

  /** The argument of %c, %d or %x is missing: nothing is printed. */
  lemma {:induction false} ArgumentMissing1(c: Byte, g: seq<Byte>, args: seq<Arg>)
    requires (c == 99 || c == 100 || c == 120) && (args == [] || !args[0].Int?)
    ensures Print1([37, c] + g, args) == Outcome([], args, BadArgument)
  {
    hide Print1;
    var f := [37, c] + g;
    assert f[1..] == [c] + g;
    Print1Unfold(f, args);
  }

  /** A format that ends in '%' prints its terminator. */
  lemma {:induction false} FormatCutShort1(args: seq<Arg>)
    ensures Print1([37], args) == Outcome([0], args, PastEnd)
  {
    hide Print1;
    Print1Unfold([37], args);
  }
}
