/** rprintf2RamRom: the cursor, the flags and the scratch buffer, proved to print what
    Render.Print says.
 */
module Rprintf2 {
  import opened Machine
  import opened Numerals
  import opened Directives
  import opened Render
  import C = Console

  /** `atoiRamRom`: the value of the digits from position `k`, in wrapping `int` arithmetic. */
  method AtoiRamRom(str: seq<Byte>, k: nat) returns (num: Int32)
    requires k <= |str|
    ensures num == ToInt(Horner(DigitRun(str[k..]), 10))
  {
    hide ToInt, DigitRun, Horner;
    HornerEmpty(str, k);
    num := 0;
    var i := k;
    while i < |str| && IsDigit(str[i])
      invariant k <= i <= |str|
      invariant forall j :: k <= j < i ==> IsDigit(str[j])
      invariant num == ToInt(Horner(str[k..i], 10))
    {
      HornerStep(str, k, i);
      num := ToInt(10 * num);
      num := ToInt(num + (str[i] - 48));
      i := i + 1;
    }
    assert str[k..] == str[k..i] + str[i..];
    DigitRunConcat(str[k..i], str[i..]);
    DigitRunEmpty(str[i..]);
    assert str[k..i] + [] == str[k..i];
  }

  lemma {:induction false} HornerEmpty(str: seq<Byte>, k: nat)
    requires k <= |str|
    ensures ToInt(Horner(str[k..k], 10)) == 0
  {}

  lemma {:induction false} HornerStep(str: seq<Byte>, k: nat, i: nat)
    requires k <= i < |str| && IsDigit(str[i])
    ensures ToInt(ToInt(10 * ToInt(Horner(str[k..i], 10))) + (str[i] - 48)) == ToInt(Horner(str[k..i + 1], 10))
  {
    hide ToInt;
    var t := str[k..i + 1];
    assert t[..|t| - 1] == str[k..i];
    ToIntHorner(Horner(str[k..i], 10), 10, str[i] - 48);
  }

  lemma {:induction false} DigitRunEmpty(s: seq<Byte>)
    requires !IsDigit(Head(s))
    ensures DigitRun(s) == []
  {}

  class Formatter {
    const console: C.Console
    const buf: array<Byte>  // the static scratch buffer

    // the format cursor and the variable argument list
    var format: seq<Byte>
    var f: nat
    var ap: seq<Arg>

    // the flags of the directive being read
    var pad: Byte
    var flushLeft: bool
    var fWidth: Int32
    var prec: Int32
    var hash: bool
    var doLong: bool
    var sign: bool

    ghost predicate Valid()
      reads this, console
    {
      buf.Length == 128 && console.Valid() && f <= |format|
    }

    /** The flags have their initial values. */
    ghost predicate Reset()
      reads this
    {
      pad == SPACE && !flushLeft && fWidth == 0 && prec == INF && !hash && !doLong && !sign
    }

    ghost function Tail(): seq<Byte>
      reads this
      requires f <= |format|
    {
      format[f..]
    }

    constructor (console: C.Console)
      requires console.Valid()
      ensures Valid() && Reset() && this.console == console && fresh(buf)
    {
      this.console := console;
      buf := new Byte[128](_ => 0);
      format, f, ap := [], 0, [];
      pad, flushLeft, fWidth, prec, hash, doLong, sign := SPACE, false, 0, INF, false, false, false;
    }

    /** `READMEMBYTE(stringInRom, f)` */
    function At(): (c: Byte)
      reads this
      ensures f <= |format| ==> c == Head(Tail())
    {
      if f < |format| then format[f] else 0
    }

    // ----- reading a directive

    /** `if (*f == c) f++` for either of two bytes. */
    method Accept(c: Byte, alt: Byte) returns (hit: bool)
      requires Valid() && c != 0 && alt != 0
      modifies this`f
      ensures Valid()
      ensures hit <==> old(At()) == c || old(At()) == alt
      ensures hit ==> old(Tail()) != []
      ensures Tail() == Skip(old(Tail()), hit)
    {
      hit := At() == c || At() == alt;
      if hit {
        f := f + 1;
      }
    }

    method SkipDigits()
      requires Valid()
      modifies this`f
      ensures Valid()
      ensures Tail() == old(Tail())[|DigitRun(old(Tail()))|..]
    {
      ghost var start := f;
      while IsDigit(At())
        invariant start <= f <= |format|
        invariant forall j :: start <= j < f ==> IsDigit(format[j])
        decreases |format| - f
      {
        f := f + 1;
      }
      assert format[start..] == format[start..f] + format[f..];
      DigitRunConcat(format[start..f], format[f..]);
      assert DigitRun(format[f..]) == [];
    }

    /** A width or precision; `current` is kept when there is none. */
    method ReadAmount(current: Int32) returns (ok: bool, value: Int32)
      requires Valid()
      modifies this`f, this`ap
      ensures Valid()
      ensures var sa := ScanAmount(old(Tail()));
              var t := TakeAmount(sa.amount, current, old(ap));
              if ok then t == Taken(value, ap) && Tail() == sa.rest else t == Missing && ap == old(ap)
    {
      ok, value := true, current;
      if At() == STAR {
        if ap == [] || !ap[0].Int? {
          ok := false;
          return;
        }
        value := ToInt(ap[0].w);
        ap := ap[1..];
        f := f + 1;
      } else if IsDigit(At()) {
        value := AtoiRamRom(format, f);
        SkipDigits();
      }
    }

    method ReadFlags()
      requires Valid() && Reset()
      modifies this`f, this`pad, this`flushLeft
      ensures Valid()
      ensures var s := old(Tail());
              var s1 := Skip(s, Head(s) == MINUS);
              && flushLeft == (Head(s) == MINUS)
              && pad == (if ZeroFlag(Head(s1)) then ZERO else SPACE)
              && Tail() == Skip(s1, ZeroFlag(Head(s1)))
    {
      hide Skip;
      var hit := Accept(MINUS, MINUS);
      if hit {
        flushLeft := true;
      }
      hit := Accept(ZERO, DOT);
      if hit {
        pad := ZERO;
      }
    }

    method ReadPrecision() returns (ok: bool)
      requires Valid()
      modifies this`f, this`ap, this`prec
      ensures Valid()
      ensures var sp := ScanPrecision(old(Tail()));
              var t := TakeAmount(sp.amount, old(prec), old(ap));
              if ok then t == Taken(prec, ap) && Tail() == sp.rest else t == Missing && ap == old(ap)
    {
      hide ScanAmount;
      ok := true;
      var hit := Accept(DOT, DOT);
      if hit {
        ok, prec := ReadAmount(prec);
      }
    }

    method ReadEnd(ghost d: Directive)
      requires Valid() && !hash && !doLong
      modifies this`f, this`hash, this`doLong
      ensures Valid()
      ensures var sc := ScanEnd(old(Tail()), d.left, d.zero, d.width, d.prec);
              Tail() == sc.rest && hash == sc.d.hash && doLong == sc.d.long
    {
      hide Skip;
      var hit := Accept(HASH, HASH);
      if hit {
        hash := true;
      }
      hit := Accept(ELL, ELL);
      if hit {
        doLong := true;
      }
    }

    /** Everything between the '%' and the conversion letter. */
    method ScanDirective() returns (ok: bool)
      requires Valid() && Reset()
      modifies this`f, this`ap, this`pad, this`flushLeft, this`fWidth, this`prec, this`hash, this`doLong
      ensures Valid()
      ensures var sc := Scan(old(Tail()));
              var tw := TakeAmount(sc.d.width, 0, old(ap));
              if !ok then
                if tw.Missing? then ap == old(ap)
                else ap == tw.rest && TakeAmount(sc.d.prec, INF, tw.rest).Missing?
              else
                && tw.Taken? && fWidth == tw.value
                && TakeAmount(sc.d.prec, INF, tw.rest) == Taken(prec, ap)
                && Tail() == sc.rest
                && flushLeft == sc.d.left && hash == sc.d.hash
                && pad == (if sc.d.zero then ZERO else SPACE)
    {
      hide ScanAmount, ScanPrecision, ScanEnd, TakeAmount, Skip, Head, ZeroFlag;
      ghost var d := Scan(Tail()).d;
      ReadFlags();
      ok, fWidth := ReadAmount(fWidth);
      if !ok {
        return;
      }
      ok := ReadPrecision();
      if !ok {
        return;
      }
      ReadEnd(d);
    }

    // ----- conversions

    /** `*bp++ = c` */
    method Append(bp: nat, c: Byte) returns (bp': nat)
      requires buf.Length == 128 && bp < 12
      modifies buf
      ensures bp' == bp + 1 && Reverse(buf[..bp']) == [c] + Reverse(old(buf[..bp]))
    {
      hide Reverse;
      ghost var before := buf[..bp];
      ReverseSnoc(before, c);
      buf[bp] := c;
      bp' := bp + 1;
      assert buf[..bp'] == before + [c];
    }

    /** The digit loops of %u, %o and %x, least significant digit first into the buffer. */
    method UnsignedDigits(n: Word, base: nat) returns (bp: nat)
      requires buf.Length == 128 && (base == 8 || base == 10 || base == 16)
      modifies buf
      ensures bp == |Numeral(n, base, LOWER)| <= 11
      ensures Reverse(buf[..bp]) == Numeral(n, base, LOWER)
    {
      hide Reverse, Numeral, Quotient, Remainder;
      DigitBound(n, base);
      ghost var text := Numeral(n, base, LOWER);
      ghost var high, low := text, [];
      var u: nat, more := n, true;
      bp := 0;
      while more
        invariant text == high + low && |text| <= 11 && bp == |low|
        invariant high == if more then Numeral(u, base, LOWER) else []
        invariant Reverse(buf[..bp]) == low
        decreases more, u
      {
        var i := Remainder(u, base);
        var c := if i < 10 then i + 48 else i - 10 + 97;
        LastGlyph(u, base, LOWER);
        u := Quotient(u, base);
        more := u > 0;
        bp := Append(bp, c);
        high := if more then Numeral(u, base, LOWER) else [];
        Regroup(high, c, low);
        low := [c] + low;
      }
    }

    /** The digit loop of %d. A value still negative here (the most negative long, which its
        own negation left unchanged) leaves the loop after one character. */
    method SignedDigits(n: Int32) returns (bp: nat)
      requires buf.Length == 128 && (n >= 0 || n == INT_MIN)
      modifies buf
      ensures bp <= 10
      ensures Reverse(buf[..bp]) == if n >= 0 then Decimal(n) else [40]
    {
      hide TruncMod, TruncDiv, Decimal, Reverse;
      ghost var text := if n >= 0 then Decimal(n) else [40];
      if n >= 0 {
        DecimalBound(n);
      }
      ghost var high, low := text, [];
      var l: int, more := n, true;
      bp := 0;
      while more
        invariant if n >= 0 then l >= 0 else l == n || !more
        invariant text == high + low && |text| <= 10 && bp == |low|
        invariant high == if !more then [] else if n >= 0 then Decimal(l) else [40]
        invariant Reverse(buf[..bp]) == low
        decreases more, if l >= 0 then l else 0
      {
        SignedStep(l);
        var c := TruncMod(l, 10) + 48;
        l := TruncDiv(l, 10);
        more := l > 0;
        bp := Append(bp, c);
        high := if more then Decimal(l) else [];
        Regroup(high, c, low);
        low := [c] + low;
      }
    }

    /** `for (bp--; bp >= buf; bp--) rprintfChar(*bp)` */
    method EmitBackwards(count: nat)
      requires Valid() && count <= 128
      modifies console
      ensures Valid() && console.log == old(console.log) + Reverse(buf[..count])
    {
      hide C.Wire, Reverse;
      ghost var all := Reverse(buf[..count]);
      var bp := count;
      while bp > 0
        invariant 0 <= bp <= count
        invariant Valid() && console.log == old(console.log) + all[..count - bp]
      {
        bp := bp - 1;
        assert all[..count - bp] == all[..count - bp - 1] + [buf[bp]];
        console.RprintfChar(buf[bp]);
      }
    }

    /** The padding and the buffer, on the sides the flags ask for. */
    method EmitField(count: nat)
      requires Valid() && count <= 128
      modifies console
      ensures Valid()
      ensures console.log == old(console.log) + Field(Reverse(buf[..count]), fWidth, flushLeft, pad)
    {
      hide C.Wire, Reverse, ToInt;
      var room := ToInt(fWidth - count);
      ghost var start, body := console.log, Reverse(buf[..count]);
      if !flushLeft {
        console.Pad(pad, room);
      }
      EmitBackwards(count);
      if flushLeft {
        console.Pad(SPACE, room);
        assert start + body + Fill(SPACE, room) == start + (body + Fill(SPACE, room));
      } else {
        assert start + Fill(pad, room) + body == start + (Fill(pad, room) + body);
      }
    }

    method ConvertSigned()
      requires Valid() && !sign && ap != [] && ap[0].Int?
      modifies this`ap, this`sign, buf, console
      ensures Valid() && ap == old(ap)[1..]
      ensures console.log == old(console.log) + Field(SignedText(ToInt(old(ap)[0].w)), fWidth, flushLeft, pad)
    {
      hide C.Wire, Reverse, Numeral, Field;
      var l: int := ToInt(ap[0].w);
      ap := ap[1..];
      ghost var text := SignedText(l);
      if l < 0 {
        sign := true;
        l := ToInt(-l);
      }
      var bp := SignedDigits(l);
      if sign {
        bp := Append(bp, MINUS);
      }
      assert bp <= 12 && Reverse(buf[..bp]) == text;
      EmitField(bp);
    }

    /** `fmt` is the conversion letter: o, x or u. */
    method ConvertUnsigned(fmt: Byte)
      requires Valid() && ap != [] && ap[0].Int?
      requires fmt == LETTER_O || fmt == LETTER_X || fmt == LETTER_U
      modifies this`ap, buf, console
      ensures Valid() && ap == old(ap)[1..]
      ensures console.log ==
              old(console.log) + Field(UnsignedText(fmt, hash, old(ap)[0].w), fWidth, flushLeft, pad)
    {
      hide C.Wire, Reverse, Numeral, Field;
      var u := ap[0].w;
      ap := ap[1..];
      var bp;
      if fmt == LETTER_U {
        bp := UnsignedDigits(u, 10);
      } else if fmt == LETTER_O {
        bp := UnsignedDigits(u, 8);
        if hash {
          bp := Append(bp, ZERO);
        }
      } else {
        HexBound(u);
        bp := UnsignedDigits(u, 16);
        if hash {
          bp := Append(bp, LETTER_X);
          bp := Append(bp, ZERO);
        }
      }
      assert bp <= 12 && Reverse(buf[..bp]) == UnsignedText(fmt, hash, u);
      EmitField(bp);
    }

    /** `for (i = 0; *bp && i < prec; i++)` */
    method EmitString(s: seq<Byte>)
      requires Valid()
      modifies console
      ensures Valid() && console.log == old(console.log) + s[..Clamp(prec, 0, |s|)]
    {
      hide C.Wire;
      var i := 0;
      while i < |s| && i < prec
        invariant 0 <= i <= |s| && (i > 0 ==> i <= prec)
        invariant Valid() && console.log == old(console.log) + s[..i]
      {
        assert s[..i + 1] == s[..i] + [s[i]];
        console.RprintfChar(s[i]);
        i := i + 1;
      }
    }

    method ConvertString()
      requires Valid() && ap != [] && !ap[0].Int?
      modifies this`ap, console
      ensures Valid() && ap == old(ap)[1..]
      ensures console.log ==
              old(console.log) + StringField(StringOf(old(ap)[0]), fWidth, prec, flushLeft, pad)
    {
      hide CString, C.Wire, ToInt, Fill;
      var s := if ap[0].Null? then NIL else CString(ap[0].s);
      ap := ap[1..];
      var room := ToInt(fWidth - |s|);
      ghost var start, shown := console.log, s[..Clamp(prec, 0, |s|)];
      if !flushLeft {
        console.Pad(pad, room);
      }
      EmitString(s);
      if flushLeft {
        console.Pad(SPACE, room);
        assert start + shown + Fill(SPACE, room) == start + (shown + Fill(SPACE, room));
      } else {
        assert start + Fill(pad, room) + shown == start + (Fill(pad, room) + shown);
      }
    }

    /** The `switch (fmt)`: false when the argument it fetches is not there. */
    method Convert(fmt: Byte, ghost d: Directive) returns (ok: bool)
      requires Valid() && !sign && fmt == d.conv
      requires flushLeft == d.left && hash == d.hash && pad == (if d.zero then ZERO else SPACE)
      modifies this`ap, this`sign, buf, console
      ensures Valid()
      ensures ok <==> Supplies(old(ap), ConversionKinds(fmt))
      ensures ok ==> ap == old(ap)[|ConversionKinds(fmt)|..]
      ensures ok ==> console.log == old(console.log) + ConversionText(d, fWidth, prec, old(ap))
      ensures !ok ==> ap == old(ap) && console.log == old(console.log)
    {
      hide C.Wire, Field, StringField, SignedText, UnsignedText, StringOf;
      SuppliesOne(ap, fmt);
      ok := true;
      if fmt == LETTER_S {
        if ap == [] || ap[0].Int? {
          ok := false;
          return;
        }
        ConvertString();
      } else if KnownConversion(fmt) && fmt != PERCENT {
        if ap == [] || !ap[0].Int? {
          ok := false;
          return;
        }
        if fmt == LETTER_D {
          ConvertSigned();
        } else if fmt == LETTER_C {
          console.RprintfChar(ap[0].w % 256);
          ap := ap[1..];
        } else {
          ConvertUnsigned(fmt);
        }
      } else if fmt == PERCENT {
        console.RprintfChar(PERCENT);
      }
    }

    method ResetFlags()
      modifies this`pad, this`flushLeft, this`fWidth, this`prec, this`hash, this`doLong, this`sign
      ensures Reset()
    {
      flushLeft, fWidth, prec, hash, doLong := false, 0, INF, false, false;
      sign := false;
      pad := SPACE;
    }

    /** One directive, the cursor being just after its '%'. */
    method PrintDirective() returns (status: Status)
      requires Valid() && Reset()
      modifies this, buf, console
      ensures Valid() && format == old(format)
      ensures var sc := Scan(old(Tail()));
              var o := RenderDirective(sc.d, old(ap));
              && status == o.status && ap == o.rest && console.log == old(console.log) + o.out
              && (status == Done ==> Reset() && Tail() == sc.rest && sc.rest != [])
    {
      hide Scan, TakeAmount, ConversionText, ConversionKinds, Supplies, C.Wire;
      ghost var d := Scan(Tail()).d;
      var ok := ScanDirective();
      if !ok {
        return BadArgument;
      }
      var fmt := At();
      NoLetter(d, fWidth, prec, ap);
      ok := Convert(fmt, d);
      ResetFlags();
      status := if fmt == 0 then PastEnd else if ok then Done else BadArgument;
    }

    /** The body of the `for` loop with its `f++`. */
    method PrintItem() returns (status: Status)
      requires Valid() && Reset() && At() != 0
      modifies this, buf, console
      ensures Valid() && format == old(format)
      ensures var o := RenderItem(FirstItem(old(Tail())), old(ap));
              && status == o.status && ap == o.rest && console.log == old(console.log) + o.out
              && (status == Done ==> Reset() && Tail() == AfterFirst(old(Tail())))
    {
      hide C.Wire, Scan, RenderDirective;
      ghost var tail := Tail();
      if At() != PERCENT {
        console.RprintfChar(At());
        status := Done;
      } else {
        f := f + 1;
        assert Tail() == tail[1..];
        status := PrintDirective();
        if status != Done {
          return;
        }
        DoneHasLetter(Scan(tail[1..]).d, old(ap));
      }
      f := f + 1;
    }

    /** The interpreter prints what the specification says, stops where it says, and leaves the
        arguments it did not consume. */
    method Rprintf2RamRom(sfmt: seq<Byte>, args: seq<Arg>) returns (status: Status)
      requires Valid()
      modifies this, buf, console
      ensures Valid()
      ensures console.log == old(console.log) + Print(sfmt, args).out
      ensures status == Print(sfmt, args).status && ap == Print(sfmt, args).rest
    {
      hide Print, C.Wire;
      format, f, ap := sfmt, 0, args;
      ResetFlags();
      status := Run();
    }

    /** The `for` loop; it is left early only where C gives the run no meaning. */
    method Run() returns (status: Status)
      requires Valid() && Reset() && f == 0
      modifies this, buf, console
      ensures Valid()
      ensures var o := Print(old(format), old(ap));
              console.log == old(console.log) + o.out && status == o.status && ap == o.rest
    {
      hide C.Wire, FirstItem, AfterFirst, RenderItem, Resumed, Head, Print;
      ghost var goal := Print(format, ap);
      ResumeStart(ap, goal);
      ghost var done, tail := [], format;
      status := Done;
      while status == Done && At() != 0
        invariant Valid() && (status == Done ==> Reset() && Tail() == tail)
        invariant console.log == old(console.log) + done
        invariant goal == Resumed(done, status, ap, Print(tail, ap))
        decreases if status == Done then 1 else 0, |tail|
      {
        PrintUnfold(tail, ap);
        ghost var first := RenderItem(FirstItem(tail), ap);
        ResumeStep(done, ap, first, Print(AfterFirst(tail), first.rest));
        done := done + first.out;
        status := PrintItem();
        tail := AfterFirst(tail);
      }
      PrintUnfold(tail, ap);
      ResumeEnd(done, status, ap, Print(tail, ap));
    }
  }

  lemma {:induction false} DoneHasLetter(d: Directive, args: seq<Arg>)
    requires RenderDirective(d, args).status == Done
    ensures d.conv != 0
  {}

  lemma {:induction false} SuppliesOne(args: seq<Arg>, conv: Byte)
    ensures Supplies(args, ConversionKinds(conv)) <==>
            (if conv == LETTER_S then args != [] && !args[0].Int?
             else if KnownConversion(conv) && conv != PERCENT then args != [] && args[0].Int?
             else true)
  {}

  lemma {:induction false} NoLetter(d: Directive, width: Int32, prec: Int32, args: seq<Arg>)
    ensures ConversionKinds(0) == [] && Supplies(args, [])
    ensures d.conv == 0 ==> ConversionText(d, width, prec, args) == []
  {}

  lemma {:induction false} DigitBound(n: Word, base: nat)
    requires base == 8 || base == 10 || base == 16
    ensures |Numeral(n, base, LOWER)| <= 11
  {
    assert Pow(8, 11) == 0x2_0000_0000;
    assert Pow(10, 11) == 100_000_000_000;
    assert Pow(16, 11) == 0x1000_0000_0000;
    NumeralLength(n, base, LOWER, 11);
  }

  lemma {:induction false} DecimalBound(n: Word)
    ensures |Decimal(n)| <= 10
  {
    assert Pow(10, 10) == 10_000_000_000;
    NumeralLength(n, 10, LOWER, 10);
  }

  lemma {:induction false} HexBound(n: Word)
    ensures |Numeral(n, 16, LOWER)| <= 8
  {
    assert Pow(16, 8) == 0x1_0000_0000;
    NumeralLength(n, 16, LOWER, 8);
  }

  lemma {:induction false} Regroup(high: seq<Byte>, c: Byte, low: seq<Byte>)
    ensures high + [c] + low == high + ([c] + low)
  {}

  /** One turn of the %d loop. */
  lemma {:induction false} SignedStep(l: int)
    requires l >= 0 || l == INT_MIN
    ensures var q, c := TruncDiv(l, 10), TruncMod(l, 10) + 48;
            if l >= 0 then
              && 0 <= c < 256 && 0 <= q && (q > 0 ==> q < l)
              && Decimal(l) == (if q > 0 then Decimal(q) else []) + [c]
            else q < 0 && c == 40
  {
    if l >= 0 {
      LastGlyph(l, 10, LOWER);
    }
  }
}
