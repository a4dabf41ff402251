/** The grammar of rprintf2RamRom's formats: scanning text into directive records, and
    writing records back as text.

    The grammar resembles that of fprintf but differs from it: a leading '.' is the zero-pad
    flag, and '#' comes after the precision.
 */
module Directives {
  import opened Machine
  import opened Numerals

  const PERCENT: Byte := 37
  const DOT: Byte := 46
  const STAR: Byte := 42
  const HASH: Byte := 35
  const ELL: Byte := 108

  /** A width or precision: not given, taken from the arguments, or written out. */
  datatype Amount = Absent | Star | Literal(n: nat)

  datatype Directive = Directive(left: bool, zero: bool, width: Amount, prec: Amount,
                                 hash: bool, long: bool, conv: Byte)

  /** A scanned directive and the text from its conversion letter on. */
  datatype Scanned = Scanned(d: Directive, rest: seq<Byte>)

  datatype ScannedAmount = ScannedAmount(amount: Amount, rest: seq<Byte>)

  /** The byte under the cursor; the terminator when the text is used up. */
  function Head(s: seq<Byte>): Byte {
    if s == [] then 0 else s[0]
  }

  function Skip(s: seq<Byte>, hit: bool): (r: seq<Byte>)
    requires hit ==> s != []
    ensures |r| == |s| - if hit then 1 else 0
  {
    if hit then s[1..] else s
  }

  /** The longest run of digits at the front. */
  function DigitRun(s: seq<Byte>): (t: seq<Byte>)
    ensures |t| <= |s| && t == s[..|t|]
    ensures forall i :: 0 <= i < |t| ==> IsDigit(t[i])
    ensures !IsDigit(Head(s[|t|..]))
  {
    if IsDigit(Head(s)) then [s[0]] + DigitRun(s[1..]) else []
  }

  function ScanAmount(s: seq<Byte>): (r: ScannedAmount)
    ensures |r.rest| <= |s|
  {
    if Head(s) == STAR then ScannedAmount(Star, s[1..])
    else if IsDigit(Head(s)) then
      var t := DigitRun(s);
      ScannedAmount(Literal(Horner(t, 10)), s[|t|..])
    else ScannedAmount(Absent, s)
  }

  function ScanPrecision(s: seq<Byte>): (r: ScannedAmount)
    ensures |r.rest| <= |s|
  {
    if Head(s) == DOT then ScanAmount(s[1..]) else ScannedAmount(Absent, s)
  }

  predicate ZeroFlag(c: Byte) {
    c == ZERO || c == DOT
  }

  /** The modifiers after the precision, up to the conversion letter. */
  function ScanEnd(s: seq<Byte>, left: bool, zero: bool, width: Amount, prec: Amount): (r: Scanned)
    ensures r.d.left == left && r.d.zero == zero && r.d.width == width && r.d.prec == prec
    ensures |r.rest| <= |s| && r.d.conv == Head(r.rest)
  {
    var hash := Head(s) == HASH;
    var s1 := Skip(s, hash);
    var long := Head(s1) == ELL;
    var s2 := Skip(s1, long);
    Scanned(Directive(left, zero, width, prec, hash, long, Head(s2)), s2)
  }

  /** Scan the text that follows a '%'. */
  function Scan(s: seq<Byte>): (r: Scanned)
    ensures |r.rest| <= |s| && r.d.conv == Head(r.rest)
  {
    var left := Head(s) == MINUS;
    var s1 := Skip(s, left);
    var zero := ZeroFlag(Head(s1));
    var s2 := Skip(s1, zero);
    var width := ScanAmount(s2);
    var prec := ScanPrecision(width.rest);
    ScanEnd(prec.rest, left, zero, width.amount, prec.amount)
  }

  /** A format is literal characters and directives; only the last directive can lack its
      conversion letter, which is then the terminator itself. */
  datatype Item = Char(c: Byte) | Conv(d: Directive)

  function FirstItem(f: seq<Byte>): Item
    requires Head(f) != 0
  {
    if f[0] == PERCENT then Conv(Scan(f[1..]).d) else Char(f[0])
  }

  function AfterFirst(f: seq<Byte>): (r: seq<Byte>)
    requires Head(f) != 0
    ensures |r| < |f|
  {
    if f[0] != PERCENT then f[1..]
    else
      var rest := Scan(f[1..]).rest;
      if Head(rest) == 0 then [] else rest[1..]
  }

  function Parse(f: seq<Byte>): (items: seq<Item>)
    decreases |f|
  {
    if Head(f) == 0 then [] else [FirstItem(f)] + Parse(AfterFirst(f))
  }

  predicate Complete(items: seq<Item>) {
    forall i :: 0 <= i < |items| && items[i].Conv? ==> items[i].d.conv != 0
  }

  // ----- writing directives back

  function Opt(b: bool, c: Byte): seq<Byte> {
    if b then [c] else []
  }

  function AmountText(a: Amount): seq<Byte> {
    match a
    case Absent => []
    case Star => [STAR]
    case Literal(n) => Decimal(n)
  }

  function PrecisionText(a: Amount): seq<Byte> {
    if a.Absent? then [] else [DOT] + AmountText(a)
  }

  // The text of a directive from each of its parts on, `rest` being what follows it.

  function LetterOn(d: Directive, rest: seq<Byte>): seq<Byte> {
    [d.conv] + rest
  }

  function LongOn(d: Directive, rest: seq<Byte>): seq<Byte> {
    Opt(d.long, ELL) + LetterOn(d, rest)
  }

  function HashOn(d: Directive, rest: seq<Byte>): seq<Byte> {
    Opt(d.hash, HASH) + LongOn(d, rest)
  }

  function PrecisionOn(d: Directive, rest: seq<Byte>): seq<Byte> {
    PrecisionText(d.prec) + HashOn(d, rest)
  }

  function WidthOn(d: Directive, rest: seq<Byte>): seq<Byte> {
    AmountText(d.width) + PrecisionOn(d, rest)
  }

  function ZeroOn(d: Directive, rest: seq<Byte>): seq<Byte> {
    Opt(d.zero, ZERO) + WidthOn(d, rest)
  }

  /** The text of a directive after its '%'. */
  function Unparse(d: Directive, rest: seq<Byte>): seq<Byte> {
    Opt(d.left, MINUS) + ZeroOn(d, rest)
  }

  predicate AmountEnds(a: Amount, c: Byte) {
    match a
    case Absent => c != STAR && !IsDigit(c)
    case Star => true
    case Literal(_) => !IsDigit(c)
  }

  /** No absent part of the directive is mimicked by the text that follows it. */
  predicate Writable(d: Directive) {
    && (!d.left ==> Head(ZeroOn(d, [])) != MINUS)
    && (!d.zero ==> !ZeroFlag(Head(WidthOn(d, []))))
    && AmountEnds(d.width, Head(PrecisionOn(d, [])))
    && (if d.prec.Absent? then Head(HashOn(d, [])) != DOT else AmountEnds(d.prec, Head(HashOn(d, []))))
    && (!d.hash ==> Head(LongOn(d, [])) != HASH)
    && (!d.long ==> d.conv != ELL)
  }

  /** The conversions rprintf2RamRom knows: d, o, x, u, c, s and %. */
  predicate KnownConversion(c: Byte) {
    c == 100 || c == 111 || c == 120 || c == 117 || c == 99 || c == 115 || c == PERCENT
  }

  lemma {:induction false} DecimalDigits(n: nat)
    ensures forall i :: 0 <= i < |Decimal(n)| ==> IsDigit(Decimal(n)[i])
    ensures Horner(Decimal(n), 10) == n
    ensures Decimal(n)[0] == ZERO <==> n == 0
  {
    NumeralIsCanonical(n, 10, LOWER);
    forall i | 0 <= i < |Decimal(n)| ensures IsDigit(Decimal(n)[i]) {
      assert IsGlyph(Decimal(n)[i], 10, LOWER);
    }
  }

  /** The first byte of each tail of the text. */
  lemma {:induction false} Heads(d: Directive, rest: seq<Byte>)
    ensures Head(LongOn(d, rest)) == if d.long then ELL else d.conv
    ensures Head(HashOn(d, rest)) == if d.hash then HASH else Head(LongOn(d, rest))
    ensures Head(PrecisionOn(d, rest)) == if d.prec.Absent? then Head(HashOn(d, rest)) else DOT
    ensures d.width.Absent? ==> Head(WidthOn(d, rest)) == Head(PrecisionOn(d, rest))
    ensures d.width.Star? ==> Head(WidthOn(d, rest)) == STAR
    ensures d.width.Literal? ==> Head(WidthOn(d, rest)) == Decimal(d.width.n)[0]
    ensures Head(ZeroOn(d, rest)) == if d.zero then ZERO else Head(WidthOn(d, rest))
  {}

  /** For a real conversion the text is unambiguous exactly when a zero width has the pad flag
      before it and a precision comes after a pad flag or a width. */
  lemma {:induction false} WritableKnown(d: Directive)
    requires KnownConversion(d.conv)
    ensures Writable(d) <==>
            && (d.width == Literal(0) ==> d.zero)
            && (d.prec != Absent ==> d.zero || d.width != Absent)
  {
    Heads(d, []);
    if d.width.Literal? {
      DecimalDigits(d.width.n);
    }
  }

  lemma {:induction false} DigitRunConcat(t: seq<Byte>, s: seq<Byte>)
    requires forall i :: 0 <= i < |t| ==> IsDigit(t[i])
    ensures DigitRun(t + s) == t + DigitRun(s)
  {
    if t == [] {
      assert t + s == s;
    } else {
      assert (t + s)[1..] == t[1..] + s;
      DigitRunConcat(t[1..], s);
    }
  }

  lemma {:induction false} ScanAmountOfText(a: Amount, s: seq<Byte>)
    ensures AmountEnds(a, Head(s)) ==> ScanAmount(AmountText(a) + s) == ScannedAmount(a, s)
    ensures !AmountEnds(a, Head(s)) ==>
              var r := ScanAmount(AmountText(a) + s);
              r.amount != a || |r.rest| < |s|
  {
    match a
    case Absent =>
      assert AmountText(a) + s == s;
    case Star =>
    case Literal(n) =>
      var t := Decimal(n);
      DecimalDigits(n);
      DigitRunConcat(t, s);
      assert IsDigit((t + s)[0]);
      if !IsDigit(Head(s)) {
        assert DigitRun(s) == [];
        assert (t + s)[|t|..] == s;
      }
  }

  lemma {:induction false} OptSkips(b: bool, c: Byte, t: seq<Byte>)
    ensures Skip(Opt(b, c) + t, b) == t
    ensures Head(Opt(b, c) + t) == if b then c else Head(t)
  {
    assert !b ==> Opt(b, c) + t == t;
  }

  lemma {:induction false} ScanPrecisionOfText(a: Amount, s: seq<Byte>)
    ensures (if a.Absent? then Head(s) != DOT else AmountEnds(a, Head(s)))
            ==> ScanPrecision(PrecisionText(a) + s) == ScannedAmount(a, s)
    ensures !(if a.Absent? then Head(s) != DOT else AmountEnds(a, Head(s)))
            ==> var r := ScanPrecision(PrecisionText(a) + s);
                r.amount != a || |r.rest| < |s|
  {
    if a.Absent? {
      assert PrecisionText(a) + s == s;
    } else {
      assert (PrecisionText(a) + s)[1..] == AmountText(a) + s;
      ScanAmountOfText(a, s);
    }
  }

  lemma {:induction false} ScanEndOfText(d: Directive, rest: seq<Byte>)
    ensures ScanEnd(HashOn(d, rest), d.left, d.zero, d.width, d.prec) == Scanned(d, LetterOn(d, rest))
            <==> (!d.hash ==> Head(LongOn(d, [])) != HASH) && (!d.long ==> d.conv != ELL)
  {
    OptSkips(d.hash, HASH, LongOn(d, rest));
    OptSkips(d.long, ELL, LetterOn(d, rest));
    Heads(d, rest);
    Heads(d, []);
  }

  lemma {:induction false} ScanWritable(d: Directive, rest: seq<Byte>)
    requires Writable(d)
    ensures Scan(Unparse(d, rest)) == Scanned(d, LetterOn(d, rest))
  {
    hide Head, ScanAmount, ScanPrecision, ScanEnd, AmountText, PrecisionText, Opt, Skip, HashOn, LongOn, LetterOn;
    Heads(d, rest);
    Heads(d, []);
    OptSkips(d.left, MINUS, ZeroOn(d, rest));
    OptSkips(d.zero, ZERO, WidthOn(d, rest));
    ScanAmountOfText(d.width, PrecisionOn(d, rest));
    ScanPrecisionOfText(d.prec, HashOn(d, rest));
    ScanEndOfText(d, rest);
  }

  lemma {:induction false} LetterLength(d: Directive, rest: seq<Byte>)
    ensures |LetterOn(d, rest)| == |rest| + 1
    ensures !d.hash && !d.long ==> |HashOn(d, rest)| == |rest| + 1
    ensures !d.hash && !d.long && d.prec.Absent? ==> |PrecisionOn(d, rest)| == |rest| + 1
  {}

  lemma {:induction false} ScanUnwritable(d: Directive, rest: seq<Byte>)
    requires !Writable(d)
    ensures Scan(Unparse(d, rest)) != Scanned(d, LetterOn(d, rest))
  {
    hide Head, ScanAmount, ScanPrecision, ScanEnd, AmountText, PrecisionText, Opt, Skip, HashOn, LongOn, LetterOn;
    Heads(d, rest);
    Heads(d, []);
    LetterLength(d, rest);
    OptSkips(d.left, MINUS, ZeroOn(d, rest));
    OptSkips(d.zero, ZERO, WidthOn(d, rest));
    ScanAmountOfText(d.width, PrecisionOn(d, rest));
    ScanPrecisionOfText(d.prec, HashOn(d, rest));
    ScanEndOfText(d, rest);
  }

  /** Writing a directive and scanning it back gives the directive, stopped at its conversion
      letter, exactly for the writable ones. */
  lemma {:induction false} ScanUnparse(d: Directive, rest: seq<Byte>)
    ensures Scan(Unparse(d, rest)) == Scanned(d, LetterOn(d, rest)) <==> Writable(d)
  {
    hide *;
    if Writable(d) {
      ScanWritable(d, rest);
    } else {
      ScanUnwritable(d, rest);
    }
  }

  /** Whatever was scanned for a real conversion can be written back in one spelling. */
  lemma {:induction false} ScannedIsWritable(s: seq<Byte>)
    requires KnownConversion(Scan(s).d.conv)
    ensures Writable(Scan(s).d)
  {
    hide Writable, ScanEnd;
    var d := Scan(s).d;
    var s1 := Skip(s, Head(s) == MINUS);
    var s2 := Skip(s1, ZeroFlag(Head(s1)));
    if !d.zero && IsDigit(Head(s2)) {
      var t := DigitRun(s2);
      assert t[0] == Head(s2);
      HornerPositive(t, 10, LOWER);
    }
    WritableKnown(d);
  }

  /** Respelling a scanned directive does not change what it means. */
  lemma {:induction false} ScanNormalises(s: seq<Byte>, rest: seq<Byte>)
    requires KnownConversion(Scan(s).d.conv)
    ensures Scan(Unparse(Scan(s).d, rest)) == Scanned(Scan(s).d, LetterOn(Scan(s).d, rest))
  {
    ScannedIsWritable(s);
    ScanUnparse(Scan(s).d, rest);
  }

  // ----- whole formats

  function Format(items: seq<Item>): seq<Byte> {
    if items == [] then []
    else match items[0]
      case Char(c) => [c] + Format(items[1..])
      case Conv(d) => [PERCENT] + Unparse(d, Format(items[1..]))
  }

  predicate WritableItem(item: Item) {
    match item
    case Char(c) => c != 0 && c != PERCENT
    case Conv(d) => d.conv != 0 && Writable(d)
  }

  lemma {:induction false} ParseFormat(items: seq<Item>)
    requires forall i :: 0 <= i < |items| ==> WritableItem(items[i])
    ensures Parse(Format(items)) == items
  {
    hide Scan, Unparse, Writable;
    if items != [] {
      var tail := items[1..];
      ParseFormat(tail);
      assert WritableItem(items[0]);
      assert items == [items[0]] + tail;
      match items[0]
      case Char(c) =>
        assert Format(items)[1..] == Format(tail);
      case Conv(d) =>
        assert Format(items)[1..] == Unparse(d, Format(tail));
        ScanUnparse(d, Format(tail));
        assert LetterOn(d, Format(tail))[1..] == Format(tail);
    }
  }

  // ----- joining formats

  predicate IsSuffix(r: seq<Byte>, s: seq<Byte>) {
    |r| <= |s| && r == s[|s| - |r|..]
  }

  lemma {:induction false} SuffixTrans(r: seq<Byte>, s: seq<Byte>, t: seq<Byte>)
    requires IsSuffix(r, s) && IsSuffix(s, t)
    ensures IsSuffix(r, t)
  {}

  lemma {:induction false} ScanAmountSuffix(s: seq<Byte>)
    ensures IsSuffix(ScanAmount(s).rest, s)
  {}

  lemma {:induction false} ScanPrecisionSuffix(s: seq<Byte>)
    ensures IsSuffix(ScanPrecision(s).rest, s)
  {
    if Head(s) == DOT {
      ScanAmountSuffix(s[1..]);
    }
  }

  lemma {:induction false} ScanEndSuffix(s: seq<Byte>, left: bool, zero: bool, width: Amount, prec: Amount)
    ensures IsSuffix(ScanEnd(s, left, zero, width, prec).rest, s)
  {}

  lemma {:induction false} ScanSuffix(s: seq<Byte>)
    ensures IsSuffix(Scan(s).rest, s)
  {
    var left := Head(s) == MINUS;
    var s1 := Skip(s, left);
    var zero := ZeroFlag(Head(s1));
    var s2 := Skip(s1, zero);
    var width := ScanAmount(s2);
    var prec := ScanPrecision(width.rest);
    assert IsSuffix(s2, s);
    ScanAmountSuffix(s2);
    SuffixTrans(width.rest, s2, s);
    ScanPrecisionSuffix(width.rest);
    SuffixTrans(prec.rest, width.rest, s);
    ScanEndSuffix(prec.rest, left, zero, width.amount, prec.amount);
    SuffixTrans(Scan(s).rest, prec.rest, s);
  }

  lemma {:induction false} SkipConcat(s: seq<Byte>, t: seq<Byte>, hit: bool)
    requires hit ==> s != []
    ensures Skip(s + t, hit) == Skip(s, hit) + t
  {}

  lemma {:induction false} DigitRunLocal(s: seq<Byte>, t: seq<Byte>)
    requires |DigitRun(s)| < |s|
    ensures DigitRun(s + t) == DigitRun(s)
  {
    var r := DigitRun(s);
    var u := s[|r|..] + t;
    assert s + t == r + u;
    DigitRunConcat(r, u);
    assert Head(u) == s[|r|];
    assert DigitRun(u) == [];
  }

  lemma {:induction false} ScanAmountLocal(s: seq<Byte>, t: seq<Byte>)
    requires ScanAmount(s).rest != []
    ensures ScanAmount(s + t) == ScannedAmount(ScanAmount(s).amount, ScanAmount(s).rest + t)
  {
    if IsDigit(Head(s)) {
      DigitRunLocal(s, t);
    }
  }

  lemma {:induction false} ScanPrecisionLocal(s: seq<Byte>, t: seq<Byte>)
    requires ScanPrecision(s).rest != []
    ensures ScanPrecision(s + t) == ScannedAmount(ScanPrecision(s).amount, ScanPrecision(s).rest + t)
  {
    if Head(s) == DOT {
      assert (s + t)[1..] == s[1..] + t;
      ScanAmountLocal(s[1..], t);
    }
  }

  /** A directive that has its conversion letter is scanned the same whatever follows. */
  lemma {:induction false} ScanLocal(s: seq<Byte>, t: seq<Byte>)
    requires Scan(s).rest != []
    ensures Scan(s + t) == Scanned(Scan(s).d, Scan(s).rest + t)
  {
    var left := Head(s) == MINUS;
    var s1 := Skip(s, left);
    var zero := ZeroFlag(Head(s1));
    var s2 := Skip(s1, zero);
    var s3 := ScanAmount(s2).rest;
    var s4 := ScanPrecision(s3).rest;
    var hash := Head(s4) == HASH;
    var s5 := Skip(s4, hash);
    SkipConcat(s, t, left);
    SkipConcat(s1, t, zero);
    ScanAmountLocal(s2, t);
    ScanPrecisionLocal(s3, t);
    SkipConcat(s4, t, hash);
    SkipConcat(s5, t, Head(s5) == ELL);
  }

  lemma {:induction false} FirstItemLocal(f: seq<Byte>, g: seq<Byte>)
    requires 0 !in f && f != []
    requires FirstItem(f).Conv? ==> FirstItem(f).d.conv != 0
    ensures FirstItem(f + g) == FirstItem(f)
    ensures AfterFirst(f + g) == AfterFirst(f) + g
    ensures 0 !in AfterFirst(f)
  {
    hide Scan;
    assert (f + g)[1..] == f[1..] + g;
    if f[0] == PERCENT {
      ScanLocal(f[1..], g);
      ScanSuffix(f[1..]);
    }
  }

  /** Formats join item by item as long as the first does not end inside a directive. */
  lemma {:induction false} ParseConcat(f: seq<Byte>, g: seq<Byte>)
    requires 0 !in f && Complete(Parse(f))
    ensures Parse(f + g) == Parse(f) + Parse(g)
    decreases |f|
  {
    hide FirstItem, AfterFirst;
    if f == [] {
      assert f + g == g;
    } else {
      assert Parse(f)[0] == FirstItem(f);
      FirstItemLocal(f, g);
      var tail := AfterFirst(f);
      assert Parse(tail) == Parse(f)[1..];
      ParseConcat(tail, g);
    }
  }

  // ----- the terminator

  lemma {:induction false} HeadTerminated(s: seq<Byte>, g: seq<Byte>)
    ensures Head(s + ([0] + g)) == Head(s)
  {}

  lemma {:induction false} DigitRunTerminated(s: seq<Byte>, g: seq<Byte>)
    ensures DigitRun(s + ([0] + g)) == DigitRun(s)
  {
    var r := DigitRun(s);
    var u := s[|r|..] + ([0] + g);
    assert s + ([0] + g) == r + u;
    DigitRunConcat(r, u);
    assert Head(u) == Head(s[|r|..]);
    assert DigitRun(u) == [];
  }

  lemma {:induction false} ScanAmountTerminated(s: seq<Byte>, g: seq<Byte>)
    ensures ScanAmount(s + ([0] + g)) == ScannedAmount(ScanAmount(s).amount, ScanAmount(s).rest + ([0] + g))
  {
    hide DigitRun, Horner;
    HeadTerminated(s, g);
    DigitRunTerminated(s, g);
    assert Head(s) == STAR ==> (s + ([0] + g))[1..] == s[1..] + ([0] + g);
  }

  lemma {:induction false} ScanPrecisionTerminated(s: seq<Byte>, g: seq<Byte>)
    ensures ScanPrecision(s + ([0] + g)) ==
            ScannedAmount(ScanPrecision(s).amount, ScanPrecision(s).rest + ([0] + g))
  {
    hide ScanAmount;
    assert Head(s + ([0] + g)) == Head(s);
    if Head(s) == DOT {
      assert (s + ([0] + g))[1..] == s[1..] + ([0] + g);
      ScanAmountTerminated(s[1..], g);
    }
  }

  lemma {:induction false} ScanTerminated(s: seq<Byte>, g: seq<Byte>)
    ensures Scan(s + ([0] + g)) == Scanned(Scan(s).d, Scan(s).rest + ([0] + g))
  {
    var z := [0] + g;
    var left := Head(s) == MINUS;
    var s1 := Skip(s, left);
    var zero := ZeroFlag(Head(s1));
    var s2 := Skip(s1, zero);
    var s3 := ScanAmount(s2).rest;
    var s4 := ScanPrecision(s3).rest;
    var hash := Head(s4) == HASH;
    var s5 := Skip(s4, hash);
    var long := Head(s5) == ELL;
    HeadTerminated(s, g);
    HeadTerminated(s1, g);
    HeadTerminated(s4, g);
    HeadTerminated(s5, g);
    HeadTerminated(Skip(s5, long), g);
    SkipConcat(s, z, left);
    SkipConcat(s1, z, zero);
    ScanAmountTerminated(s2, g);
    ScanPrecisionTerminated(s3, g);
    SkipConcat(s4, z, hash);
    SkipConcat(s5, z, long);
  }

  /** A format is read up to its terminator, even when that cuts a directive short. */
  lemma {:induction false} ParseTerminated(f: seq<Byte>, g: seq<Byte>)
    ensures Parse(f + ([0] + g)) == Parse(f)
    decreases |f|
  {
    hide Scan;
    var z := [0] + g;
    HeadTerminated(f, g);
    if Head(f) != 0 {
      assert (f + z)[1..] == f[1..] + z;
      if f[0] == PERCENT {
        ScanTerminated(f[1..], g);
        var rest := Scan(f[1..]).rest;
        HeadTerminated(rest, g);
        if Head(rest) != 0 {
          assert (rest + z)[1..] == rest[1..] + z;
          ParseTerminated(rest[1..], g);
        }
      } else {
        ParseTerminated(f[1..], g);
      }
    }
  }
}
