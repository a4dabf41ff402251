/** What rprintf2RamRom prints, as "parse the format into items, render each one".

    Reading past the terminator of a format that ends inside a directive, and fetching an
    argument that is missing or of the wrong kind, are undefined in C. They end a run with a
    status of their own here, after exactly the output that precedes them.
 */
module Render {
  import opened Machine
  import opened Numerals
  import opened Directives

  /** An element of the variable argument list; `Null` is a null string pointer. */
  datatype Arg = Int(w: Word) | Text(s: seq<Byte>) | Null

  datatype Status = Done | PastEnd | BadArgument

  datatype Outcome = Outcome(out: seq<Byte>, rest: seq<Arg>, status: Status)

  const INF: Int32 := 32766
  const LETTER_D: Byte := 100
  const LETTER_O: Byte := 111
  const LETTER_X: Byte := 120
  const LETTER_U: Byte := 117
  const LETTER_C: Byte := 99
  const LETTER_S: Byte := 115

  /** "(nil)" */
  const NIL: seq<Byte> := [40, 110, 105, 108, 41]

  // ----- the text of one conversion

  /** Negating the most negative long leaves it negative, so its digit loop stops after one
      character, '0' - 8. */
  function SignedText(l: Int32): (t: seq<Byte>)
    ensures |t| > 0
  {
    if l == INT_MIN then [MINUS, 40]
    else if l < 0 then [MINUS] + Decimal(-l)
    else Decimal(l)
  }

  function UnsignedText(conv: Byte, hash: bool, w: Word): (t: seq<Byte>)
    ensures |t| > 0
  {
    if conv == LETTER_U then Decimal(w)
    else if conv == LETTER_O then Opt(hash, ZERO) + Numeral(w, 8, LOWER)
    else (if hash then [ZERO, LETTER_X] else []) + Numeral(w, 16, LOWER)
  }

  /** A body in a field: the room left over is computed in 32-bit arithmetic. */
  function Field(body: seq<Byte>, width: Int32, left: bool, pad: Byte): seq<Byte> {
    var room := ToInt(width - |body|);
    if left then body + Fill(SPACE, room) else Fill(pad, room) + body
  }

  function Clamp(n: int, lo: int, hi: int): (r: int)
    requires lo <= hi
    ensures lo <= r <= hi
  {
    if n < lo then lo else if n > hi then hi else n
  }

  /** The padding of a string ignores its precision. */
  function StringField(s: seq<Byte>, width: Int32, prec: Int32, left: bool, pad: Byte): seq<Byte> {
    var room := ToInt(width - |s|);
    var shown := s[..Clamp(prec, 0, |s|)];
    if left then shown + Fill(SPACE, room) else Fill(pad, room) + shown
  }

  function StringOf(arg: Arg): seq<Byte>
    requires !arg.Int?
  {
    if arg.Null? then NIL else CString(arg.s)
  }

  // ----- arguments

  datatype Kind = WantInt | WantText

  predicate Accepts(kind: Kind, arg: Arg) {
    arg.Int? <==> kind.WantInt?
  }

  /** The argument list starts with arguments of these kinds. */
  predicate Supplies(args: seq<Arg>, kinds: seq<Kind>) {
    |kinds| <= |args| && forall i :: 0 <= i < |kinds| ==> Accepts(kinds[i], args[i])
  }

  datatype Taken = Missing | Taken(value: Int32, rest: seq<Arg>)

  function TakeAmount(a: Amount, default: Int32, args: seq<Arg>): Taken {
    match a
    case Absent => Taken(default, args)
    case Literal(n) => Taken(ToInt(n), args)
    case Star => if args != [] && args[0].Int? then Taken(ToInt(args[0].w), args[1..]) else Missing
  }

  function ConversionKinds(conv: Byte): seq<Kind> {
    if conv == LETTER_S then [WantText]
    else if KnownConversion(conv) && conv != PERCENT then [WantInt]
    else []
  }

  /** The pad byte a directive asks for. */
  function PadOf(d: Directive): Byte {
    if d.zero then ZERO else SPACE
  }

  /** What a conversion prints; an unknown letter prints nothing. */
  function ConversionText(d: Directive, width: Int32, prec: Int32, args: seq<Arg>): seq<Byte>
    requires Supplies(args, ConversionKinds(d.conv))
  {
    var pad := PadOf(d);
    if d.conv == LETTER_D then Field(SignedText(ToInt(args[0].w)), width, d.left, pad)
    else if d.conv == LETTER_O || d.conv == LETTER_X || d.conv == LETTER_U then
      Field(UnsignedText(d.conv, d.hash, args[0].w), width, d.left, pad)
    else if d.conv == LETTER_C then [args[0].w % 256]
    else if d.conv == LETTER_S then StringField(StringOf(args[0]), width, prec, d.left, pad)
    else if d.conv == PERCENT then [PERCENT]
    else []
  }

  function RenderDirective(d: Directive, args: seq<Arg>): Outcome {
    match TakeAmount(d.width, 0, args)
    case Missing => Outcome([], args, BadArgument)
    case Taken(width, args1) =>
      match TakeAmount(d.prec, INF, args1)
      case Missing => Outcome([], args1, BadArgument)
      case Taken(prec, args2) =>
        var kinds := ConversionKinds(d.conv);
        if d.conv == 0 then Outcome([], args2, PastEnd)
        else if !Supplies(args2, kinds) then Outcome([], args2, BadArgument)
        else Outcome(ConversionText(d, width, prec, args2), args2[|kinds|..], Done)
  }

  function RenderItem(item: Item, args: seq<Arg>): Outcome {
    match item
    case Char(c) => Outcome([c], args, Done)
    case Conv(d) => RenderDirective(d, args)
  }

  /** Rendering one item and then, unless that failed, what is left. */
  function InTurn(first: Outcome, left: Outcome): Outcome {
    if first.status != Done then first else left.(out := first.out + left.out)
  }

  function RenderAll(items: seq<Item>, args: seq<Arg>): Outcome {
    if items == [] then Outcome([], args, Done)
    else
      var first := RenderItem(items[0], args);
      InTurn(first, RenderAll(items[1..], first.rest))
  }

  /** The specification of rprintf2RamRom. */
  function Print(f: seq<Byte>, args: seq<Arg>): Outcome {
    RenderAll(Parse(f), args)
  }

  lemma {:induction false} PrintUnfold(f: seq<Byte>, args: seq<Arg>)
    ensures Head(f) == 0 ==> Print(f, args) == Outcome([], args, Done)
    ensures Head(f) != 0 ==>
              var first := RenderItem(FirstItem(f), args);
              Print(f, args) == InTurn(first, Print(AfterFirst(f), first.rest))
  {
    hide Scan, RenderItem, FirstItem, AfterFirst;
    if Head(f) != 0 {
      assert Parse(f)[0] == FirstItem(f) && Parse(f)[1..] == Parse(AfterFirst(f));
    }
  }

  // ----- runs of a loop over a format

  /** The outcome of a loop that has printed `done`: it still has to reach `left`, or it has
      stopped with the arguments it has. */
  function Resumed(done: seq<Byte>, status: Status, args: seq<Arg>, left: Outcome): Outcome {
    var o := if status == Done then left else Outcome([], args, status);
    o.(out := done + o.out)
  }

  /** One turn of the loop is on its way to the same outcome. */
  lemma {:induction false} ResumeStep(done: seq<Byte>, args: seq<Arg>, first: Outcome, left: Outcome)
    ensures Resumed(done, Done, args, InTurn(first, left)) ==
            Resumed(done + first.out, first.status, first.rest, left)
  {
    assert done + (first.out + left.out) == done + first.out + left.out;
    assert first.out + [] == first.out;
  }

  lemma {:induction false} ResumeStart(args: seq<Arg>, o: Outcome)
    ensures Resumed([], Done, args, o) == o
  {}

  lemma {:induction false} ResumeEnd(done: seq<Byte>, status: Status, args: seq<Arg>, left: Outcome)
    requires status == Done ==> left == Outcome([], args, Done)
    ensures Resumed(done, status, args, left) == Outcome(done, args, status)
  {}

  // ----- compositionality and argument consumption

  lemma {:induction false} RenderAllConcat(a: seq<Item>, b: seq<Item>, args: seq<Arg>)
    requires RenderAll(a, args).status == Done
    ensures var o := RenderAll(b, RenderAll(a, args).rest);
            RenderAll(a + b, args) == o.(out := RenderAll(a, args).out + o.out)
  {
    hide RenderItem;
    if a == [] {
      assert a + b == b;
    } else {
      assert (a + b)[1..] == a[1..] + b;
      RenderAllConcat(a[1..], b, RenderItem(a[0], args).rest);
    }
  }

  /** Arguments beyond those consumed are handed on untouched. */
  lemma {:induction false} RenderItemFrame(item: Item, args: seq<Arg>, more: seq<Arg>)
    requires RenderItem(item, args).status == Done
    ensures var o := RenderItem(item, args); RenderItem(item, args + more) == o.(rest := o.rest + more)
  {
    hide TakeAmount, ConversionText, ConversionKinds, Supplies;
    if item.Conv? {
      var d := item.d;
      TakeAmountFrame(d.width, 0, args, more);
      var width := TakeAmount(d.width, 0, args);
      TakeAmountFrame(d.prec, INF, width.rest, more);
      var prec := TakeAmount(d.prec, INF, width.rest);
      ConversionTextFrame(d, width.value, prec.value, prec.rest, more);
    }
  }

  lemma {:induction false} TakeAmountFrame(a: Amount, default: Int32, args: seq<Arg>, more: seq<Arg>)
    requires TakeAmount(a, default, args).Taken?
    ensures var t := TakeAmount(a, default, args);
            TakeAmount(a, default, args + more) == Taken(t.value, t.rest + more)
  {}

  lemma {:induction false} ConversionTextFrame(d: Directive, width: Int32, prec: Int32, args: seq<Arg>, more: seq<Arg>)
    requires Supplies(args, ConversionKinds(d.conv))
    ensures Supplies(args + more, ConversionKinds(d.conv))
    ensures ConversionText(d, width, prec, args + more) == ConversionText(d, width, prec, args)
    ensures (args + more)[|ConversionKinds(d.conv)|..] == args[|ConversionKinds(d.conv)|..] + more
  {
    if ConversionKinds(d.conv) != [] {
      assert (args + more)[0] == args[0];
    }
  }

  lemma {:induction false} RenderAllFrame(items: seq<Item>, args: seq<Arg>, more: seq<Arg>)
    requires RenderAll(items, args).status == Done
    ensures var o := RenderAll(items, args); RenderAll(items, args + more) == o.(rest := o.rest + more)
  {
    hide RenderItem;
    if items != [] {
      RenderItemFrame(items[0], args, more);
      RenderAllFrame(items[1..], RenderItem(items[0], args).rest, more);
    }
  }

  /** Printing two formats joined, with their arguments joined, prints the one and then the other. */
  lemma {:induction false} PrintConcat(f: seq<Byte>, g: seq<Byte>, fargs: seq<Arg>, gargs: seq<Arg>)
    requires 0 !in f
    requires Print(f, fargs).status == Done && Print(f, fargs).rest == []
    ensures var o := Print(g, gargs);
            Print(f + g, fargs + gargs) == o.(out := Print(f, fargs).out + o.out)
  {
    hide RenderAll, Parse, Complete;
    RenderDoneExactly(Parse(f), fargs);
    ParseConcat(f, g);
    RenderAllFrame(Parse(f), fargs, gargs);
    assert [] + gargs == gargs;
    RenderAllConcat(Parse(f), Parse(g), fargs + gargs);
  }

  function AmountKinds(a: Amount): seq<Kind> {
    if a.Star? then [WantInt] else []
  }

  /** The arguments an item consumes: one for each '*' and one for each d, o, x, u, c or s. */
  function ItemKinds(item: Item): seq<Kind> {
    match item
    case Char(_) => []
    case Conv(d) => AmountKinds(d.width) + AmountKinds(d.prec) + ConversionKinds(d.conv)
  }

  function Signature(items: seq<Item>): seq<Kind> {
    if items == [] then [] else ItemKinds(items[0]) + Signature(items[1..])
  }

  lemma {:induction false} SuppliesConcat(args: seq<Arg>, a: seq<Kind>, b: seq<Kind>)
    ensures Supplies(args, a + b) <==> Supplies(args, a) && Supplies(args[|a|..], b)
  {
    if Supplies(args, a + b) {
      forall i | 0 <= i < |a| ensures Accepts(a[i], args[i]) {
        assert (a + b)[i] == a[i];
      }
      forall i | 0 <= i < |b| ensures Accepts(b[i], args[|a|..][i]) {
        assert (a + b)[|a| + i] == b[i];
      }
    }
  }

  lemma {:induction false} TakeAmountExactly(a: Amount, default: Int32, args: seq<Arg>)
    ensures TakeAmount(a, default, args).Taken? <==> Supplies(args, AmountKinds(a))
    ensures TakeAmount(a, default, args).Taken? ==>
              TakeAmount(a, default, args).rest == args[|AmountKinds(a)|..]
  {
    if args != [] {
      assert Supplies(args, [WantInt]) <==> Accepts([WantInt][0], args[0]);
    }
  }

  lemma {:induction false} RenderItemDoneExactly(item: Item, args: seq<Arg>)
    ensures RenderItem(item, args).status == Done <==>
            (item.Conv? ==> item.d.conv != 0) && Supplies(args, ItemKinds(item))
    ensures RenderItem(item, args).status == Done ==>
              RenderItem(item, args).rest == args[|ItemKinds(item)|..]
  {
    hide Supplies, AmountKinds, ConversionKinds, TakeAmount, ConversionText;
    if item.Conv? {
      var d := item.d;
      var wk, pk, ck := AmountKinds(d.width), AmountKinds(d.prec), ConversionKinds(d.conv);
      TakeAmountExactly(d.width, 0, args);
      SuppliesConcat(args, wk + pk, ck);
      SuppliesConcat(args, wk, pk);
      if Supplies(args, wk) {
        SuppliesBounds(args, wk);
        TakeAmountExactly(d.prec, INF, args[|wk|..]);
        if Supplies(args[|wk|..], pk) {
          SuppliesBounds(args[|wk|..], pk);
          assert args[|wk|..][|pk|..] == args[|wk + pk|..];
          if Supplies(args[|wk + pk|..], ck) {
            SuppliesBounds(args[|wk + pk|..], ck);
            assert args[|wk + pk|..][|ck|..] == args[|wk + pk + ck|..];
          }
        }
      }
    } else {
      SuppliesNothing(args);
    }
  }

  lemma {:induction false} SuppliesNothing(args: seq<Arg>)
    ensures Supplies(args, [])
  {}

  lemma {:induction false} SuppliesBounds(args: seq<Arg>, kinds: seq<Kind>)
    requires Supplies(args, kinds)
    ensures |kinds| <= |args|
  {}

  /** A format prints to its end exactly when it does not stop inside a directive and the
      argument list starts with its signature, which is then what it consumes. */
  lemma {:induction false} RenderDoneExactly(items: seq<Item>, args: seq<Arg>)
    ensures RenderAll(items, args).status == Done <==>
            Complete(items) && Supplies(args, Signature(items))
    ensures RenderAll(items, args).status == Done ==>
              RenderAll(items, args).rest == args[|Signature(items)|..]
  {
    hide RenderItem, ItemKinds;
    if items != [] {
      var kinds, tail := ItemKinds(items[0]), items[1..];
      RenderItemDoneExactly(items[0], args);
      SuppliesConcat(args, kinds, Signature(tail));
      assert Complete(items) <==> (items[0].Conv? ==> items[0].d.conv != 0) && Complete(tail) by {
        assert items == [items[0]] + tail;
      }
      if RenderItem(items[0], args).status == Done {
        RenderDoneExactly(tail, args[|kinds|..]);
        if RenderAll(items, args).status == Done {
          assert args[|kinds|..][|Signature(tail)|..] == args[|Signature(items)|..];
        }
      }
    }
  }
}
