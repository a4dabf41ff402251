/** The output path of rprintf: `rprintfChar` in front of the UART's `putchar`.
    Both translate a line feed, so the translations stack.
 */
module Console {
  import opened Machine

  const LF: Byte := 10
  const CR: Byte := 13

  /** What `putchar` writes to the transmit register for one character. */
  function DeviceBytes(c: Byte): seq<Byte> {
    if c == LF then [CR, LF] else [c]
  }

  /** What one logical character looks like on the wire. */
  function WireBytes(c: Byte): seq<Byte> {
    if c == LF then [CR, CR, LF] else [c]
  }

  /** What a stream of logical characters looks like on the wire. */
  function Wire(log: seq<Byte>): seq<Byte> {
    if log == [] then [] else Wire(log[..|log| - 1]) + WireBytes(log[|log| - 1])
  }

  function Count(s: seq<Byte>, c: Byte): nat {
    if s == [] then 0 else Count(s[..|s| - 1], c) + if s[|s| - 1] == c then 1 else 0
  }

  function Without(s: seq<Byte>, c: Byte): seq<Byte> {
    if s == [] then [] else Without(s[..|s| - 1], c) + if s[|s| - 1] == c then [] else [s[|s| - 1]]
  }

  lemma {:induction false} WireConcat(a: seq<Byte>, b: seq<Byte>)
    ensures Wire(a + b) == Wire(a) + Wire(b)
  {
    if b == [] {
      assert a + b == a;
    } else {
      assert (a + b)[..|a + b| - 1] == a + b[..|b| - 1];
      WireConcat(a, b[..|b| - 1]);
    }
  }

  lemma {:induction false} WithoutConcat(a: seq<Byte>, b: seq<Byte>, c: Byte)
    ensures Without(a + b, c) == Without(a, c) + Without(b, c)
  {
    if b == [] {
      assert a + b == a;
    } else {
      assert (a + b)[..|a + b| - 1] == a + b[..|b| - 1];
      WithoutConcat(a, b[..|b| - 1], c);
    }
  }

  lemma {:induction false} WithoutWireBytes(c: Byte)
    ensures Without(WireBytes(c), CR) == if c == CR then [] else [c]
  {
    assert Without([c], CR) == if c == CR then [] else [c];
    WithoutConcat([CR, CR], [c], CR);
    WithoutConcat([CR], [CR], CR);
    assert [CR, CR, c] == [CR, CR] + [c] && [CR, CR] == [CR] + [CR];
    assert Without([CR], CR) == [];
  }

  /** Every line feed costs two extra bytes, and only carriage returns are added. */
  lemma {:induction false} WireTrace(log: seq<Byte>)
    ensures |Wire(log)| == |log| + 2 * Count(log, LF)
    ensures Without(Wire(log), CR) == Without(log, CR)
  {
    if log != [] {
      var init, c := log[..|log| - 1], log[|log| - 1];
      WireTrace(init);
      WithoutConcat(Wire(init), WireBytes(c), CR);
      WithoutWireBytes(c);
    }
  }

  /** On the wire every line feed is preceded by two carriage returns. */
  lemma {:induction false} WireLineEnds(log: seq<Byte>, i: nat)
    requires i < |Wire(log)| && Wire(log)[i] == LF
    ensures i >= 2 && Wire(log)[i - 1] == CR && Wire(log)[i - 2] == CR
  {
    var init := log[..|log| - 1];
    if i < |Wire(init)| {
      WireLineEnds(init, i);
    }
  }

  /** What one translation alone would put on the wire. */
  function Translated(log: seq<Byte>): seq<Byte> {
    if log == [] then [] else Translated(log[..|log| - 1]) + DeviceBytes(log[|log| - 1])
  }

  lemma {:induction false} TranslatedLength(log: seq<Byte>)
    ensures |Translated(log)| == |log| + Count(log, LF)
    ensures Count(log, LF) == 0 ==> Translated(log) == log
    ensures Count(log, LF) == 0 <==> LF !in log
  {
    if log != [] {
      TranslatedLength(log[..|log| - 1]);
    }
  }

  lemma {:induction false} WireWithoutLineFeed(log: seq<Byte>)
    requires LF !in log
    ensures Wire(log) == log
  {
    if log != [] {
      WireWithoutLineFeed(log[..|log| - 1]);
    }
  }

  /** Two translations are as good as one exactly for a text without line feeds. */
  lemma {:induction false} TranslatedTwice(log: seq<Byte>)
    ensures Wire(log) == Translated(log) <==> LF !in log
  {
    hide Wire, Translated, Count, Without;
    WireTrace(log);
    TranslatedLength(log);
    if LF !in log {
      WireWithoutLineFeed(log);
    }
  }

  /** A line feed alone goes out as CR CR LF. */
  lemma {:induction false} LineFeedOnWire()
    ensures Wire([10]) == [13, 13, 10] && Translated([10]) == [13, 10]
  {
    assert [LF][..0] == [];
  }

  class Console {
    var wire: seq<Byte>       // everything written to U0THR so far
    ghost var log: seq<Byte>  // the logical characters handed to rprintfChar so far

    ghost predicate Valid()
      reads this
    {
      wire == Wire(log)
    }

    constructor ()
      ensures Valid() && wire == [] && log == []
    {
      wire := [];
      log := [];
    }

    /** uart.c `putchar`, with the transmit register always eventually free. */
    method Putchar(c: Byte)
      modifies this`wire
      ensures wire == old(wire) + DeviceBytes(c)
    {
      if c == LF {
        wire := wire + [CR];
      }
      wire := wire + [c];
    }

    method RprintfChar(c: Byte)
      requires Valid()
      modifies this
      ensures Valid() && log == old(log) + [c]
    {
      log := log + [c];
      assert log[..|log| - 1] == old(log);
      if c == LF {
        Putchar(CR);
      }
      Putchar(c);
    }

    /** `while (*str) rprintfChar(*str++)` */
    method PrintToNul(str: seq<Byte>)
      requires Valid()
      modifies this
      ensures Valid() && log == old(log) + CString(str)
    {
      hide CString, Wire;
      var i := 0;
      while i < |str| && str[i] != 0
        invariant 0 <= i <= |CString(str)| <= |str|
        invariant Valid() && log == old(log) + str[..i]
      {
        CStringEnds(str, i);
        assert str[..i + 1] == str[..i] + [str[i]];
        RprintfChar(str[i]);
        i := i + 1;
      }
      CStringEnds(str, i);
    }

    /** `None` is a null pointer. */
    method RprintfStr(str: Option<seq<Byte>>)
      requires Valid()
      modifies this
      ensures Valid() && log == old(log) + if str.None? then [] else CString(str.value)
    {
      if str.None? {
        return;
      }
      PrintToNul(str.value);
    }

    /** The `while (n-- > 0)` padding loops of rprintf2RamRom. */
    method Pad(c: Byte, count: int)
      requires Valid()
      modifies this
      ensures Valid() && log == old(log) + Fill(c, count)
    {
      hide Wire;
      var n := count;
      while n > 0
        invariant if count > 0 then 0 <= n <= count else n == count
        invariant Valid() && log == old(log) + Fill(c, count - n)
      {
        assert Fill(c, count - n + 1) == Fill(c, count - n) + [c];
        RprintfChar(c);
        n := n - 1;
      }
      assert Fill(c, count - n) == Fill(c, count);
    }
  }
}
