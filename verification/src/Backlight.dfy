/** The PWM backlight program: pwm.c and the endless loop of main.c, with the timer interrupt
    free to arrive between any two of the loop's accesses to the soft timers.
 */
module Backlight {
  import opened Machine
  import Numerals
  import T = SoftTimers
  import V = Vic

  const BUTTON_TASK_INTERVAL := 200
  const UP: Word := 0x0200_0000
  const DOWN: Word := 0x0800_0000
  const PERIOD: Word := 0x3000

  // ----- pwm.c

  /** The MR1 value `setPwmDc` computes from MR0, in 32-bit unsigned arithmetic. */
  function MatchValue(mr0: Word, dc: int): Word {
    ToWord(mr0 * ToWord(100 - dc)) / 100
  }

  /** It is the exact share of the period as long as the product fits 32 bits. */
  lemma {:induction false} MatchExact(mr0: Word, dc: int)
    requires 0 <= dc <= 100
    ensures MatchValue(mr0, dc) == mr0 * (100 - dc) / 100 <==> mr0 * (100 - dc) < 0x1_0000_0000
  {
    hide ToWord;
    var k := 100 - dc;
    assert ToWord(k) == k by { WordFits(k); }
    assert mr0 * k >= 0;
    WordDivides(mr0 * k);
  }

  lemma {:induction false} WordFits(x: int)
    ensures 0 <= x < 0x1_0000_0000 ==> ToWord(x) == x
  {}

  lemma {:induction false} WordDivides(x: nat)
    ensures ToWord(x) / 100 == x / 100 <==> x < 0x1_0000_0000
  {}

  /** In any case it is the hundredth part of the product that is left in 32 bits. */
  lemma {:induction false} MatchWrapped(mr0: Word, dc: int)
    ensures 100 * MatchValue(mr0, dc) <= mr0 * (100 - dc) % 0x1_0000_0000 < 100 * MatchValue(mr0, dc) + 100
  {
    ToWordMul(mr0, 100 - dc);
    hide ToWord;
    var x := ToWord(mr0 * ToWord(100 - dc));
    assert x == 100 * (x / 100) + x % 100;
    WordIs(mr0 * (100 - dc));
  }

  lemma {:induction false} WordIs(x: int)
    ensures ToWord(x) == x % 0x1_0000_0000
  {}

  /** A larger duty cycle never gives a larger MR1. */
  ghost predicate Antitone(mr0: Word) {
    forall dc, dc' :: 0 <= dc <= dc' <= 100 ==> MatchValue(mr0, dc') <= MatchValue(mr0, dc)
  }

  /** That is so exactly for the periods whose product cannot overflow, and for these MR1 stays
      within the period. */
  lemma {:induction false} MatchAntitone(mr0: Word)
    ensures Antitone(mr0) <==> mr0 * 100 < 0x1_0000_0000
    ensures mr0 * 100 < 0x1_0000_0000 ==> forall dc :: 0 <= dc <= 100 ==> MatchValue(mr0, dc) <= mr0
  {
    hide MatchValue;
    if mr0 * 100 < 0x1_0000_0000 {
      forall dc, dc' | 0 <= dc <= dc' <= 100 ensures MatchValue(mr0, dc') <= MatchValue(mr0, dc) <= mr0 {
        MatchOrdered(mr0, 100 - dc', 100 - dc);
      }
    } else if mr0 > 0x1_0000_0000 - 100 {
      NearlyFull(mr0);
      assert MatchValue(mr0, 0) < MatchValue(mr0, 99);
    } else {
      var k := FirstOverflow(mr0, 100);
      MatchDrops(mr0, k);
    }
  }

  lemma {:induction false} MatchOrdered(mr0: Word, j: nat, k: nat)
    requires j <= k <= 100 && mr0 * 100 < 0x1_0000_0000
    ensures MatchValue(mr0, 100 - j) <= MatchValue(mr0, 100 - k) <= mr0
  {
    hide MatchValue;
    MatchFits(mr0, j);
    MatchFits(mr0, k);
    Ordered(mr0, j, k, 100);
  }

  lemma {:induction false} Ordered(m: nat, j: nat, k: nat, l: nat)
    requires j <= k <= l
    ensures m * j <= m * k <= m * l
  {
    assert m * (k - j) >= 0 && m * (l - k) >= 0;
  }

  lemma {:induction false} MatchDrops(mr0: Word, k: nat)
    requires 0 < k <= 100 && mr0 * (k - 1) < 0x1_0000_0000 <= mr0 * k && mr0 <= 0x1_0000_0000 - 100
    ensures MatchValue(mr0, 100 - k) < MatchValue(mr0, 100 - (k - 1))
  {
    hide MatchValue;
    MatchFits(mr0, k - 1);
    MatchWraps(mr0, k);
    assert mr0 * k == mr0 * (k - 1) + mr0;
  }

  lemma {:induction false} MatchFits(mr0: Word, k: nat)
    requires k <= 100 && (mr0 * k < 0x1_0000_0000 || mr0 * 100 < 0x1_0000_0000)
    ensures MatchValue(mr0, 100 - k) == mr0 * k / 100
  {
    assert mr0 * k <= mr0 * 100;
    hide MatchValue;
    MatchExact(mr0, 100 - k);
  }

  lemma {:induction false} MatchWraps(mr0: Word, k: nat)
    requires 0 < k <= 100 && mr0 * (k - 1) < 0x1_0000_0000 <= mr0 * k
    ensures MatchValue(mr0, 100 - k) == (mr0 * k - 0x1_0000_0000) / 100
  {
    assert mr0 * k == mr0 * (k - 1) + mr0;
    assert ToWord(k) == k;
  }

  lemma {:induction false} NearlyFull(mr0: Word)
    requires mr0 > 0x1_0000_0000 - 100
    ensures MatchValue(mr0, 0) < MatchValue(mr0, 99)
  {
    MatchFits(mr0, 1);
    FullWord(mr0);
    hide ToWord;
    assert mr0 * 1 == mr0;
  }

  lemma {:induction false} FullWord(mr0: Word)
    requires mr0 > 0x1_0000_0000 - 100
    ensures ToWord(mr0 * ToWord(100 - 0)) == mr0 - 99 * (0x1_0000_0000 - mr0)
  {
    assert ToWord(100) == 100;
    assert mr0 * 100 == 99 * 0x1_0000_0000 + (mr0 - 99 * (0x1_0000_0000 - mr0));
  }

  lemma {:induction false} FirstOverflow(mr0: Word, k: nat) returns (j: nat)
    requires mr0 * k >= 0x1_0000_0000
    ensures 0 < j <= k && mr0 * (j - 1) < 0x1_0000_0000 <= mr0 * j
    decreases k
  {
    j := k;
    if mr0 * (k - 1) >= 0x1_0000_0000 {
      j := FirstOverflow(mr0, k - 1);
    }
  }

  /** At period 42949673 the duty cycle 0 gives MR1 0 instead of the whole period. */
  lemma {:induction false} MatchOverflows(mr0: Word)
    requires mr0 == 42949673
    ensures MatchValue(mr0, 0) == 0 && MatchValue(mr0 - 1, 0) == mr0 - 1
  {
    hide MatchValue;
    MatchWraps(mr0, 100);
    MatchFits(mr0 - 1, 100);
  }

  /** Pin 1.18 as PWM output. */
  function SelectPwm(pins: bv32): bv32 {
    (pins & 0xFFFF_FFCF) | 0x20
  }

  /** The two bits of that pin become 10, and no other pin changes. */
  lemma {:induction false} SelectPwmBits(pins: bv32)
    ensures SelectPwm(pins) & 0x30 == 0x20
    ensures SelectPwm(pins) & 0xFFFF_FFCF == pins & 0xFFFF_FFCF
  {}

  class Pwm {
    var pinsel3: bv32
    var ler: Word
    var pcr: Word
    var mcr: Word
    var mr0: Word
    var mr1: Word
    var pr: Word
    var tcr: Word

    constructor ()
    {
    }

    /** 0 for OK, -1 for FAIL: only output 1 of unit 1 is supported. */
    method InitPwm(period: Word, pwmNum: int, output: int) returns (r: int)
      modifies this
      ensures r == if pwmNum == 1 && output == 1 then 0 else -1
      ensures r == 0 ==> mr0 == period && mr1 == 0 && ler == 3 && pcr == 0x200 && mcr == 2 && pr == 0 && tcr == 9
      ensures r == 0 ==> pinsel3 == SelectPwm(old(pinsel3))
      ensures r != 0 ==> unchanged(this)
    {
      if pwmNum == 0 {
        return -1;
      } else if pwmNum == 1 {
        if output == 1 {
          pinsel3 := pinsel3 & 0xFFFF_FFCF;
          pinsel3 := pinsel3 | 0x20;
          ler := 3;
          pcr := 0x200;
          mcr := 2;
          mr0 := period;
          mr1 := 0;
        } else {
          return -1;
        }
        pr := 0;
        tcr := 9;
        return 0;
      }
      return -1;
    }

    method SetPwmDc(dc: int, pwmNum: int, output: int) returns (r: int)
      modifies this`mr1, this`ler
      ensures r == if pwmNum == 1 && output == 1 then 0 else -1
      ensures r == 0 ==> mr1 == MatchValue(mr0, dc) && ler == 2
      ensures r != 0 ==> unchanged(this)
    {
      if pwmNum == 1 && output == 1 {
        mr1 := ToWord(mr0 * ToWord(100 - dc)) / 100;
        ler := 2;
        return 0;
      }
      return -1;
    }
  }

  // ----- main.c as a state machine

  /** Where the program is: about to reset soft timers 0 and 1 before the loop; and in the loop,
      about to read timer 0, about to reset it, about to read the keys. */
  datatype Pc = First | Second | Poll | Clear | Keys

  datatype Board = Board(t: T.State, pc: Pc, dc: int, mr0: Word, mr1: Word)

  /** An interrupt, or the loop's next step; `keys` is what readKeys() would return then. */
  datatype Event = Tick | Loop(keys: Word)

  function Press(b: Board, keys: Word): (r: Board)
    ensures r.t == b.t && r.mr0 == b.mr0 && r.pc == b.pc
  {
    if keys == UP then
      var dc := if b.dc < 100 then b.dc + 5 else b.dc;
      b.(dc := dc, mr1 := MatchValue(b.mr0, dc))
    else if keys == DOWN then
      var dc := if b.dc > 0 then b.dc - 5 else b.dc;
      b.(dc := dc, mr1 := MatchValue(b.mr0, dc))
    else b
  }

  function Next(b: Board, e: Event): (r: Board)
    requires b.t.Valid()
    ensures r.t.Valid()
  {
    match e
    case Tick => b.(t := T.Step(b.t, T.Tick))
    case Loop(keys) =>
      match b.pc
      case First => b.(t := T.Step(b.t, T.Reset(0)), pc := Second)
      case Second => b.(t := T.Step(b.t, T.Reset(1)), pc := Poll)
      case Poll => if T.Elapsed(b.t, 0) > BUTTON_TASK_INTERVAL then b.(pc := Clear) else b
      case Clear => b.(t := T.Step(b.t, T.Reset(0)), pc := Keys)
      case Keys => Press(b, keys).(pc := Poll)
  }

  function Run(b: Board, es: seq<Event>): (r: Board)
    requires b.t.Valid()
    ensures r.t.Valid()
  {
    if es == [] then b else Next(Run(b, es[..|es| - 1]), es[|es| - 1])
  }

  /** The board as interrupts start to arrive, at whatever tick count. */
  ghost predicate Entered(b: Board) {
    b.t.Valid() && b.pc == First && b.dc == 0 && b.mr1 == 0 && b.mr0 == PERIOD
    && 0 < b.t.resolution && forall i: T.Index :: b.t.timers[i] == T.Now(b.t)
  }

  // ----- pacing

  function Ticks(es: seq<Event>): nat {
    if es == [] then 0 else Ticks(es[..|es| - 1]) + if es[|es| - 1].Tick? then 1 else 0
  }

  /** The event is the loop resetting its timer. */
  predicate Serves(b: Board, e: Event) {
    e.Loop? && b.pc == Clear
  }

  /** The event is a reset of soft timer `i`, by the loop or before it. */
  predicate Resets(b: Board, e: Event, i: T.Index) {
    e.Loop? && if i == 0 then b.pc == Clear || b.pc == First else i == 1 && b.pc == Second
  }

  function Services(b: Board, es: seq<Event>): nat
    requires b.t.Valid()
  {
    if es == [] then 0
    else
      var init := es[..|es| - 1];
      Services(b, init) + if Serves(Run(b, init), es[|es| - 1]) then 1 else 0
  }

  /** Ticks since soft timer `i` was last reset, or since the start. */
  function TicksSince(b: Board, es: seq<Event>, i: T.Index): nat
    requires b.t.Valid()
  {
    if es == [] then 0
    else
      var init, e := es[..|es| - 1], es[|es| - 1];
      if Resets(Run(b, init), e, i) then 0 else TicksSince(b, init, i) + if e.Tick? then 1 else 0
  }

  /** The fewest ticks that take the timer past the interval: 21 at 10 ms. */
  function Gap(resolution: Int32): nat
    requires resolution > 0
  {
    BUTTON_TASK_INTERVAL / resolution + 1
  }

  lemma {:induction false} GapIsFewest(resolution: Int32, n: nat)
    requires resolution > 0
    ensures resolution * n > 200 <==> n >= Gap(resolution)
    ensures ToInt(resolution * n) > 200 ==> n >= Gap(resolution)
  {
    hide ToInt;
    Numerals.DivBound(200, resolution, n);
    assert resolution * n >= 0;
    ToIntExact(resolution * n);
  }

  lemma {:induction false} LoopTicks(b: Board, es: seq<Event>)
    requires Entered(b)
    ensures Run(b, es).t.ticks == ToInt(b.t.ticks + Ticks(es)) && Run(b, es).t.resolution == b.t.resolution
  {
    hide T.Elapsed, Press, ToInt;
    if es == [] {
      ToIntExact(b.t.ticks);
    } else {
      var init := es[..|es| - 1];
      LoopTicks(b, init);
      ToIntAdd(b.t.ticks + Ticks(init), 1);
    }
  }

  /** A soft timer holds the moment of its own last reset. */
  lemma {:induction false} LoopTimer(b: Board, es: seq<Event>, i: T.Index)
    requires Entered(b)
    ensures Run(b, es).t.timers[i] == ToInt(b.t.resolution * (b.t.ticks + Ticks(es) - TicksSince(b, es, i)))
  {
    hide T.Elapsed, Press, ToInt;
    if es == [] {
      assert b.t.resolution * (b.t.ticks + 0 - 0) == b.t.resolution * b.t.ticks;
    } else {
      var init, e := es[..|es| - 1], es[|es| - 1];
      LoopTimer(b, init, i);
      if Resets(Run(b, init), e, i) {
        LoopTicks(b, init);
        ToIntMul(b.t.resolution, b.t.ticks + Ticks(init));
      }
    }
  }

  lemma {:induction false} LoopElapsed(b: Board, es: seq<Event>, i: T.Index)
    requires Entered(b)
    ensures T.Elapsed(Run(b, es).t, i) == ToInt(b.t.resolution * TicksSince(b, es, i))
  {
    hide Run, TicksSince, ToInt;
    LoopTicks(b, es);
    LoopTimer(b, es, i);
    var n := TicksSince(b, es, i);
    T.ElapsedBetween(b.t.resolution, b.t.ticks + Ticks(es) - n, n);
  }

  /** When the loop is about to reset its timer, at least a gap of ticks has passed since its
      previous reset, wherever the ticks fell. */
  lemma {:induction false} ServicesAreSpaced(b: Board, es: seq<Event>)
    requires Entered(b) && Run(b, es).pc == Clear
    ensures TicksSince(b, es, 0) >= Gap(b.t.resolution)
  {
    hide ToInt, Gap;
    if es != [] {
      var init, e := es[..|es| - 1], es[|es| - 1];
      if Run(b, init).pc == Clear {
        ServicesAreSpaced(b, init);
      } else {
        LoopElapsed(b, init, 0);
        GapIsFewest(b.t.resolution, TicksSince(b, init, 0));
      }
    }
  }

  /** k services need at least k gaps of ticks. */
  lemma {:induction false} ServicesAreBounded(b: Board, es: seq<Event>)
    requires Entered(b)
    ensures Ticks(es) >= Gap(b.t.resolution) * Services(b, es) + TicksSince(b, es, 0)
  {
    hide Gap, Next;
    if es != [] {
      var init, e := es[..|es| - 1], es[|es| - 1];
      ServicesAreBounded(b, init);
      if Serves(Run(b, init), e) {
        ServicesAreSpaced(b, init);
        var g, k := Gap(b.t.resolution), Services(b, init);
        assert g * (k + 1) == g * k + g;
      }
    }
  }

  /** At 10 ms a gap is 21 ticks. */
  lemma {:induction false} GapAtTenMilliseconds()
    ensures Gap(10) == 21
  {}

  /** In every run a poll starts a service exactly when the truncated elapsed time exceeds the
      interval. */
  lemma {:induction false} PollFires(b: Board, es: seq<Event>, keys: Word)
    requires Entered(b) && Run(b, es).pc == Poll
    ensures Run(b, es + [Loop(keys)]).pc == Clear <==>
            ToInt(b.t.resolution * TicksSince(b, es, 0)) > 200
  {
    hide TicksSince, ToInt, T.Elapsed, T.Step, Press;
    var longer := es + [Loop(keys)];
    assert longer[..|longer| - 1] == es;
    LoopElapsed(b, es, 0);
  }

  /** So before the elapsed time overflows an int it fires exactly from the gap on. */
  lemma {:induction false} PollFiresInTime(b: Board, es: seq<Event>, keys: Word)
    requires Entered(b) && Run(b, es).pc == Poll
    requires b.t.resolution * TicksSince(b, es, 0) < 0x8000_0000
    ensures Run(b, es + [Loop(keys)]).pc == Clear <==> TicksSince(b, es, 0) >= Gap(b.t.resolution)
  {
    hide Gap, TicksSince, ToInt, Run;
    PollFires(b, es, keys);
    var n := TicksSince(b, es, 0);
    GapIsFewest(b.t.resolution, n);
    ToIntExact(b.t.resolution * n);
    assert b.t.resolution * n >= 0;
  }

  /** Some events and then `n` ticks. */
  function Wait(es: seq<Event>, n: nat): seq<Event> {
    if n == 0 then es else Wait(es, n - 1) + [Tick]
  }

  lemma {:induction false} WaitTicks(b: Board, es: seq<Event>, n: nat, i: T.Index)
    requires Entered(b)
    ensures Run(b, Wait(es, n)).pc == Run(b, es).pc && TicksSince(b, Wait(es, n), i) == TicksSince(b, es, i) + n
    decreases n
  {
    hide T.Step, T.Elapsed, Press;
    if n > 0 {
      WaitTicks(b, es, n - 1, i);
      assert Wait(es, n)[..|Wait(es, n)| - 1] == Wait(es, n - 1);
    }
  }

  /** The program resets soft timer 0, then soft timer 1, and then polls, wherever ticks fall. */
  lemma {:induction false} StartUp(b: Board, n: nat, m: nat, keys: Word, keys': Word)
    requires Entered(b)
    ensures var es := Wait(Wait([], n) + [Loop(keys)], m) + [Loop(keys')];
            && Run(b, es).pc == Poll
            && TicksSince(b, es, 0) == m && TicksSince(b, es, 1) == 0 && TicksSince(b, es, 2) == n + m
  {
    hide T.Step, T.Elapsed, Press, Wait;
    var es0 := Wait([], n);
    var es1 := es0 + [Loop(keys)];
    var es2 := Wait(es1, m);
    var es := es2 + [Loop(keys')];
    assert es1[..|es1| - 1] == es0 && es[..|es| - 1] == es2;
    WaitTicks(b, [], n, 0);
    WaitTicks(b, [], n, 1);
    WaitTicks(b, [], n, 2);
    WaitTicks(b, es1, m, 0);
    WaitTicks(b, es1, m, 1);
    WaitTicks(b, es1, m, 2);
  }

  /** A poll that comes too late is missed: at 10 ms, 214748365 ticks after a reset the elapsed
      time has overflowed to a negative number. */
  lemma {:induction false} PollMissed(b: Board, n: nat, keys: Word)
    requires Entered(b) && b.t.resolution == 10 && n == 214748365
    ensures var es := Wait([Loop(0), Loop(0)], n);
            && TicksSince(b, es, 0) >= Gap(10) && Run(b, es).pc == Poll
            && Run(b, es + [Loop(keys)]).pc != Clear
  {
    var start := [Loop(0), Loop(0)];
    assert start == Wait(Wait([], 0) + [Loop(0)], 0) + [Loop(0)];
    StartUp(b, 0, 0, 0, 0);
    hide Run, TicksSince, Wait;
    WaitTicks(b, start, n, 0);
    PollFires(b, Wait(start, n), keys);
  }

  // ----- duty cycle

  /** Some UP or DOWN has been served. */
  predicate Programmed(b: Board, es: seq<Event>)
    requires b.t.Valid()
  {
    es != [] &&
    var init, e := es[..|es| - 1], es[|es| - 1];
    Programmed(b, init) || (e.Loop? && Run(b, init).pc == Keys && (e.keys == UP || e.keys == DOWN))
  }

  /** In every run the duty cycle is a multiple of 5 in 0..100, and MR1 is its exact share of the
      period from the first served key on; before that it is 0. */
  lemma {:induction false} DutyCycle(b: Board, es: seq<Event>)
    requires Entered(b)
    ensures var s := Run(b, es);
            && s.mr0 == PERIOD && 0 <= s.dc <= 100 && s.dc % 5 == 0
            && s.mr1 == (if Programmed(b, es) then PERIOD * (100 - s.dc) / 100 else 0)
            && 0 <= s.mr1 <= s.mr0
  {
    hide T.Step, T.Elapsed, Press;
    if es != [] {
      var init, e := es[..|es| - 1], es[|es| - 1];
      DutyCycle(b, init);
      if e.Loop? && Run(b, init).pc == Keys {
        PressDuty(Run(b, init), e.keys);
      }
    }
  }

  lemma {:induction false} PressDuty(b: Board, keys: Word)
    requires b.mr0 == PERIOD && 0 <= b.dc <= 100 && b.dc % 5 == 0
    ensures var s := Press(b, keys);
            && 0 <= s.dc <= 100 && s.dc % 5 == 0
            && (if keys == UP || keys == DOWN then s.mr1 == PERIOD * (100 - s.dc) / 100 else s == b)
  {
    hide MatchValue;
    MatchExact(PERIOD, Press(b, keys).dc);
  }

  /** The keys the loop has read, in order. */
  function ServedKeys(b: Board, es: seq<Event>): seq<Word>
    requires b.t.Valid()
  {
    if es == [] then []
    else
      var init, e := es[..|es| - 1], es[|es| - 1];
      ServedKeys(b, init) + if e.Loop? && Run(b, init).pc == Keys then [e.keys] else []
  }

  /** The loop reads the keys once for each time it resets its timer. */
  lemma {:induction false} KeysPerService(b: Board, es: seq<Event>)
    requires Entered(b)
    ensures |ServedKeys(b, es)| + (if Run(b, es).pc == Keys then 1 else 0) == Services(b, es)
  {
    hide T.Step, T.Elapsed, Press;
    if es != [] {
      KeysPerService(b, es[..|es| - 1]);
    }
  }

  /** Each UP (0x02000000) adds 5 up to 100, and each DOWN (0x08000000) takes 5 off down to 0. */
  function Duty(keys: seq<Word>): (dc: int)
    ensures 0 <= dc <= 100 && dc % 5 == 0
  {
    if keys == [] then 0
    else
      var key, dc := keys[|keys| - 1], Duty(keys[..|keys| - 1]);
      if key == 0x0200_0000 then Min(dc + 5, 100)
      else if key == 0x0800_0000 then Max(dc - 5, 0)
      else dc
  }

  function Min(a: int, b: int): int {
    if a <= b then a else b
  }

  function Max(a: int, b: int): int {
    if a >= b then a else b
  }

  lemma {:induction false} PressedDuty(b: Board, keys: Word)
    requires 0 <= b.dc <= 100 && b.dc % 5 == 0
    ensures Press(b, keys).dc == if keys == 0x0200_0000 then Min(b.dc + 5, 100)
                                 else if keys == 0x0800_0000 then Max(b.dc - 5, 0)
                                 else b.dc
  {
    hide MatchValue;
  }

  /** In every run the duty cycle is what the served keys add up to. */
  lemma {:induction false} DutyFollowsKeys(b: Board, es: seq<Event>)
    requires Entered(b)
    ensures Run(b, es).dc == Duty(ServedKeys(b, es))
  {
    hide T.Step, T.Elapsed, Press;
    if es != [] {
      var init, e := es[..|es| - 1], es[|es| - 1];
      DutyFollowsKeys(b, init);
      if e.Loop? && Run(b, init).pc == Keys {
        var keys := ServedKeys(b, es);
        assert keys[..|keys| - 1] == ServedKeys(b, init);
        PressedDuty(Run(b, init), e.keys);
      } else {
        assert ServedKeys(b, es) == ServedKeys(b, init);
      }
    }
  }

  /** So is MR1, once one of them was UP or DOWN. */
  lemma {:induction false} MatchFollowsKeys(b: Board, es: seq<Event>)
    requires Entered(b)
    ensures var keys := ServedKeys(b, es);
            Run(b, es).mr1 ==
            if 0x0200_0000 in keys || 0x0800_0000 in keys then 0x3000 * (100 - Duty(keys)) / 100 else 0
  {
    hide Run, Duty;
    DutyCycle(b, es);
    DutyFollowsKeys(b, es);
    ProgrammedByKeys(b, es);
  }

  lemma {:induction false} ProgrammedByKeys(b: Board, es: seq<Event>)
    requires Entered(b)
    ensures Programmed(b, es) <==> 0x0200_0000 in ServedKeys(b, es) || 0x0800_0000 in ServedKeys(b, es)
  {
    hide Next;
    if es != [] {
      ProgrammedByKeys(b, es[..|es| - 1]);
    }
  }

  /** k presses of UP from the start give 5k, up to 100. */
  lemma {:induction false} OnlyUps(keys: seq<Word>)
    requires forall i :: 0 <= i < |keys| ==> keys[i] == 0x0200_0000
    ensures Duty(keys) == Min(5 * |keys|, 100)
  {
    if keys != [] {
      OnlyUps(keys[..|keys| - 1]);
    }
  }

  /** Before the first served key the duty cycle is still 0. */
  lemma {:induction false} NotProgrammed(b: Board, es: seq<Event>)
    requires Entered(b) && !Programmed(b, es)
    ensures Run(b, es).dc == 0
  {
    hide T.Step, T.Elapsed;
    if es != [] {
      NotProgrammed(b, es[..|es| - 1]);
    }
  }

  /** In every run UP and then DOWN brings the board back exactly when the UP is not saturated
      and some key was served before. */
  lemma {:induction false} UpThenDown(b: Board, es: seq<Event>)
    requires Entered(b)
    ensures var s := Run(b, es);
            Press(Press(s, UP), DOWN) == s <==> s.dc < 100 && Programmed(b, es)
  {
    hide Run, Programmed, MatchValue;
    var s := Run(b, es);
    DutyCycle(b, es);
    MatchExact(PERIOD, s.dc);
    if !Programmed(b, es) {
      NotProgrammed(b, es);
    }
  }

  /** DOWN and then UP, exactly when the DOWN is not saturated. */
  lemma {:induction false} DownThenUp(b: Board, es: seq<Event>)
    requires Entered(b)
    ensures var s := Run(b, es);
            Press(Press(s, DOWN), UP) == s <==> s.dc > 0
  {
    hide Run, Programmed, MatchValue;
    var s := Run(b, es);
    DutyCycle(b, es);
    MatchExact(PERIOD, s.dc);
    if !Programmed(b, es) {
      NotProgrammed(b, es);
    }
  }

  /** The first UP and DOWN leave MR1 at the whole period, where it was 0. */
  lemma {:induction false} FirstKeys(b: Board)
    requires Entered(b)
    ensures Press(Press(b, UP), DOWN) == b.(mr1 := 0x3000) != b
  {}

  // ----- the program

  class Program {
    const timers: T.Timers
    const pwm: Pwm
    var pc: Pc
    var dc: int

    ghost predicate Valid()
      reads timers.vic
    {
      timers.Valid() && timers.vic.Valid()
    }

    /** The timer's interrupt alone is enabled, with its handler, and so it stays. */
    ghost predicate OnlyTimer(handler: Word)
      reads timers.vic
      requires Valid()
    {
      var r := timers.vic.regs;
      r.enabled == {4} && r.vector[4] == handler && r.priority[4] == 1 && r.select == 0 && r.current == 0
    }

    ghost function Abs(): (b: Board)
      reads this, pwm, timers.tmrTicks, timers.tmrResolutionMs, timers.timers, timers.vic
      requires Valid()
      ensures b.t.Valid()
    {
      Board(timers.Abs(), pc, dc, pwm.mr0, pwm.mr1)
    }

    /** The initialisation in `main`, up to where interrupts are enabled; the controller's
        registers may hold anything before. */
    constructor (regs: V.Regs, handler: Word)
      requires regs.Valid()
      ensures Valid() && Entered(Abs()) && Abs().t.resolution == 10 && pwm.mr0 == 0x3000 && OnlyTimer(handler)
      ensures fresh(pwm) && fresh(timers.tmrTicks) && fresh(timers.tmrResolutionMs) && fresh(timers.timers)
      ensures fresh(timers.hw) && fresh(timers.vic)
    {
      hide V.Writes, V.ApplyAll;
      var vic := new V.Controller(regs);
      timers := new T.Timers(vic);
      pwm := new Pwm();
      pc, dc := First, 0;
      new;
      timers.vic.InitVIC();
      V.InitClears(regs);
      var r := pwm.InitPwm(PERIOD, 1, 1);
      r := timers.InitTimer(0, 10, handler);
    }

    method Interrupt()
      requires Valid()
      modifies timers.tmrTicks, timers.hw, timers.vic
      ensures Valid() && Abs() == Next(old(Abs()), Tick)
      ensures forall h: Word :: old(OnlyTimer(h)) ==> OnlyTimer(h)
    {
      timers.Tmr0Handler();
    }

    /** Interrupts and loop steps in any order. */
    method Drive(es: seq<Event>)
      requires Valid()
      modifies this, pwm, timers.tmrTicks, timers.timers, timers.hw, timers.vic
      ensures Valid() && Abs() == Run(old(Abs()), es)
      ensures forall h: Word :: old(OnlyTimer(h)) ==> OnlyTimer(h)
    {
      hide Next;
      assert es[..0] == [];
      for k := 0 to |es|
        invariant Valid() && Abs() == Run(old(Abs()), es[..k])
        invariant forall h: Word :: old(OnlyTimer(h)) ==> OnlyTimer(h)
      {
        assert es[..k + 1][..k] == es[..k];
        match es[k]
        case Tick => Interrupt();
        case Loop(keys) => LoopStep(keys);
      }
      assert es[..|es|] == es;
    }

    /** The program's next step. */
    method LoopStep(keys: Word)
      requires Valid()
      modifies this, pwm, timers.timers
      ensures Abs() == Next(old(Abs()), Loop(keys))
    {
      match pc
      case First =>
        var r := timers.Timer(0, true, 0);
        pc := Second;
      case Second =>
        var r := timers.Timer(1, true, 0);
        pc := Poll;
      case Poll =>
        var elapsed := timers.Timer(0, false, 0);
        if elapsed > BUTTON_TASK_INTERVAL {
          pc := Clear;
        }
      case Clear =>
        var r := timers.Timer(0, true, 0);
        pc := Keys;
      case Keys =>
        if keys == UP {
          if dc < 100 {
            dc := dc + 5;
          }
          var r := pwm.SetPwmDc(dc, 1, 1);
        } else if keys == DOWN {
          if dc > 0 {
            dc := dc - 5;
          }
          var r := pwm.SetPwmDc(dc, 1, 1);
        }
        pc := Poll;
    }
  }
}
