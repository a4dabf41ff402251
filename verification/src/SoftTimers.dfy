/** timer.c: ten soft timers derived from one interrupt tick count, all in wrapping 32-bit
    arithmetic. Each read of the tick count is one atomic step.
 */
module SoftTimers {
  import opened Machine
  import V = Vic

  const NUM_TIMERS := 10

  type Index = i: nat | i < NUM_TIMERS

  /** `ticks` and `resolution` are those of hardware timer 0, which drives the soft timers. */
  datatype State = State(ticks: Int32, resolution: Int32, timers: seq<Int32>) {
    ghost predicate Valid() {
      |timers| == NUM_TIMERS
    }
  }

  datatype Event = Tick | Reset(i: Index) | Read(i: Index)

  function Now(s: State): Int32 {
    ToInt(s.resolution * s.ticks)
  }

  /** What `timer(i, RUN)` returns. */
  function Elapsed(s: State, i: Index): Int32
    requires s.Valid()
  {
    ToInt(Now(s) - s.timers[i])
  }

  function Step(s: State, e: Event): (r: State)
    requires s.Valid()
    ensures r.Valid()
  {
    match e
    case Tick => s.(ticks := ToInt(s.ticks + 1))
    case Reset(i) => s.(timers := s.timers[i := Now(s)])
    case Read(_) => s
  }

  function Run(s: State, es: seq<Event>): (r: State)
    requires s.Valid()
    ensures r.Valid()
  {
    if es == [] then s else Step(Run(s, es[..|es| - 1]), es[|es| - 1])
  }

  /** The state after power-up and `initTimer(0, resolution)`. */
  function Boot(resolution: Int32): (s: State)
    ensures s.Valid()
  {
    State(0, resolution, seq(NUM_TIMERS, _ => 0))
  }

  function Ticks(es: seq<Event>): nat {
    if es == [] then 0 else Ticks(es[..|es| - 1]) + if es[|es| - 1].Tick? then 1 else 0
  }

  /** Ticks since the last reset of timer `i`, or since power-up. */
  function TicksSince(es: seq<Event>, i: Index): (n: nat)
    ensures n <= Ticks(es)
  {
    if es == [] then 0
    else
      var e, n := es[|es| - 1], TicksSince(es[..|es| - 1], i);
      if e.Tick? then n + 1 else if e == Reset(i) then 0 else n
  }

  // ----- wrap-around

  lemma {:induction false} RunTicks(s: State, es: seq<Event>)
    requires s.Valid()
    ensures Run(s, es).ticks == ToInt(s.ticks + Ticks(es)) && Run(s, es).resolution == s.resolution
  {
    if es == [] {
      ToIntExact(s.ticks);
    } else {
      var init := es[..|es| - 1];
      RunTicks(s, init);
      ToIntAdd(s.ticks + Ticks(init), 1);
    }
  }

  /** Truncation at every stage leaves the difference of the products right modulo 2^32. */
  lemma {:induction false} ElapsedBetween(r: int, t: int, n: int)
    ensures ToInt(ToInt(r * ToInt(t + n)) - ToInt(r * t)) == ToInt(r * n)
  {
    hide ToInt;
    ToIntMul(r, t + n);
    ToIntSub(r * (t + n), r * t);
    assert r * (t + n) - r * t == r * n;
  }

  lemma {:induction false} TimerValue(resolution: Int32, es: seq<Event>, i: Index)
    ensures Run(Boot(resolution), es).timers[i] == ToInt(resolution * (Ticks(es) - TicksSince(es, i)))
  {
    if es != [] {
      var init, e := es[..|es| - 1], es[|es| - 1];
      TimerValue(resolution, init, i);
      if e == Reset(i) {
        RunTicks(Boot(resolution), init);
        ToIntMul(resolution, Ticks(init));
      }
    }
  }

  /** In every history a soft timer reads the resolution times the ticks since its last reset,
      truncated; the tick count and the products may have wrapped any number of times. */
  lemma {:induction false} ElapsedIsTicksSince(resolution: Int32, es: seq<Event>, i: Index)
    ensures Elapsed(Run(Boot(resolution), es), i) == ToInt(resolution * TicksSince(es, i))
  {
    hide ToInt;
    RunTicks(Boot(resolution), es);
    TimerValue(resolution, es, i);
    var n := TicksSince(es, i);
    ElapsedBetween(resolution, Ticks(es) - n, n);
  }

  /** So it reads the elapsed milliseconds exactly when these fit an int. */
  lemma {:induction false} ElapsedExactly(resolution: Int32, es: seq<Event>, i: Index)
    ensures Elapsed(Run(Boot(resolution), es), i) == resolution * TicksSince(es, i)
            <==> -0x8000_0000 <= resolution * TicksSince(es, i) < 0x8000_0000
  {
    ElapsedIsTicksSince(resolution, es, i);
    ToIntExact(resolution * TicksSince(es, i));
  }

  /** The same from any state whatever, however it was reached: what counts is the stretch since
      the reset. */
  lemma {:induction false} ElapsedSinceReset(s: State, i: Index, es: seq<Event>)
    requires s.Valid() && Reset(i) !in es
    ensures Elapsed(Run(Step(s, Reset(i)), es), i) == ToInt(s.resolution * Ticks(es))
  {
    hide ToInt;
    var s1 := Step(s, Reset(i));
    RunTicks(s1, es);
    TimerKept(s1, i, es);
    ElapsedBetween(s.resolution, s.ticks, Ticks(es));
  }

  lemma {:induction false} TimerKept(s: State, i: Index, es: seq<Event>)
    requires s.Valid() && Reset(i) !in es
    ensures Run(s, es).timers[i] == s.timers[i]
  {
    if es != [] {
      TimerKept(s, i, es[..|es| - 1]);
    }
  }

  // ----- independence

  /** The history as timer `i` sees it: no events of other timers. */
  function Own(es: seq<Event>, i: Index): seq<Event> {
    if es == [] then []
    else
      var e, own := es[|es| - 1], Own(es[..|es| - 1], i);
      if e.Tick? || e == Reset(i) then own + [e] else own
  }

  predicate Alike(s: State, t: State, i: Index)
    requires s.Valid() && t.Valid()
  {
    s.ticks == t.ticks && s.resolution == t.resolution && s.timers[i] == t.timers[i]
  }

  lemma {:induction false} StepAlike(s: State, t: State, e: Event, i: Index)
    requires s.Valid() && t.Valid() && Alike(s, t, i)
    ensures Alike(Step(s, e), if e.Tick? || e == Reset(i) then Step(t, e) else t, i)
  {}

  lemma {:induction false} RunAlike(s: State, es: seq<Event>, i: Index)
    requires s.Valid()
    ensures Alike(Run(s, es), Run(s, Own(es, i)), i)
  {
    hide Alike, Step;
    if es == [] {
      AlikeSelf(s, i);
    } else {
      var init, e := es[..|es| - 1], es[|es| - 1];
      RunAlike(s, init, i);
      StepAlike(Run(s, init), Run(s, Own(init, i)), e, i);
      var own := Own(init, i) + [e];
      assert own[..|own| - 1] == Own(init, i);
    }
  }

  lemma {:induction false} AlikeSelf(s: State, i: Index)
    requires s.Valid()
    ensures Alike(s, s, i)
  {}

  /** Whatever is done with the other timers, timer `i` reads the same. */
  lemma {:induction false} TimersAreIndependent(s: State, es: seq<Event>, i: Index)
    requires s.Valid()
    ensures Elapsed(Run(s, es), i) == Elapsed(Run(s, Own(es, i)), i)
  {
    hide Run, Own, ToInt;
    RunAlike(s, es, i);
  }

  // ----- the hardware timers

  /** The registers of one hardware timer, as last written. */
  datatype Hardware = Hardware(tcr: Word, pr: Word, mr0: Word, ir: Word, mcr: Word)

  const FPCLK := 28_800_000
  const TIMER0_INT := 4
  const HIGHEST_PRIORITY: Word := 1

  /** The clock counts `initTimer` puts between interrupts. */
  function MatchCount(intervalMs: Int32, fpclk: nat): Word {
    ToWord(intervalMs * (fpclk / 999))
  }

  /** That is the interval asked for exactly when the clock is q * 1000 Hz with q < 999 and the
      count fits its register: the source divides by 1000 - 1. */
  lemma {:induction false} MatchCountExact(intervalMs: Int32, fpclk: nat)
    requires intervalMs > 0
    ensures 1000 * MatchCount(intervalMs, fpclk) == intervalMs * fpclk <==>
            fpclk / 999 == fpclk % 999 && intervalMs * (fpclk / 999) < 0x1_0000_0000
  {
    hide ToWord;
    Counts(intervalMs, fpclk / 999, fpclk % 999);
    assert fpclk == 999 * (fpclk / 999) + fpclk % 999;
    CountWraps(intervalMs * (fpclk / 999), intervalMs * (fpclk % 999));
  }

  /** In any case it is the interval times the clock divided by 999, modulo 2^32. */
  lemma {:induction false} MatchCountWraps(intervalMs: Int32, fpclk: nat, q: nat)
    requires 999 * q <= fpclk < 999 * q + 999
    ensures MatchCount(intervalMs, fpclk) == intervalMs * q % 0x1_0000_0000
  {
    assert fpclk / 999 == q;
  }

  lemma {:induction false} Counts(i: nat, q: nat, r: nat)
    requires i > 0
    ensures i * (999 * q + r) == 999 * (i * q) + i * r
    ensures i * q == i * r <==> q == r
  {
    assert i * (q - r) == i * q - i * r;
    assert q > r ==> i * (q - r) > 0;
    assert q < r ==> i * (q - r) < 0;
  }

  lemma {:induction false} CountWraps(x: nat, y: nat)
    ensures 1000 * ToWord(x) == 999 * x + y <==> x == y && x < 0x1_0000_0000
  {}

  /** At the clock of this board ten milliseconds are counted as 288280 instead of 288000. */
  lemma {:induction false} TenMillisecondsMissed()
    ensures MatchCount(10, FPCLK) == 288280 && 10 * FPCLK / 1000 == 288000
  {}

  // ----- the code

  class Timers {
    const tmrTicks: array<Int32>
    const tmrResolutionMs: array<Int32>
    const timers: array<Int32>
    const hw: array<Hardware>
    const vic: V.Controller

    ghost predicate Valid() {
      && tmrTicks.Length == 2 && tmrResolutionMs.Length == 2 && timers.Length == NUM_TIMERS && hw.Length == 2
      && tmrTicks != tmrResolutionMs && tmrTicks != timers && tmrResolutionMs != timers
    }

    ghost function Abs(): (s: State)
      reads tmrTicks, tmrResolutionMs, timers
      requires Valid()
      ensures s.Valid()
    {
      State(tmrTicks[0], tmrResolutionMs[0], timers[..])
    }

    constructor (vic: V.Controller)
      ensures Valid() && fresh(tmrTicks) && fresh(tmrResolutionMs) && fresh(timers) && fresh(hw)
      ensures Abs() == Boot(0) && this.vic == vic
    {
      this.vic := vic;
      hw := new Hardware[2](_ => Hardware(0, 0, 0, 0, 0));
      tmrTicks := new Int32[2](_ => 0);
      tmrResolutionMs := new Int32[2](_ => 0);
      timers := new Int32[10](_ => 0);
    }

    method Tmr0Handler()
      requires Valid() && vic.Valid()
      modifies tmrTicks, hw, vic
      ensures Abs() == Step(old(Abs()), Tick) && tmrTicks[1] == old(tmrTicks[1])
      ensures hw[0] == old(hw[0]).(ir := 0xFF) && hw[1] == old(hw[1])
      ensures vic.Valid() && vic.regs == old(vic.regs).(current := 0)
    {
      tmrTicks[0] := ToInt(tmrTicks[0] as int + 1);
      hw[0] := hw[0].(ir := 0xFF);
      vic.Store(V.VECT_ADDR, 0);
    }

    method Tmr1Handler()
      requires Valid() && vic.Valid()
      modifies tmrTicks, hw, vic
      ensures Abs() == old(Abs()) && tmrTicks[1] == ToInt(old(tmrTicks[1]) as int + 1)
      ensures hw[1] == old(hw[1]).(ir := 0xFF) && hw[0] == old(hw[0])
      ensures vic.Valid() && vic.regs == old(vic.regs).(current := 0)
    {
      tmrTicks[1] := ToInt(tmrTicks[1] as int + 1);
      hw[1] := hw[1].(ir := 0xFF);
      vic.Store(V.VECT_ADDR, 0);
    }

    /** 0 for success, -1 for a timer that does not exist; `handler` is the address of that
        timer's handler. The two branches of the source differ only in the timer. */
    method InitTimer(timerNum: int, intervalMs: Int32, handler: Word) returns (r: int)
      requires Valid() && vic.Valid()
      modifies tmrResolutionMs, hw, vic
      ensures r == if timerNum == 0 || timerNum == 1 then 0 else -1
      ensures forall i :: 0 <= i < 2 ==>
                hw[i] == if i == timerNum then Hardware(2, 0, MatchCount(intervalMs, FPCLK), 0xFF, 3) else old(hw[i])
      ensures vic.Valid()
      ensures r == 0 ==>
                && vic.trace == old(vic.trace) + V.Writes(V.Install(4 + timerNum, handler, 1))
                && vic.regs == old(vic.regs).(enabled := old(vic.regs).enabled + {4 + timerNum},
                                              vector := old(vic.regs).vector[4 + timerNum := handler],
                                              priority := old(vic.regs).priority[4 + timerNum := 1])
      ensures r != 0 ==> unchanged(vic)
      ensures Abs() == if timerNum == 0 then old(Abs()).(resolution := intervalMs) else old(Abs())
      ensures tmrResolutionMs[1] == if timerNum == 1 then intervalMs else old(tmrResolutionMs[1])
    {
      if timerNum != 0 && timerNum != 1 {
        return -1;
      }
      hw[timerNum] := hw[timerNum].(tcr := 2);
      hw[timerNum] := hw[timerNum].(pr := 0);
      hw[timerNum] := hw[timerNum].(mr0 := MatchCount(intervalMs, FPCLK));
      hw[timerNum] := hw[timerNum].(ir := 0xFF);
      hw[timerNum] := hw[timerNum].(mcr := 3);
      tmrResolutionMs[timerNum] := intervalMs;
      V.InstallSteps(vic.regs, 4 + timerNum, handler, 1);
      var installed := vic.InstallIrq(TIMER0_INT + timerNum, handler, HIGHEST_PRIORITY);
      r := if installed == 1 then 0 else -1;
    }

    /** `timer(timerNum, clear)`. The table has ten cells although the guard admits an eleventh;
        from 11 on nothing happens and the result is whatever the register held. */
    method Timer(timerNum: int, clear: bool, register: Int32) returns (r: Int32)
      requires Valid() && 0 <= timerNum && timerNum != 10
      modifies timers
      ensures timerNum < 10 ==> Abs() == Step(old(Abs()), if clear then Reset(timerNum) else Read(timerNum))
      ensures timerNum < 10 ==> r == if clear then 0 else Elapsed(old(Abs()), timerNum)
      ensures timerNum >= 11 ==> Abs() == old(Abs()) && r == register
    {
      if timerNum >= 11 {
        return register;
      }
      var now: int := ToInt((tmrResolutionMs[0] as int) * tmrTicks[0] as int);
      if clear {
        timers[timerNum] := now;
        r := 0;
      } else {
        r := ToInt(now - timers[timerNum]);
      }
    }
  }
}
