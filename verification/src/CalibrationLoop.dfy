/** The sampling loop of calibrateStart: three captures with release in between. */
module CalibrationLoop {
  import opened Machine
  import opened TouchMatrix

  /** What one `touch_xyz` in the loop reports; z is the pressure. */
  datatype Sample = Sample(x: int, y: int, z: Int32)

  /** A coordinate read from the panel: a 16-bit word shifted right by three. */
  type RawCoordinate = n: int | 0 <= n < 0x2000

  /** What one `touch_xyz` reads: the coordinates from the panel, the pressure, and what its
      uninitialised local point happens to hold. */
  datatype Reading = Reading(x: RawCoordinate, y: RawCoordinate, z: Int32, stack: Point) {
    function Raw(): Point {
      Point(x, y)
    }
  }

  function SampleOf(d: Driver, r: Reading): Sample {
    var p := Report(d, r.Raw(), r.stack);
    Sample(p.x, p.y, r.z)
  }

  /** What a driver reports for a stream of readings. */
  function Samples(d: Driver, rs: seq<Reading>): (s: seq<Sample>)
    ensures |s| == |rs|
    ensures forall i :: 0 <= i < |rs| ==> s[i] == SampleOf(d, rs[i])
  {
    if rs == [] then [] else Samples(d, rs[..|rs| - 1]) + [SampleOf(d, rs[|rs| - 1])]
  }

  const REF1 := Point(15, 282)
  const REF2 := Point(120, 62)
  const REF3 := Point(220, 262)

  /** A screen point is stored in unsigned 16-bit fields. */
  function Stored(s: Sample): (p: Point)
    ensures 0 <= p.x < 0x1_0000 && 0 <= p.y < 0x1_0000
    ensures (s.x - p.x) % 0x1_0000 == 0 && (s.y - p.y) % 0x1_0000 == 0
  {
    Point(s.x % 0x1_0000, s.y % 0x1_0000)
  }

  // ----- specification: maximal runs of pressed samples

  predicate StartsRun(samples: seq<Sample>, i: nat)
    requires i < |samples|
  {
    samples[i].z != 0 && (i == 0 || samples[i - 1].z == 0)
  }

  /** The positions at which a maximal run of z != 0 begins, in order. */
  function RunStarts(samples: seq<Sample>): (r: seq<nat>)
    ensures forall i :: 0 <= i < |r| ==> r[i] < |samples|
  {
    if samples == [] then []
    else
      var last := |samples| - 1;
      RunStarts(samples[..last]) + if StartsRun(samples, last) then [last] else []
  }

  /** RunStarts lists all run starts, each once and in order. */
  lemma {:induction false} RunStartsAreAll(samples: seq<Sample>)
    ensures forall i: nat :: i < |samples| ==> (StartsRun(samples, i) <==> i in RunStarts(samples))
    ensures forall i: nat :: i < |samples| ==>
              (i in RunStarts(samples) <==> samples[i].z != 0 && (i > 0 ==> samples[i - 1].z == 0))
    ensures forall i, j :: 0 <= i < j < |RunStarts(samples)| ==> RunStarts(samples)[i] < RunStarts(samples)[j]
  {
    if samples != [] {
      var last := |samples| - 1;
      var init := samples[..last];
      RunStartsAreAll(init);
      forall i: nat | i < |samples| ensures StartsRun(samples, i) <==> i in RunStarts(samples) {
        if i < last {
          assert StartsRun(samples, i) <==> StartsRun(init, i);
        }
      }
    }
  }

  /** Later samples do not change which runs came first. */
  lemma {:induction false} RunStartsPrefix(samples: seq<Sample>, k: nat)
    requires k <= |samples|
    ensures RunStarts(samples[..k]) <= RunStarts(samples)
  {
    if k == |samples| {
      assert samples[..k] == samples;
    } else {
      var init := samples[..|samples| - 1];
      assert init[..k] == samples[..k];
      RunStartsPrefix(init, k);
    }
  }

  lemma {:induction false} NoRunNoPress(samples: seq<Sample>)
    ensures RunStarts(samples) == [] ==> forall i :: 0 <= i < |samples| ==> samples[i].z == 0
  {
    if samples != [] {
      NoRunNoPress(samples[..|samples| - 1]);
    }
  }

  datatype Effect = Draw(p: Point) | Calibrate(refs: Triple, scr: Triple)

  /** The stored point of the n-th run. */
  function NthPoint(samples: seq<Sample>, n: nat): Point
    requires n < |RunStarts(samples)|
  {
    Stored(samples[RunStarts(samples)[n]])
  }

  const REFS := Triple(REF1, REF2, REF3)

  function FirstThree(samples: seq<Sample>): Triple
    requires |RunStarts(samples)| >= 3
  {
    Triple(NthPoint(samples, 0), NthPoint(samples, 1), NthPoint(samples, 2))
  }

  /** What the user sees and what is calculated, as a function of the runs seen so far. */
  function Effects(samples: seq<Sample>): seq<Effect> {
    var n := |RunStarts(samples)|;
    [Draw(REF1)] + (if n >= 1 then [Draw(REF2)] else []) + (if n >= 2 then [Draw(REF3)] else []) +
    if n >= 3 then [Calibrate(REFS, FirstThree(samples))] else []
  }

  // ----- where the touches land afterwards

  /** The raw readings at the first three run starts. */
  function RawThree(d: Driver, rs: seq<Reading>): Triple
    requires |RunStarts(Samples(d, rs))| >= 3
  {
    var starts := RunStarts(Samples(d, rs));
    Triple(rs[starts[0]].Raw(), rs[starts[1]].Raw(), rs[starts[2]].Raw())
  }

  /** The driver once the loop has ended. */
  function After(d: Driver, rs: seq<Reading>): Driver
    requires |RunStarts(Samples(d, rs))| >= 3
  {
    Calibrated(d, REFS, FirstThree(Samples(d, rs)))
  }

  /** From then on the same three readings are reported at the reference points, whatever the
      stack holds. */
  ghost predicate Lands(d: Driver, r: Triple) {
    forall stack: Point ::
      && Report(d, r.p0, stack) == Point(15, 282)
      && Report(d, r.p1, stack) == Point(120, 62)
      && Report(d, r.p2, stack) == Point(220, 262)
  }

  /** Run starts are where the pressure read turns nonzero. */
  lemma {:induction false} ReadingsCaptured(d: Driver, rs: seq<Reading>, i: nat)
    requires i < |rs|
    ensures i in RunStarts(Samples(d, rs)) <==> rs[i].z != 0 && (i > 0 ==> rs[i - 1].z == 0)
  {
    RunStartsAreAll(Samples(d, rs));
    hide RunStarts, Samples, Report;
  }

  lemma {:induction false} LandsWhenCaptured(d: Driver, s: Triple)
    ensures Lands(Calibrated(d, REFS, s), s) <==> Divider(s) != 0
  {
    CalibrationInterpolates(d.matrix, REFS, s);
    hide SetMatrix, DisplayPoint, Divider;
    var c := Calibrated(d, REFS, s);
    if Divider(s) == 0 {
      FailedCalibrationReportsStack(d, REFS, s, s.p0, Point(0, 0));
      assert Report(c, s.p0, Point(0, 0)) != REF1;
    }
  }

  /** A driver that is not yet calibrated captures the raw readings themselves. */
  lemma {:induction false} RawIsCaptured(d: Driver, rs: seq<Reading>)
    requires !d.calibrated && |RunStarts(Samples(d, rs))| >= 3
    ensures FirstThree(Samples(d, rs)) == RawThree(d, rs)
  {
    hide RunStarts;
  }

  /** So its calibration makes the three touches land exactly when they are not on one line. */
  lemma {:induction false} CalibratedTouchesLand(d: Driver, rs: seq<Reading>)
    requires !d.calibrated && |RunStarts(Samples(d, rs))| >= 3
    ensures var starts := RunStarts(Samples(d, rs));
            var r := Triple(rs[starts[0]].Raw(), rs[starts[1]].Raw(), rs[starts[2]].Raw());
            Lands(After(d, rs), r) <==> Divider(r) != 0
  {
    hide RunStarts, Divider, Lands;
    RawIsCaptured(d, rs);
    LandsWhenCaptured(d, RawThree(d, rs));
  }

  // Three touches almost on one line, which relate to the references by enormous factors.

  const SLIVER := Triple(Point(0, 0), Point(8191, 8190), Point(8190, 8189))
  const STEEP_X := Affine(819105, -819205, 15, 1)
  const STEEP_Y := Affine(1637780, -1637980, 282, 1)

  lemma {:induction false} Steep()
    ensures Divider(SLIVER) == -1 && Relates(STEEP_X, STEEP_Y, SLIVER, REFS)
    ensures STEEP_X.Numerator(Point(8191, 0)) == 6709289070
  {}

  /** After calibrating with these a touch far from them is reported at a wrapped coordinate. */
  lemma {:induction false} ReportOverflows(d: Driver, stack: Point)
    ensures !FitsInt(TruncDiv(STEEP_X.Numerator(Point(8191, 0)), STEEP_X.q))
    ensures Report(Calibrated(d, REFS, SLIVER), Point(8191, 0), stack).x == -1880645522
  {
    hide Relates, Divider, Affine.Numerator, Report, Calibrated;
    Steep();
    CalibratedReport(d, REFS, SLIVER, STEEP_X, STEEP_Y, Point(8191, 0), stack);
    assert TruncDiv(6709289070, 1) == 6709289070;
  }

  /** A driver that is calibrated already captures points of the old matrix. The new factors take
      the three readings exactly to the references if and only if the old ones left each of them
      where it was. */
  lemma {:induction false} RecalibrationIsExact(d: Driver, rs: seq<Reading>)
    requires |RunStarts(Samples(d, rs))| >= 3 && Divider(FirstThree(Samples(d, rs))) != 0
    ensures var m, r := After(d, rs).matrix, RawThree(d, rs);
            (MapsExactly(m, r.p0, REF1) && MapsExactly(m, r.p1, REF2) && MapsExactly(m, r.p2, REF3))
            <==> FirstThree(Samples(d, rs)) == r
    ensures FirstThree(Samples(d, rs)) == RawThree(d, rs) ==> Lands(After(d, rs), RawThree(d, rs))
  {
    assert Divider(REFS) == 43000;
    hide RunStarts, Divider, Lands, SetMatrix, MapsExactly, FirstThree, RawThree;
    ExactOnlyForCaptured(d.matrix, REFS, FirstThree(Samples(d, rs)), RawThree(d, rs));
    LandsWhenCaptured(d, FirstThree(Samples(d, rs)));
  }

  /** They land on the references all the same exactly when the new factors make only a fraction
      of a pixel out of what the old ones displaced them by. */
  lemma {:induction false} RecalibrationLands(d: Driver, rs: seq<Reading>)
    requires |RunStarts(Samples(d, rs))| >= 3
    ensures var m, r, s := After(d, rs).matrix, RawThree(d, rs), FirstThree(Samples(d, rs));
            Lands(After(d, rs), r) <==>
            (&& Drifts(m, Displacement(r.p0, s.p0))
             && Drifts(m, Displacement(r.p1, s.p1))
             && Drifts(m, Displacement(r.p2, s.p2)))
  {
    hide RunStarts, FirstThree, RawThree, Samples, SetMatrix, Drifts, Lands;
    LandsWhenDrifting(d, RawThree(d, rs), FirstThree(Samples(d, rs)));
  }

  lemma {:induction false} LandsWhenDrifting(d: Driver, r: Triple, s: Triple)
    ensures var c := Calibrated(d, REFS, s);
            Lands(c, r) <==>
            (&& Drifts(c.matrix, Displacement(r.p0, s.p0))
             && Drifts(c.matrix, Displacement(r.p1, s.p1))
             && Drifts(c.matrix, Displacement(r.p2, s.p2)))
  {
    var c := Calibrated(d, REFS, s);
    SetDivider(d.matrix, REFS, s);
    hide Divider, SetMatrix, MapsExactly;
    if Divider(s) == 0 {
      FailedCalibrationReportsStack(d, REFS, s, r.p0, Point(0, 0));
      assert Report(c, r.p0, Point(0, 0)) != REF1;
      NoFraction(c.matrix, Displacement(r.p0, s.p0));
    } else {
      CornersAreExact(d.matrix, REFS, s);
      hide Report, Drifts;
      forall stack: Point
        ensures Report(c, r.p0, stack) == REF1 <==> Drifts(c.matrix, Displacement(r.p0, s.p0))
        ensures Report(c, r.p1, stack) == REF2 <==> Drifts(c.matrix, Displacement(r.p1, s.p1))
        ensures Report(c, r.p2, stack) == REF3 <==> Drifts(c.matrix, Displacement(r.p2, s.p2))
      {
        ReportedWhenDrifting(c, r.p0, s.p0, REF1, stack);
        ReportedWhenDrifting(c, r.p1, s.p1, REF2, stack);
        ReportedWhenDrifting(c, r.p2, s.p2, REF3, stack);
      }
      assert Lands(c, r) ==> Report(c, r.p0, Point(0, 0)) == REF1;
    }
  }

  lemma {:induction false} NoFraction(m: Matrix, u: Point)
    requires m.divider == 0
    ensures !Drifts(m, u)
  {}

  lemma {:induction false} SetDivider(m: Matrix, d: Triple, s: Triple)
    ensures SetMatrix(m, d, s).divider == Divider(s)
  {
    hide Divider, FactorX, FactorY, Offset;
  }

  // A driver whose matrix adds 100 to x, and three touches with releases between them.

  const SHIFTED := Driver(Matrix(1, 0, 100, 0, 1, 0, 1), true)
  const ORIGIN := Point(0, 0)
  const TOUCHES := [Reading(0, 0, 1, ORIGIN), Reading(0, 0, 0, ORIGIN), Reading(10, 0, 1, ORIGIN),
                    Reading(0, 0, 0, ORIGIN), Reading(0, 10, 1, ORIGIN)]

  /** A recalibration that fails although the captured points are not on one line: touches at
      (0,0), (10,0) and (0,10) are captured at (100,0), (110,0) and (100,10), and the first is
      reported at x = -1035 from then on. */
  lemma {:induction false} RecalibrationMisses()
    ensures RunStarts(Samples(SHIFTED, TOUCHES)) == [0, 2, 4]
    ensures FirstThree(Samples(SHIFTED, TOUCHES)) == Triple(Point(100, 0), Point(110, 0), Point(100, 10))
    ensures Divider(FirstThree(Samples(SHIFTED, TOUCHES))) != 0
    ensures Report(After(SHIFTED, TOUCHES), Point(0, 0), ORIGIN).x == -1035
    ensures !Lands(After(SHIFTED, TOUCHES), RawThree(SHIFTED, TOUCHES))
  {
    var samples := Samples(SHIFTED, TOUCHES);
    RunStartsOfFive(samples);
    assert samples[0] == Sample(100, 0, 1) && samples[2] == Sample(110, 0, 1) && samples[4] == Sample(100, 10, 1);
    var s := Triple(Point(100, 0), Point(110, 0), Point(100, 10));
    assert FirstThree(samples) == s;
    assert Divider(s) == 100;
    assert FactorX(s, 15, 120, 220) == 1050 && FactorY(s, 15, 120, 220) == 2050 && Offset(s, 15, 120, 220) == -103500;
    assert TruncDiv(-103500, 100) == -1035;
    var after := After(SHIFTED, TOUCHES);
    assert DisplayPoint(after.matrix, ORIGIN).Some? && DisplayPoint(after.matrix, ORIGIN).value.x == -1035;
    assert Report(after, RawThree(SHIFTED, TOUCHES).p0, ORIGIN) != REF1;
  }

  lemma {:induction false} RunStartsOfFive(samples: seq<Sample>)
    requires |samples| == 5 && samples[0].z != 0 && samples[1].z == 0 && samples[2].z != 0
    requires samples[3].z == 0 && samples[4].z != 0
    ensures RunStarts(samples) == [0, 2, 4]
  {
    var s4 := samples[..4];
    var s3 := s4[..3];
    var s2 := s3[..2];
    var s1 := s2[..1];
    assert s1[..0] == [];
    assert RunStarts(s1) == [0];
    assert RunStarts(s2) == [0];
    assert RunStarts(s3) == [0, 2];
    assert RunStarts(s4) == [0, 2];
  }

  // ----- the code

  class Calibrator {
    const touch: Touch
    var calibPoint: int
    var scr1: Point
    var scr2: Point
    var scr3: Point
    var releaseNeeded: bool
    var touchReleased: bool
    ghost var effects: seq<Effect>

    constructor (touch: Touch)
      ensures this.touch == touch
    {
      this.touch := touch;
      calibPoint, releaseNeeded, touchReleased := 0, false, false;
      scr1, scr2, scr3 := Point(0, 0), Point(0, 0), Point(0, 0);
      effects := [];
    }

    /** The state of the loop after the samples seen so far; `before` are the earlier effects and
        `d` is the driver's earlier state. */
    ghost predicate Tracks(seen: seq<Sample>, before: seq<Effect>, d: Driver)
      reads this, touch
    {
      var n := |RunStarts(seen)|;
      && n <= 3 && calibPoint == n && releaseNeeded == (n > 0)
      && (n > 0 ==> touchReleased == (seen[|seen| - 1].z == 0))
      && (n > 0 ==> scr1 == NthPoint(seen, 0))
      && (n > 1 ==> scr2 == NthPoint(seen, 1))
      && (n > 2 ==> scr3 == NthPoint(seen, 2))
      && effects == before + Effects(seen)
      && touch.State() == if n == 3 then Calibrated(d, REFS, FirstThree(seen)) else d
    }

    /** The `switch (calibPoint++)`: a new run stores its point, in 0..2. */
    method Capture(s: Sample, ghost seen: seq<Sample>, ghost before: seq<Effect>, ghost d: Driver)
      returns (calibrated: bool)
      requires Tracks(seen, before, d) && |RunStarts(seen)| < 3
      requires s.z != 0 && RunStarts(seen + [s]) == RunStarts(seen) + [|seen|]
      modifies this, touch
      ensures Tracks(seen + [s], before, d)
      ensures calibrated <==> |RunStarts(seen + [s])| == 3
      ensures calibrated ==> RunStarts(seen + [s])[2] == |seen|
    {
      hide Calibrated, RunStarts, Effects, NthPoint;
      ExtendPoints(seen, s);
      calibrated := false;
      touchReleased := false;
      var which := calibPoint;
      calibPoint := calibPoint + 1;
      match which
      case 0 =>
        scr1 := Stored(s);
        effects := effects + [Draw(REF2)];
        releaseNeeded := true;
      case 1 =>
        scr2 := Stored(s);
        effects := effects + [Draw(REF3)];
        releaseNeeded := true;
      case _ =>
        assert which == 2;
        scr3 := Stored(s);
        releaseNeeded := true;
        effects := effects + [Calibrate(REFS, Triple(scr1, scr2, scr3))];
        touch.TouchCalibrate(REFS, Triple(scr1, scr2, scr3));
        calibrated := true;
    }

    /** The body of the loop, after `touch_xyz`. */
    method Take(s: Sample, ghost seen: seq<Sample>, ghost before: seq<Effect>, ghost d: Driver)
      returns (calibrated: bool)
      requires Tracks(seen, before, d) && |RunStarts(seen)| < 3
      modifies this, touch
      ensures Tracks(seen + [s], before, d)
      ensures calibrated <==> |RunStarts(seen + [s])| == 3
      ensures calibrated ==> RunStarts(seen + [s])[2] == |seen|
    {
      hide Calibrated, RunStarts, Effects, NthPoint, FirstThree;
      Extend(seen, s);
      ExtendPoints(seen, s);
      assert RunStarts(seen) != [] ==> RunStarts(seen)[0] < |seen|;
      calibrated := false;
      if s.z == 0 {
        touchReleased := true;
        return;
      }
      if releaseNeeded && !touchReleased {
        return;
      }
      calibrated := Capture(s, seen, before, d);
    }

    /** What happens before the loop. */
    method Begin()
      modifies this
      ensures Tracks([], old(effects), touch.State())
    {
      EffectsStart();
      releaseNeeded := false;
      calibPoint := 0;
      effects := effects + [Draw(REF1)];
    }

    /** The loop over a stream of readings; it is still waiting when the stream given is used up
        before the third run. The statics may hold anything on entry, and the driver may be
        calibrated already. */
    method CalibrateStart(rs: seq<Reading>) returns (used: nat, calibrated: bool)
      modifies this, touch
      ensures var samples := Samples(old(touch.State()), rs);
              && (calibrated <==> |RunStarts(samples)| >= 3)
              && used == (if calibrated then RunStarts(samples)[2] + 1 else |rs|)
              && Tracks(samples[..used], old(effects), old(touch.State()))
              && (calibrated ==>
                    && scr1 == Stored(samples[RunStarts(samples)[0]])
                    && scr2 == Stored(samples[RunStarts(samples)[1]])
                    && scr3 == Stored(samples[RunStarts(samples)[2]])
                    && effects == old(effects) + [Draw(Point(15, 282)), Draw(Point(120, 62)), Draw(Point(220, 262)),
                                                  Calibrate(REFS, Triple(scr1, scr2, scr3))]
                    && touch.State() == After(old(touch.State()), rs))
    {
      hide Tracks, RunStarts, Calibrated, Samples, Effects;
      ghost var d := touch.State();
      ghost var samples := Samples(d, rs);
      Begin();
      EffectsStart();
      calibrated := false;
      used := 0;
      ghost var seen: seq<Sample> := [];
      while !calibrated && used < |rs|
        invariant used <= |rs| && seen == samples[..used]
        invariant Tracks(seen, old(effects), d)
        invariant calibrated <==> |RunStarts(seen)| == 3
        invariant calibrated ==> RunStarts(seen)[2] == used - 1
        decreases |rs| - used
      {
        TracksBound(seen, old(effects), d);
        var r := rs[used];
        var p := touch.TouchXyz(r.Raw(), r.stack);
        var s := Sample(p.x, p.y, r.z);
        calibrated := Take(s, seen, old(effects), d);
        seen := seen + [s];
        used := used + 1;
      }
      TracksBound(seen, old(effects), d);
      if calibrated {
        FirstThreePrefix(samples, used);
        AllEffects(seen);
      } else {
        assert seen == samples;
      }
    }

    lemma {:induction false} TracksBound(seen: seq<Sample>, before: seq<Effect>, d: Driver)
      requires Tracks(seen, before, d)
      ensures |RunStarts(seen)| <= 3
      ensures |RunStarts(seen)| < 3 ==> touch.State() == d
      ensures |RunStarts(seen)| == 3 ==>
                Triple(scr1, scr2, scr3) == FirstThree(seen) && touch.State() == Calibrated(d, REFS, FirstThree(seen))
      ensures effects == before + Effects(seen)
    {}
  }

  lemma {:induction false} EffectsStart()
    ensures RunStarts([]) == [] && Effects([]) == [Draw(REF1)]
  {}

  lemma {:induction false} AllEffects(seen: seq<Sample>)
    requires |RunStarts(seen)| == 3
    ensures Effects(seen) ==
            [Draw(Point(15, 282)), Draw(Point(120, 62)), Draw(Point(220, 262)), Calibrate(REFS, FirstThree(seen))]
  {
    hide FirstThree, RunStarts;
  }

  lemma {:induction false} FirstThreePrefix(samples: seq<Sample>, k: nat)
    requires k <= |samples| && |RunStarts(samples[..k])| >= 3
    ensures |RunStarts(samples)| >= 3 && FirstThree(samples) == FirstThree(samples[..k])
    ensures RunStarts(samples)[2] == RunStarts(samples[..k])[2]
  {
    hide RunStarts;
    RunStartsPrefix(samples, k);
  }

  /** One more sample adds a run exactly when it is pressed and nothing was pressed just before. */
  lemma {:induction false} Extend(seen: seq<Sample>, s: Sample)
    ensures var starts := s.z != 0 && (seen == [] || seen[|seen| - 1].z == 0);
            RunStarts(seen + [s]) == RunStarts(seen) + if starts then [|seen|] else []
    ensures RunStarts(seen) == [] ==> seen == [] || seen[|seen| - 1].z == 0
  {
    assert (seen + [s])[..|seen|] == seen;
    NoRunNoPress(seen);
  }

  /** What the new run stores and shows; what was stored before stays. */
  lemma {:induction false} ExtendPoints(seen: seq<Sample>, s: Sample)
    ensures var n, all := |RunStarts(seen)|, seen + [s];
            && n <= |RunStarts(all)| <= n + 1
            && (forall i :: 0 <= i < n ==> NthPoint(all, i) == NthPoint(seen, i))
            && (|RunStarts(all)| == n ==> Effects(all) == Effects(seen) || n >= 3)
            && (|RunStarts(all)| == n + 1 ==>
                  && NthPoint(all, n) == Stored(s)
                  && (n == 0 ==> Effects(all) == Effects(seen) + [Draw(REF2)])
                  && (n == 1 ==> Effects(all) == Effects(seen) + [Draw(REF3)])
                  && (n == 2 ==> Effects(all) == Effects(seen) + [Calibrate(REFS, FirstThree(all))]))
  {
    Extend(seen, s);
    hide RunStarts;
    forall i | 0 <= i < |RunStarts(seen)| ensures NthPoint(seen + [s], i) == NthPoint(seen, i) {
      assert RunStarts(seen + [s])[i] == RunStarts(seen)[i];
    }
  }
}
