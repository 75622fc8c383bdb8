/**
 * Purdy points (purdy.py): a standard pace per distance, interpolated
 * between the breakpoints of a table, corrected for fatigue, and used to
 * score a performance or to find the time that earns a given score.
 *
 * All arithmetic is over exact reals, not IEEE doubles.
 */
module Purdy {
  import opened Results

  // ----- the pace table (purdy.py:5-21) -------------------------------------------------

  /* The rows of `pace_table` as the source lays them out: pairs of a
     distance in metres and a standard pace in metres per second. */
  const Row0: seq<real> := [40.0, 11.000, 50.0, 10.9960, 60.0, 10.9830, 70.0, 10.9620]
  const Row1: seq<real> := [80.0, 10.934, 90.0, 10.9000, 100.0, 10.8600, 110.0, 10.8150]
  const Row2: seq<real> := [120.0, 10.765, 130.0, 10.7110, 140.0, 10.6540, 150.0, 10.5940]
  const Row3: seq<real> := [160.0, 10.531, 170.0, 10.4650, 180.0, 10.3960, 200.0, 10.2500]
  const Row4: seq<real> := [220.0, 10.096, 240.0, 9.9350, 260.0, 9.7710, 280.0, 9.6100]
  const Row5: seq<real> := [300.0, 9.455, 320.0, 9.3070, 340.0, 9.1660, 360.0, 9.0320]
  const Row6: seq<real> := [380.0, 8.905, 400.0, 8.7850, 450.0, 8.5130, 500.0, 8.2790]
  const Row7: seq<real> := [550.0, 8.083, 600.0, 7.9210, 700.0, 7.6690, 800.0, 7.4960]
  const Row8: seq<real> := [900.0, 7.3200, 1000.0, 7.18933, 1200.0, 6.98066, 1500.0, 6.75319]
  const Row9: seq<real> := [2000.0, 6.50015, 2500.0, 6.33424, 3000.0, 6.21913, 3500.0, 6.13510]
  const Row10: seq<real> := [4000.0, 6.07040, 4500.0, 6.01822, 5000.0, 5.97432, 6000.0, 5.90181]
  const Row11: seq<real> := [7000.0, 5.84156, 8000.0, 5.78889, 9000.0, 5.74211, 10000.0, 5.70050]
  const Row12: seq<real> := [12000.0, 5.62944, 15000.0, 5.54300, 20000.0, 5.43785, 25000.0, 5.35842]
  const Row13: seq<real> := [30000.0, 5.29298, 35000.0, 5.23538, 40000.0, 5.18263, 50000.0, 5.08615]
  const Row14: seq<real> := [60000.0, 4.99762, 80000.0, 4.83617, 100000.0, 4.68988]

  const RowsFrom13: seq<real> := Row13 + Row14
  const RowsFrom12: seq<real> := Row12 + RowsFrom13
  const RowsFrom11: seq<real> := Row11 + RowsFrom12
  const RowsFrom10: seq<real> := Row10 + RowsFrom11
  const RowsFrom9: seq<real> := Row9 + RowsFrom10
  const RowsFrom8: seq<real> := Row8 + RowsFrom9
  const RowsFrom7: seq<real> := Row7 + RowsFrom8
  const RowsFrom6: seq<real> := Row6 + RowsFrom7
  const RowsFrom5: seq<real> := Row5 + RowsFrom6
  const RowsFrom4: seq<real> := Row4 + RowsFrom5
  const RowsFrom3: seq<real> := Row3 + RowsFrom4
  const RowsFrom2: seq<real> := Row2 + RowsFrom3
  const RowsFrom1: seq<real> := Row1 + RowsFrom2
  const RowsFrom0: seq<real> := Row0 + RowsFrom1
  /** All breakpoints, in order, without the sentinel. */
  const Breakpoints: seq<real> := RowsFrom0

  /** The flat `pace_table`: breakpoint pairs, then the sentinel pair (-1.0, 0.0). */
  const PaceTable: seq<real> := Breakpoints + [-1.0, 0.0]

  /** Index of the sentinel distance -1.0 in `PaceTable`. */
  const SentinelIndex: nat := 118

  /** No standard pace in the table exceeds this. */
  const MaxPace: real := 11.0

  /** Fatigue constants (purdy.py:96-98, 171-173). */
  const FatigueC1: real := 0.2
  const FatigueC2: real := 0.08
  const FatigueC3: real := 0.0065

  /** A flat list of (distance, pace) pairs with positive distances in strictly
      increasing order and paces in (0, MaxPace]. */
  ghost predicate PairsOk(s: seq<real>)
  {
    |s| % 2 == 0 &&
    forall j :: 0 <= j < |s| / 2 ==>
      0.0 < s[2 * j] && 0.0 < s[2 * j + 1] <= MaxPace && (j + 1 < |s| / 2 ==> s[2 * j] < s[2 * j + 2])
  }

  lemma PairsAppend(a: seq<real>, b: seq<real>)
    requires PairsOk(a) && PairsOk(b)
    requires |a| > 0 && |b| > 0 && a[|a| - 2] < b[0]
    ensures PairsOk(a + b)
  {
    var s := a + b;
    forall j | 0 <= j < |s| / 2
      ensures 0.0 < s[2 * j] && 0.0 < s[2 * j + 1] <= MaxPace && (j + 1 < |s| / 2 ==> s[2 * j] < s[2 * j + 2])
    {
      if j < |a| / 2 {
        assert s[2 * j] == a[2 * j] && s[2 * j + 1] == a[2 * j + 1];
        if j + 1 < |a| / 2 {
          assert s[2 * j + 2] == a[2 * j + 2];
        } else if j + 1 < |s| / 2 {
          assert s[2 * j + 2] == b[0];
        }
      } else {
        var k := j - |a| / 2;
        assert s[2 * j] == b[2 * k] && s[2 * j + 1] == b[2 * k + 1];
        if j + 1 < |s| / 2 {
          assert s[2 * j + 2] == b[2 * k + 2];
        }
      }
    }
  }

  /* The table is checked row by row, from the last row back to the first. */
  lemma RowsFromOk13() ensures PairsOk(RowsFrom13) { PairsAppend(Row13, Row14); }
  lemma RowsFromOk12() ensures PairsOk(RowsFrom12) { RowsFromOk13(); PairsAppend(Row12, RowsFrom13); }
  lemma RowsFromOk11() ensures PairsOk(RowsFrom11) { RowsFromOk12(); PairsAppend(Row11, RowsFrom12); }
  lemma RowsFromOk10() ensures PairsOk(RowsFrom10) { RowsFromOk11(); PairsAppend(Row10, RowsFrom11); }
  lemma RowsFromOk9() ensures PairsOk(RowsFrom9) { RowsFromOk10(); PairsAppend(Row9, RowsFrom10); }
  lemma RowsFromOk8() ensures PairsOk(RowsFrom8) { RowsFromOk9(); PairsAppend(Row8, RowsFrom9); }
  lemma RowsFromOk7() ensures PairsOk(RowsFrom7) { RowsFromOk8(); PairsAppend(Row7, RowsFrom8); }
  lemma RowsFromOk6() ensures PairsOk(RowsFrom6) { RowsFromOk7(); PairsAppend(Row6, RowsFrom7); }
  lemma RowsFromOk5() ensures PairsOk(RowsFrom5) { RowsFromOk6(); PairsAppend(Row5, RowsFrom6); }
  lemma RowsFromOk4() ensures PairsOk(RowsFrom4) { RowsFromOk5(); PairsAppend(Row4, RowsFrom5); }
  lemma RowsFromOk3() ensures PairsOk(RowsFrom3) { RowsFromOk4(); PairsAppend(Row3, RowsFrom4); }
  lemma RowsFromOk2() ensures PairsOk(RowsFrom2) { RowsFromOk3(); PairsAppend(Row2, RowsFrom3); }
  lemma RowsFromOk1() ensures PairsOk(RowsFrom1) { RowsFromOk2(); PairsAppend(Row1, RowsFrom2); }
  lemma RowsFromOk0() ensures PairsOk(RowsFrom0) { RowsFromOk1(); PairsAppend(Row0, RowsFrom1); }

  /** A flat pace table closed by the sentinel pair (-1.0, 0.0): before the
      sentinel, distances are positive and strictly increasing and paces lie in
      (0, MaxPace]. */
  ghost predicate WellFormed(t: seq<real>)
  {
    |t| >= 6 && |t| % 2 == 0 && t[|t| - 2] == -1.0 && t[|t| - 1] == 0.0 &&
    (forall j :: 0 <= j < |t| - 2 && j % 2 == 0 ==> 0.0 < t[j] && 0.0 < t[j + 1] <= MaxPace) &&
    (forall j :: 0 <= j < |t| - 4 && j % 2 == 0 ==> t[j] < t[j + 2])
  }

  lemma SentinelClosesPairs(s: seq<real>)
    requires PairsOk(s) && |s| >= 4
    ensures WellFormed(s + [-1.0, 0.0])
  {
    var t := s + [-1.0, 0.0];
    forall j | 0 <= j < |t| - 2 && j % 2 == 0
      ensures 0.0 < t[j] && 0.0 < t[j + 1] <= MaxPace
      ensures j < |t| - 4 ==> t[j] < t[j + 2]
    {
      assert t[j] == s[2 * (j / 2)] && t[j + 1] == s[2 * (j / 2) + 1];
      if j < |t| - 4 {
        assert t[j + 2] == s[2 * (j / 2) + 2];
      }
    }
  }

  /** `pace_table` is well formed, runs from 40 m to 100 km and ends at index 118
      with the sentinel. */
  lemma TableShape()
    ensures WellFormed(PaceTable) && |PaceTable| == SentinelIndex + 2
    ensures PaceTable[0] == 40.0 && PaceTable[SentinelIndex - 2] == 100000.0
  {
    RowsFromOk0();
    SentinelClosesPairs(Breakpoints);
  }

  lemma {:induction false} Increasing(t: seq<real>, i: nat, j: nat)
    requires WellFormed(t)
    requires i % 2 == 0 && j % 2 == 0 && i < j < |t| - 2
    ensures t[i] < t[j]
    decreases j - i
  {
    if i + 2 < j {
      Increasing(t, i + 2, j);
    }
  }

  // ----- locating the bracket (purdy.py:100-112, 175-186) --------------------------------

  /** The index at which the scan over even indices of `t` from `i` stops: the
      first whose distance is the sentinel or at least `dist`. */
  function BracketFrom(t: seq<real>, dist: real, i: nat): (r: nat)
    requires WellFormed(t) && i % 2 == 0 && i <= |t| - 2
    ensures r % 2 == 0 && i <= r <= |t| - 2
    ensures t[r] <= 0.0 || dist <= t[r]
    ensures forall j :: i <= j < r && j % 2 == 0 ==> 0.0 < t[j] < dist
    decreases |t| - 2 - i
  {
    if t[i] > 0.0 && dist > t[i] then BracketFrom(t, dist, i + 2) else i
  }

  /** For a distance above the first breakpoint, the scan reaches the sentinel
      exactly when the distance is beyond the last breakpoint; otherwise it stops
      at a breakpoint `b >= 2` with `t[b - 2] < dist <= t[b]`. */
  lemma BracketFromStart(t: seq<real>, dist: real)
    requires WellFormed(t) && dist > t[0]
    ensures var b := BracketFrom(t, dist, 0);
      2 <= b && 0.0 < t[b - 2] < dist &&
      (b == |t| - 2 <==> dist > t[|t| - 4]) &&
      (b < |t| - 2 ==> Brackets(SegmentAt(t, b), dist))
  {
    var b := BracketFrom(t, dist, 0);
    var last := |t| - 4;
    if b < |t| - 2 && b < last {
      Increasing(t, b, last);
    }
    if b < |t| - 2 {
      var j := b - 2;
      assert j % 2 == 0 && 0.0 < t[j + 1] <= MaxPace;
      assert 0.0 < t[b + 1] <= MaxPace;
    }
  }

  /** Where the scan over `t` from its first entry stops. */
  function Bracket(t: seq<real>, dist: real): nat
    requires WellFormed(t)
  {
    BracketFrom(t, dist, 0)
  }

  /** The `while` loop of `purdy_score` and `convert`: advance by two entries while
      the table distance is positive and below `dist`. */
  method FindBracket(t: seq<real>, dist: real) returns (idx: nat)
    requires WellFormed(t)
    ensures idx == Bracket(t, dist)
  {
    idx := 0;
    var tableDistance := t[idx];
    while tableDistance > 0.0 && dist > tableDistance
      invariant idx % 2 == 0 && idx <= |t| - 2 && tableDistance == t[idx]
      invariant BracketFrom(t, dist, idx) == Bracket(t, dist)
      decreases |t| - 2 - idx
    {
      idx := idx + 2;
      tableDistance := t[idx];
    }
  }

  /** The distances a table can score: above its first breakpoint and up to its last. */
  ghost predicate Covers(t: seq<real>, dist: real)
  {
    WellFormed(t) && t[0] < dist <= t[|t| - 4]
  }

  // ----- the bracketing segment and its standard time (purdy.py:114-132) --------------

  /** The two breakpoints around a distance. */
  datatype Segment = Segment(dLower: real, paceLower: real, dUpper: real, paceUpper: real)

  predicate Brackets(seg: Segment, dist: real)
  {
    0.0 < seg.dLower < dist <= seg.dUpper &&
    0.0 < seg.paceLower <= MaxPace && 0.0 < seg.paceUpper <= MaxPace
  }

  /** The pairs at `idx - 2` and `idx`, as `lower_idx` and `upper_idx` pick them. */
  function SegmentAt(t: seq<real>, idx: nat): Segment
    requires WellFormed(t) && idx % 2 == 0 && 2 <= idx < |t| - 2
  {
    Segment(t[idx - 2], t[idx - 1], t[idx], t[idx + 1])
  }

  /** The segment the scan finds for a distance the table covers. */
  function SegmentFor(t: seq<real>, dist: real): (seg: Segment)
    requires Covers(t, dist)
    ensures Brackets(seg, dist)
  {
    BracketFromStart(t, dist);
    SegmentAt(t, Bracket(t, dist))
  }

  // ----- standard time, velocity, lap factor and fatigue (purdy.py:34-73, 121-140) -----

  /** Multiplying by a non-negative factor keeps the order. */
  lemma MulMono(x: real, a: real, b: real)
    requires x >= 0.0 && a <= b
    ensures x * a <= x * b
  {
  }

  /** A breakpoint's standard time at MaxPace covers its distance. */
  lemma SlowestPaceCovers(d: real, pace: real)
    requires d > 0.0 && 0.0 < pace <= MaxPace
    ensures d / pace > 0.0 && d <= d / pace * MaxPace
  {
    var t := d / pace;
    assert t * pace == d;
    MulMono(t, pace, MaxPace);
  }

  /** Interpolating linearly between two standard times that each cover their
      distance at MaxPace gives a positive time that covers the distance between. */
  lemma InterpolationBound(tl: real, tu: real, dl: real, du: real, dist: real)
    requires 0.0 < dl < dist <= du && tl > 0.0 && tu > 0.0
    requires dl <= tl * MaxPace && du <= tu * MaxPace
    ensures var st := tl + (tu - tl) * (dist - dl) / (du - dl);
      st > 0.0 && dist <= st * MaxPace
  {
    var lambda := (dist - dl) / (du - dl);
    assert lambda * (du - dl) == dist - dl;
    assert 0.0 < lambda <= 1.0;
    assert (tu - tl) * (dist - dl) / (du - dl) == (tu - tl) * lambda;
    var mu := 1.0 - lambda;
    assert dist == mu * dl + lambda * du;
    assert tl + (tu - tl) * lambda == mu * tl + lambda * tu;
    MulMono(mu, dl, tl * MaxPace);
    MulMono(lambda, du, tu * MaxPace);
    assert (mu * tl + lambda * tu) * MaxPace == mu * (tl * MaxPace) + lambda * (tu * MaxPace);
  }

  /** `standard_time`: linear interpolation between the standard times
      `d / pace` of the two breakpoints; positive, and never faster than MaxPace. */
  function StandardTime(seg: Segment, dist: real): (st: real)
    requires Brackets(seg, dist)
    ensures st > 0.0 && dist <= st * MaxPace
  {
    var timeLower := seg.dLower / seg.paceLower;
    var timeUpper := seg.dUpper / seg.paceUpper;
    SlowestPaceCovers(seg.dLower, seg.paceLower);
    SlowestPaceCovers(seg.dUpper, seg.paceUpper);
    InterpolationBound(timeLower, timeUpper, seg.dLower, seg.dUpper, dist);
    timeLower + (timeUpper - timeLower) * (dist - seg.dLower) / (seg.dUpper - seg.dLower)
  }

  /** A positive quotient bounded through its product. */
  lemma QuotientBound(x: real, y: real, c: real)
    requires y > 0.0 && 0.0 < x <= y * c
    ensures 0.0 < x / y <= c
  {
    var q := x / y;
    assert q * y == x;
  }

  /** `avg_velocity`: the distance over the standard time, at most MaxPace. */
  function Velocity(seg: Segment, dist: real): (v: real)
    requires Brackets(seg, dist)
    ensures 0.0 < v <= MaxPace
  {
    var st := StandardTime(seg, dist);
    QuotientBound(dist, st, MaxPace);
    dist / st
  }

  /** `partial_lap_m`: the leftover metres of a partial lap mapped onto 0..200. */
  function PartialLap(leftover: real): (p: real)
    requires leftover >= 0.0
    ensures 0.0 <= p <= 200.0 && p <= leftover
  {
    if leftover <= 50.0 then 0.0
    else if leftover <= 150.0 then leftover - 50.0
    else if leftover <= 250.0 then 100.0
    else if leftover <= 350.0 then 100.0 + (leftover - 250.0)
    else 200.0
  }

  /** `distance // 400` counts whole laps and leaves less than one lap over. */
  lemma FloorLaps(distance: real)
    requires distance >= 0.0
    ensures var n := (distance / 400.0).Floor;
      n >= 0 && 0.0 <= distance - n as real * 400.0 < 400.0
  {
    var q := distance / 400.0;
    var n := q.Floor;
    assert n as real <= q < n as real + 1.0;
    assert q * 400.0 == distance;
  }

  /** `_fractional_lap_factor` (and the identical `_lap_fraction_factor` nested in
      `convert`): 0 below 110 m, otherwise 200 m per whole 400 m lap plus the
      partial lap, over the distance; always a fraction in [0, 1]. */
  function LapFactor(distance: real): (f: real)
    ensures 0.0 <= f <= 1.0
    ensures distance < 110.0 ==> f == 0.0
  {
    if distance < 110.0 then 0.0
    else
      FloorLaps(distance);
      var fullLaps := (distance / 400.0).Floor;
      var leftover := distance - fullLaps as real * 400.0;
      var scaled := fullLaps as real * 200.0 + PartialLap(leftover);
      assert 0.0 <= scaled <= distance;
      QuotientBound(scaled, distance, 1.0);
      scaled / distance
  }

  /** `adjusted_time`: the standard time plus the three fatigue terms; positive. */
  function AdjustedTime(seg: Segment, dist: real): (adj: real)
    requires Brackets(seg, dist)
    ensures adj > 0.0
  {
    var st := StandardTime(seg, dist);
    var v := Velocity(seg, dist);
    var lap := LapFactor(dist);
    var square := v * v;
    assert square >= 0.0;
    MulMono(lap, 0.0, square);
    st + FatigueC1 + FatigueC2 * v + FatigueC3 * (lap * square)
  }

  /** `k_factor`; positive because the velocity never exceeds MaxPace. */
  function KFactor(seg: Segment, dist: real): (k: real)
    requires Brackets(seg, dist)
    ensures k > 0.0
  {
    0.0654 - 0.00258 * Velocity(seg, dist)
  }

  /** `a_factor`. */
  function AFactor(seg: Segment, dist: real): (a: real)
    requires Brackets(seg, dist)
    ensures a > 0.0
  {
    85.0 / KFactor(seg, dist)
  }

  /** `b_parameter`. */
  function BParameter(seg: Segment, dist: real): real
    requires Brackets(seg, dist)
  {
    1.0 - 950.0 / AFactor(seg, dist)
  }

  /** The three quantities the points formula needs at one distance:
      `adjusted_time`, `a_factor` and `b_parameter`. */
  datatype Factors = Factors(adjusted: real, a: real, b: real)

  /** The formula can be evaluated and inverted. */
  predicate Usable(f: Factors)
  {
    f.adjusted > 0.0 && f.a > 0.0
  }

  /** The factors of a segment at a distance it brackets. */
  function FactorsFor(seg: Segment, dist: real): (f: Factors)
    requires Brackets(seg, dist)
    ensures Usable(f)
  {
    Factors(AdjustedTime(seg, dist), AFactor(seg, dist), BParameter(seg, dist))
  }

  /** `purdy_points` for a performance of `time` seconds. */
  function Points(f: Factors, time: real): real
    requires Usable(f) && time != 0.0
  {
    f.a * (f.adjusted / time - f.b)
  }

  /** The denominator `score / a_factor + b_parameter` of the inversion in `convert`. */
  function Denominator(f: Factors, score: real): real
    requires Usable(f)
  {
    score / f.a + f.b
  }

  /** The time that earns `score`. */
  function TimeFor(f: Factors, score: real): real
    requires Usable(f) && Denominator(f, score) != 0.0
  {
    f.adjusted / Denominator(f, score)
  }

  // ----- purdy_score and convert as functions of their arguments ----------------------

  /** The message Python raises when a float is divided by zero. */
  const DivisionByZero: string := "float division by zero"

  /** `purdy_score(dist, time)` over a table `t`. At or below the first
      breakpoint the scan stops at index 0, the lower bracket wraps round to the
      sentinel pair and its pace 0.0 is divided by; beyond the last breakpoint the
      score is 0.0; inside the table a zero time is divided by. */
  function ScoreOn(t: seq<real>, dist: real, time: real): Result<real>
    requires WellFormed(t)
  {
    if dist <= t[0] then Err(DivisionByZero)
    else if dist > t[|t| - 4] then Ok(0.0)
    else if time == 0.0 then Err(DivisionByZero)
    else Ok(Points(FactorsFor(SegmentFor(t, dist), dist), time))
  }

  /** `convert(dist, score)` over a table `t`, once the score is known: the time
      over `dist` that earns `score`, 0.0 beyond the table, and an error where
      Python divides by zero. */
  function ConvertOn(t: seq<real>, dist: real, score: real): Result<real>
    requires WellFormed(t)
  {
    if dist <= t[0] then Err(DivisionByZero)
    else if dist > t[|t| - 4] then Ok(0.0)
    else
      var f := FactorsFor(SegmentFor(t, dist), dist);
      if Denominator(f, score) == 0.0 then Err(DivisionByZero)
      else Ok(TimeFor(f, score))
  }

  /** The factors at a distance the table covers. */
  function FactorsOn(t: seq<real>, dist: real): (f: Factors)
    requires Covers(t, dist)
    ensures Usable(f)
  {
    FactorsFor(SegmentFor(t, dist), dist)
  }

  // ----- the Purdy object and its two methods ----------------------------------------

  /** A `Purdy(dist, time)` instance: a performance of `time` seconds over `dist` metres. */
  datatype Performance = Performance(dist: real, time: real)

  /** Python treats both an omitted score and 0 as false. */
  predicate IsFalsy(score: Option<real>)
  {
    score == None || score == Some(0.0)
  }

  /** What `convert` does over a table `t`: a falsy score is replaced by the
      instance's own points (whose error, if any, propagates), then the time for
      that score is found. */
  function ConvertFor(t: seq<real>, p: Performance, dist: real, score: Option<real>): Result<real>
    requires WellFormed(t)
  {
    if IsFalsy(score) then
      match ScoreOn(t, p.dist, p.time)
      case Err(e) => Err(e)
      case Ok(s) => ConvertOn(t, dist, s)
    else ConvertOn(t, dist, score.value)
  }

  /** `purdy_score(dist=None, time=None)` on an instance whose class attribute
      `pace_table` is `t`: an omitted argument is the instance's own. */
  method PurdyScore(t: seq<real>, p: Performance, dist: Option<real>, time: Option<real>)
    returns (points: Result<real>)
    requires WellFormed(t)
    ensures points == ScoreOn(t, if dist.Some? then dist.value else p.dist, if time.Some? then time.value else p.time)
  {
    var d := if dist.Some? then dist.value else p.dist;
    var seconds := if time.Some? then time.value else p.time;
    var idx := FindBracket(t, d);
    if t[idx] < 0.0 {
      BracketFromStart(t, d);
      return Ok(0.0);
    }
    if idx == 0 {
      // The lower bracket wraps round to the sentinel pair, whose pace is 0.0.
      return Err(DivisionByZero);
    }
    assert 0.0 < t[0] < d;
    BracketFromStart(t, d);
    if seconds == 0.0 {
      return Err(DivisionByZero);
    }
    points := Ok(Points(FactorsFor(SegmentAt(t, idx), d), seconds));
  }

  /** `convert(dist, score=None)` on an instance whose `pace_table` is `t`. */
  method Convert(t: seq<real>, p: Performance, dist: real, score: Option<real>) returns (time: Result<real>)
    requires WellFormed(t)
    ensures time == ConvertFor(t, p, dist, score)
  {
    var s: real;
    if IsFalsy(score) {
      var own := PurdyScore(t, p, None, None);
      if own.Err? {
        return Err(own.error);
      }
      s := own.value;
    } else {
      s := score.value;
    }
    var idx := FindBracket(t, dist);
    if t[idx] <= 0.0 {
      BracketFromStart(t, dist);
      return Ok(0.0);
    }
    if idx == 0 {
      return Err(DivisionByZero);
    }
    assert 0.0 < t[0] < dist;
    BracketFromStart(t, dist);
    var f := FactorsFor(SegmentAt(t, idx), dist);
    if Denominator(f, s) == 0.0 {
      return Err(DivisionByZero);
    }
    time := Ok(TimeFor(f, s));
  }

  // ----- properties ----------------------------------------------------------------------

  /** Over `pace_table`, `purdy_score` fails exactly where Python divides by zero:
      at 40 m or below, or for a zero time up to 100 km; beyond 100 km it is 0.0. */
  lemma ScoreDomain(dist: real, time: real)
    ensures WellFormed(PaceTable)
    ensures ScoreOn(PaceTable, dist, time).Err? <==> dist <= 40.0 || (dist <= 100000.0 && time == 0.0)
    ensures dist > 100000.0 ==> ScoreOn(PaceTable, dist, time) == Ok(0.0)
    ensures Covers(PaceTable, dist) <==> 40.0 < dist <= 100000.0
  {
    TableShape();
  }

  /** Over `pace_table`, `convert` with a known score fails exactly at 40 m or below,
      or where the inversion denominator vanishes; beyond 100 km it is 0.0. */
  lemma ConvertDomain(dist: real, score: real)
    ensures WellFormed(PaceTable)
    ensures ConvertOn(PaceTable, dist, score).Err? <==>
      (dist <= 40.0 || (dist <= 100000.0 && Denominator(FactorsOn(PaceTable, dist), score) == 0.0))
    ensures dist > 100000.0 ==> ConvertOn(PaceTable, dist, score) == Ok(0.0)
  {
    TableShape();
  }

  /** The scan stops at a breakpoint's own index when given its distance exactly. */
  lemma BracketOfBreakpoint(t: seq<real>, j: nat)
    requires WellFormed(t) && j % 2 == 0 && 2 <= j < |t| - 2
    ensures Covers(t, t[j])
    ensures SegmentFor(t, t[j]) == SegmentAt(t, j)
  {
    var d := t[j];
    Increasing(t, 0, j);
    if j < |t| - 4 {
      Increasing(t, j, |t| - 4);
    }
    var b := Bracket(t, d);
    BracketFromStart(t, d);
    if b < j {
      Increasing(t, b, j);
    }
  }

  /** At the upper end of its segment the interpolated standard time is that
      breakpoint's own standard time `d / pace`. */
  lemma StandardTimeAtUpper(seg: Segment)
    requires Brackets(seg, seg.dUpper)
    ensures StandardTime(seg, seg.dUpper) == seg.dUpper / seg.paceUpper
  {
    var tl, tu := seg.dLower / seg.paceLower, seg.dUpper / seg.paceUpper;
    var span := seg.dUpper - seg.dLower;
    assert (tu - tl) * span / span == tu - tl;
  }

  /** Inside a table, the standard time at a breakpoint is `d / pace` of that breakpoint. */
  lemma StandardTimeAtBreakpoint(t: seq<real>, j: nat)
    requires WellFormed(t) && j % 2 == 0 && 2 <= j < |t| - 2
    ensures Covers(t, t[j])
    ensures StandardTime(SegmentFor(t, t[j]), t[j]) == t[j] / t[j + 1]
  {
    BracketOfBreakpoint(t, j);
    StandardTimeAtUpper(SegmentAt(t, j));
  }

  /** A faster time earns strictly more points. */
  lemma PointsDecreasing(f: Factors, t1: real, t2: real)
    requires Usable(f) && 0.0 < t1 < t2
    ensures Points(f, t1) > Points(f, t2)
  {
    var q1, q2 := f.adjusted / t1, f.adjusted / t2;
    assert q1 * t1 == f.adjusted && q2 * t2 == f.adjusted;
    MulMono(q2, t1, t2);
    assert q1 > q2;
    MulMono(f.a, q2 - f.b, q1 - f.b);
    assert f.a * (q1 - f.b) != f.a * (q2 - f.b);
  }

  /** Inverting the points of a time gives back that time. */
  lemma InvertPoints(f: Factors, time: real)
    requires Usable(f) && time != 0.0
    ensures Denominator(f, Points(f, time)) == f.adjusted / time != 0.0
    ensures TimeFor(f, Points(f, time)) == time
  {
    assert (f.a * (f.adjusted / time - f.b)) / f.a == f.adjusted / time - f.b;
  }

  /** Scoring the inverted time gives back the score. */
  lemma PointsOfInverse(f: Factors, score: real)
    requires Usable(f) && Denominator(f, score) != 0.0
    ensures TimeFor(f, score) != 0.0
    ensures Points(f, TimeFor(f, score)) == score
  {
    var den := Denominator(f, score);
    var t := f.adjusted / den;
    assert t * den == f.adjusted;
    assert f.adjusted / t == den;
  }

  /** Over the same distance a faster performance scores strictly higher. */
  lemma FasterScoresHigher(t: seq<real>, dist: real, t1: real, t2: real)
    requires Covers(t, dist) && 0.0 < t1 < t2
    ensures ScoreOn(t, dist, t1).Ok? && ScoreOn(t, dist, t2).Ok?
    ensures ScoreOn(t, dist, t1).value > ScoreOn(t, dist, t2).value
  {
    PointsDecreasing(FactorsOn(t, dist), t1, t2);
  }

  /** Converting the score of a performance back at the same distance returns its time. */
  lemma ConvertInvertsScore(t: seq<real>, dist: real, time: real)
    requires Covers(t, dist) && time != 0.0
    ensures ScoreOn(t, dist, time).Ok?
    ensures ConvertOn(t, dist, ScoreOn(t, dist, time).value) == Ok(time)
  {
    InvertPoints(FactorsOn(t, dist), time);
  }

  /** Scoring the time that `convert` finds gives back the score. */
  lemma ScoreInvertsConvert(t: seq<real>, dist: real, score: real)
    requires Covers(t, dist) && ConvertOn(t, dist, score).Ok?
    ensures ScoreOn(t, dist, ConvertOn(t, dist, score).value) == Ok(score)
  {
    PointsOfInverse(FactorsOn(t, dist), score);
  }

  /** `convert` at the instance's own distance with no score gives the instance's own time. */
  lemma SelfConversion(t: seq<real>, p: Performance)
    requires Covers(t, p.dist) && p.time != 0.0
    ensures ConvertFor(t, p, p.dist, None) == Ok(p.time)
  {
    ConvertInvertsScore(t, p.dist, p.time);
  }

  /** Converting a performance to another distance and back returns the original
      time: both times carry the same score. */
  lemma ConvertThereAndBack(t: seq<real>, p: Performance, d2: real)
    requires Covers(t, p.dist) && Covers(t, d2) && p.time != 0.0
    requires ConvertFor(t, p, d2, None).Ok?
    ensures var t2 := ConvertFor(t, p, d2, None).value;
      ScoreOn(t, d2, t2) == ScoreOn(t, p.dist, p.time) &&
      ConvertFor(t, Performance(d2, t2), p.dist, None) == Ok(p.time)
  {
    ConvertInvertsScore(t, p.dist, p.time);
    ScoreInvertsConvert(t, d2, ScoreOn(t, p.dist, p.time).value);
  }
}
