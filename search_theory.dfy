/**
 * Index tuples of the best-first relay search (fairport_run/relays.py:32-94) and
 * the facts about them the search relies on: in-bounds and same-event ordered
 * tuples, their total time, distinct athletes, the successor step, and the
 * result a tuple is rendered as.
 *
 * `legs[i]` is the candidate list of leg `i` (`legs_lists[i]`), sorted by time.
 */
module SearchTheory {
  import opened Results
  import opened TimeFormat
  import opened Candidates

  /** An index tuple: position `i` picks entry `u[i]` of `legs[i]`. */
  type Tuple = seq<nat>

  /** One leg of a result: the event, the athlete and the athlete's time. */
  datatype Leg = Leg(event: EventName, athlete: AthleteId, time: Centis)

  /** One entry of `results`: the formatted total and the legs. */
  datatype RelayResult = RelayResult(time: string, legs: seq<Leg>)

  /** Every candidate list is strictly ascending by time. */
  predicate SortedLegs(legs: seq<seq<Mark>>)
  {
    forall i :: 0 <= i < |legs| ==> Ascending(legs[i])
  }

  predicate InBounds(legs: seq<seq<Mark>>, u: Tuple)
  {
    |u| == |legs| && forall i :: 0 <= i < |u| ==> u[i] < |legs[i]|
  }

  /** Legs of the same event take non-decreasing candidate indices in leg order. */
  predicate EventOrdered(events: seq<EventName>, u: Tuple)
  {
    |u| == |events| &&
    forall i, j :: 0 <= i < j < |u| && events[i] == events[j] ==> u[i] <= u[j]
  }

  /** `v <= u` in every coordinate. */
  predicate Leq(v: Tuple, u: Tuple)
  {
    |v| == |u| && forall i :: 0 <= i < |u| ==> v[i] <= u[i]
  }

  /** `(0,) * n`. */
  function Zeros(n: nat): (z: Tuple)
    ensures |z| == n && forall i :: 0 <= i < n ==> z[i] == 0
  {
    seq(n, _ => 0)
  }

  /** The tuple with coordinate `d` advanced by one (`new_idx[d] = i2`). */
  function Successor(u: Tuple, d: nat): (s: Tuple)
    requires d < |u|
    ensures |s| == |u| && s[d] == u[d] + 1 && forall i :: 0 <= i < |u| && i != d ==> s[i] == u[i]
  {
    u[d := u[d] + 1]
  }

  // ----- totals (fairport_run/relays.py:62, 90) --------------------------------------

  /** The sum of the times the tuple picks, added up leg by leg. */
  function TotalTime(legs: seq<seq<Mark>>, u: Tuple): nat
    requires InBounds(legs, u)
    decreases |u|
  {
    if |u| == 0 then 0
    else TotalTime(legs[..|u| - 1], u[..|u| - 1]) + legs[|u| - 1][u[|u| - 1]].time
  }

  /** Replacing pick `d` changes the total by exactly the difference of the two times,
      which is how `new_total` is computed from the popped total. */
  lemma {:induction false} TotalUpdate(legs: seq<seq<Mark>>, u: Tuple, d: nat, k: nat)
    requires InBounds(legs, u) && d < |u| && k < |legs[d]|
    ensures InBounds(legs, u[d := k])
    ensures TotalTime(legs, u[d := k]) == TotalTime(legs, u) - legs[d][u[d]].time + legs[d][k].time
    decreases |u|
  {
    var n := |u| - 1;
    var v := u[d := k];
    assert v[..n] == if d < n then u[..n][d := k] else u[..n];
    if d < n {
      TotalUpdate(legs[..n], u[..n], d, k);
    }
  }

  /** With ascending lists, picking later entries everywhere never lowers the total. */
  lemma {:induction false} TotalMonotone(legs: seq<seq<Mark>>, v: Tuple, u: Tuple)
    requires SortedLegs(legs) && InBounds(legs, v) && InBounds(legs, u) && Leq(v, u)
    ensures TotalTime(legs, v) <= TotalTime(legs, u)
    decreases |u|
  {
    if |u| > 0 {
      var n := |u| - 1;
      TotalMonotone(legs[..n], v[..n], u[..n]);
      if v[n] < u[n] {
        assert legs[n][v[n]].time < legs[n][u[n]].time;
      }
    }
  }

  /** A successor's total is at least the total it was computed from. */
  lemma SuccessorTotal(legs: seq<seq<Mark>>, u: Tuple, d: nat)
    requires SortedLegs(legs) && InBounds(legs, u) && d < |u| && u[d] + 1 < |legs[d]|
    ensures InBounds(legs, Successor(u, d))
    ensures TotalTime(legs, Successor(u, d)) ==
      TotalTime(legs, u) - legs[d][u[d]].time + legs[d][u[d] + 1].time
    ensures TotalTime(legs, u) <= TotalTime(legs, Successor(u, d))
  {
    TotalUpdate(legs, u, d, u[d] + 1);
    TotalMonotone(legs, u, Successor(u, d));
  }

  // ----- distinct athletes (fairport_run/relays.py:68-69) ----------------------------

  /** `athlete_ids`: the athlete each leg picks. */
  function AthleteIds(legs: seq<seq<Mark>>, u: Tuple): (ids: seq<AthleteId>)
    requires InBounds(legs, u)
    ensures |ids| == |u| && forall i :: 0 <= i < |u| ==> ids[i] == legs[i][u[i]].athlete
  {
    seq(|u|, i requires 0 <= i < |u| => legs[i][u[i]].athlete)
  }

  /** `set(ids)`, built element by element. */
  function SetOf(ids: seq<AthleteId>): set<AthleteId>
  {
    if |ids| == 0 then {} else SetOf(ids[..|ids| - 1]) + {ids[|ids| - 1]}
  }

  predicate PairwiseDistinct(ids: seq<AthleteId>)
  {
    forall i, j :: 0 <= i < j < |ids| ==> ids[i] != ids[j]
  }

  lemma {:induction false} SetOfMembers(ids: seq<AthleteId>, x: AthleteId)
    ensures x in SetOf(ids) <==> exists i :: 0 <= i < |ids| && ids[i] == x
  {
    if |ids| > 0 {
      var init := ids[..|ids| - 1];
      SetOfMembers(init, x);
      if exists i :: 0 <= i < |init| && init[i] == x {
        var i :| 0 <= i < |init| && init[i] == x;
        assert ids[i] == x;
      }
      if exists i :: 0 <= i < |ids| && ids[i] == x {
        var i :| 0 <= i < |ids| && ids[i] == x;
        if i < |init| {
          assert init[i] == x;
        }
      }
    }
  }

  /** `len(set(ids)) == len(ids)` exactly when no id repeats. */
  lemma {:induction false} SetOfSizeIff(ids: seq<AthleteId>)
    ensures |SetOf(ids)| <= |ids|
    ensures |SetOf(ids)| == |ids| <==> PairwiseDistinct(ids)
  {
    if |ids| > 0 {
      var n := |ids| - 1;
      var init := ids[..n];
      SetOfSizeIff(init);
      SetOfMembers(init, ids[n]);
      if ids[n] in SetOf(init) {
        var i :| 0 <= i < n && init[i] == ids[n];
        assert ids[i] == ids[n];
      } else {
        assert PairwiseDistinct(ids) <==> PairwiseDistinct(init) by {
          if PairwiseDistinct(init) {
            forall i, j | 0 <= i < j < |ids|
              ensures ids[i] != ids[j]
            {
              if j < n {
                assert ids[i] == init[i] && ids[j] == init[j];
              } else {
                assert ids[i] == init[i];
              }
            }
          }
          if PairwiseDistinct(ids) {
            forall i, j | 0 <= i < j < |init|
              ensures init[i] != init[j]
            {
              assert ids[i] == init[i] && ids[j] == init[j];
            }
          }
        }
      }
    }
  }

  /** The check at line 69: as many distinct ids as legs. */
  predicate HasDistinctAthletes(legs: seq<seq<Mark>>, u: Tuple)
    requires InBounds(legs, u)
  {
    |SetOf(AthleteIds(legs, u))| == |u|
  }

  /** A tuple the search may emit: in bounds, same-event ordered, distinct athletes. */
  predicate Admissible(events: seq<EventName>, legs: seq<seq<Mark>>, u: Tuple)
  {
    InBounds(legs, u) && EventOrdered(events, u) && HasDistinctAthletes(legs, u)
  }

  /** Admissible tuples are exactly those whose legs name pairwise different athletes. */
  lemma AdmissibleIff(events: seq<EventName>, legs: seq<seq<Mark>>, u: Tuple)
    requires InBounds(legs, u) && EventOrdered(events, u)
    ensures Admissible(events, legs, u) <==>
      forall i, j :: 0 <= i < j < |u| ==> legs[i][u[i]].athlete != legs[j][u[j]].athlete
  {
    var ids := AthleteIds(legs, u);
    SetOfSizeIff(ids);
    assert PairwiseDistinct(ids) <==>
      forall i, j :: 0 <= i < j < |u| ==> legs[i][u[i]].athlete != legs[j][u[j]].athlete;
  }

  // ----- the same-event rule (fairport_run/relays.py:48-57, 88) -----------------------

  /** `event_groups[ev]`: the legs of event `ev`, in order. */
  function Group(events: seq<EventName>, ev: EventName): (g: seq<nat>)
    ensures forall k :: 0 <= k < |g| ==> g[k] < |events|
    decreases |events|
  {
    if |events| == 0 then []
    else
      var n := |events| - 1;
      Group(events[..n], ev) + (if events[n] == ev then [n] else [])
  }

  lemma {:induction false} GroupEvent(events: seq<EventName>, ev: EventName)
    ensures forall k :: 0 <= k < |Group(events, ev)| ==> events[Group(events, ev)[k]] == ev
    decreases |events|
  {
    if |events| > 0 {
      var n := |events| - 1;
      GroupEvent(events[..n], ev);
      assert forall i :: 0 <= i < n ==> events[i] == events[..n][i];
    }
  }

  lemma {:induction false} GroupIncreasing(events: seq<EventName>, ev: EventName)
    ensures forall k, l :: 0 <= k < l < |Group(events, ev)| ==> Group(events, ev)[k] < Group(events, ev)[l]
    decreases |events|
  {
    if |events| > 0 {
      GroupIncreasing(events[..|events| - 1], ev);
    }
  }

  lemma {:induction false} GroupComplete(events: seq<EventName>, ev: EventName)
    ensures forall i :: 0 <= i < |events| && events[i] == ev ==> i in Group(events, ev)
    decreases |events|
  {
    if |events| > 0 {
      var n := |events| - 1;
      GroupComplete(events[..n], ev);
      assert forall i :: 0 <= i < n ==> events[i] == events[..n][i];
    }
  }

  lemma {:induction false} GroupCount(events: seq<EventName>, ev: EventName)
    ensures |Group(events, ev)| == multiset(events)[ev]
    decreases |events|
  {
    if |events| > 0 {
      var n := |events| - 1;
      GroupCount(events[..n], ev);
      assert events == events[..n] + [events[n]];
    }
  }

  /** A group lists, in increasing order, exactly the legs of its event, and has as
      many members as the event has occurrences. */
  lemma GroupFacts(events: seq<EventName>, ev: EventName)
    ensures forall k :: 0 <= k < |Group(events, ev)| ==> events[Group(events, ev)[k]] == ev
    ensures forall k, l :: 0 <= k < l < |Group(events, ev)| ==> Group(events, ev)[k] < Group(events, ev)[l]
    ensures forall i :: 0 <= i < |events| && events[i] == ev ==> i in Group(events, ev)
    ensures |Group(events, ev)| == multiset(events)[ev]
  {
    GroupEvent(events, ev);
    GroupIncreasing(events, ev);
    GroupComplete(events, ev);
    GroupCount(events, ev);
  }

  /** `is_sorted_for_duplicates(u, d)`: the values of `u` on the group of leg `d`
      are non-decreasing, checked pair by consecutive pair. */
  predicate IsSortedForDuplicates(events: seq<EventName>, u: Tuple, d: nat)
    requires |u| == |events| && d < |events|
  {
    var g := Group(events, events[d]);
    forall k :: 0 <= k < |g| - 1 ==> u[g[k]] <= u[g[k + 1]]
  }

  /** Consecutive non-decrease along a group gives non-decrease between any two members. */
  lemma {:induction false} GroupChain(events: seq<EventName>, u: Tuple, d: nat, a: nat, b: nat)
    requires |u| == |events| && d < |events| && IsSortedForDuplicates(events, u, d)
    requires a <= b < |Group(events, events[d])|
    ensures u[Group(events, events[d])[a]] <= u[Group(events, events[d])[b]]
    decreases b - a
  {
    if a < b {
      GroupChain(events, u, d, a + 1, b);
    }
  }

  /** Checking only the group of the advanced leg suffices: for a successor of an
      ordered tuple, the consecutive check on that group holds exactly when the whole
      successor is same-event ordered. */
  lemma SortedForDuplicatesIff(events: seq<EventName>, v: Tuple, d: nat)
    requires EventOrdered(events, v) && d < |v|
    ensures IsSortedForDuplicates(events, Successor(v, d), d) <==> EventOrdered(events, Successor(v, d))
  {
    var u := Successor(v, d);
    var g := Group(events, events[d]);
    GroupFacts(events, events[d]);
    if IsSortedForDuplicates(events, u, d) {
      forall i, j | 0 <= i < j < |u| && events[i] == events[j]
        ensures u[i] <= u[j]
      {
        if events[i] == events[d] {
          var a :| 0 <= a < |g| && g[a] == i;
          var b :| 0 <= b < |g| && g[b] == j;
          GroupChain(events, u, d, a, b);
        } else {
          assert i != d && j != d;
        }
      }
    }
  }

  // ----- the count failsafe (fairport_run/relays.py:36-42) ---------------------------

  /** Legs of the same event draw on the same candidate list. */
  predicate SharedLists(events: seq<EventName>, legs: seq<seq<Mark>>)
  {
    |events| == |legs| &&
    forall i, j :: 0 <= i < |legs| && 0 <= j < |legs| && events[i] == events[j] ==> legs[i] == legs[j]
  }

  /** In an admissible tuple the `k`-th leg of a group picks index `k` or later:
      the indices rise along the group and never repeat, as a repeat would put the
      same athlete on two legs. */
  lemma {:induction false} GroupRises(events: seq<EventName>, legs: seq<seq<Mark>>, u: Tuple, ev: EventName, k: nat)
    requires SharedLists(events, legs) && Admissible(events, legs, u)
    requires k < |Group(events, ev)|
    ensures u[Group(events, ev)[k]] >= k
  {
    if k > 0 {
      GroupRises(events, legs, u, ev, k - 1);
      var g := Group(events, ev);
      GroupFacts(events, ev);
      var i, j := g[k - 1], g[k];
      assert i < j && events[i] == events[j];
      AdmissibleIff(events, legs, u);
      assert legs[i] == legs[j];
      assert legs[i][u[i]].athlete != legs[j][u[j]].athlete;
    }
  }

  /** When an event occurs more often than its list has candidates, no tuple is
      admissible: the failsafe's "not enough unique athletes" is exact. */
  lemma NoTeamWhenShort(events: seq<EventName>, legs: seq<seq<Mark>>, i: nat, u: Tuple)
    requires SharedLists(events, legs) && i < |events|
    requires |legs[i]| < multiset(events)[events[i]]
    ensures !Admissible(events, legs, u)
  {
    if Admissible(events, legs, u) {
      var g := Group(events, events[i]);
      GroupFacts(events, events[i]);
      var last := |g| - 1;
      GroupRises(events, legs, u, events[i], last);
      assert false;
    }
  }

  // ----- the covering argument ---------------------------------------------------------

  /** How far `v` lies below `u`, summed over the coordinates. */
  function Gap(v: Tuple, u: Tuple): nat
    requires Leq(v, u)
    decreases |u|
  {
    if |u| == 0 then 0 else Gap(v[..|u| - 1], u[..|u| - 1]) + (u[|u| - 1] - v[|u| - 1])
  }

  lemma {:induction false} GapStep(v: Tuple, u: Tuple, d: nat)
    requires Leq(v, u) && d < |u| && v[d] < u[d]
    ensures Leq(Successor(v, d), u) && Gap(Successor(v, d), u) == Gap(v, u) - 1
    decreases |u|
  {
    var n := |u| - 1;
    var s := Successor(v, d);
    if d < n {
      assert s[..n] == Successor(v[..n], d);
      GapStep(v[..n], u[..n], d);
    } else {
      assert s[..n] == v[..n];
    }
  }

  /** The last coordinate where `v` is strictly below `u`, for distinct `v <= u`. */
  lemma LastBelow(v: Tuple, u: Tuple) returns (d: nat)
    requires Leq(v, u) && v != u
    ensures d < |u| && v[d] < u[d] && forall j :: d < j < |u| ==> v[j] == u[j]
  {
    var i :| 0 <= i < |u| && v[i] != u[i];
    d := i;
    while d + 1 < |u| && exists j :: d < j < |u| && v[j] != u[j]
      invariant d < |u| && v[d] < u[d]
      decreases |u| - d
    {
      var j :| d < j < |u| && v[j] != u[j];
      d := j;
    }
  }

  /** Advancing the last coordinate where an ordered tuple lies below an ordered
      target keeps it ordered, inside the target. */
  lemma StepToward(events: seq<EventName>, legs: seq<seq<Mark>>, v: Tuple, u: Tuple, d: nat)
    requires InBounds(legs, u) && EventOrdered(events, u) && EventOrdered(events, v) && Leq(v, u)
    requires d < |u| && v[d] < u[d] && forall j :: d < j < |u| ==> v[j] == u[j]
    ensures InBounds(legs, Successor(v, d)) && EventOrdered(events, Successor(v, d))
    ensures Leq(Successor(v, d), u) && Gap(Successor(v, d), u) < Gap(v, u)
  {
    var s := Successor(v, d);
    GapStep(v, u, d);
    forall i, j | 0 <= i < j < |s| && events[i] == events[j]
      ensures s[i] <= s[j]
    {
      if j == d {
        assert v[i] <= v[d];
      } else if i == d {
        assert u[d] <= u[j];
      }
    }
  }

  /** The search's frontier invariant: every visited tuple is popped or in the heap,
      the start is visited, and every successor of a popped tuple that the search
      would accept has been visited. */
  ghost predicate Frontier(events: seq<EventName>, legs: seq<seq<Mark>>, popped: set<Tuple>, pending: set<Tuple>)
  {
    Zeros(|legs|) in popped + pending &&
    (forall p :: p in popped ==> InBounds(legs, p) && EventOrdered(events, p)) &&
    (forall p, d ::
       (p in popped && 0 <= d < |legs| && InBounds(legs, Successor(p, d)) &&
        EventOrdered(events, Successor(p, d))) ==> Successor(p, d) in popped + pending)
  }

  lemma {:induction false} CoverFrom(events: seq<EventName>, legs: seq<seq<Mark>>,
                                     popped: set<Tuple>, pending: set<Tuple>, v: Tuple, u: Tuple)
    requires Frontier(events, legs, popped, pending)
    requires InBounds(legs, u) && EventOrdered(events, u) && u !in popped
    requires v in popped + pending && Leq(v, u) && EventOrdered(events, v)
    ensures exists h :: h in pending && Leq(h, u)
    decreases Gap(v, u)
  {
    if v !in pending {
      var d := LastBelow(v, u);
      StepToward(events, legs, v, u, d);
      CoverFrom(events, legs, popped, pending, Successor(v, d), u);
    }
  }

  /** Every ordered, in-bounds tuple not yet popped lies above some pending tuple. */
  lemma Cover(events: seq<EventName>, legs: seq<seq<Mark>>, popped: set<Tuple>, pending: set<Tuple>, u: Tuple)
    requires |events| == |legs| && Frontier(events, legs, popped, pending)
    requires InBounds(legs, u) && EventOrdered(events, u) && u !in popped
    ensures exists h :: h in pending && Leq(h, u)
  {
    var z := Zeros(|legs|);
    assert EventOrdered(events, z);
    CoverFrom(events, legs, popped, pending, z, u);
  }

  // ----- the tuple space -----------------------------------------------------------------

  /** All tuples with `u[i] < sizes[i]`. */
  ghost function Tuples(sizes: seq<nat>): set<Tuple>
    decreases |sizes|
  {
    if |sizes| == 0 then {[]}
    else
      var n := |sizes| - 1;
      set u, k | u in Tuples(sizes[..n]) && 0 <= k < sizes[n] :: u + [k]
  }

  function Sizes(legs: seq<seq<Mark>>): (sizes: seq<nat>)
    ensures |sizes| == |legs| && forall i :: 0 <= i < |legs| ==> sizes[i] == |legs[i]|
  {
    seq(|legs|, i requires 0 <= i < |legs| => |legs[i]|)
  }

  lemma {:induction false} InTuples(sizes: seq<nat>, u: Tuple)
    requires |u| == |sizes| && forall i :: 0 <= i < |u| ==> u[i] < sizes[i]
    ensures u in Tuples(sizes)
    decreases |u|
  {
    if |u| > 0 {
      var n := |u| - 1;
      InTuples(sizes[..n], u[..n]);
      assert u == u[..n] + [u[n]];
    }
  }

  /** The finitely many in-bounds tuples. */
  ghost function AllTuples(legs: seq<seq<Mark>>): set<Tuple>
  {
    Tuples(Sizes(legs))
  }

  lemma InAllTuples(legs: seq<seq<Mark>>, u: Tuple)
    requires InBounds(legs, u)
    ensures u in AllTuples(legs)
  {
    InTuples(Sizes(legs), u);
  }

  // ----- results (fairport_run/relays.py:70-78) ------------------------------------

  /** The legs of a result: leg `i` runs `events[i]` with the pick of `legs[i]`. */
  function LegsOf(events: seq<EventName>, legs: seq<seq<Mark>>, u: Tuple): (r: seq<Leg>)
    requires InBounds(legs, u) && |events| == |legs|
    ensures |r| == |u|
    ensures forall i :: 0 <= i < |u| ==>
      r[i] == Leg(events[i], legs[i][u[i]].athlete, legs[i][u[i]].time)
  {
    seq(|u|, i requires 0 <= i < |u| => Leg(events[i], legs[i][u[i]].athlete, legs[i][u[i]].time))
  }

  /** `format_time(round(total, 2))`. With no legs the total is the integer 0, which
      Python renders without a decimal part. */
  function TotalText(n: nat, total: Centis): string
  {
    if n == 0 then "0:00" else FormatTime(total)
  }

  /** The result a tuple is rendered as. */
  function ResultOf(events: seq<EventName>, legs: seq<seq<Mark>>, u: Tuple): RelayResult
    requires InBounds(legs, u) && |events| == |legs|
  {
    RelayResult(TotalText(|u|, TotalTime(legs, u)), LegsOf(events, legs, u))
  }

  /** The sum of the leg times of a result. */
  function LegsTotal(r: seq<Leg>): nat
  {
    if |r| == 0 then 0 else LegsTotal(r[..|r| - 1]) + r[|r| - 1].time
  }

  /** A result's time text parses back to the sum of its leg times, and its legs
      follow the event order. */
  lemma {:induction false} ResultTotal(events: seq<EventName>, legs: seq<seq<Mark>>, u: Tuple)
    requires InBounds(legs, u) && |events| == |legs|
    ensures ParseTime(ResultOf(events, legs, u).time) == Ok(LegsTotal(ResultOf(events, legs, u).legs))
    ensures forall i :: 0 <= i < |u| ==> ResultOf(events, legs, u).legs[i].event == events[i]
  {
    LegsTotalIsTotal(events, legs, u);
    if |u| == 0 {
      ZeroTextParses();
    } else {
      FormatThenParse(TotalTime(legs, u));
    }
  }

  lemma {:induction false} LegsTotalIsTotal(events: seq<EventName>, legs: seq<seq<Mark>>, u: Tuple)
    requires InBounds(legs, u) && |events| == |legs|
    ensures LegsTotal(LegsOf(events, legs, u)) == TotalTime(legs, u)
    decreases |u|
  {
    if |u| > 0 {
      var n := |u| - 1;
      LegsTotalIsTotal(events[..n], legs[..n], u[..n]);
      assert LegsOf(events, legs, u)[..n] == LegsOf(events[..n], legs[..n], u[..n]);
    }
  }

  /** With ascending lists, different tuples are rendered as different results. */
  lemma ResultInjective(events: seq<EventName>, legs: seq<seq<Mark>>, u: Tuple, v: Tuple)
    requires SortedLegs(legs) && |events| == |legs| && InBounds(legs, u) && InBounds(legs, v)
    requires ResultOf(events, legs, u) == ResultOf(events, legs, v)
    ensures u == v
  {
    forall i | 0 <= i < |u|
      ensures u[i] == v[i]
    {
      assert LegsOf(events, legs, u)[i] == LegsOf(events, legs, v)[i];
      assert legs[i][u[i]].time == legs[i][v[i]].time;
    }
  }
}
