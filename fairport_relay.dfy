/**
 * The best-first relay search of fairport_run/relays.py: a priority queue of index
 * tuples ordered by total time, expanded one coordinate at a time, emitting each
 * popped tuple whose legs name distinct athletes, until `number` relays are found
 * or the queue is empty.
 */
module FairportRelay {
  import opened TimeFormat
  import opened Candidates
  import opened SearchTheory

  /** A heap entry `(total, idx)`. */
  datatype Entry = Entry(total: nat, idx: Tuple)

  // ----- the result the search promises -----------------------------------------------

  /** The tuples behind the results: admissible, distinct, and in non-decreasing
      order of total time. */
  ghost predicate Emitted(events: seq<EventName>, legs: seq<seq<Mark>>, emitted: seq<Tuple>)
  {
    |events| == |legs| &&
    (forall k :: 0 <= k < |emitted| ==> Admissible(events, legs, emitted[k])) &&
    (forall k, l :: 0 <= k < l < |emitted| ==> emitted[k] != emitted[l]) &&
    (forall k, l :: 0 <= k < l < |emitted| ==> TotalTime(legs, emitted[k]) <= TotalTime(legs, emitted[l]))
  }

  /** The results the tuples are rendered as, in order. */
  function Render(events: seq<EventName>, legs: seq<seq<Mark>>, emitted: seq<Tuple>): (r: seq<RelayResult>)
    requires |events| == |legs| && forall k :: 0 <= k < |emitted| ==> InBounds(legs, emitted[k])
    ensures |r| == |emitted|
  {
    if |emitted| == 0 then []
    else Render(events, legs, emitted[..|emitted| - 1]) + [ResultOf(events, legs, emitted[|emitted| - 1])]
  }

  lemma {:induction false} RenderAt(events: seq<EventName>, legs: seq<seq<Mark>>, emitted: seq<Tuple>, k: nat)
    requires |events| == |legs| && forall i :: 0 <= i < |emitted| ==> InBounds(legs, emitted[i])
    requires k < |emitted|
    ensures Render(events, legs, emitted)[k] == ResultOf(events, legs, emitted[k])
  {
    if k < |emitted| - 1 {
      RenderAt(events, legs, emitted[..|emitted| - 1], k);
    }
  }

  /** `results` are `min(number, #admissible)` admissible relays, fastest first, and
      no admissible relay left out is faster than any relay in `results`. */
  ghost predicate BestWith(events: seq<EventName>, legs: seq<seq<Mark>>, number: int,
                           results: seq<RelayResult>, emitted: seq<Tuple>)
  {
    Emitted(events, legs, emitted) && results == Render(events, legs, emitted) &&
    |results| <= (if number > 0 then number else 0) &&
    (forall u :: Admissible(events, legs, u) && u !in emitted ==>
       |results| >= number && forall k :: 0 <= k < |emitted| ==> TotalTime(legs, emitted[k]) <= TotalTime(legs, u))
  }

  ghost predicate BestRelays(events: seq<EventName>, legs: seq<seq<Mark>>, number: int, results: seq<RelayResult>)
  {
    exists emitted :: BestWith(events, legs, number, results, emitted)
  }

  /** When the count failsafe's condition holds, the search's answer is empty anyway. */
  lemma FailsafeRedundant(events: seq<EventName>, legs: seq<seq<Mark>>, number: int,
                          results: seq<RelayResult>, i: nat)
    requires SharedLists(events, legs) && i < |events|
    requires |legs[i]| < multiset(events)[events[i]]
    requires BestRelays(events, legs, number, results)
    ensures results == []
  {
    var emitted :| BestWith(events, legs, number, results, emitted);
    if |results| > 0 {
      NoTeamWhenShort(events, legs, i, emitted[0]);
    }
  }

  /** A relay of no legs: the empty tuple is the one team there is, so the
      search returns a single result with no legs and the time "0:00". */
  lemma NoLegsOneResult(number: int, results: seq<RelayResult>)
    requires number >= 1 && BestRelays([], [], number, results)
    ensures results == [RelayResult("0:00", [])]
  {
    var emitted :| BestWith([], [], number, results, emitted);
    var none: Tuple := [];
    assert Admissible([], [], none);
    forall k | 0 <= k < |emitted|
      ensures emitted[k] == none
    {
      assert InBounds([], emitted[k]);
    }
    Shown(emitted);
    SubsetSize(set k | 0 <= k < |emitted| :: emitted[k], {none});
    assert none !in emitted ==> |results| >= number;
    assert |emitted| == 1 ==> emitted[0] in emitted;
    assert emitted == [none];
    RenderAt([], [], emitted, 0);
  }

  /** With at least `number` admissible relays the search returns exactly `number`. */
  lemma EnoughTeams(events: seq<EventName>, legs: seq<seq<Mark>>, number: int,
                    results: seq<RelayResult>, teams: set<Tuple>)
    requires BestRelays(events, legs, number, results)
    requires forall u :: u in teams ==> Admissible(events, legs, u)
    requires |teams| >= number
    ensures |results| == (if number > 0 then number else 0)
  {
    var emitted :| BestWith(events, legs, number, results, emitted);
    if |results| < number {
      var shown := set k | 0 <= k < |emitted| :: emitted[k];
      Shown(emitted);
      assert teams <= shown by {
        forall u | u in teams
          ensures u in shown
        {
          assert Admissible(events, legs, u);
        }
      }
      SubsetSize(teams, shown);
    }
  }

  lemma SubsetSize(a: set<Tuple>, b: set<Tuple>)
    requires a <= b
    ensures |a| <= |b|
  {
    assert b == a + (b - a);
  }

  /** A sequence has at most as many members as entries, and exactly as many
      when its entries are pairwise different. */
  lemma {:induction false} Shown(emitted: seq<Tuple>)
    ensures |set k | 0 <= k < |emitted| :: emitted[k]| <= |emitted|
    ensures (forall k, l :: 0 <= k < l < |emitted| ==> emitted[k] != emitted[l]) ==>
      |set k | 0 <= k < |emitted| :: emitted[k]| == |emitted|
  {
    if |emitted| > 0 {
      var n := |emitted| - 1;
      Shown(emitted[..n]);
      var before := set k | 0 <= k < n :: emitted[..n][k];
      assert (set k | 0 <= k < |emitted| :: emitted[k]) == before + {emitted[n]};
      assert (forall k, l :: 0 <= k < l < |emitted| ==> emitted[k] != emitted[l]) ==> emitted[n] !in before;
    }
  }

  // ----- the search state ----------------------------------------------------------------

  ghost function HeapTuples(heap: seq<Entry>): set<Tuple>
  {
    set k | 0 <= k < |heap| :: heap[k].idx
  }

  /** Every entry holds an acceptable tuple and its true total, and no tuple twice. */
  ghost predicate HeapOk(events: seq<EventName>, legs: seq<seq<Mark>>, heap: seq<Entry>)
  {
    (forall k :: 0 <= k < |heap| ==>
       InBounds(legs, heap[k].idx) && EventOrdered(events, heap[k].idx) &&
       heap[k].total == TotalTime(legs, heap[k].idx)) &&
    (forall k, l :: 0 <= k < l < |heap| ==> heap[k].idx != heap[l].idx)
  }

  /** No tuple in the heap has been popped. */
  ghost predicate Unpopped(heap: seq<Entry>, popped: set<Tuple>)
  {
    forall k :: 0 <= k < |heap| ==> heap[k].idx !in popped
  }

  /** Every tuple popped so far is no slower than any acceptable tuple not yet popped. */
  ghost predicate PoppedFirst(events: seq<EventName>, legs: seq<seq<Mark>>, popped: set<Tuple>)
  {
    forall p, u :: (p in popped && InBounds(legs, p) && InBounds(legs, u) &&
                    EventOrdered(events, u) && u !in popped) ==>
      TotalTime(legs, p) <= TotalTime(legs, u)
  }

  /** The emitted tuples are exactly the admissible popped ones. */
  ghost predicate Recorded(events: seq<EventName>, legs: seq<seq<Mark>>, popped: set<Tuple>, emitted: seq<Tuple>)
  {
    (forall k :: 0 <= k < |emitted| ==> emitted[k] in popped) &&
    (forall p :: p in popped && Admissible(events, legs, p) ==> p in emitted)
  }

  /** The loop invariant apart from the closure of the frontier. */
  ghost predicate Core(events: seq<EventName>, legs: seq<seq<Mark>>, heap: seq<Entry>, visited: set<Tuple>,
                       popped: set<Tuple>, emitted: seq<Tuple>)
  {
    HeapOk(events, legs, heap) && Unpopped(heap, popped) && visited == popped + HeapTuples(heap) &&
    PoppedFirst(events, legs, popped) && Emitted(events, legs, emitted) && Recorded(events, legs, popped, emitted)
  }

  /** The frontier while the successors of the tuple `m` just popped are pushed:
      closed for every other popped tuple, and for `m` in the coordinates below `dd`. */
  ghost predicate Partial(events: seq<EventName>, legs: seq<seq<Mark>>, popped: set<Tuple>,
                          visited: set<Tuple>, m: Tuple, dd: nat)
  {
    Zeros(|legs|) in visited &&
    (forall p :: p in popped ==> InBounds(legs, p) && EventOrdered(events, p)) &&
    (forall p, d ::
       (p in popped && 0 <= d < |legs| && (p != m || d < dd) && InBounds(legs, Successor(p, d)) &&
        EventOrdered(events, Successor(p, d))) ==> Successor(p, d) in visited)
  }

  // ----- steps of the search ---------------------------------------------------------------

  /** The state before the first pop (fairport_run/relays.py:59-65). */
  lemma Start(events: seq<EventName>, legs: seq<seq<Mark>>)
    requires |events| == |legs| && forall i :: 0 <= i < |legs| ==> |legs[i]| > 0
    ensures InBounds(legs, Zeros(|legs|))
    ensures var heap := [Entry(TotalTime(legs, Zeros(|legs|)), Zeros(|legs|))];
      Core(events, legs, heap, {Zeros(|legs|)}, {}, []) &&
      Frontier(events, legs, {}, HeapTuples(heap))
  {
    var z := Zeros(|legs|);
    var heap := [Entry(TotalTime(legs, z), z)];
    assert EventOrdered(events, z);
    assert HeapTuples(heap) == {z} by {
      assert heap[0].idx == z;
    }
  }

  lemma HeapRemove(heap: seq<Entry>, k: nat, rest: seq<Entry>)
    requires k < |heap| && forall i, j :: 0 <= i < j < |heap| ==> heap[i].idx != heap[j].idx
    requires rest == heap[..k] + heap[k + 1..]
    ensures HeapTuples(rest) == HeapTuples(heap) - {heap[k].idx}
  {
    forall x | x in HeapTuples(heap) - {heap[k].idx}
      ensures x in HeapTuples(rest)
    {
      var i :| 0 <= i < |heap| && heap[i].idx == x;
      if i < k {
        assert rest[i] == heap[i];
      } else {
        assert rest[i - 1] == heap[i];
      }
    }
    forall x | x in HeapTuples(rest)
      ensures x in HeapTuples(heap) - {heap[k].idx}
    {
      var i :| 0 <= i < |rest| && rest[i].idx == x;
      if i < k {
        assert rest[i] == heap[i];
      } else {
        assert rest[i] == heap[i + 1];
      }
    }
  }

  lemma HeapPush(heap: seq<Entry>, e: Entry)
    ensures HeapTuples(heap + [e]) == HeapTuples(heap) + {e.idx}
  {
    var h := heap + [e];
    assert h[|heap|] == e;
    forall x | x in HeapTuples(heap)
      ensures x in HeapTuples(h)
    {
      var i :| 0 <= i < |heap| && heap[i].idx == x;
      assert h[i] == heap[i];
    }
  }

  /** Removing an entry leaves a heap of the same kind, holding the visited tuples
      that are not popped once the entry's tuple counts as popped. */
  lemma PopHeap(events: seq<EventName>, legs: seq<seq<Mark>>, heap: seq<Entry>, visited: set<Tuple>,
                popped: set<Tuple>, k: nat, rest: seq<Entry>, popped': set<Tuple>)
    requires HeapOk(events, legs, heap) && Unpopped(heap, popped) && visited == popped + HeapTuples(heap)
    requires k < |heap| && rest == heap[..k] + heap[k + 1..] && popped' == popped + {heap[k].idx}
    ensures HeapOk(events, legs, rest) && Unpopped(rest, popped') && visited == popped' + HeapTuples(rest)
  {
    HeapRemove(heap, k, rest);
    assert forall i :: 0 <= i < |rest| ==> rest[i] == heap[if i < k then i else i + 1];
    forall j | 0 <= j < |rest|
      ensures rest[j].idx != heap[k].idx
    {
      if j < k {
        assert rest[j] == heap[j];
      } else {
        assert rest[j] == heap[j + 1];
      }
    }
  }

  /** Popping a minimal entry keeps the popped tuples ahead of the rest. */
  lemma PopKeepsOrder(events: seq<EventName>, legs: seq<seq<Mark>>, heap: seq<Entry>,
                      popped: set<Tuple>, k: nat, popped': set<Tuple>)
    requires |events| == |legs| && SortedLegs(legs)
    requires Frontier(events, legs, popped, HeapTuples(heap)) && HeapOk(events, legs, heap)
    requires PoppedFirst(events, legs, popped)
    requires k < |heap| && forall j :: 0 <= j < |heap| ==> heap[k].total <= heap[j].total
    requires popped' == popped + {heap[k].idx}
    ensures PoppedFirst(events, legs, popped')
  {
    var m := heap[k].idx;
    forall p, u | (p in popped' && InBounds(legs, p) && InBounds(legs, u) &&
                   EventOrdered(events, u) && u !in popped')
      ensures TotalTime(legs, p) <= TotalTime(legs, u)
    {
      if p == m {
        Cover(events, legs, popped, HeapTuples(heap), u);
        var h :| h in HeapTuples(heap) && Leq(h, u);
        var j :| 0 <= j < |heap| && heap[j].idx == h;
        TotalMonotone(legs, h, u);
      }
    }
  }

  /** Recording the popped tuple `m` when its athletes are distinct. */
  lemma PopRecord(events: seq<EventName>, legs: seq<seq<Mark>>, popped: set<Tuple>, emitted: seq<Tuple>,
                  m: Tuple, popped': set<Tuple>, emitted': seq<Tuple>)
    requires Emitted(events, legs, emitted) && PoppedFirst(events, legs, popped)
    requires Recorded(events, legs, popped, emitted)
    requires InBounds(legs, m) && EventOrdered(events, m) && m !in popped
    requires popped' == popped + {m}
    requires emitted' == if HasDistinctAthletes(legs, m) then emitted + [m] else emitted
    ensures Emitted(events, legs, emitted') && Recorded(events, legs, popped', emitted')
  {
    if HasDistinctAthletes(legs, m) {
      forall i | 0 <= i < |emitted|
        ensures TotalTime(legs, emitted[i]) <= TotalTime(legs, m) && emitted[i] != m
      {
        assert emitted[i] in popped;
      }
      EmittedAppend(events, legs, emitted, m);
    }
  }

  lemma EmittedAppend(events: seq<EventName>, legs: seq<seq<Mark>>, emitted: seq<Tuple>, m: Tuple)
    requires Emitted(events, legs, emitted) && Admissible(events, legs, m)
    requires forall i :: 0 <= i < |emitted| ==> TotalTime(legs, emitted[i]) <= TotalTime(legs, m) && emitted[i] != m
    ensures Emitted(events, legs, emitted + [m])
  {
    AppendOrdered(legs, emitted, m);
    AppendDistinct(emitted, m);
  }

  lemma RenderAppend(events: seq<EventName>, legs: seq<seq<Mark>>, emitted: seq<Tuple>, m: Tuple)
    requires |events| == |legs| && forall k :: 0 <= k < |emitted| ==> InBounds(legs, emitted[k])
    requires InBounds(legs, m)
    ensures Render(events, legs, emitted + [m]) == Render(events, legs, emitted) + [ResultOf(events, legs, m)]
  {
    assert (emitted + [m])[..|emitted|] == emitted;
  }

  lemma AppendOrdered(legs: seq<seq<Mark>>, emitted: seq<Tuple>, m: Tuple)
    requires InBounds(legs, m) && forall k :: 0 <= k < |emitted| ==> InBounds(legs, emitted[k])
    requires forall k, l :: 0 <= k < l < |emitted| ==> TotalTime(legs, emitted[k]) <= TotalTime(legs, emitted[l])
    requires forall i :: 0 <= i < |emitted| ==> TotalTime(legs, emitted[i]) <= TotalTime(legs, m)
    ensures forall k, l :: 0 <= k < l < |emitted + [m]| ==>
      TotalTime(legs, (emitted + [m])[k]) <= TotalTime(legs, (emitted + [m])[l])
  {
  }

  lemma AppendDistinct(emitted: seq<Tuple>, m: Tuple)
    requires forall k, l :: 0 <= k < l < |emitted| ==> emitted[k] != emitted[l]
    requires forall i :: 0 <= i < |emitted| ==> emitted[i] != m
    ensures forall k, l :: 0 <= k < l < |emitted + [m]| ==> (emitted + [m])[k] != (emitted + [m])[l]
  {
  }

  /** Right after a pop, the frontier is closed for every popped tuple but the new one. */
  lemma PopFrontier(events: seq<EventName>, legs: seq<seq<Mark>>, heap: seq<Entry>, visited: set<Tuple>,
                    popped: set<Tuple>, m: Tuple, popped': set<Tuple>)
    requires Frontier(events, legs, popped, HeapTuples(heap)) && visited == popped + HeapTuples(heap)
    requires InBounds(legs, m) && EventOrdered(events, m) && popped' == popped + {m}
    ensures Partial(events, legs, popped', visited, m, 0)
  {
  }

  /** Popping `heap[k]` and recording it when its athletes are distinct
      (fairport_run/relays.py:67-78). */
  lemma PopStep(events: seq<EventName>, legs: seq<seq<Mark>>, heap: seq<Entry>, visited: set<Tuple>,
                popped: set<Tuple>, emitted: seq<Tuple>, k: nat,
                rest: seq<Entry>, popped': set<Tuple>, emitted': seq<Tuple>)
    requires |events| == |legs| && SortedLegs(legs)
    requires Core(events, legs, heap, visited, popped, emitted)
    requires Frontier(events, legs, popped, HeapTuples(heap))
    requires k < |heap| && forall j :: 0 <= j < |heap| ==> heap[k].total <= heap[j].total
    requires rest == heap[..k] + heap[k + 1..] && popped' == popped + {heap[k].idx}
    requires emitted' == if HasDistinctAthletes(legs, heap[k].idx) then emitted + [heap[k].idx] else emitted
    ensures InBounds(legs, heap[k].idx) && EventOrdered(events, heap[k].idx)
    ensures heap[k].total == TotalTime(legs, heap[k].idx)
    ensures Core(events, legs, rest, visited, popped', emitted')
    ensures Partial(events, legs, popped', visited, heap[k].idx, 0)
    ensures heap[k].idx in AllTuples(legs) && heap[k].idx !in popped
  {
    var m := heap[k].idx;
    PopHeap(events, legs, heap, visited, popped, k, rest, popped');
    InAllTuples(legs, m);
    PopKeepsOrder(events, legs, heap, popped, k, popped');
    PopRecord(events, legs, popped, emitted, m, popped', emitted');
    PopFrontier(events, legs, heap, visited, popped, m, popped');
  }

  /** Pushing an unvisited acceptable tuple keeps the heap invariant. */
  lemma PushHeap(events: seq<EventName>, legs: seq<seq<Mark>>, heap: seq<Entry>, visited: set<Tuple>,
                 popped: set<Tuple>, e: Entry)
    requires HeapOk(events, legs, heap) && Unpopped(heap, popped) && visited == popped + HeapTuples(heap)
    requires InBounds(legs, e.idx) && EventOrdered(events, e.idx) && e.total == TotalTime(legs, e.idx)
    requires e.idx !in visited
    ensures var heap' := heap + [e];
      HeapOk(events, legs, heap') && Unpopped(heap', popped) && visited + {e.idx} == popped + HeapTuples(heap')
  {
    var heap' := heap + [e];
    HeapPush(heap, e);
    assert heap'[|heap|] == e;
    assert forall i :: 0 <= i < |heap| ==> heap'[i] == heap[i];
    forall i | 0 <= i < |heap|
      ensures heap'[i].idx != e.idx
    {
      assert heap[i].idx in HeapTuples(heap);
    }
  }

  /** The successor of `m` in coordinate `d` is pushed (fairport_run/relays.py:86-92). */
  lemma PushStep(events: seq<EventName>, legs: seq<seq<Mark>>, heap: seq<Entry>, visited: set<Tuple>,
                 popped: set<Tuple>, emitted: seq<Tuple>, m: Tuple, d: nat, e: Entry)
    requires |events| == |legs| && SortedLegs(legs)
    requires Core(events, legs, heap, visited, popped, emitted)
    requires Partial(events, legs, popped, visited, m, d) && m in popped && d < |legs|
    requires InBounds(legs, m) && m[d] + 1 < |legs[d]|
    requires e.idx == Successor(m, d) && InBounds(legs, e.idx) && e.total == TotalTime(legs, e.idx)
    requires e.idx !in visited && IsSortedForDuplicates(events, e.idx, d)
    ensures Core(events, legs, heap + [e], visited + {e.idx}, popped, emitted)
    ensures Partial(events, legs, popped, visited + {e.idx}, m, d + 1)
  {
    SortedForDuplicatesIff(events, m, d);
    PushHeap(events, legs, heap, visited, popped, e);
  }

  /** The total pushed with a successor is its true total (fairport_run/relays.py:90). */
  lemma PushTotal(legs: seq<seq<Mark>>, m: Tuple, d: nat, total: int)
    requires SortedLegs(legs) && InBounds(legs, m) && d < |m| && m[d] + 1 < |legs[d]|
    requires total == TotalTime(legs, m)
    ensures InBounds(legs, Successor(m, d))
    ensures total - legs[d][m[d]].time + legs[d][m[d] + 1].time == TotalTime(legs, Successor(m, d))
  {
    SuccessorTotal(legs, m, d);
  }

  /** A successor that is out of range, already visited or out of order is skipped. */
  lemma SkipStep(events: seq<EventName>, legs: seq<seq<Mark>>, popped: set<Tuple>, visited: set<Tuple>,
                 m: Tuple, d: nat)
    requires Partial(events, legs, popped, visited, m, d) && m in popped && d < |legs|
    requires InBounds(legs, m)
    requires m[d] + 1 >= |legs[d]| || Successor(m, d) in visited ||
             !IsSortedForDuplicates(events, Successor(m, d), d)
    ensures Partial(events, legs, popped, visited, m, d + 1)
  {
    SortedForDuplicatesIff(events, m, d);
  }

  lemma PartialDone(events: seq<EventName>, legs: seq<seq<Mark>>, heap: seq<Entry>, visited: set<Tuple>,
                    popped: set<Tuple>, m: Tuple)
    requires Partial(events, legs, popped, visited, m, |legs|) && visited == popped + HeapTuples(heap)
    ensures Frontier(events, legs, popped, HeapTuples(heap))
  {
  }

  lemma Shrinks(all: set<Tuple>, popped: set<Tuple>, m: Tuple)
    requires m in all && m !in popped
    ensures |all - (popped + {m})| < |all - popped|
  {
    assert all - popped == (all - (popped + {m})) + {m};
  }

  /** The loop has ended: the invariant gives the promised answer. */
  lemma Done(events: seq<EventName>, legs: seq<seq<Mark>>, number: int, heap: seq<Entry>,
             visited: set<Tuple>, popped: set<Tuple>, results: seq<RelayResult>, emitted: seq<Tuple>)
    requires |events| == |legs|
    requires Core(events, legs, heap, visited, popped, emitted)
    requires Frontier(events, legs, popped, HeapTuples(heap))
    requires results == Render(events, legs, emitted)
    requires |results| <= (if number > 0 then number else 0)
    requires |heap| == 0 || |results| >= number
    ensures BestWith(events, legs, number, results, emitted)
  {
    forall u | Admissible(events, legs, u) && u !in emitted
      ensures |results| >= number
      ensures forall k :: 0 <= k < |emitted| ==> TotalTime(legs, emitted[k]) <= TotalTime(legs, u)
    {
      if |heap| == 0 {
        assert HeapTuples(heap) == {};
        Cover(events, legs, popped, HeapTuples(heap), u);
        assert false;
      }
    }
  }

  // ----- the search --------------------------------------------------------------------------

  /** `heapq.heappop`'s choice: the first entry of least total. */
  method IndexOfMin(heap: seq<Entry>) returns (k: nat)
    requires |heap| > 0
    ensures k < |heap| && forall j :: 0 <= j < |heap| ==> heap[k].total <= heap[j].total
  {
    k := 0;
    var j := 1;
    while j < |heap|
      invariant k < j <= |heap|
      invariant forall i :: 0 <= i < j ==> heap[k].total <= heap[i].total
    {
      if heap[j].total < heap[k].total {
        k := j;
      }
      j := j + 1;
    }
  }

  /** One pass of the loop over the legs (fairport_run/relays.py:80-92): the
      successor along leg `d` is pushed if it exists, has not been seen and keeps
      the same-event rule. */
  method PushSuccessor(events: seq<EventName>, legs: seq<seq<Mark>>, heap: seq<Entry>, visited: set<Tuple>,
                       ghost popped: set<Tuple>, ghost emitted: seq<Tuple>, idx: Tuple, total: nat, d: nat)
    returns (heap': seq<Entry>, visited': set<Tuple>)
    requires |events| == |legs| && SortedLegs(legs) && d < |legs|
    requires Core(events, legs, heap, visited, popped, emitted)
    requires Partial(events, legs, popped, visited, idx, d)
    requires idx in popped && InBounds(legs, idx) && total == TotalTime(legs, idx)
    ensures Core(events, legs, heap', visited', popped, emitted)
    ensures Partial(events, legs, popped, visited', idx, d + 1)
  {
    var i2 := idx[d] + 1;
    if i2 < |legs[d]| && Successor(idx, d) !in visited && IsSortedForDuplicates(events, Successor(idx, d), d) {
      heap', visited' := Push(events, legs, heap, visited, popped, emitted, idx, total, d);
    } else {
      SkipStep(events, legs, popped, visited, idx, d);
      heap', visited' := heap, visited;
    }
  }

  /** Lines 90-92: the successor on leg `d` is marked visited and pushed with its total. */
  method Push(events: seq<EventName>, legs: seq<seq<Mark>>, heap: seq<Entry>, visited: set<Tuple>,
              ghost popped: set<Tuple>, ghost emitted: seq<Tuple>, idx: Tuple, total: nat, d: nat)
    returns (heap': seq<Entry>, visited': set<Tuple>)
    requires |events| == |legs| && SortedLegs(legs) && d < |legs|
    requires Core(events, legs, heap, visited, popped, emitted)
    requires Partial(events, legs, popped, visited, idx, d)
    requires idx in popped && InBounds(legs, idx) && total == TotalTime(legs, idx)
    requires idx[d] + 1 < |legs[d]| && Successor(idx, d) !in visited
    requires IsSortedForDuplicates(events, Successor(idx, d), d)
    ensures heap' == heap + [Entry(TotalTime(legs, Successor(idx, d)), Successor(idx, d))]
    ensures visited' == visited + {Successor(idx, d)}
    ensures Core(events, legs, heap', visited', popped, emitted)
    ensures Partial(events, legs, popped, visited', idx, d + 1)
  {
    var i2 := idx[d] + 1;
    var newIdx := Successor(idx, d);
    var newTotal := total - legs[d][idx[d]].time + legs[d][i2].time;
    PushTotal(legs, idx, d, total);
    var e := Entry(newTotal, newIdx);
    PushStep(events, legs, heap, visited, popped, emitted, idx, d, e);
    visited' := visited + {newIdx};
    heap' := heap + [e];
  }

  /** The successors of the popped tuple `idx`, one coordinate at a time
      (fairport_run/relays.py:80-92): each one that is in range, unvisited and in
      same-event order is marked visited and pushed with its total. */
  method Expand(events: seq<EventName>, legs: seq<seq<Mark>>, heap: seq<Entry>, visited: set<Tuple>,
                ghost popped: set<Tuple>, ghost emitted: seq<Tuple>, idx: Tuple, total: nat)
    returns (heap': seq<Entry>, visited': set<Tuple>)
    requires |events| == |legs| && SortedLegs(legs)
    requires Core(events, legs, heap, visited, popped, emitted)
    requires Partial(events, legs, popped, visited, idx, 0)
    requires idx in popped && InBounds(legs, idx) && total == TotalTime(legs, idx)
    ensures Core(events, legs, heap', visited', popped, emitted)
    ensures Frontier(events, legs, popped, HeapTuples(heap'))
  {
    heap', visited' := heap, visited;
    var d := 0;
    while d < |legs|
      invariant d <= |legs|
      invariant Core(events, legs, heap', visited', popped, emitted)
      invariant Partial(events, legs, popped, visited', idx, d)
    {
      heap', visited' := PushSuccessor(events, legs, heap', visited', popped, emitted, idx, total, d);
      d := d + 1;
    }
    PartialDone(events, legs, heap', visited', popped, idx);
  }

  /** The search of `generate_relays` (fairport_run/relays.py:59-92) over the
      candidate lists `legs` of the legs `events`. */
  method Search(events: seq<EventName>, legs: seq<seq<Mark>>, number: int) returns (results: seq<RelayResult>)
    requires |events| == |legs| && SortedLegs(legs)
    requires forall i :: 0 <= i < |legs| ==> |legs[i]| > 0
    ensures BestRelays(events, legs, number, results)
  {
    var n := |legs|;
    var start := Zeros(n);
    Start(events, legs);
    var visited: set<Tuple> := {start};
    var t0 := TotalTime(legs, start);
    var heap := [Entry(t0, start)];
    results := [];
    ghost var popped: set<Tuple> := {};
    ghost var emitted: seq<Tuple> := [];
    while |heap| > 0 && |results| < number
      invariant Core(events, legs, heap, visited, popped, emitted)
      invariant Frontier(events, legs, popped, HeapTuples(heap))
      invariant results == Render(events, legs, emitted)
      invariant |results| <= (if number > 0 then number else 0)
      decreases |AllTuples(legs) - popped|
    {
      var k := IndexOfMin(heap);
      var entry := heap[k];
      var idx := entry.idx;
      var rest := heap[..k] + heap[k + 1..];
      var distinct := HasDistinctAthletes(legs, idx);
      ghost var popped' := popped + {idx};
      ghost var emitted' := if distinct then emitted + [idx] else emitted;
      PopStep(events, legs, heap, visited, popped, emitted, k, rest, popped', emitted');
      Shrinks(AllTuples(legs), popped, idx);
      heap := rest;
      if distinct {
        RenderAppend(events, legs, emitted, idx);
        results := results + [ResultOf(events, legs, idx)];
      }
      popped, emitted := popped', emitted';
      heap, visited := Expand(events, legs, heap, visited, popped, emitted, idx, entry.total);
    }
    Done(events, legs, number, heap, visited, popped, results, emitted);
  }

  // ----- the relay object (fairport_run/relays.py:6-94) -------------------------------------

  class Relay {
    const athletes: seq<Athlete>
    const events: seq<EventName>
    /** `top_marks`: the candidate list of every distinct event, fastest first. */
    const topMarks: map<EventName, seq<Mark>>
    var relays: seq<RelayResult>

    ghost predicate Valid()
    {
      topMarks == TopMarks(athletes, EventSet(events))
    }

    /** `Relay(athletes, *events)` (fairport_run/relays.py:9-30). */
    constructor (athletes: seq<Athlete>, events: seq<EventName>)
      ensures this.athletes == athletes && this.events == events
      ensures Valid() && relays == []
    {
      this.athletes := athletes;
      this.events := events;
      var top := BuildTopMarks(athletes, EventSet(events));
      topMarks := top;
      relays := [];
    }

    /** `legs_lists`: leg `i` draws on the candidate list of `events[i]`. */
    function LegsLists(): (legs: seq<seq<Mark>>)
      requires Valid()
      ensures |legs| == |events| && forall i :: 0 <= i < |events| ==> legs[i] == topMarks[events[i]]
    {
      seq(|events|, i requires 0 <= i < |events| => topMarks[events[i]])
    }

    lemma LegsListsShape()
      requires Valid()
      ensures SortedLegs(LegsLists()) && SharedLists(events, LegsLists())
    {
      var legs := LegsLists();
      forall i | 0 <= i < |legs|
        ensures Ascending(legs[i])
      {
        assert events[i] in EventSet(events);
        assert legs[i] == CandidateList(athletes, events[i]);
      }
    }

    /** `generate_relays(number)` (fairport_run/relays.py:32-94). The failsafe
        assignments at lines 42 and 46 do not return; when a leg has no candidate
        at all, computing the start total raises IndexError (line 62), which is
        reported as `indexError` with `relays` left as the failsafe set it. */
    method GenerateRelays(number: int) returns (indexError: bool)
      requires Valid()
      modifies this
      ensures indexError <==> exists i :: 0 <= i < |events| && |topMarks[events[i]]| == 0
      ensures indexError ==> relays == []
      ensures !indexError ==> BestRelays(events, LegsLists(), number, relays)
      ensures (exists i :: 0 <= i < |events| && |topMarks[events[i]]| < multiset(events)[events[i]]) ==> relays == []
    {
      var legsLists := LegsLists();
      var short := AnyShort(events, topMarks);
      if short {
        relays := [];
      }
      if exists i :: 0 <= i < |legsLists| && |legsLists[i]| == 0 {
        relays := [];
        indexError := true;
        return;
      }
      LegsListsShape();
      var found := Search(events, legsLists, number);
      relays := found;
      indexError := false;
      if exists i :: 0 <= i < |events| && |topMarks[events[i]]| < multiset(events)[events[i]] {
        var i :| 0 <= i < |events| && |topMarks[events[i]]| < multiset(events)[events[i]];
        FailsafeRedundant(events, legsLists, number, relays, i);
      }
    }
  }

  /** The failsafe of fairport_run/relays.py:36-42: some event has fewer
      candidates than the relay has legs for it. */
  method AnyShort(events: seq<EventName>, topMarks: map<EventName, seq<Mark>>) returns (short: bool)
    requires EventSet(events) <= topMarks.Keys
    ensures short <==> exists i :: 0 <= i < |events| && |topMarks[events[i]]| < multiset(events)[events[i]]
  {
    var remaining := EventSet(events);
    short := false;
    while remaining != {}
      invariant remaining <= EventSet(events)
      invariant short <==> exists ev :: ev in EventSet(events) - remaining && |topMarks[ev]| < multiset(events)[ev]
      decreases |remaining|
    {
      var ev :| ev in remaining;
      if |topMarks[ev]| < multiset(events)[ev] {
        short := true;
      }
      remaining := remaining - {ev};
    }
  }
}
