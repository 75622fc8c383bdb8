/**
 * The per-event candidate lists both relay builders start from
 * (fairport_run/relays.py:19-30 and relays.py:22-32): for each distinct event,
 * a dict from time to athlete, filled athlete by athlete and then sorted by time.
 *
 * The roster is the athletes dict in its iteration order. Each athlete's
 * performances are already parsed into centiseconds, as `format_time` does to
 * every raw mark before it becomes a key.
 */
module Candidates {
  import opened TimeFormat

  type AthleteId = string
  type EventName = string

  /** One entry of the athletes dict: an id and the marks per event. */
  datatype Athlete = Athlete(id: AthleteId, performances: map<EventName, Centis>)

  /** One `(time, athlete_id)` item of a sorted `top_marks[event]` dict. */
  datatype Mark = Mark(time: Centis, athlete: AthleteId)

  /** The athletes dict has distinct keys. */
  predicate UniqueIds(roster: seq<Athlete>)
  {
    forall i, j :: 0 <= i < j < |roster| ==> roster[i].id != roster[j].id
  }

  /** Athlete `a` has a mark of exactly `time` in `ev`. */
  predicate HasTime(a: Athlete, ev: EventName, time: Centis)
  {
    ev in a.performances && a.performances[ev] == time
  }

  // ----- the marks dict (fairport_run/relays.py:22-27, relays.py:25-28) -------------

  /** The `marks` dict after the athletes of `roster` have been visited in order:
      each athlete with a mark in `ev` stores its id under its time, replacing
      whoever held that time before. */
  function Marks(roster: seq<Athlete>, ev: EventName): map<Centis, AthleteId>
  {
    if |roster| == 0 then map[]
    else
      var m := Marks(roster[..|roster| - 1], ev);
      var a := roster[|roster| - 1];
      if ev in a.performances then m[a.performances[ev] := a.id] else m
  }

  /** The inner loop over `athletes.items()`. */
  method CollectMarks(roster: seq<Athlete>, ev: EventName) returns (marks: map<Centis, AthleteId>)
    ensures marks == Marks(roster, ev)
  {
    marks := map[];
    for i := 0 to |roster|
      invariant marks == Marks(roster[..i], ev)
    {
      assert roster[..i + 1][..i] == roster[..i];
      var a := roster[i];
      if ev in a.performances {
        marks := marks[a.performances[ev] := a.id];
      }
    }
    assert roster[..|roster|] == roster;
  }

  /** A time is a key of the dict exactly when some athlete ran it. */
  lemma {:induction false} MarksKeys(roster: seq<Athlete>, ev: EventName, time: Centis)
    ensures time in Marks(roster, ev) <==> (exists k :: 0 <= k < |roster| && HasTime(roster[k], ev, time))
  {
    if |roster| > 0 {
      var init := roster[..|roster| - 1];
      MarksKeys(init, ev, time);
      if exists k :: 0 <= k < |init| && HasTime(init[k], ev, time) {
        var k :| 0 <= k < |init| && HasTime(init[k], ev, time);
        assert HasTime(roster[k], ev, time);
      }
      if exists k :: 0 <= k < |roster| && HasTime(roster[k], ev, time) {
        var k :| 0 <= k < |roster| && HasTime(roster[k], ev, time);
        if k < |init| {
          assert HasTime(init[k], ev, time);
        }
      }
    }
  }

  /** On a tied time the later athlete wins: the key holds the id of the last
      athlete in iteration order who ran that time. */
  lemma {:induction false} MarksLastWins(roster: seq<Athlete>, ev: EventName, time: Centis)
    requires time in Marks(roster, ev)
    ensures exists k :: (0 <= k < |roster| && HasTime(roster[k], ev, time) &&
      Marks(roster, ev)[time] == roster[k].id &&
      forall l :: k < l < |roster| ==> !HasTime(roster[l], ev, time))
  {
    var init := roster[..|roster| - 1];
    var last := |roster| - 1;
    if HasTime(roster[last], ev, time) {
      assert Marks(roster, ev)[time] == roster[last].id;
    } else {
      assert time in Marks(init, ev);
      MarksLastWins(init, ev, time);
      var k :| 0 <= k < |init| && HasTime(init[k], ev, time) &&
        Marks(init, ev)[time] == init[k].id &&
        forall l :: k < l < |init| ==> !HasTime(init[l], ev, time);
      assert roster[k] == init[k];
      forall l | k < l < |roster|
        ensures !HasTime(roster[l], ev, time)
      {
        if l < last {
          assert roster[l] == init[l];
        }
      }
    }
  }

  /** Every value stored in the dict is the id of an athlete holding that time. */
  lemma MarkOwner(roster: seq<Athlete>, ev: EventName, time: Centis)
    requires time in Marks(roster, ev)
    ensures exists k :: (0 <= k < |roster| && HasTime(roster[k], ev, time) &&
      Marks(roster, ev)[time] == roster[k].id)
  {
    MarksLastWins(roster, ev, time);
  }

  /** With distinct athlete ids, an athlete is stored under at most one time:
      each athlete has one mark per event. */
  lemma MarksInjective(roster: seq<Athlete>, ev: EventName, t1: Centis, t2: Centis)
    requires UniqueIds(roster)
    requires t1 in Marks(roster, ev) && t2 in Marks(roster, ev)
    requires Marks(roster, ev)[t1] == Marks(roster, ev)[t2]
    ensures t1 == t2
  {
    MarkOwner(roster, ev, t1);
    MarkOwner(roster, ev, t2);
    var k1 :| 0 <= k1 < |roster| && HasTime(roster[k1], ev, t1) && Marks(roster, ev)[t1] == roster[k1].id;
    var k2 :| 0 <= k2 < |roster| && HasTime(roster[k2], ev, t2) && Marks(roster, ev)[t2] == roster[k2].id;
  }

  // ----- sorting the dict (fairport_run/relays.py:29, relays.py:30) -----------------

  /** Strictly ascending times. */
  predicate Ascending(s: seq<Mark>)
  {
    forall i, j :: 0 <= i < j < |s| ==> s[i].time < s[j].time
  }

  /** `s` lists the items of `m` sorted by time: strictly ascending, every item is
      an item of `m`, and every key of `m` occurs. */
  predicate ListsMarks(s: seq<Mark>, m: map<Centis, AthleteId>)
  {
    Ascending(s) && ItemsOf(s, m) && ListedKeys(s, m)
  }

  /** Every entry of `s` is an item of `m`. */
  predicate ItemsOf(s: seq<Mark>, m: map<Centis, AthleteId>)
  {
    forall i :: 0 <= i < |s| ==> s[i].time in m && m[s[i].time] == s[i].athlete
  }

  /** Every key of `m` occurs in `s`. */
  predicate ListedKeys(s: seq<Mark>, m: map<Centis, AthleteId>)
  {
    forall time :: time in m ==> exists i :: 0 <= i < |s| && s[i].time == time
  }

  /** The least of a non-empty set of times. */
  lemma LeastKey(keys: set<Centis>) returns (t: Centis)
    requires keys != {}
    ensures t in keys && forall u :: u in keys ==> t <= u
    decreases |keys|
  {
    var x :| x in keys;
    var rest := keys - {x};
    t := x;
    if rest != {} {
      var r := LeastKey(rest);
      if r < x {
        t := r;
      }
    }
    forall u | u in keys
      ensures t <= u
    {
      assert u == x || u in rest;
    }
  }

  lemma MinExists(keys: set<Centis>)
    requires keys != {}
    ensures exists t :: t in keys && forall u :: u in keys ==> t <= u
  {
    var t := LeastKey(keys);
  }

  /** The smallest key of a non-empty dict. */
  function EarliestTime(m: map<Centis, AthleteId>): (t: Centis)
    requires m != map[]
    ensures t in m && forall u :: u in m ==> t <= u
  {
    assert m.Keys != {} by {
      var k :| k in m;
      assert k in m.Keys;
    }
    MinExists(m.Keys);
    var t :| t in m && forall u :: u in m ==> t <= u;
    t
  }

  lemma ConsAscending(head: Mark, tail: seq<Mark>)
    requires Ascending(tail)
    requires forall i :: 0 <= i < |tail| ==> head.time < tail[i].time
    ensures Ascending([head] + tail)
  {
    var s := [head] + tail;
    forall i, j | 0 <= i < j < |s|
      ensures s[i].time < s[j].time
    {
      assert s[j] == tail[j - 1];
      if i > 0 {
        assert s[i] == tail[i - 1];
      }
    }
  }

  lemma ConsItems(m: map<Centis, AthleteId>, t: Centis, tail: seq<Mark>)
    requires t in m && ItemsOf(tail, m - {t})
    ensures ItemsOf([Mark(t, m[t])] + tail, m)
  {
    var s := [Mark(t, m[t])] + tail;
    forall i | 0 <= i < |s|
      ensures s[i].time in m && m[s[i].time] == s[i].athlete
    {
      if i > 0 {
        assert s[i] == tail[i - 1];
      }
    }
  }

  lemma ConsKeys(m: map<Centis, AthleteId>, t: Centis, tail: seq<Mark>)
    requires t in m && ListedKeys(tail, m - {t})
    ensures ListedKeys([Mark(t, m[t])] + tail, m)
  {
    var s := [Mark(t, m[t])] + tail;
    forall time | time in m
      ensures exists i :: 0 <= i < |s| && s[i].time == time
    {
      if time == t {
        assert s[0].time == time;
      } else {
        assert time in m - {t};
        var i :| 0 <= i < |tail| && tail[i].time == time;
        assert s[i + 1].time == time;
      }
    }
  }

  /** Putting the smallest item in front of a listing of the rest lists the whole dict. */
  lemma ListingCons(m: map<Centis, AthleteId>, t: Centis, tail: seq<Mark>)
    requires t in m && (forall u :: u in m ==> t <= u)
    requires ListsMarks(tail, m - {t})
    ensures ListsMarks([Mark(t, m[t])] + tail, m)
  {
    forall i | 0 <= i < |tail|
      ensures t < tail[i].time
    {
      assert tail[i].time in m - {t};
    }
    ConsAscending(Mark(t, m[t]), tail);
    ConsItems(m, t, tail);
    ConsKeys(m, t, tail);
  }

  /** `dict(sorted(marks.items()))`, as the list of its items in order. */
  function SortedMarks(m: map<Centis, AthleteId>): seq<Mark>
    decreases |m.Keys|
  {
    if m == map[] then []
    else
      var t := EarliestTime(m);
      var rest := m - {t};
      assert rest.Keys == m.Keys - {t};
      [Mark(t, m[t])] + SortedMarks(rest)
  }

  /** The sorted items list the dict: strictly ascending times, each an item of
      the dict, every key present. */
  lemma {:induction false} SortedMarksLists(m: map<Centis, AthleteId>)
    ensures ListsMarks(SortedMarks(m), m)
    decreases |m.Keys|
  {
    if m != map[] {
      var t := EarliestTime(m);
      var rest := m - {t};
      assert rest.Keys == m.Keys - {t};
      SortedMarksLists(rest);
      ListingCons(m, t, SortedMarks(rest));
    }
  }

  /** Dropping the first item of a listing lists the dict without its smallest key. */
  lemma ListingTail(s: seq<Mark>, m: map<Centis, AthleteId>)
    requires ListsMarks(s, m) && |s| > 0
    ensures ListsMarks(s[1..], m - {s[0].time})
  {
    var rest := m - {s[0].time};
    forall i | 0 <= i < |s[1..]|
      ensures s[1..][i].time in rest && rest[s[1..][i].time] == s[1..][i].athlete
    {
      assert s[i + 1].time > s[0].time;
    }
    forall time | time in rest
      ensures exists i :: 0 <= i < |s[1..]| && s[1..][i].time == time
    {
      var i :| 0 <= i < |s| && s[i].time == time;
      assert s[1..][i - 1].time == time;
    }
  }

  /** A listing of a non-empty dict starts with its smallest key. */
  lemma ListingHead(s: seq<Mark>, m: map<Centis, AthleteId>)
    requires ListsMarks(s, m) && m != map[]
    ensures |s| > 0 && s[0] == Mark(EarliestTime(m), m[EarliestTime(m)])
  {
    var t := EarliestTime(m);
    var i :| 0 <= i < |s| && s[i].time == t;
    assert t <= s[0].time;
  }

  /** A dict has exactly one sorted listing, the one `SortedMarks` builds. */
  lemma {:induction false} ListingUnique(s: seq<Mark>, m: map<Centis, AthleteId>)
    requires ListsMarks(s, m)
    ensures s == SortedMarks(m)
    decreases |m.Keys|
  {
    if m != map[] {
      ListingHead(s, m);
      ListingTail(s, m);
      assert (m - {s[0].time}).Keys == m.Keys - {s[0].time};
      ListingUnique(s[1..], m - {s[0].time});
      JoinListing(s, m);
    }
  }

  /** A listing that starts with the smallest item and continues with the sorted
      rest is the sorted listing. */
  lemma JoinListing(s: seq<Mark>, m: map<Centis, AthleteId>)
    requires m != map[] && |s| > 0
    requires s[0] == Mark(EarliestTime(m), m[EarliestTime(m)])
    requires s[1..] == SortedMarks(m - {EarliestTime(m)})
    ensures s == SortedMarks(m)
  {
    assert s == [s[0]] + s[1..];
  }

  // ----- top_marks for a set of events ---------------------------------------------

  /** The candidate list of one event. */
  function CandidateList(roster: seq<Athlete>, ev: EventName): (s: seq<Mark>)
    ensures ListsMarks(s, Marks(roster, ev))
  {
    SortedMarksLists(Marks(roster, ev));
    SortedMarks(Marks(roster, ev))
  }

  /** `set(events)`: the distinct events of a relay. */
  function EventSet(events: seq<EventName>): (r: set<EventName>)
    ensures forall e :: e in r <==> e in events
  {
    set e | e in events
  }

  /** `top_marks`: one candidate list per distinct event. */
  function TopMarks(roster: seq<Athlete>, events: set<EventName>): (top: map<EventName, seq<Mark>>)
    ensures top.Keys == events
  {
    map ev | ev in events :: CandidateList(roster, ev)
  }

  /** The outer loop over the distinct events, as both constructors run it. */
  method BuildTopMarks(roster: seq<Athlete>, events: set<EventName>) returns (top: map<EventName, seq<Mark>>)
    ensures top == TopMarks(roster, events)
  {
    top := map[];
    var remaining := events;
    while remaining != {}
      invariant remaining <= events
      invariant top.Keys == events - remaining
      invariant forall ev :: ev in top ==> top[ev] == CandidateList(roster, ev)
      decreases |remaining|
    {
      var ev :| ev in remaining;
      var marks := CollectMarks(roster, ev);
      top := top[ev := SortedMarks(marks)];
      remaining := remaining - {ev};
    }
  }

  /** Each athlete appears at most once in a candidate list. */
  lemma CandidatesDistinct(roster: seq<Athlete>, ev: EventName, i: nat, j: nat)
    requires UniqueIds(roster)
    requires i < j < |CandidateList(roster, ev)|
    ensures CandidateList(roster, ev)[i].athlete != CandidateList(roster, ev)[j].athlete
  {
    var s := CandidateList(roster, ev);
    var m := Marks(roster, ev);
    if s[i].athlete == s[j].athlete {
      MarksInjective(roster, ev, s[i].time, s[j].time);
    }
  }

  /** The candidate list holds one entry per distinct time run in the event, each
      naming an athlete who ran it. */
  lemma CandidateEntries(roster: seq<Athlete>, ev: EventName, time: Centis)
    ensures (exists i :: 0 <= i < |CandidateList(roster, ev)| && CandidateList(roster, ev)[i].time == time)
      <==> (exists k :: 0 <= k < |roster| && HasTime(roster[k], ev, time))
  {
    var s := CandidateList(roster, ev);
    MarksKeys(roster, ev, time);
    if exists i :: 0 <= i < |s| && s[i].time == time {
      var i :| 0 <= i < |s| && s[i].time == time;
      assert time in Marks(roster, ev);
    }
  }
}
