/**
 * The older, single-event relay builder (relays.py).
 *
 * It builds the same per-event candidate lists as the best-first search, and
 * then, when the relay runs one event only, cuts the sorted list into
 * consecutive teams of four: the four fastest, the next four, and so on,
 * producing at most `number` teams. Relays over more than one distinct event
 * are not produced at all.
 */
module LegacyRelay {
  import opened TimeFormat
  import opened Candidates

  /** One `{'team': [...], 'time': ...}` dict. */
  datatype Team = Team(team: seq<AthleteId>, time: Centis)

  function Min(a: int, b: int): int { if a <= b then a else b }

  /** `math.comb(n, k)`, by Pascal's rule. */
  function Choose(n: nat, k: nat): nat
  {
    if k == 0 then 1
    else if n == 0 then 0
    else Choose(n - 1, k - 1) + Choose(n - 1, k)
  }

  lemma {:induction false} ChoosePositive(n: nat, k: nat)
    requires k <= n
    ensures Choose(n, k) >= 1
  {
    if k > 0 {
      ChoosePositive(n - 1, k - 1);
    }
  }

  lemma {:induction false} ChooseMoreThanN(n: nat, k: nat)
    requires k > n
    ensures Choose(n, k) == 0
  {
    if n > 0 {
      ChooseMoreThanN(n - 1, k - 1);
      ChooseMoreThanN(n - 1, k);
    }
  }

  /** There are at least as many 4-subsets of `n` athletes as disjoint teams of
      four, so `math.comb` never limits the number of teams. */
  lemma {:induction false} ChooseFourBound(n: nat)
    ensures n / 4 <= Choose(n, 4)
  {
    if n >= 4 {
      ChooseFourBound(n - 1);
      ChoosePositive(n - 1, 3);
    }
  }

  // ----- teams of four ----------------------------------------------------------

  /** `[athid for _, athid in team]`. */
  function Ids(s: seq<Mark>): (ids: seq<AthleteId>)
  {
    seq(|s|, k requires 0 <= k < |s| => s[k].athlete)
  }

  /** `sum(time for time, _ in team)`, exactly in hundredths. */
  function SumTimes(s: seq<Mark>): Centis
  {
    if |s| == 0 then 0 else SumTimes(s[..|s| - 1]) + s[|s| - 1].time
  }

  /** A run of four consecutive marks. */
  function TeamOf(s: seq<Mark>): Team
  {
    Team(Ids(s), SumTimes(s))
  }

  /** Team `j` is sorted positions `4j .. 4j+3`. */
  function Slice(times: seq<Mark>, j: nat): seq<Mark>
    requires 4 * j + 4 <= |times|
  {
    times[4 * j..4 * j + 4]
  }

  /** The first `k` teams, in order. */
  function Teams(times: seq<Mark>, k: nat): seq<Team>
    requires 4 * k <= |times|
  {
    if k == 0 then [] else Teams(times, k - 1) + [TeamOf(Slice(times, k - 1))]
  }

  /** How many teams the loop of relays.py:44-50 produces from `n` candidates:
      `min(comb(n, 4), number)` iterations, cut short by the first slice of
      fewer than four marks. */
  function TeamCount(n: nat, number: int): (k: nat)
    ensures 4 * k <= n
  {
    var possible := Min(Choose(n, 4), number);
    if possible <= 0 then 0 else Min(possible, n / 4)
  }

  /** `relays` after the single-event case. */
  function SingleEventTeams(times: seq<Mark>, number: int): seq<Team>
  {
    Teams(times, TeamCount(|times|, number))
  }

  // ----- what the teams are -------------------------------------------------------

  /** The count is `number` teams, or as many disjoint teams of four as there are
      candidates for, whichever is smaller; never more than `comb(n, 4)`. */
  lemma TeamCountIs(n: nat, number: int)
    ensures TeamCount(n, number) == (if number <= 0 then 0 else Min(number, n / 4))
    ensures TeamCount(n, number) <= Choose(n, 4)
    ensures number >= 0 ==> TeamCount(n, number) <= number
  {
    ChooseFourBound(n);
    if n < 4 {
      ChooseMoreThanN(n, 4);
    }
  }

  lemma {:induction false} TeamsAt(times: seq<Mark>, k: nat, j: nat)
    requires 4 * k <= |times| && j < k
    ensures |Teams(times, k)| == k
    ensures Teams(times, k)[j] == TeamOf(Slice(times, j))
  {
    TeamsLength(times, k - 1);
    if j < k - 1 {
      TeamsAt(times, k - 1, j);
    }
  }

  lemma {:induction false} TeamsLength(times: seq<Mark>, k: nat)
    requires 4 * k <= |times|
    ensures |Teams(times, k)| == k
  {
    if k > 0 {
      TeamsLength(times, k - 1);
    }
  }

  /** Team `j` names the athletes at sorted positions `4j .. 4j+3`, and its time
      is the sum of their four marks. */
  lemma TeamMembers(times: seq<Mark>, k: nat, j: nat)
    requires 4 * k <= |times| && j < k
    ensures |Teams(times, k)| == k
    ensures Teams(times, k)[j].team ==
      [times[4 * j].athlete, times[4 * j + 1].athlete, times[4 * j + 2].athlete, times[4 * j + 3].athlete]
    ensures Teams(times, k)[j].time ==
      times[4 * j].time + times[4 * j + 1].time + times[4 * j + 2].time + times[4 * j + 3].time
  {
    TeamsAt(times, k, j);
    var s := Slice(times, j);
    SumOfFour(s);
    assert Ids(s) == [s[0].athlete, s[1].athlete, s[2].athlete, s[3].athlete];
  }

  lemma SumOfFour(s: seq<Mark>)
    requires |s| == 4
    ensures SumTimes(s) == s[0].time + s[1].time + s[2].time + s[3].time
  {
    var s3 := s[..3];
    var s2 := s3[..2];
    var s1 := s2[..1];
    assert s1[..0] == [];
    assert SumTimes(s1) == s[0].time;
    assert SumTimes(s2) == s[0].time + s[1].time;
    assert SumTimes(s3) == s[0].time + s[1].time + s[2].time;
  }

  /** No athlete holds two places of a candidate list. */
  predicate DistinctAthletes(times: seq<Mark>)
  {
    forall a, b :: 0 <= a < b < |times| ==> times[a].athlete != times[b].athlete
  }

  /** With distinct athlete ids in the athletes dict, a candidate list names
      every athlete at most once. */
  lemma CandidateListDistinct(roster: seq<Athlete>, ev: EventName)
    requires UniqueIds(roster)
    ensures DistinctAthletes(CandidateList(roster, ev))
  {
    forall a, b | 0 <= a < b < |CandidateList(roster, ev)|
      ensures CandidateList(roster, ev)[a].athlete != CandidateList(roster, ev)[b].athlete
    {
      CandidatesDistinct(roster, ev, a, b);
    }
  }

  /** Teams cut from a list that names every athlete once share no athlete. */
  lemma TeamsDisjoint(times: seq<Mark>, k: nat, j1: nat, j2: nat, id: AthleteId)
    requires DistinctAthletes(times)
    requires 4 * k <= |times| && j1 < j2 < k
    ensures |Teams(times, k)| == k
    ensures !(id in Teams(times, k)[j1].team && id in Teams(times, k)[j2].team)
  {
    TeamMembers(times, k, j1);
    TeamMembers(times, k, j2);
  }

  /** The four athletes of such a team are distinct. */
  lemma TeamOfFour(times: seq<Mark>, k: nat, j: nat)
    requires DistinctAthletes(times)
    requires 4 * k <= |times| && j < k
    ensures |Teams(times, k)| == k
    ensures |Teams(times, k)[j].team| == 4
    ensures forall a, b :: 0 <= a < b < 4 ==> Teams(times, k)[j].team[a] != Teams(times, k)[j].team[b]
  {
    TeamMembers(times, k, j);
    var t := Teams(times, k)[j].team;
    forall a, b | 0 <= a < b < 4
      ensures t[a] != t[b]
    {
      assert t[a] == times[4 * j + a].athlete && t[b] == times[4 * j + b].athlete;
    }
  }

  /** Built from an ascending list, each team is strictly slower than the one
      before it. */
  lemma TeamsFaster(times: seq<Mark>, k: nat, j1: nat, j2: nat)
    requires Ascending(times)
    requires 4 * k <= |times| && j1 < j2 < k
    ensures |Teams(times, k)| == k
    ensures Teams(times, k)[j1].time < Teams(times, k)[j2].time
  {
    TeamMembers(times, k, j1);
    TeamMembers(times, k, j2);
    assert times[4 * j1].time < times[4 * j2].time;
    assert times[4 * j1 + 1].time < times[4 * j2 + 1].time;
    assert times[4 * j1 + 2].time < times[4 * j2 + 2].time;
    assert times[4 * j1 + 3].time < times[4 * j2 + 3].time;
  }

  // ----- the builder object (relays.py:6-58) ------------------------------------------

  class Relay {
    const athletes: seq<Athlete>
    const events: seq<EventName>
    /** `diff_events`. */
    const diffEvents: set<EventName>
    const topMarks: map<EventName, seq<Mark>>
    var relays: seq<Team>

    ghost predicate Valid()
    {
      diffEvents == EventSet(events) &&
      topMarks == TopMarks(athletes, diffEvents)
    }

    /** `Relay(athletes, *events)` (relays.py:10-32). */
    constructor (athletes: seq<Athlete>, events: seq<EventName>)
      ensures this.athletes == athletes && this.events == events
      ensures Valid() && relays == []
    {
      this.athletes := athletes;
      this.events := events;
      diffEvents := EventSet(events);
      var top := BuildTopMarks(athletes, EventSet(events));
      topMarks := top;
      relays := [];
    }

    /** Some distinct event has fewer than four candidates. */
    ghost predicate Short()
      requires Valid()
    {
      exists ev :: ev in diffEvents && |topMarks[ev]| < 4
    }

    /** `generate_relays(number)` (relays.py:34-58). */
    method GenerateRelays(number: int)
      requires Valid()
      modifies this
      ensures Short() ==> relays == []
      ensures |diffEvents| != 1 ==> relays == []
      ensures !Short() && |diffEvents| == 1 ==>
        forall ev :: ev in diffEvents ==> relays == SingleEventTeams(topMarks[ev], number)
    {
      relays := [];
      var enough := AllHaveFour(diffEvents, topMarks);
      if !enough {
        return;
      }
      if |diffEvents| == 1 {
        var ev :| ev in diffEvents;
        OnlyMember(diffEvents, ev);
        relays := CutTeams(topMarks[ev], number);
      }
    }
  }

  /** The check of relays.py:37-39: every distinct event has at least four marks. */
  method AllHaveFour(diffEvents: set<EventName>, topMarks: map<EventName, seq<Mark>>) returns (enough: bool)
    requires diffEvents <= topMarks.Keys
    ensures enough <==> forall ev :: ev in diffEvents ==> |topMarks[ev]| >= 4
  {
    var remaining := diffEvents;
    while remaining != {}
      invariant remaining <= diffEvents
      invariant forall ev :: ev in diffEvents - remaining ==> |topMarks[ev]| >= 4
      decreases |remaining|
    {
      var ev :| ev in remaining;
      if |topMarks[ev]| < 4 {
        return false;
      }
      remaining := remaining - {ev};
    }
    return true;
  }

  /** A set of one element holds nothing else. */
  lemma OnlyMember(s: set<EventName>, x: EventName)
    requires |s| == 1 && x in s
    ensures forall y :: y in s ==> y == x
  {
    assert s == (s - {x}) + {x};
    assert |s - {x}| == 0;
  }

  /** The loop of relays.py:44-55 over the candidate list of the one event. */
  method CutTeams(times: seq<Mark>, number: int) returns (teams: seq<Team>)
    ensures teams == SingleEventTeams(times, number)
  {
    var possible := Min(Choose(|times|, 4), number);
    teams := [];
    var i := 0;
    while i < possible
      invariant 0 <= i && 4 * i <= |times|
      invariant i <= possible || i == 0
      invariant teams == Teams(times, i)
      decreases possible - i
    {
      var team := times[4 * i..Min(4 * (i + 1), |times|)];
      if |team| < 4 {
        break;
      }
      assert team == Slice(times, i);
      teams := teams + [TeamOf(team)];
      i := i + 1;
    }
    assert i == TeamCount(|times|, number);
  }
}
