# Fairport relay builder and Purdy points, modelled in Dafny

This project models the computational core of the Fairport running-team tools:

- **Best-first relay search** (`fairport_run/relays.py`). A `Relay` is built from an athletes dict and a sequence of leg events (repeats allowed, e.g. 200m, 200m, 800m, 400m).
  - For each distinct event it builds a candidate list. For each distinct time anyone ran, it keeps the last athlete in roster order who ran that time, and the list is sorted fastest first.
  - `generate_relays(number)` then walks the space of candidate index tuples with a min-heap keyed on total time and a `visited` set.
  - A successor is pushed only when legs of the same event keep non-decreasing indices.
  - A popped tuple becomes a result only when its athletes are pairwise different. The search stops after `number` results or when the heap is empty.
- **Legacy relay builder** (`relays.py`). It builds the same candidate lists. For a single-event relay it cuts the sorted list into consecutive teams of four. Relays over several events produce nothing.
- **Purdy points** (`purdy.py`).
  - The standard time at a distance is interpolated linearly between the breakpoints of the pace table.
  - It is then corrected for fatigue and a partial-lap factor.
  - It is used both to score a performance and, inverted, to find the time that earns a given score over another distance.
- **Time strings and event names** (`performanceutils.py`): `format_time` in both directions, `compare_greater` and `event_to_dist`.
- **Settings defaulting** (`yendata.py`): the season and year the constructor picks when they are not given.

Times are whole hundredths of a second (`TimeFormat.Centis`), so the source's float sums of marks become exact natural-number sums. A time string may carry a sign ("-1:30.0" is -30 s), so parsing one yields an integer. Purdy arithmetic is over exact reals.

The best-first search is specified by `FairportRelay.BestRelays`. The result list renders a sequence of index tuples that:
- are all admissible: in bounds, keeping the same-event rule, and with pairwise different athletes;
- are pairwise distinct;
- come in non-decreasing total time;
- number at most `max(number, 0)`;
- leave no admissible tuple outside the list that is faster than one inside it, and leave none out at all unless `number` results were produced.

`FairportRelay.Search` is proved to meet this specification. The proof rests on two invariants:
- the heap holds correct totals of distinct unvisited tuples;
- every admissible tuple not yet popped is dominated, coordinate by coordinate, by one still on the heap (`SearchTheory.Cover`).

In three places the code does not do what its own comments and structure suggest. The model follows the code:
- **Failsafe checks.** The comments at `fairport_run/relays.py:36` and `:44` suggest an early exit. The two checks (`fairport_run/relays.py:36-46`) assign an empty result but do not return, and the search runs regardless. `FairportRelay.FailsafeRedundant` shows this is harmless for the count check: when an event has fewer candidates than legs, no admissible tuple exists, so the search finds nothing anyway.
- **Empty candidate list.** The check at `fairport_run/relays.py:44-46` reads as if an empty candidate list yields an empty result. Instead, computing the start total raises `IndexError` (`fairport_run/relays.py:62`). `FairportRelay.Relay.GenerateRelays` reports this case through its `indexError` result.
- **No legs.** Nothing in `generate_relays` rejects a relay of no legs. It yields one result, with time "0:00" and no legs, whenever `number >= 1` (`FairportRelay.NoLegsOneResult`).

## Model

| member | source | states |
|---|---|---|
| TimeFormat.FormatThenParse | performanceutils.py:2-14 | parsing the string `format_time` renders for a time gives that time back exactly |
| TimeFormat.FormatTime | performanceutils.py:14 | `format_time` of a float (an int argument would print without a fractional part; the only int in the core, the empty sum, is `SearchTheory.TotalText`'s "0:00"): the minutes, a ':', and the seconds rounded to hundredths, with a '0' prefixed below ten seconds. The rows for `TimeFormat.FormatFields` and `TimeFormat.FormatThenParse` state what the rendering is and that it parses back |
| TimeFormat.NatToDigits | performanceutils.py:14 | `str(n)` is a non-empty string of digits that starts with '0' only for 0, with one digit below 10 and two from 10 to 99 |
| TimeFormat.Split | performanceutils.py:9 | `str.split(sep)` always yields at least one field |
| TimeFormat.Unsigned | performanceutils.py:10-11 | a definition, spelled out in its contract: it drops the one leading '+' or '-' that `int` and `float` accept, and leaves any other field unchanged. `TimeFormat.ParseNegativeMinutes` carries the property of signed fields |
| TimeFormat.Signed | performanceutils.py:10-11 | a definition, spelled out in its contract: the value is negated exactly when the field starts with '-'. `TimeFormat.ParseNegativeMinutes` carries the property |
| TimeFormat.ParseMinutes | performanceutils.py:10 | `int(time[0])`: an optional sign followed by decimal digits gives their signed value; anything else is an error |
| TimeFormat.ParseSeconds | performanceutils.py:11 | `float(time[1])` in hundredths: an optional sign, then digits with at most one decimal point and at most two decimal places, give their signed value; anything else is an error |
| TimeFormat.ParseTime | performanceutils.py:8-12 | `format_time` of a string: the minutes field is parsed first, then a missing second field raises, then the seconds field is parsed; the result is minutes * 60 s plus the seconds. `TimeFormat.ParseFields`, `TimeFormat.ParseNegativeMinutes` and `TimeFormat.NoColon` state the cases |
| TimeFormat.NoColon | performanceutils.py:9-11 | a string without ':' fails with the `int` error when its minutes field does not parse, and otherwise with the index error of `time[1]` |
| TimeFormat.ParseNegativeMinutes | performanceutils.py:8-12 | a leading '-' negates the minutes only: `-m:sec` parses to -(m * 60 s) plus the seconds, so "-1:30.0" is -30 s |
| TimeFormat.FormatFields | performanceutils.py:14 | the rendering is `minutes:seconds`; minutes is the time div 60 s; the whole-seconds part always has two digits, zero-padded exactly when under 10 s; the seconds field parses to the time mod 60 s |
| TimeFormat.SecondsFieldParses | performanceutils.py:14 | the rendered seconds field contains no colon and parses back to its value |
| TimeFormat.ParseFields | performanceutils.py:8-12 | a string `m:sec` parses to minutes * 60 s plus the parsed seconds |
| TimeFormat.DigitsValueOfNat | performanceutils.py:10 | `int(str(n)) == n` for the minutes field |
| TimeFormat.SplitAt | performanceutils.py:9 | splitting at the first separator yields the part before it followed by the split of the rest |
| TimeFormat.SplitWithout | performanceutils.py:9 | a string without the separator splits into itself alone |
| TimeFormat.Normalise | performanceutils.py:22-26 | a number argument is kept and a string argument is parsed by `format_time` |
| TimeFormat.CompareGreater | performanceutils.py:16-29 | `time1 > time2` on the normalised arguments, with the error of the first argument that fails to parse. `TimeFormat.CompareGreaterAnyFormat` states the comparison |
| TimeFormat.CompareGreaterAnyFormat | performanceutils.py:16-29 | `compare_greater` answers `x > y` whether each argument is given as a number or as its formatted string |
| TimeFormat.EventToDist | performanceutils.py:31-43 | the loop collects the digits and dots of the name, and the result is the decimal they spell, or an error where `float` raises |
| TimeFormat.DistanceChars | performanceutils.py:38-41 | the characters of the name that are digits or '.', in order; `TimeFormat.DistanceCharsKeepsExactly` states this |
| TimeFormat.ParseDecimal | performanceutils.py:43 | `float(nums)`: digits with at most one '.' give their decimal value; anything else, the empty string included, is an error |
| TimeFormat.DistanceCharsKeepsExactly | performanceutils.py:38-41 | the collected characters are all digits or dots, and each such character occurs as often as in the name |
| TimeFormat.DistanceCharsAppend | performanceutils.py:39-41 | collecting from a concatenation concatenates the collections |
| TimeFormat.EventDistanceOfName | performanceutils.py:31-43 | a name made of a number followed by a unit without digits or dots converts to that number |
| TimeFormat.ParseDecimalOfDigits | performanceutils.py:43 | `float` of a string of digits is its integer value |
| Purdy.TableShape | purdy.py:5-21 | the pace table is 59 breakpoint pairs with strictly increasing distances from 40 m to 100 km and positive paces of at most 11, closed by the sentinel pair `-1.0, 0.0` |
| Purdy.Increasing | purdy.py:5-21 | any two breakpoint distances are in increasing order of their positions |
| Purdy.BracketFrom | purdy.py:101-108 | the scan stops at the first even index whose distance is at least `dist`, or at the sentinel; every distance passed is positive and below `dist` |
| Purdy.FindBracket | purdy.py:101-108 | the `while` loop stops at the index the scan defines |
| Purdy.BracketFromStart | purdy.py:101-119 | above the first breakpoint the scan stops past index 0; it reaches the sentinel exactly when `dist` exceeds 100 km; otherwise the two pairs around it bracket `dist` |
| Purdy.SegmentFor | purdy.py:114-119 | the lower and upper pairs bracket `dist`: increasing positive distances around it, with paces in (0, 11] |
| Purdy.BracketOfBreakpoint | purdy.py:105-119 | at a breakpoint distance the segment chosen ends at that breakpoint |
| Purdy.StandardTime | purdy.py:121-129 | the interpolated standard time is positive and no faster than the 11 m/s maximum pace allows |
| Purdy.StandardTimeAtBreakpoint | purdy.py:121-129 | at a breakpoint the standard time is the distance over its tabulated pace |
| Purdy.Velocity | purdy.py:132 | the average velocity is positive and at most 11 m/s |
| Purdy.PartialLap | purdy.py:57-67 | the partial-lap metres lie in [0, 200] and never exceed the leftover metres |
| Purdy.FloorLaps | purdy.py:54-55 | the leftover after the full 400 m laps lies in [0, 400) |
| Purdy.LapFactor | purdy.py:34-73 | the fractional lap factor lies in [0, 1] and is 0 under 110 m; the identical nested copy at purdy.py:206-222 is this same function |
| Purdy.AdjustedTime | purdy.py:135-140 | the fatigue-adjusted time is positive |
| Purdy.KFactor | purdy.py:143 | the k factor is positive over the whole table, so the division at line 144 is defined |
| Purdy.AFactor | purdy.py:144 | the a factor is positive, so the division at line 145 is defined |
| Purdy.BParameter | purdy.py:145 | `b_parameter = 1 - 950 / a_factor`, defined for every segment that brackets the distance |
| Purdy.FactorsFor | purdy.py:142-145 | the adjusted time and the a factor are both positive |
| Purdy.Points | purdy.py:148 | `a_factor * (adjusted_time / time - b_parameter)`. `Purdy.PointsDecreasing` and `Purdy.InvertPoints` state its properties |
| Purdy.Denominator | purdy.py:241 | the denominator `score / a_factor + b_parameter` of the inversion |
| Purdy.TimeFor | purdy.py:239-241 | `adjusted_time` over that denominator. `Purdy.PointsOfInverse` states that it earns the score |
| Purdy.ScoreOn | purdy.py:100-150 | `purdy_score` once the arguments are known: an error at or below the first breakpoint, where the lower bracket wraps round to the sentinel pace 0.0; 0.0 beyond the last breakpoint; an error for a zero time; otherwise the points. `Purdy.ScoreDomain` states the cases |
| Purdy.ConvertOn | purdy.py:175-241 | `convert` once the score is known: an error at or below the first breakpoint, 0.0 beyond the last, an error for a zero denominator, otherwise the inverted time. `Purdy.ConvertDomain` states the cases |
| Purdy.ConvertFor | purdy.py:153-241 | a falsy score (None or 0) is replaced by the instance's own points, whose error propagates, before the time is found. `Purdy.ConvertInvertsScore` and `Purdy.SelfConversion` state its properties |
| Purdy.PurdyScore | purdy.py:75-150 | omitted arguments default to the instance's own; the result is 0.0 beyond the table and an error where Python divides by zero; otherwise it is the Purdy points of the interpolated segment |
| Purdy.Convert | purdy.py:153-241 | a falsy score becomes the instance's own points, whose error propagates; the result is 0.0 beyond the table, an error where Python divides by zero, and otherwise the inverted time |
| Purdy.ScoreDomain | purdy.py:100-150 | over the pace table, scoring fails exactly at 40 m or below, or for a zero time up to 100 km; beyond 100 km the score is 0.0; the table covers exactly (40 m, 100 km] |
| Purdy.ConvertDomain | purdy.py:175-241 | over the pace table, converting fails exactly at 40 m or below, or when the inversion's denominator is zero; beyond 100 km the result is 0.0 |
| Purdy.PointsDecreasing | purdy.py:148 | for fixed factors a slower time scores fewer points |
| Purdy.InvertPoints | purdy.py:239-241 | inverting the points of a non-zero time gives that time back |
| Purdy.PointsOfInverse | purdy.py:239-241 | scoring the inverted time gives the requested score back |
| Purdy.FasterScoresHigher | purdy.py:75-150 | at a distance the table covers, a faster positive time scores strictly more points |
| Purdy.ConvertInvertsScore | purdy.py:153-241 | converting a performance's own score at its own distance returns its time |
| Purdy.ScoreInvertsConvert | purdy.py:153-241 | the time `convert` returns for a score earns exactly that score |
| Purdy.SelfConversion | purdy.py:166-167 | `convert` at the instance's own distance with no score returns the instance's own time |
| Purdy.ConvertThereAndBack | purdy.py:153-241 | a converted performance is worth the same points, and converting it back returns the original time |
| Candidates.CollectMarks | fairport_run/relays.py:22-27 | the inner loop over the athletes builds the marks dict, the last athlete holding a time winning |
| Candidates.Marks | fairport_run/relays.py:22-27 | the `marks` dict for one event, built over the roster in order, each time mapped to the last athlete who ran it. `Candidates.MarksKeys`, `Candidates.MarksLastWins` and `Candidates.MarksInjective` state its properties |
| Candidates.MarksKeys | fairport_run/relays.py:23-27 | a time is a key of the dict exactly when some athlete ran it in the event |
| Candidates.MarksLastWins | fairport_run/relays.py:27 | on a tied time the dict keeps the id of the last athlete in iteration order who ran it |
| Candidates.MarksInjective | fairport_run/relays.py:23-27 | with distinct athlete ids, no athlete is stored under two times |
| Candidates.SortedMarksLists | fairport_run/relays.py:29 | the sorted items are strictly ascending by time, each is an item of the dict, and every key occurs |
| Candidates.SortedMarks | fairport_run/relays.py:29 | `sorted(marks.items())`, built by taking the least key first. `Candidates.SortedMarksLists` and `Candidates.ListingUnique` state that it is the unique ascending listing |
| Candidates.ListingUnique | fairport_run/relays.py:29 | any strictly ascending listing of exactly the dict's items is the sorted one |
| Candidates.CandidateList | fairport_run/relays.py:21-29 | an event's candidate list lists the marks dict in ascending order of time |
| Candidates.CandidatesDistinct | fairport_run/relays.py:21-29 | with distinct athlete ids, each athlete appears at most once in a candidate list |
| Candidates.CandidateEntries | fairport_run/relays.py:21-29 | a time appears in the candidate list exactly when some athlete ran it |
| Candidates.TopMarks | fairport_run/relays.py:20-30 | `top_marks` has exactly the distinct events as keys |
| Candidates.BuildTopMarks | fairport_run/relays.py:20-30 | the loop over the distinct events builds `top_marks` |
| Candidates.EventSet | fairport_run/relays.py:17 | a definition of `set(events)`: the distinct events are the members of the event sequence. `Candidates.TopMarks` and `Candidates.BuildTopMarks` use it |
| SearchTheory.Zeros | fairport_run/relays.py:59 | a definition of `(0,) * n`: one zero per leg. `FairportRelay.Start` carries the property of the start state |
| SearchTheory.TotalTime | fairport_run/relays.py:62 | the sum over legs of the mark each index selects, as `t0` at line 62 and as the totals line 90 maintains. `SearchTheory.SuccessorTotal` states the update |
| SearchTheory.Successor | fairport_run/relays.py:83-85 | a definition: the successor raises coordinate `d` by one and keeps every other coordinate. `SearchTheory.SuccessorTotal` and `SearchTheory.SortedForDuplicatesIff` carry its properties |
| SearchTheory.TotalUpdate | fairport_run/relays.py:90 | changing one coordinate changes the total by the difference of the two marks |
| SearchTheory.SuccessorTotal | fairport_run/relays.py:90 | a successor's total is the incremental total the loop computes, and is no smaller |
| SearchTheory.TotalMonotone | fairport_run/relays.py:67 | over ascending lists, a tuple below another coordinate by coordinate has no larger total |
| SearchTheory.AthleteIds | fairport_run/relays.py:68 | a definition: `athlete_ids[i]` is the athlete of leg `i`'s chosen candidate. `SearchTheory.AdmissibleIff` carries the property |
| SearchTheory.HasDistinctAthletes | fairport_run/relays.py:69 | `len(set(athlete_ids)) == n`. `SearchTheory.AdmissibleIff` states that it means no athlete repeats |
| SearchTheory.SetOfSizeIff | fairport_run/relays.py:69 | `len(set(ids)) == len(ids)` exactly when the ids are pairwise different |
| SearchTheory.AdmissibleIff | fairport_run/relays.py:68-69 | a tuple passes the distinctness check exactly when no two legs name the same athlete |
| SearchTheory.Group | fairport_run/relays.py:48-51 | `event_groups[ev]`: the positions of `ev` in the leg list, each a valid position. `SearchTheory.GroupFacts` states the rest |
| SearchTheory.IsSortedForDuplicates | fairport_run/relays.py:53-57 | the indices at the positions of leg d's event are non-decreasing. `SearchTheory.SortedForDuplicatesIff` relates it to the rule on every event |
| SearchTheory.GroupFacts | fairport_run/relays.py:48-51 | an event's group lists, in increasing order, exactly the legs of that event, as many as the event's count |
| SearchTheory.GroupChain | fairport_run/relays.py:53-57 | when the consecutive check holds, indices along the group are non-decreasing |
| SearchTheory.SortedForDuplicatesIff | fairport_run/relays.py:53-57 | for a successor of a tuple that keeps the same-event rule, the check on leg `d`'s group holds exactly when the successor keeps the rule for every event |
| SearchTheory.NoTeamWhenShort | fairport_run/relays.py:36-42 | when an event has fewer candidates than legs, no tuple has pairwise different athletes |
| SearchTheory.Cover | fairport_run/relays.py:80-92 | every tuple that keeps the rule and is not yet popped is dominated by a tuple still pending |
| SearchTheory.InAllTuples | fairport_run/relays.py:66 | every in-bounds tuple lies in the finite tuple space, which bounds the loop |
| SearchTheory.LegsOf | fairport_run/relays.py:70-77 | a definition: leg `i` of a result has `events[i]` with the athlete and time of the chosen candidate. `SearchTheory.LegsTotalIsTotal` and `SearchTheory.ResultInjective` carry its properties |
| SearchTheory.LegsTotalIsTotal | fairport_run/relays.py:70-78 | the leg times of a result add up to the tuple's total |
| SearchTheory.TotalText | fairport_run/relays.py:78 | `format_time(round(total, 2))` on the exact total; with no legs the sum is 0 and the text is "0:00" |
| SearchTheory.ResultOf | fairport_run/relays.py:70-78 | the result dict of one tuple: its time text and its legs. `SearchTheory.ResultTotal` and `SearchTheory.ResultInjective` state its properties |
| SearchTheory.ResultTotal | fairport_run/relays.py:78 | a result's time string parses back to the sum of its leg times, the no-leg "0:00" included, and its legs follow the events |
| TimeFormat.ZeroTextParses | performanceutils.py:8-12 | the text "0:00" of an empty sum parses back to 0 |
| SearchTheory.ResultInjective | fairport_run/relays.py:70-78 | two tuples rendering the same result are the same tuple |
| FairportRelay.Render | fairport_run/relays.py:65-78 | one result per emitted tuple |
| FairportRelay.BestWith | fairport_run/relays.py:59-94 | the specification of the search, for one list `emitted` of tuples: admissible, pairwise distinct, in non-decreasing total, at most `max(number, 0)` of them, no admissible tuple left out that is faster than one listed, and none left out at all unless `number` were found |
| FairportRelay.BestRelays | fairport_run/relays.py:59-94 | the results are the rendering of some list of tuples that meets `FairportRelay.BestWith`; `FairportRelay.Search` is proved to meet it |
| FairportRelay.RenderAt | fairport_run/relays.py:70-78 | result `k` is the rendering of emitted tuple `k` |
| FairportRelay.FailsafeRedundant | fairport_run/relays.py:36-42 | when an event has fewer candidates than legs, the search's answer is empty |
| FairportRelay.EnoughTeams | fairport_run/relays.py:66 | if at least `number` acceptable teams exist, exactly `max(number, 0)` results are produced |
| FairportRelay.NoLegsOneResult | fairport_run/relays.py:59-78 | with no legs the one result is the empty relay with time "0:00" |
| FairportRelay.Start | fairport_run/relays.py:59-65 | the start state satisfies the search invariant and the frontier property |
| FairportRelay.HeapRemove | fairport_run/relays.py:67 | popping an entry removes exactly its tuple from the heap's tuples |
| FairportRelay.HeapPush | fairport_run/relays.py:92 | pushing an entry adds exactly its tuple |
| FairportRelay.PopHeap | fairport_run/relays.py:67 | after a pop the heap is still correct and unpopped, and `visited` is still popped plus pending |
| FairportRelay.PopKeepsOrder | fairport_run/relays.py:67 | popping a minimal entry keeps every popped tuple no slower than any unpopped tuple that keeps the rule |
| FairportRelay.PopRecord | fairport_run/relays.py:68-78 | appending the popped tuple when its athletes differ keeps the emitted list admissible, distinct and ordered, and complete over the popped tuples |
| FairportRelay.EmittedAppend | fairport_run/relays.py:78 | appending a slowest, new, admissible tuple keeps the emitted list well formed |
| FairportRelay.RenderAppend | fairport_run/relays.py:78 | rendering after an append is the old rendering plus the new result |
| FairportRelay.AppendOrdered | fairport_run/relays.py:67-78 | appending a tuple no faster than all emitted keeps totals non-decreasing |
| FairportRelay.AppendDistinct | fairport_run/relays.py:86-91 | appending a tuple not yet emitted keeps the emitted tuples distinct |
| FairportRelay.PopFrontier | fairport_run/relays.py:67 | after a pop, every popped tuple other than the one just popped still has its successors visited |
| FairportRelay.PopStep | fairport_run/relays.py:67-78 | the popped tuple is in bounds, keeps the rule, carries its true total and is new; the state after recording it satisfies the invariant |
| FairportRelay.PushHeap | fairport_run/relays.py:91-92 | pushing an unvisited valid entry with its true total keeps the heap correct |
| FairportRelay.PushStep | fairport_run/relays.py:86-92 | pushing the successor on leg `d` keeps the invariant and closes leg `d` |
| FairportRelay.PushTotal | fairport_run/relays.py:90 | `new_total` is the successor's true total |
| FairportRelay.SkipStep | fairport_run/relays.py:82-89 | when no successor is pushed on leg `d` there is nothing to push: it is out of range, already visited, or breaks the rule |
| FairportRelay.PartialDone | fairport_run/relays.py:80-92 | after all legs, every successor of every popped tuple that keeps the rule is visited |
| FairportRelay.Shrinks | fairport_run/relays.py:66-67 | each pop shrinks the unexplored part of the finite tuple space |
| FairportRelay.Done | fairport_run/relays.py:66 | when the loop stops, the invariant gives the specified answer |
| FairportRelay.IndexOfMin | fairport_run/relays.py:67 | the entry `heappop` takes has a minimal total |
| FairportRelay.PushSuccessor | fairport_run/relays.py:81-92 | one pass of the successor loop keeps the invariant and closes one more leg |
| FairportRelay.Push | fairport_run/relays.py:90-92 | the successor on leg d is added to `visited` and pushed with its true total, the heap and visited invariants are kept, and leg d of the popped tuple is closed |
| FairportRelay.Expand | fairport_run/relays.py:80-92 | after the successor loop the invariant holds and every successor of a popped tuple is visited |
| FairportRelay.Search | fairport_run/relays.py:59-92 | the results are the best relays: at most `number`, admissible, distinct, in non-decreasing total time, none missing that is faster than a listed one, and none missing unless `number` were found |
| FairportRelay.AnyShort | fairport_run/relays.py:36-42 | the failsafe fires exactly when some event has fewer candidates than legs |
| FairportRelay.Relay.constructor | fairport_run/relays.py:9-30 | `top_marks` holds the candidate list of every distinct event |
| FairportRelay.Relay.LegsLists | fairport_run/relays.py:34 | a definition: leg `i` uses the candidate list of `events[i]`. `FairportRelay.Relay.LegsListsShape` carries its properties |
| FairportRelay.Relay.LegsListsShape | fairport_run/relays.py:21-34 | leg lists are strictly ascending, and legs of the same event share one list |
| FairportRelay.Relay.GenerateRelays | fairport_run/relays.py:32-94 | raises exactly when some leg has no candidate, leaving `relays` empty; otherwise `relays` is the best relays; empty whenever an event is short of candidates |
| LegacyRelay.ChooseMoreThanN | relays.py:44 | `comb(n, k)` is 0 when `k > n` |
| LegacyRelay.Choose | relays.py:44 | `math.comb(n, k)` by Pascal's rule. `LegacyRelay.ChooseMoreThanN` and `LegacyRelay.ChooseFourBound` state what the builder needs of it |
| LegacyRelay.ChooseFourBound | relays.py:44 | `comb(n, 4)` is at least `n div 4` |
| LegacyRelay.TeamCount | relays.py:44-50 | the teams produced use at most all the candidates |
| LegacyRelay.TeamCountIs | relays.py:44-50 | the number of teams is `min(number, n div 4)`, or 0 for `number <= 0`; never more than `comb(n, 4)` or `number` |
| LegacyRelay.Teams | relays.py:47-55 | the first k teams in order, team j made of sorted positions 4j to 4j+3. `LegacyRelay.TeamsAt` and `LegacyRelay.TeamMembers` state this |
| LegacyRelay.SingleEventTeams | relays.py:44-55 | `relays` after the single-event case: the first `TeamCount` teams. `LegacyRelay.CutTeams` shows the loop computes it |
| LegacyRelay.TeamsAt | relays.py:47-55 | team `j` is built from sorted positions `4j..4j+3` |
| LegacyRelay.TeamMembers | relays.py:48-55 | team `j` names the four athletes at positions `4j..4j+3`, and its time is the sum of their four marks |
| LegacyRelay.SumOfFour | relays.py:51 | the team time is the sum of its four marks |
| LegacyRelay.CandidateListDistinct | relays.py:24-30 | with distinct athlete ids, a candidate list names each athlete at most once |
| LegacyRelay.TeamsDisjoint | relays.py:47-50 | two different teams share no athlete |
| LegacyRelay.TeamOfFour | relays.py:48-53 | every team has four different athletes |
| LegacyRelay.TeamsFaster | relays.py:45-55 | each team is strictly slower than the team before it |
| LegacyRelay.CutTeams | relays.py:44-55 | the loop with its early `break` produces the teams the count allows |
| LegacyRelay.AllHaveFour | relays.py:37-39 | the check passes exactly when every distinct event has at least four marks |
| LegacyRelay.OnlyMember | relays.py:41-43 | a single distinct event is the only member of the set |
| LegacyRelay.Relay.constructor | relays.py:10-32 | `top_marks` holds the candidate list of every distinct event |
| LegacyRelay.Relay.GenerateRelays | relays.py:34-58 | `relays` ends empty when an event has fewer than four marks or there are several events; otherwise it holds the single-event teams |
| YenData.Resolve | yendata.py:17-25 | a given season is kept; an empty season becomes indoor exactly in November to March and outdoor exactly in April to October; a given year is kept; a zero year becomes the current year exactly before November, else the next year; gender and team are stored unchanged |
| YenData.Default | yendata.py:7 | the default gender is 'm' and the default team 85 |
| YenData.DefaultCalendar | yendata.py:20-23 | with both defaulted: November and December give next year's indoor season, January to March this year's indoor, April to October this year's outdoor |
| YenData.ResolveIdempotent | yendata.py:21-23 | passing the stored settings back in keeps them, when the stored year is not 0 |

## Left out

- **HTTP fetching and the clock.** `YenData.get_array` (HTTP pagination through `requests`), the empty `collect_data` and `datetime.now()` are out. The month and current year are parameters of `YenData.Resolve`.
- **fairport_run.utils is not part of this model.** Its `format_time` is taken to be the one in `performanceutils.py`.
- **Raw marks.** Marks are rendered and parsed by `TimeFormat`. The roster holds them already parsed into hundredths. A raw mark that `format_time` cannot parse is not modelled, nor is a missing `"performance"` key. A performance stored as `None` is not expressible either: `fairport_run/relays.py:23-25` skips it, while `relays.py:27-28` tests the key and then raises `TypeError` on `None["performance"]`.
- **Floating point.** Times are exact hundredths, so `round(total, 2)` is the identity. The Purdy formulas are over exact reals: the binary rounding of doubles is not modelled.
- TimeFormat.ParseMinutes: accepts an optional '+' or '-' followed by ASCII digits. Python's `int` also accepts surrounding whitespace ("1: 30.5" has a space before 30.5, which `float` skips), underscores between digits ("1_0") and non-ASCII decimal digits. The model rejects these.
- TimeFormat.ParseSeconds: accepts an optional sign, ASCII digits and at most one decimal point, with at most two decimal places. Python's `float` also accepts whitespace, underscores, exponents ("5e1"), "inf" and "nan", which the model rejects. A field with more than two decimal places is rejected too, while Python keeps the extra digits. So the "MM:SS.sss" format that the docstring of `format_time` names is rejected by the model.
- TimeFormat.ParseTime: inherits these restrictions from the two field parsers.
- TimeFormat.DistanceChars: `str.isnumeric` is modelled for ASCII digits only.
- **Heap tie-break.** `heapq` breaks ties between equal totals by comparing the index tuples. `FairportRelay.IndexOfMin` takes the first minimal entry instead.
- FairportRelay.Search: the contract fixes the results only up to which of several equally fast relays are listed at the cut-off, and the order among them, because the heap's tie-break is not modelled.
- **Exceptions.** The `IndexError` of `fairport_run/relays.py:62` is a result flag of `FairportRelay.Relay.GenerateRelays`; exception propagation is not modelled.
- **Class attribute `relays = []`.** It is shared by all instances until the first assignment to `relays`. The constructors here start `relays` empty instead, and aliasing through the class attribute is not modelled.
- **Pace table.** The Purdy pace table is a class attribute. The functions take the table as a parameter `t` with the shape `Purdy.WellFormed`, and `Purdy.TableShape` shows that the source's table has that shape.
- **Result dicts.** These are datatypes: `SearchTheory.RelayResult` and `SearchTheory.Leg` for the search, `LegacyRelay.Team` for the legacy builder.
