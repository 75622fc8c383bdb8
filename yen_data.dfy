/**
 * The defaulting done by the constructor of the yentiming.com client
 * (yendata.py:7-25). The clock read at yendata.py:17-18 becomes the two
 * parameters `month` and `nowYear`.
 */
module YenData {
  /** The four fields the constructor stores. */
  datatype Settings = Settings(season: string, year: int, gender: string, team: int)

  /** `YenData(season, year, gender, team)` as of `month` of `nowYear`: an empty
      season becomes indoor from November to March and outdoor from April to
      October, and a zero year becomes the year the coming season is held in. */
  function Resolve(season: string, year: int, gender: string, team: int, month: nat, nowYear: int): (s: Settings)
    requires 1 <= month <= 12
    ensures season != "" ==> s.season == season
    ensures season == "" ==> (s.season == "indoor" <==> (month < 4 || month > 10))
    ensures season == "" ==> (s.season == "outdoor" <==> 4 <= month <= 10)
    ensures year != 0 ==> s.year == year
    ensures year == 0 ==> (s.year == nowYear <==> month < 11) && (s.year == nowYear + 1 <==> month >= 11)
    ensures s.gender == gender && s.team == team
  {
    Settings(
      if season != "" then season else if month < 4 || month > 10 then "indoor" else "outdoor",
      if year != 0 then year else if month < 11 then nowYear else nowYear + 1,
      gender,
      team)
  }

  /** `YenData()`: every argument left at its default. */
  function Default(month: nat, nowYear: int): (s: Settings)
    requires 1 <= month <= 12
    ensures s.gender == "m" && s.team == 85
  {
    Resolve("", 0, "m", 85, month, nowYear)
  }

  /** With both defaulted: November and December look ahead to next year's indoor
      season, January to March is this year's indoor season, April to October
      this year's outdoor season. */
  lemma DefaultCalendar(month: nat, nowYear: int)
    requires 1 <= month <= 12
    ensures month >= 11 ==> Default(month, nowYear).season == "indoor" && Default(month, nowYear).year == nowYear + 1
    ensures month < 4 ==> Default(month, nowYear).season == "indoor" && Default(month, nowYear).year == nowYear
    ensures 4 <= month <= 10 ==> Default(month, nowYear).season == "outdoor" && Default(month, nowYear).year == nowYear
  {
  }

  /** Passing the stored settings back in as arguments keeps them, whenever the
      stored year is not the falsy 0. */
  lemma ResolveIdempotent(season: string, year: int, gender: string, team: int, month: nat, nowYear: int)
    requires 1 <= month <= 12
    requires Resolve(season, year, gender, team, month, nowYear).year != 0
    ensures var s := Resolve(season, year, gender, team, month, nowYear);
      Resolve(s.season, s.year, s.gender, s.team, month, nowYear) == s
  {
  }
}
