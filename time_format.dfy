/**
 * Time strings and event names (performanceutils.py).
 *
 * A time is a whole number of hundredths of a second, so that the Python
 * float arithmetic on seconds becomes exact integer arithmetic here:
 * 61.25 seconds is 6125.
 */
module TimeFormat {
  import opened Results

  /** A time in hundredths of a second. */
  type Centis = nat

  // ----- decimal digits ------------------------------------------------------

  predicate IsDigit(c: char) { '0' <= c <= '9' }

  predicate AllDigits(s: string) { forall i :: 0 <= i < |s| ==> IsDigit(s[i]) }

  function DigitChar(d: nat): (c: char)
    requires d < 10
    ensures IsDigit(c)
  {
    ('0' as int + d) as char
  }

  function DigitValue(c: char): (d: nat)
    requires IsDigit(c)
    ensures d < 10
  {
    c as int - '0' as int
  }

  /** Python's `str(n)` for a natural number. */
  function NatToDigits(n: nat): (s: string)
    ensures |s| >= 1 && AllDigits(s)
    ensures (s[0] == '0') == (n == 0)
    ensures n < 10 ==> |s| == 1
    ensures 10 <= n < 100 ==> |s| == 2
  {
    if n < 10 then [DigitChar(n)] else NatToDigits(n / 10) + [DigitChar(n % 10)]
  }

  /** The value of a string of decimal digits, as Python's `int(s)`. */
  function DigitsValue(s: string): nat
    requires AllDigits(s)
  {
    if s == [] then 0 else DigitsValue(s[..|s| - 1]) * 10 + DigitValue(s[|s| - 1])
  }

  lemma {:induction false} DigitsValueOfNat(n: nat)
    ensures DigitsValue(NatToDigits(n)) == n
  {
    if n >= 10 {
      var s := NatToDigits(n);
      assert s[..|s| - 1] == NatToDigits(n / 10);
      DigitsValueOfNat(n / 10);
    }
  }

  lemma {:induction false} DigitsValueLeadingZero(s: string)
    requires AllDigits(s)
    ensures AllDigits("0" + s) && DigitsValue("0" + s) == DigitsValue(s)
  {
    if s != [] {
      assert ("0" + s)[..|s|] == "0" + s[..|s| - 1];
      DigitsValueLeadingZero(s[..|s| - 1]);
    }
  }

  lemma {:induction false} NoSeparatorInDigits(s: string, c: char)
    requires AllDigits(s) && !IsDigit(c)
    ensures c !in s
  {
    forall i | 0 <= i < |s| ensures s[i] != c {
      assert IsDigit(s[i]);
    }
  }

  // ----- str.split -------------------------------------------------------------

  /** Python's `s.split(sep)`: the pieces between the separators, at least one. */
  function Split(s: string, sep: char): (parts: seq<string>)
    ensures |parts| >= 1
  {
    if s == [] then [""]
    else
      var rest := Split(s[1..], sep);
      if s[0] == sep then [""] + rest else [[s[0]] + rest[0]] + rest[1..]
  }

  lemma {:induction false} SplitWithout(s: string, sep: char)
    requires sep !in s
    ensures Split(s, sep) == [s]
  {
    if s != [] {
      SplitWithout(s[1..], sep);
      assert [s[0]] + s[1..] == s;
    }
  }

  lemma {:induction false} SplitAt(a: string, sep: char, b: string)
    requires sep !in a
    ensures Split(a + [sep] + b, sep) == [a] + Split(b, sep)
  {
    if a == [] {
      assert (a + [sep] + b)[1..] == b;
    } else {
      assert (a + [sep] + b)[1..] == a[1..] + [sep] + b;
      SplitAt(a[1..], sep, b);
      assert [a[0]] + a[1..] == a;
    }
  }

  // ----- format_time, number to text (performanceutils.py:14) -------------------------

  /** The hundredths after the decimal point, as Python prints `round(x, 2)`:
      one digit when the hundredths digit is zero, two otherwise. */
  function FractionDigits(h: nat): (s: string)
    requires h < 100
    ensures AllDigits(s) && 1 <= |s| <= 2
  {
    if h % 10 == 0 then [DigitChar(h / 10)] else [DigitChar(h / 10), DigitChar(h % 10)]
  }

  /** The whole seconds, zero-padded to two digits below ten seconds. */
  function WholeSeconds(c: nat): (s: string)
    requires c < 6000
    ensures AllDigits(s)
  {
    if c >= 1000 then NatToDigits(c / 100) else "0" + NatToDigits(c / 100)
  }

  /** The seconds field of `format_time`: `round(time % 60, 2)`, prefixed by "0" below ten. */
  function SecondsField(c: nat): string
    requires c < 6000
  {
    WholeSeconds(c) + "." + FractionDigits(c % 100)
  }

  /** `format_time` applied to a number: minutes, a colon, then the seconds field. */
  function FormatTime(t: Centis): string
  {
    NatToDigits(t / 6000) + ":" + SecondsField(t % 6000)
  }

  // ----- format_time, text to number (performanceutils.py:8-12) -----------------------

  /** The field without the one leading '+' or '-' that `int` and `float` accept. */
  function Unsigned(s: string): (u: string)
    ensures |s| > 0 && (s[0] == '+' || s[0] == '-') ==> u == s[1..]
    ensures |s| == 0 || (s[0] != '+' && s[0] != '-') ==> u == s
  {
    if |s| > 0 && (s[0] == '+' || s[0] == '-') then s[1..] else s
  }

  /** The value `v` under the sign the field starts with. */
  function Signed(s: string, v: nat): (r: int)
    ensures |s| > 0 && s[0] == '-' ==> r == -(v as int)
    ensures |s| == 0 || s[0] != '-' ==> r == v
  {
    if |s| > 0 && s[0] == '-' then -(v as int) else v
  }

  /** `int(field)` for the minutes field: an optional sign, then decimal digits. */
  function ParseMinutes(s: string): Result<int>
  {
    var body := Unsigned(s);
    if body != [] && AllDigits(body) then Ok(Signed(s, DigitsValue(body))) else Err("invalid literal for int()")
  }

  /** Hundredths denoted by at most two digits after the decimal point. */
  function FractionValue(f: string): (h: nat)
    requires AllDigits(f) && |f| <= 2
    ensures h < 100
  {
    if |f| == 0 then 0
    else if |f| == 1 then 10 * DigitValue(f[0])
    else 10 * DigitValue(f[0]) + DigitValue(f[1])
  }

  /** `float(field)` for the seconds field, in hundredths: an optional sign, then
      digits with at most one decimal point. */
  function ParseSeconds(s: string): Result<int>
  {
    var parts := Split(Unsigned(s), '.');
    if |parts| > 2 then Err("could not convert string to float")
    else
      var whole := parts[0];
      var frac := if |parts| == 2 then parts[1] else "";
      if !AllDigits(whole) || !AllDigits(frac) || |whole| + |frac| == 0 then
        Err("could not convert string to float")
      else if |frac| > 2 then
        Err("more than two decimals")
      else
        Ok(Signed(s, DigitsValue(whole) * 100 + FractionValue(frac)))
  }

  /** `format_time` applied to a string: split at ':', then `int` of the first
      field, then `float` of the second, then minutes * 60 + seconds. Fields
      after the second are ignored; a string without ':' raises at `time[1]`
      once its minutes field has parsed. */
  function ParseTime(s: string): Result<int>
  {
    var fields := Split(s, ':');
    match ParseMinutes(fields[0])
    case Err(e) => Err(e)
    case Ok(minutes) =>
      if |fields| < 2 then Err("list index out of range")
      else
        match ParseSeconds(fields[1])
        case Err(e) => Err(e)
        case Ok(seconds) => Ok(minutes * 6000 + seconds)
  }

  /** A string without ':' fails: with ValueError when it is not an integer,
      and with IndexError otherwise, in the order Python evaluates the two. */
  lemma {:induction false} NoColon(s: string)
    requires ':' !in s
    ensures ParseTime(s) ==
      if ParseMinutes(s).Ok? then Err("list index out of range") else Err("invalid literal for int()")
  {
    SplitWithout(s, ':');
  }

  lemma {:induction false} DigitsUnsigned(s: string)
    requires s != [] && AllDigits(s)
    ensures Unsigned(s) == s && Signed(s, DigitsValue(s)) == DigitsValue(s)
    ensures ParseMinutes(s) == Ok(DigitsValue(s))
  {
    assert IsDigit(s[0]);
  }

  /** A string that splits into two fields that parse. */
  lemma {:induction false} ParseTwoFields(s: string, m: string, sec: string, minutes: int, seconds: int)
    requires Split(s, ':') == [m, sec]
    requires ParseMinutes(m) == Ok(minutes) && ParseSeconds(sec) == Ok(seconds)
    ensures ParseTime(s) == Ok(minutes * 6000 + seconds)
  {
  }

  /** "M:S" splits into its two fields when neither holds a ':'. */
  lemma {:induction false} SplitTwo(m: string, sec: string)
    requires ':' !in m && ':' !in sec
    ensures Split(m + ":" + sec, ':') == [m, sec]
  {
    SplitAt(m, ':', sec);
    SplitWithout(sec, ':');
    assert m + ":" + sec == m + [':'] + sec;
  }

  /** "M:S" with neither field holding a ':' parses field by field. */
  lemma {:induction false} ParseTwo(m: string, sec: string, minutes: int, seconds: int)
    requires ':' !in m && ':' !in sec
    requires ParseMinutes(m) == Ok(minutes) && ParseSeconds(sec) == Ok(seconds)
    ensures ParseTime(m + ":" + sec) == Ok(minutes * 6000 + seconds)
  {
    SplitTwo(m, sec);
    ParseTwoFields(m + ":" + sec, m, sec, minutes, seconds);
  }

  /** `int(M) * 60 + float(S)` for the fields of "M:S". */
  lemma {:induction false} ParseFields(m: string, sec: string, c: Centis)
    requires m != [] && AllDigits(m) && ':' !in sec
    requires ParseSeconds(sec) == Ok(c)
    ensures ParseTime(m + ":" + sec) == Ok(DigitsValue(m) * 6000 + c)
  {
    NoSeparatorInDigits(m, ':');
    DigitsUnsigned(m);
    ParseTwo(m, sec, DigitsValue(m), c);
  }

  /** A leading '-' negates the minutes only: "-1:30.0" is -60 + 30 seconds. */
  lemma {:induction false} ParseNegativeMinutes(m: string, sec: string, c: int)
    requires m != [] && AllDigits(m) && ':' !in sec
    requires ParseSeconds(sec) == Ok(c)
    ensures ParseTime("-" + m + ":" + sec) == Ok(-(DigitsValue(m) as int) * 6000 + c)
  {
    NegativeField(m);
    ParseTwo("-" + m, sec, -(DigitsValue(m) as int), c);
  }

  lemma {:induction false} NegativeField(m: string)
    requires m != [] && AllDigits(m)
    ensures ':' !in "-" + m
    ensures ParseMinutes("-" + m) == Ok(-(DigitsValue(m) as int))
  {
    var neg := "-" + m;
    NoSeparatorInDigits(m, ':');
    forall i | 0 <= i < |neg| ensures neg[i] != ':' {
      if i > 0 { assert neg[i] == m[i - 1]; }
    }
    assert neg[1..] == m;
  }

  lemma {:induction false} SecondsFieldParses(c: nat)
    requires c < 6000
    ensures ':' !in SecondsField(c)
    ensures ParseSeconds(SecondsField(c)) == Ok(c)
  {
    var whole, frac := WholeSeconds(c), FractionDigits(c % 100);
    NoSeparatorInDigits(whole, '.');
    NoSeparatorInDigits(frac, '.');
    NoSeparatorInDigits(whole, ':');
    NoSeparatorInDigits(frac, ':');
    SplitAt(whole, '.', frac);
    SplitWithout(frac, '.');
    assert SecondsField(c) == whole + ['.'] + frac;
    assert ':' !in whole + ['.'] + frac;
    DigitsValueOfNat(c / 100);
    if c < 1000 {
      DigitsValueLeadingZero(NatToDigits(c / 100));
    }
    assert SecondsField(c)[0] == whole[0] && IsDigit(whole[0]);
    assert Unsigned(SecondsField(c)) == SecondsField(c);
    assert DigitsValue(whole) == c / 100;
    assert FractionValue(frac) == c % 100;
  }

  /** Reading back a formatted time gives the time: the two directions of
      `format_time` are converse on whole hundredths. */
  lemma {:induction false} FormatThenParse(t: Centis)
    ensures ParseTime(FormatTime(t)) == Ok(t)
  {
    var m, sec := NatToDigits(t / 6000), SecondsField(t % 6000);
    RenderedFields(t, m, sec);
    ParseFields(m, sec, t % 6000);
    NoSeparatorInDigits(m, ':');
    SplitTwo(m, sec);
    DigitsUnsigned(m);
    assert FormatTime(t) == m + ":" + sec;
  }

  /** The two fields of a rendered time, as `ParseFields` needs them. */
  lemma {:induction false} RenderedFields(t: Centis, m: string, sec: string)
    requires m == NatToDigits(t / 6000) && sec == SecondsField(t % 6000)
    ensures m != [] && AllDigits(m) && ':' !in sec && ParseSeconds(sec) == Ok(t % 6000)
    ensures DigitsValue(m) * 6000 + t % 6000 == t
  {
    SecondsFieldParses(t % 6000);
    DigitsValueOfNat(t / 6000);
  }

  /** The text "0:00" that stands for an empty sum reads back as zero. */
  lemma {:induction false} ZeroTextParses()
    ensures ParseTime("0:00") == Ok(0)
  {
    SplitAt("0", ':', "00");
    SplitWithout("00", ':');
    SplitWithout("00", '.');
    assert "0:00" == "0" + [':'] + "00";
    DigitsUnsigned("0");
    assert DigitsValue("00") == 0;
    assert ParseSeconds("00") == Ok(0);
    ParseTwoFields("0:00", "0", "00", 0, 0);
  }

  /** The shape of a formatted time: exactly one ':'; the minutes field is the
      number of whole minutes; the seconds field has two integer digits, the
      first of which is '0' exactly when fewer than ten seconds remain. */
  lemma {:induction false} FormatFields(t: Centis)
    ensures |Split(FormatTime(t), ':')| == 2
    ensures var f := Split(FormatTime(t), ':');
      AllDigits(f[0]) && DigitsValue(f[0]) == t / 6000 &&
      var whole := Split(f[1], '.')[0];
      |whole| == 2 && (whole[0] == '0' <==> t % 6000 < 1000) &&
      ParseSeconds(f[1]) == Ok(t % 6000)
  {
    var c := t % 6000;
    SecondsFieldParses(c);
    DigitsValueOfNat(t / 6000);
    NoSeparatorInDigits(NatToDigits(t / 6000), ':');
    SplitAt(NatToDigits(t / 6000), ':', SecondsField(c));
    SplitWithout(SecondsField(c), ':');
    var whole, frac := WholeSeconds(c), FractionDigits(c % 100);
    NoSeparatorInDigits(whole, '.');
    SplitAt(whole, '.', frac);
    assert SecondsField(c) == whole + ['.'] + frac;
  }

  // ----- compare_greater (performanceutils.py:16-29) ---------------------------------

  /** An argument of `compare_greater`: a number or a "M:SS.s" string. */
  datatype TimeArg = Number(centis: int) | Text(text: string)

  function Normalise(a: TimeArg): Result<int>
  {
    match a
    case Number(x) => Ok(x)
    case Text(s) => ParseTime(s)
  }

  /** `time1 > time2` after each string argument has been parsed. */
  function CompareGreater(a: TimeArg, b: TimeArg): Result<bool>
  {
    match Normalise(a)
    case Err(e) => Err(e)
    case Ok(x) =>
      match Normalise(b)
      case Err(e) => Err(e)
      case Ok(y) => Ok(x > y)
  }

  /** The comparison does not depend on whether a time is given as a number or
      as its formatted string. */
  lemma {:induction false} CompareGreaterAnyFormat(x: Centis, y: Centis, a: TimeArg, b: TimeArg)
    requires a == Number(x) || a == Text(FormatTime(x))
    requires b == Number(y) || b == Text(FormatTime(y))
    ensures CompareGreater(a, b) == Ok(x > y)
  {
    FormatThenParse(x);
    FormatThenParse(y);
  }

  // ----- event_to_dist (performanceutils.py:31-43) ------------------------------------

  predicate IsDistanceChar(c: char) { IsDigit(c) || c == '.' }

  /** The digits and dots of `s`, in order. */
  function DistanceChars(s: string): string
  {
    if s == [] then ""
    else DistanceChars(s[..|s| - 1]) + (if IsDistanceChar(s[|s| - 1]) then [s[|s| - 1]] else "")
  }

  function Pow10(k: nat): (p: nat)
    ensures p >= 1
  {
    if k == 0 then 1 else 10 * Pow10(k - 1)
  }

  /** Python's `float(s)` on a string of digits with at most one '.'. */
  function ParseDecimal(s: string): Result<real>
  {
    var parts := Split(s, '.');
    if |parts| > 2 then Err("could not convert string to float")
    else
      var whole := parts[0];
      var frac := if |parts| == 2 then parts[1] else "";
      if !AllDigits(whole) || !AllDigits(frac) || |whole| + |frac| == 0 then
        Err("could not convert string to float")
      else
        Ok(DigitsValue(whole) as real + DigitsValue(frac) as real / Pow10(|frac|) as real)
  }

  /** `event_to_dist`: keep the digits and dots of the event name, then read them as a number. */
  method EventToDist(name: string) returns (dist: Result<real>)
    ensures dist == ParseDecimal(DistanceChars(name))
  {
    var nums := "";
    for i := 0 to |name|
      invariant nums == DistanceChars(name[..i])
    {
      assert name[..i + 1][..i] == name[..i];
      if IsDistanceChar(name[i]) {
        nums := nums + [name[i]];
      }
    }
    assert name[..|name|] == name;
    dist := ParseDecimal(nums);
  }

  /** The kept string is made of digits and dots only, and it keeps every digit
      and dot of the input as often as it occurs there. */
  lemma {:induction false} DistanceCharsKeepsExactly(s: string)
    ensures forall i :: 0 <= i < |DistanceChars(s)| ==> IsDistanceChar(DistanceChars(s)[i])
    ensures forall c :: multiset(DistanceChars(s))[c] == if IsDistanceChar(c) then multiset(s)[c] else 0
  {
    if s != [] {
      var init, last := s[..|s| - 1], s[|s| - 1];
      DistanceCharsKeepsExactly(init);
      assert s == init + [last];
      assert multiset(s) == multiset(init) + multiset{last};
    }
  }

  /** Filtering is done character by character, so it distributes over concatenation. */
  lemma {:induction false} DistanceCharsAppend(a: string, b: string)
    ensures DistanceChars(a + b) == DistanceChars(a) + DistanceChars(b)
  {
    if b != [] {
      assert (a + b)[..|a + b| - 1] == a + b[..|b| - 1];
      DistanceCharsAppend(a, b[..|b| - 1]);
    } else {
      assert a + b == a;
    }
  }

  lemma {:induction false} DistanceCharsOfDigits(s: string)
    requires AllDigits(s)
    ensures DistanceChars(s) == s
  {
    if s != [] {
      DistanceCharsOfDigits(s[..|s| - 1]);
    }
  }

  lemma {:induction false} DistanceCharsOfOthers(s: string)
    requires forall i :: 0 <= i < |s| ==> !IsDistanceChar(s[i])
    ensures DistanceChars(s) == ""
  {
    if s != [] {
      DistanceCharsOfOthers(s[..|s| - 1]);
    }
  }

  lemma {:induction false} ParseDecimalOfDigits(s: string)
    requires s != [] && AllDigits(s)
    ensures ParseDecimal(s) == Ok(DigitsValue(s) as real)
  {
    NoSeparatorInDigits(s, '.');
    SplitWithout(s, '.');
    assert Split(s, '.') == [s];
  }

  /** An event name made of a whole number of metres followed by letters,
      such as "400m" or "1600m", yields that number. */
  lemma {:induction false} EventDistanceOfName(n: nat, unit: string)
    requires forall i :: 0 <= i < |unit| ==> !IsDistanceChar(unit[i])
    ensures ParseDecimal(DistanceChars(NatToDigits(n) + unit)) == Ok(n as real)
  {
    var digits := NatToDigits(n);
    DistanceCharsAppend(digits, unit);
    DistanceCharsOfDigits(digits);
    DistanceCharsOfOthers(unit);
    assert DistanceChars(digits + unit) == digits + "";
    assert digits + "" == digits;
    ParseDecimalOfDigits(digits);
    DigitsValueOfNat(n);
  }
}
