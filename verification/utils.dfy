/**
  Reading the query of a list request: the period token (`parsePeriod`) and the
  four parameters checked in order (`GetListQueryParams`).
 */
module Utils {
  import opened Wrappers
  import opened Decimal
  import opened GoTime
  import opened HttpErrors
  import opened Domain
  import Constants

  /** `unicode.IsLetter`, restricted to ASCII. */
  predicate IsLetter(c: char) {
    'a' <= c <= 'z' || 'A' <= c <= 'Z'
  }

  /** `strings.IndexFunc(s, unicode.IsLetter)`, with `None` for Go's `-1`. */
  function IndexOfLetter(s: string): (r: Option<nat>)
    ensures r.Some? ==> r.value < |s| && IsLetter(s[r.value])
    ensures r.Some? ==> forall i :: 0 <= i < r.value ==> !IsLetter(s[i])
    ensures r.None? <==> forall i :: 0 <= i < |s| ==> !IsLetter(s[i])
  {
    if |s| == 0 then None
    else if IsLetter(s[0]) then Some(0)
    else match IndexOfLetter(s[1..])
      case None => None
      case Some(n) => Some(n + 1)
  }

  /** An ASCII upper-case letter. */
  predicate IsUpper(c: char) {
    'A' <= c <= 'Z'
  }

  /** `unicode.ToLower`, restricted to ASCII. */
  function LowerChar(c: char): (r: char)
    ensures IsLetter(r) <==> IsLetter(c)
    ensures !IsUpper(r)
  {
    if 'A' <= c <= 'Z' then (c as int - 'A' as int + 'a' as int) as char else c
  }

  /**
    `strings.ToLower`, restricted to ASCII: no upper-case letter is left, each
    upper-case letter becomes its lower-case partner 32 code points on, and
    every other character stays as it is.
   */
  function Lower(s: string): (r: string)
    ensures |r| == |s|
    ensures forall i :: 0 <= i < |s| ==> r[i] == LowerChar(s[i])
    ensures forall i :: 0 <= i < |r| ==> !IsUpper(r[i])
    ensures forall i :: 0 <= i < |s| ==> (r[i] == s[i] <==> !IsUpper(s[i]))
    ensures forall i :: 0 <= i < |s| && IsUpper(s[i]) ==> r[i] as int == s[i] as int + 32
  {
    seq(|s|, i requires 0 <= i < |s| => LowerChar(s[i]))
  }

  /** Lower-casing leaves a string unchanged exactly when it holds no upper-case letter. */
  lemma LowerFixed(s: string)
    ensures Lower(s) == s <==> forall i :: 0 <= i < |s| ==> !IsUpper(s[i])
  {
    if forall i :: 0 <= i < |s| ==> !IsUpper(s[i]) {
      assert forall i :: 0 <= i < |s| ==> Lower(s)[i] == s[i];
    }
  }

  /** Lower-casing twice is lower-casing once. */
  lemma LowerIdempotent(s: string)
    ensures Lower(Lower(s)) == Lower(s)
  {
    LowerFixed(Lower(s));
  }

  /**
    `parsePeriod`: the text before the first letter is the value, read by
    `strconv.Atoi`; the rest, lower-cased, must be one of the four unit tokens.
   */
  function ParsePeriod(period: string): (r: Result<Period, Error>)
    ensures r.Failure? ==> r.error == InvalidPeriod
    ensures r.Success? ==> UnitOf(r.value.periodType).Some? && InInt64(r.value.value)
  {
    match IndexOfLetter(period)
    case None => Failure(InvalidPeriod)
    case Some(n) =>
      match Atoi(period[..n])
      case None => Failure(InvalidPeriod)
      case Some(v) =>
        var p := Lower(period[n..]);
        if p in {Constants.Year, Constants.Month, Constants.Day, Constants.Hour} then Success(Period(v, p))
        else Failure(InvalidPeriod)
  }

  /** The parsed query of a list request. */
  datatype ListQueryParams = ListQueryParams(period: Period, timezone: Location, t1: Time, t2: Time)

  /**
    `GetListQueryParams`: the period, the time zone, the start point and the end
    point are checked in that order and the first failure is reported. Loading a
    time zone and parsing a timestamp are supplied by the caller.
   */
  function GetListQueryParams(period: string, tz: string, t1: string, t2: string,
                              loadLocation: string -> Option<Location>,
                              parseTime: string -> Option<Time>): (r: Result<ListQueryParams, Error>)
    ensures r.Success? <==>
      ParsePeriod(period).Success? && loadLocation(tz).Some? && parseTime(t1).Some? && parseTime(t2).Some?
    ensures ParsePeriod(period).Failure? ==> r == Failure(InvalidPeriod)
    ensures ParsePeriod(period).Success? && loadLocation(tz).None? ==> r == Failure(InvalidTimezone)
    ensures ParsePeriod(period).Success? && loadLocation(tz).Some? && parseTime(t1).None? ==>
      r == Failure(InvalidStartPoint)
    ensures ParsePeriod(period).Success? && loadLocation(tz).Some? && parseTime(t1).Some? && parseTime(t2).None? ==>
      r == Failure(InvalidEndPoint)
    ensures r.Success? ==> r.value.period == ParsePeriod(period).value && r.value.timezone == loadLocation(tz).value
    ensures r.Success? ==>
      r.value.t1.unix == parseTime(t1).value.unix && r.value.t1.loc == r.value.timezone &&
      r.value.t2.unix == parseTime(t2).value.unix && r.value.t2.loc == r.value.timezone
  {
    var p :- ParsePeriod(period);
    var timeLoc :- Require(loadLocation(tz), InvalidTimezone);
    var startPoint :- Require(parseTime(t1), InvalidStartPoint);
    var endPoint :- Require(parseTime(t2), InvalidEndPoint);
    Success(ListQueryParams(p, timeLoc, In(startPoint, timeLoc), In(endPoint, timeLoc)))
  }

  /** An optional value, or the given error when it is missing. */
  function Require<T>(o: Option<T>, e: Error): (r: Result<T, Error>)
    ensures r.Success? <==> o.Some?
    ensures r.Success? ==> r.value == o.value
    ensures r.Failure? ==> r.error == e
  {
    match o
    case None => Failure(e)
    case Some(v) => Success(v)
  }

  // ---------------------------------------------------------------------------
  // Properties of the period parser

  /** A token without a letter, the empty one included, is rejected. */
  lemma NoLetterFails(period: string)
    requires forall i :: 0 <= i < |period| ==> !IsLetter(period[i])
    ensures ParsePeriod(period) == Failure(InvalidPeriod)
  {
  }

  /** A token whose text before the first letter is not an integer is rejected. */
  lemma BadValueFails(period: string, n: nat)
    requires n <= |period| && IndexOfLetter(period) == Some(n) && Atoi(period[..n]).None?
    ensures ParsePeriod(period) == Failure(InvalidPeriod)
  {
  }

  /**
    A token is accepted exactly when its text before the first letter is an
    integer and its rest, lower-cased, is one of the four tokens; the unit kept
    is that lower-cased rest.
   */
  lemma ParsePeriodSplit(period: string, n: nat, v: int)
    requires n <= |period| && IndexOfLetter(period) == Some(n) && Atoi(period[..n]) == Some(v)
    requires UnitOf(Lower(period[n..])).Some?
    ensures ParsePeriod(period) == Success(Period(v, Lower(period[n..])))
  {
  }

  /** A token whose unit, lower-cased, is not one of the four tokens is rejected. */
  lemma BadUnitFails(period: string, n: nat)
    requires n <= |period| && IndexOfLetter(period) == Some(n)
    requires UnitOf(Lower(period[n..])).None?
    ensures ParsePeriod(period) == Failure(InvalidPeriod)
  {
  }

  /** Writing any 64-bit value followed by a unit in any letter case parses back to that value and unit. */
  lemma ParsePeriodRoundTrip(v: int, unit: string)
    requires InInt64(v) && UnitOf(Lower(unit)).Some?
    ensures ParsePeriod(Itoa(v) + unit) == Success(Period(v, Lower(unit)))
  {
    var s := Itoa(v);
    var period := s + unit;
    ItoaChars(v);
    assert |unit| > 0 && IsLetter(unit[0]) by {
      assert |Lower(unit)| > 0 && IsLetter(Lower(unit)[0]);
    }
    assert forall i :: 0 <= i < |s| ==> !IsLetter(period[i]) by {
      forall i | 0 <= i < |s| ensures !IsLetter(period[i]) {
        assert period[i] == s[i];
      }
    }
    assert period[|s|] == unit[0];
    assert IndexOfLetter(period) == Some(|s|) by {
      FirstLetterAt(period, |s|);
    }
    assert period[..|s|] == s && period[|s|..] == unit;
    AtoiItoa(v);
  }

  /** The first letter is where no letter comes before and a letter stands. */
  lemma {:induction false} FirstLetterAt(s: string, n: nat)
    requires n < |s| && IsLetter(s[n]) && forall i :: 0 <= i < n ==> !IsLetter(s[i])
    ensures IndexOfLetter(s) == Some(n)
  {
    if n > 0 {
      FirstLetterAt(s[1..], n - 1);
    }
  }

  /** The unit tokens are the lower-case spellings of themselves, so each round-trips as written. */
  lemma TokenRoundTrip(v: int, u: Unit)
    requires InInt64(v)
    ensures ParsePeriod(Itoa(v) + Token(u)) == Success(Period(v, Token(u)))
  {
    assert Lower(Token(u)) == Token(u);
    ParsePeriodRoundTrip(v, Token(u));
  }

  /** Rejected examples: `""`, `"a"` and `"10w"`. */
  lemma ParsePeriodRejects()
    ensures ParsePeriod("") == Failure(InvalidPeriod)
    ensures ParsePeriod("a") == Failure(InvalidPeriod)
    ensures ParsePeriod("10w") == Failure(InvalidPeriod)
  {
    assert ParsePeriod("a") == Failure(InvalidPeriod) by {
      assert IndexOfLetter("a") == Some(0);
      assert Atoi("").None?;
    }
    assert ParsePeriod("10w") == Failure(InvalidPeriod) by {
      FirstLetterAt("10w", 2);
      assert "10w"[2..] == "w" && Lower("w") == "w";
    }
  }

  /** Accepted examples in lower case: `"1y"` and `"1h"`. */
  lemma ParsePeriodAccepts()
    ensures ParsePeriod("1y") == Success(Period(1, Constants.Year))
    ensures ParsePeriod("1h") == Success(Period(1, Constants.Hour))
  {
    assert ParsePeriod("1y") == Success(Period(1, Constants.Year)) by {
      assert "1y" == Itoa(1) + "y" && Lower("y") == "y";
      ParsePeriodRoundTrip(1, "y");
    }
    assert ParsePeriod("1h") == Success(Period(1, Constants.Hour)) by {
      assert "1h" == Itoa(1) + "h" && Lower("h") == "h";
      ParsePeriodRoundTrip(1, "h");
    }
  }

  /** An accepted example whose value `strconv.Atoi` reads with its sign: `"+1h"`. */
  lemma ParsePeriodSigned()
    ensures ParsePeriod("+1h") == Success(Period(1, Constants.Hour))
  {
    FirstLetterAt("+1h", 2);
    assert "+1h"[..2] == "+1" && "+1"[1..] == "1";
    assert "+1h"[2..] == "h" && Lower("h") == "h";
    ParsePeriodSplit("+1h", 2, 1);
  }

  /** An accepted example whose value `strconv.Atoi` reads past a leading zero: `"01h"`. */
  lemma ParsePeriodPadded()
    ensures ParsePeriod("01h") == Success(Period(1, Constants.Hour))
  {
    FirstLetterAt("01h", 2);
    assert "01h"[..2] == "01";
    assert Atoi("01") == Some(1) by {
      assert AllDigits("01");
      assert "01"[..1] == "0" && "0"[..0] == "";
    }
    assert "01h"[2..] == "h" && Lower("h") == "h";
    ParsePeriodSplit("01h", 2, 1);
  }

  /** Accepted examples in upper or mixed case, the unit lower-cased: `"1Mo"` and `"2D"`. */
  lemma ParsePeriodIgnoresCase()
    ensures ParsePeriod("1Mo") == Success(Period(1, Constants.Month))
    ensures ParsePeriod("2D") == Success(Period(2, Constants.Day))
  {
    assert ParsePeriod("1Mo") == Success(Period(1, Constants.Month)) by {
      assert "1Mo" == Itoa(1) + "Mo" && Lower("Mo") == "mo";
      ParsePeriodRoundTrip(1, "Mo");
    }
    assert ParsePeriod("2D") == Success(Period(2, Constants.Day)) by {
      assert "2D" == Itoa(2) + "D" && Lower("D") == "d";
      ParsePeriodRoundTrip(2, "D");
    }
  }
}
