/** The cell classifiers and parsers of the ingestion engine: date
    recognition, the generic numeric cleanup, locale-ambiguous date
    normalisation, and the "billions" valuation parser. */
module Helpers {
  import opened Text
  import opened Numbers

  const NBSP: char := '\U{00A0}'

  // ---------------------------------------------------------------------
  // isDateString

  /** `/^\d{4}-\d{2}-\d{2}$/`: no range check on month or day. */
  predicate IsIsoDate(s: string)
  {
    |s| == 10 && AllDigits(s[..4]) && s[4] == '-' && AllDigits(s[5..7]) &&
    s[7] == '-' && AllDigits(s[8..])
  }

  /** The three capture groups of `/^(\d{1,2})\/(\d{1,2})\/(\d{2}|\d{4})$/`. */
  datatype DateParts = DateParts(day: string, month: string, year: string)

  predicate WellFormed(p: DateParts)
  {
    && AllDigits(p.day) && 1 <= |p.day| <= 2
    && AllDigits(p.month) && 1 <= |p.month| <= 2
    && AllDigits(p.year) && (|p.year| == 2 || |p.year| == 4)
  }

  function DateText(p: DateParts): string
  {
    p.day + "/" + p.month + "/" + p.year
  }

  /** Matching the D/M/Y pattern: the groups are the pieces between the two
      slashes, since none of them can contain a slash. */
  function MatchDmy(s: string): (r: Option<DateParts>)
    ensures r.Some? ==> WellFormed(r.value) && s == DateText(r.value)
  {
    var pieces := Split(s, '/');
    if |pieces| == 3 && WellFormed(DateParts(pieces[0], pieces[1], pieces[2])) then
      Join3(pieces[0], pieces[1], pieces[2], '/');
      assert pieces == [pieces[0], pieces[1], pieces[2]];
      Some(DateParts(pieces[0], pieces[1], pieces[2]))
    else None
  }

  /** Every well-formed day/month/year text matches, with exactly its parts
      as the groups; with the postcondition of `MatchDmy` this makes the
      match an if-and-only-if. */
  lemma MatchDmyComplete(p: DateParts)
    requires WellFormed(p)
    ensures MatchDmy(DateText(p)) == Some(p)
  {
    var parts := [p.day, p.month, p.year];
    CountAbsent(p.day, '/');
    CountAbsent(p.month, '/');
    CountAbsent(p.year, '/');
    Join3(p.day, p.month, p.year, '/');
    SplitJoin(parts, '/');
  }

  lemma Join3(x: string, y: string, z: string, c: char)
    ensures Join([x, y, z], c) == x + [c] + y + [c] + z
  {
    assert [x, y, z][1..] == [y, z];
    assert [y, z][1..] == [z];
    assert Join([y, z], c) == y + [c] + z;
  }

  /** `isDateString`. */
  predicate IsDateString(s: string)
  {
    IsIsoDate(s) || MatchDmy(s).Some?
  }

  // ---------------------------------------------------------------------
  // parseDate

  /** The day-month swap: only when the month field exceeds 12 and the day
      field lies in 1..12. */
  predicate Swaps(dayNum: nat, monthNum: nat)
  {
    monthNum > 12 && dayNum <= 12 && dayNum >= 1
  }

  /** `parseDate`: D/M/Y (or M/D/Y, recognised by a month over 12) to
      `YYYY-MM-DD`; anything else is returned unchanged. */
  function ParseDate(s: string): (r: string)
    ensures MatchDmy(s).None? ==> r == s
    ensures MatchDmy(s).Some? ==> IsIsoDate(r)
  {
    match MatchDmy(s)
    case None => s
    case Some(p) => FormatDate(p)
  }

  /** The matching branch of `parseDate`: pad, swap, widen the year and
      join with dashes. */
  function FormatDate(p: DateParts): (r: string)
    requires WellFormed(p)
    ensures IsIsoDate(r)
  {
    var day := PadStart2(p.day);
    var month := PadStart2(p.month);
    var dayNum := DigitsValue(day);
    var monthNum := DigitsValue(month);
    var (d, m) := if Swaps(dayNum, monthNum) then (month, day) else (day, month);
    var y := if |p.year| == 2 then FullYear(p.year) else p.year;
    IsoDateShape(y, m, d);
    y + "-" + m + "-" + d
  }

  /** A well-formed day/month/year text is rewritten by the matching
      branch. */
  lemma ParseDateMatched(p: DateParts)
    requires WellFormed(p)
    ensures ParseDate(DateText(p)) == FormatDate(p)
  {
    MatchDmyComplete(p);
  }

  /** `(parseInt(y, 10) + 2000).toString()` for a two-digit year. */
  function FullYear(y: string): (r: string)
    requires AllDigits(y) && |y| == 2
    ensures AllDigits(r) && |r| == 4 && DigitsValue(r) == 2000 + DigitsValue(y)
  {
    DigitsValueBound(y);
    NatToStringFourDigits(DigitsValue(y) + 2000);
    NatToString(DigitsValue(y) + 2000)
  }

  lemma IsoDateShape(y: string, m: string, d: string)
    requires AllDigits(y) && |y| == 4 && AllDigits(m) && |m| == 2 && AllDigits(d) && |d| == 2
    ensures IsIsoDate(y + "-" + m + "-" + d)
  {
    var r := y + "-" + m + "-" + d;
    assert r[..4] == y && r[5..7] == m && r[8..] == d;
  }

  lemma IsoDateFields(y: string, m: string, d: string)
    requires |y| == 4 && |m| == 2 && |d| == 2
    ensures (y + "-" + m + "-" + d)[..4] == y
    ensures (y + "-" + m + "-" + d)[5..7] == m
    ensures (y + "-" + m + "-" + d)[8..] == d
  {
  }

  /** What `parseDate` computes from a matching input, stated on the numbers
      it writes: the year is 2000 + YY for a two-digit year and unchanged
      otherwise, and month and day are swapped exactly when the month field
      exceeds 12 while the day field is in 1..12. */
  lemma ParseDateFields(p: DateParts)
    requires WellFormed(p)
    ensures IsIsoDate(ParseDate(DateText(p)))
    ensures DigitsValue(ParseDate(DateText(p))[..4]) ==
              if |p.year| == 2 then 2000 + DigitsValue(p.year) else DigitsValue(p.year)
    ensures ParseDate(DateText(p))[..4] == p.year || |p.year| == 2
    ensures DigitsValue(ParseDate(DateText(p))[5..7]) ==
              if Swaps(DigitsValue(p.day), DigitsValue(p.month)) then DigitsValue(p.day) else DigitsValue(p.month)
    ensures DigitsValue(ParseDate(DateText(p))[8..]) ==
              if Swaps(DigitsValue(p.day), DigitsValue(p.month)) then DigitsValue(p.month) else DigitsValue(p.day)
  {
    MatchDmyComplete(p);
    var day := PadStart2(p.day);
    var month := PadStart2(p.month);
    var (d, m) := if Swaps(DigitsValue(day), DigitsValue(month)) then (month, day) else (day, month);
    var y := if |p.year| == 2 then FullYear(p.year) else p.year;
    assert ParseDate(DateText(p)) == y + "-" + m + "-" + d;
    IsoDateFields(y, m, d);
  }

  /** Every string `isDateString` accepts becomes an ISO date: ISO input
      passes through untouched (it has no slash), D/M/Y input is rewritten. */
  lemma ParseDateYieldsIso(s: string)
    requires IsDateString(s)
    ensures IsIsoDate(ParseDate(s))
    ensures IsIsoDate(s) ==> ParseDate(s) == s
  {
    if IsIsoDate(s) {
      assert forall i :: 0 <= i < |s| ==> s[i] != '/' by {
        forall i | 0 <= i < |s| ensures s[i] != '/' {
          if i < 4 { assert s[i] == s[..4][i]; }
          else if 5 <= i < 7 { assert s[i] == s[5..7][i - 5]; }
          else if 8 <= i { assert s[i] == s[8..][i - 8]; }
        }
      }
      CountAbsent(s, '/');
    }
  }

  // ---------------------------------------------------------------------
  // the numeric cleanup chain shared by isNumericString and seed's generic
  // numeric coercion

  predicate IsNumberChar(c: char) { IsDigit(c) || c == '.' || c == ',' || c == '-' }

  /** `.replace(/[^\d.,\-]/g, '')`. */
  function StripNonNumeric(s: string): (r: string)
    ensures forall i :: 0 <= i < |r| ==> IsNumberChar(r[i])
    ensures |r| <= |s|
  {
    if s == [] then []
    else (if IsNumberChar(s[0]) then [s[0]] else []) + StripNonNumeric(s[1..])
  }

  /** `.replace(/\.(?=\d{3,}\b)/g, '')` on a string over `[0-9.,-]`: a point
      goes when the digit run after it is at least three long. The `\b` after
      the greedy `\d{3,}` can only hold at the end of the whole run, because
      the character after a run is `.`, `,`, `-` or the end, all word
      boundaries, while a digit is not one. */
  function DropThousandsPoints(s: string): (r: string)
    ensures |r| <= |s|
  {
    if s == [] then []
    else
      var h := if s[0] == '.' && DigitRun(s, 1) >= 3 then [] else [s[0]];
      h + DropThousandsPoints(s[1..])
  }

  /** Dropping points only removes characters. */
  lemma {:induction false} DropKeepsNumberChars(s: string)
    requires forall i :: 0 <= i < |s| ==> IsNumberChar(s[i])
    ensures forall i :: 0 <= i < |DropThousandsPoints(s)| ==> IsNumberChar(DropThousandsPoints(s)[i])
  {
    if s != [] {
      DropKeepsNumberChars(s[1..]);
    }
  }

  /** The whole chain: non-breaking spaces to spaces, strip, drop
      thousands points, commas to points. */
  function CleanNumeric(raw: string): (r: string)
    ensures IsCleaned(r)
  {
    var t := DropThousandsPoints(StripNonNumeric(ReplaceChar(raw, NBSP, ' ')));
    DropKeepsNumberChars(StripNonNumeric(ReplaceChar(raw, NBSP, ' ')));
    CommasToPointsCleaned(t);
    ReplaceChar(t, ',', '.')
  }

  /** `isNumericString`: `parseFloat` of the cleaned string is not NaN. */
  predicate IsNumericString(raw: string)
  {
    ParseFloat(CleanNumeric(raw)).Some?
  }

  // ---------------------------------------------------------------------
  // parseValuation

  /** The separator rule of `parseValuation`: with both separators, points
      group thousands and the comma is the decimal point; a lone comma is the
      decimal point; otherwise the string is left as it is. */
  function DisambiguateSeparators(s: string): (r: string)
    requires forall i :: 0 <= i < |s| ==> IsNumberChar(s[i])
    ensures IsCleaned(r)
  {
    if Count(s, '.') > 0 && Count(s, ',') > 0 then
      var t := RemoveChar(s, '.');
      RemoveCharKeeps(s, '.');
      assert forall i :: 0 <= i < |t| ==> IsNumberChar(t[i]) by {
        forall i | 0 <= i < |t| ensures IsNumberChar(t[i]) {
          assert t[i] in s;
        }
      }
      CommasToPointsCleaned(t);
      ReplaceChar(t, ',', '.')
    else if Count(s, ',') > 0 then
      CommasToPointsCleaned(s);
      ReplaceChar(s, ',', '.')
    else
      CountAbsent(s, ',');
      assert forall i :: 0 <= i < |s| ==> s[i] != ',' && IsNumberChar(s[i]);
      s
  }

  lemma CommasToPointsCleaned(s: string)
    requires forall i :: 0 <= i < |s| ==> IsNumberChar(s[i])
    ensures IsCleaned(ReplaceChar(s, ',', '.'))
  {
    var r := ReplaceChar(s, ',', '.');
    forall i | 0 <= i < |r| ensures InCleanAlphabet(r[i]) {
      assert IsNumberChar(s[i]);
    }
  }

  /** `parseValuation`: the cleaned amount times one billion, or `None`
      (null) when no prefix of it is a number. */
  function ParseValuation(raw: string): (r: Option<Decimal>)
    ensures r.None? <==> ParseFloat(ValuationText(raw)).None?
    ensures r.Some? ==> r.value.Value() == ParseFloat(ValuationText(raw)).value.Value() * 1000000000.0
  {
    match ParseFloat(ValuationText(raw))
    case None => None
    case Some(d) => Some(TimesBillion(d))
  }

  /** The string `parseValuation` hands to `parseFloat`. */
  function ValuationText(raw: string): (r: string)
    ensures IsCleaned(r)
  {
    DisambiguateSeparators(StripNonNumeric(Trim(ReplaceChar(raw, NBSP, ' '))))
  }

  // ---------------------------------------------------------------------
  // what the cleanup steps do

  lemma {:induction false} StripAppend(x: string, y: string)
    ensures StripNonNumeric(x + y) == StripNonNumeric(x) + StripNonNumeric(y)
  {
    if x == [] {
      assert x + y == y;
    } else {
      assert (x + y)[1..] == x[1..] + y;
      StripAppend(x[1..], y);
    }
  }

  lemma {:induction false} StripNumberChars(x: string)
    requires forall i :: 0 <= i < |x| ==> IsNumberChar(x[i])
    ensures StripNonNumeric(x) == x
  {
    if x != [] {
      StripNumberChars(x[1..]);
    }
  }

  lemma {:induction false} StripWhitespace(x: string)
    requires forall i :: 0 <= i < |x| ==> IsWhitespace(x[i])
    ensures StripNonNumeric(x) == []
  {
    if x != [] {
      StripWhitespace(x[1..]);
    }
  }

  /** Trimming before the strip, as `parseValuation` does, changes nothing:
      what `trim` removes, the strip removes too. */
  lemma StripIgnoresTrim(x: string)
    ensures StripNonNumeric(Trim(x)) == StripNonNumeric(x)
  {
    var k := LeadingWhitespace(x);
    var t := Trim(x);
    var e := k + |t|;
    var pre, post := x[..k], x[e..];
    forall i | 0 <= i < |pre| ensures IsWhitespace(pre[i]) {
      assert pre[i] == x[i];
    }
    forall i | 0 <= i < |post| ensures IsWhitespace(post[i]) {
      assert post[i] == x[e + i];
    }
    SliceThree(x, k, e);
    StripAroundWhitespace(pre, t, post);
  }

  lemma SliceThree<T>(x: seq<T>, a: nat, b: nat)
    requires a <= b <= |x|
    ensures x == x[..a] + (x[a..b] + x[b..])
  {
  }

  lemma StripAroundWhitespace(pre: string, t: string, post: string)
    requires forall i :: 0 <= i < |pre| ==> IsWhitespace(pre[i])
    requires forall i :: 0 <= i < |post| ==> IsWhitespace(post[i])
    ensures StripNonNumeric(pre + (t + post)) == StripNonNumeric(t)
  {
    StripAppend(pre, t + post);
    StripAppend(t, post);
    StripWhitespace(pre);
    StripWhitespace(post);
    assert [] + (StripNonNumeric(t) + []) == StripNonNumeric(t);
  }

  /** Turning non-breaking spaces into spaces before the strip changes
      nothing either: both are removed. */
  lemma {:induction false} StripIgnoresNbsp(x: string)
    ensures StripNonNumeric(ReplaceChar(x, NBSP, ' ')) == StripNonNumeric(x)
  {
    if x != [] {
      assert ReplaceChar(x, NBSP, ' ')[1..] == ReplaceChar(x[1..], NBSP, ' ');
      StripIgnoresNbsp(x[1..]);
    }
  }

  lemma {:induction false} DropDigits(a: string, rest: string)
    requires AllDigits(a)
    ensures DropThousandsPoints(a + rest) == a + DropThousandsPoints(rest)
  {
    if a == [] {
      assert a + rest == rest;
    } else {
      assert (a + rest)[0] == a[0] && (a + rest)[1..] == a[1..] + rest;
      DropDigits(a[1..], rest);
    }
  }

  lemma DropComma(rest: string)
    ensures DropThousandsPoints("," + rest) == "," + DropThousandsPoints(rest)
  {
    assert ("," + rest)[1..] == rest;
  }

  /** A point followed by a digit run of length `n` goes exactly when
      `n >= 3`. */
  lemma DropPoint(rest: string)
    ensures DropThousandsPoints("." + rest) ==
              if DigitRun(rest, 0) >= 3 then DropThousandsPoints(rest) else "." + DropThousandsPoints(rest)
  {
    var s := "." + rest;
    assert s[1..] == rest;
    var n := DigitRun(rest, 0);
    DigitRunMaximal(rest, 0);
    assert forall j :: 1 <= j < 1 + n ==> s[j] == rest[j - 1];
    DigitRunIs(s, 1, n);
  }

  /** The cleanup of a string already over the number alphabet. */
  lemma CleanNumberChars(raw: string)
    ensures CleanNumeric(raw) ==
              ReplaceChar(DropThousandsPoints(StripNonNumeric(raw)), ',', '.')
  {
    StripIgnoresNbsp(raw);
  }

  /** A string that starts with a digit is a numeric string: the cleanup
      keeps that digit in front, and a digit is a numeric prefix. */
  lemma LeadingDigitIsNumeric(s: string)
    requires |s| >= 1 && IsDigit(s[0])
    ensures IsNumericString(s)
  {
    var c := CleanNumeric(s);
    CleanNumberChars(s);
    StripAppend([s[0]], s[1..]);
    assert s == [s[0]] + s[1..];
    assert StripNonNumeric(s) == [s[0]] + StripNonNumeric(s[1..]);
    DropDigits([s[0]], StripNonNumeric(s[1..]));
    assert c[0] == s[0];
    ParseFloatLeadingDigit(c);
  }

  /** Every date string is also a numeric string (its first character is a
      digit). This is why the type inference tests for dates before
      numbers. */
  lemma DateStringIsNumeric(s: string)
    requires IsDateString(s)
    ensures IsNumericString(s)
  {
    assert |s| >= 1 && IsDigit(s[0]) by {
      if !IsIsoDate(s) {
        var p := MatchDmy(s).value;
        assert s[0] == p.day[0];
      } else {
        assert s[0] == s[..4][0];
      }
    }
    LeadingDigitIsNumeric(s);
  }

  // ---------------------------------------------------------------------
  // the cleanup on the shapes it was written for

  lemma DropShortFraction(a: string, b: string)
    requires AllDigits(a) && AllDigits(b) && |b| < 3
    ensures DropThousandsPoints(a + "." + b) == a + "." + b
  {
    assert a + "." + b == a + ("." + b);
    DropDigits(a, "." + b);
    DigitRunIs(b, 0, |b|);
    DropPoint(b);
    DropDigits(b, []);
    assert b + [] == b;
  }

  lemma DropLongFraction(a: string, b: string)
    requires AllDigits(a) && AllDigits(b) && |b| >= 3
    ensures DropThousandsPoints(a + "." + b) == a + b
  {
    calc {
      DropThousandsPoints(a + "." + b);
      { assert a + "." + b == a + ("." + b); }
      DropThousandsPoints(a + ("." + b));
      { DropDigits(a, "." + b); }
      a + DropThousandsPoints("." + b);
      { DigitRunIs(b, 0, |b|); DropPoint(b); }
      a + DropThousandsPoints(b);
      { DropDigits(b, []); assert b + [] == b; }
      a + b;
    }
  }

  /** A digit string survives the cleanup unchanged. */
  lemma DropAllDigits(b: string)
    requires AllDigits(b)
    ensures DropThousandsPoints(b) == b
  {
    DropDigits(b, []);
    assert b + [] == b;
  }

  /** A point before a run of at least three digits goes. */
  lemma DropGroupPoint(g: string, rest: string)
    requires AllDigits(g) && |g| >= 3
    requires rest == [] || !IsDigit(rest[0])
    ensures DropThousandsPoints("." + (g + rest)) == g + DropThousandsPoints(rest)
  {
    DigitRunIs(g + rest, 0, |g|);
    DropPoint(g + rest);
    DropDigits(g, rest);
  }

  /** A point before a run of fewer than three digits stays. */
  lemma DropDecimalPoint(b: string)
    requires AllDigits(b) && |b| < 3
    ensures DropThousandsPoints("." + b) == "." + b
  {
    DigitRunIs(b, 0, |b|);
    DropPoint(b);
    DropAllDigits(b);
  }

  lemma DropCommaDigits(b: string)
    requires AllDigits(b)
    ensures DropThousandsPoints("," + b) == "," + b
  {
    DropComma(b);
    DropAllDigits(b);
  }

  lemma DropGroupedComma(a: string, g: string, b: string)
    requires AllDigits(a) && AllDigits(g) && AllDigits(b) && |g| >= 3
    ensures DropThousandsPoints(a + "." + g + "," + b) == a + g + "," + b
  {
    Regroup5(a, ".", g, ",", b);
    DropDigits(a, "." + (g + ("," + b)));
    DropGroupPoint(g, "," + b);
    DropCommaDigits(b);
    Regroup4(a, g, ",", b);
  }

  lemma DropUsGrouping(a: string, g: string, b: string)
    requires AllDigits(a) && AllDigits(g) && AllDigits(b) && |b| < 3
    ensures DropThousandsPoints(a + "," + g + "." + b) == a + "," + g + "." + b
  {
    Regroup5(a, ",", g, ".", b);
    DropDigits(a, "," + (g + ("." + b)));
    DropComma(g + ("." + b));
    DropDigits(g, "." + b);
    DropDecimalPoint(b);
  }

  /** Turning the commas of `x + "," + y` into points, when `x` and `y`
      have none. */
  lemma CommaToPoint(x: string, y: string)
    requires forall i :: 0 <= i < |x| ==> x[i] != ','
    requires forall i :: 0 <= i < |y| ==> y[i] != ','
    ensures ReplaceChar(x + "," + y, ',', '.') == x + "." + y
  {
    var s := x + "," + y;
    var r := ReplaceChar(s, ',', '.');
    forall i | 0 <= i < |r| ensures r[i] == (x + "." + y)[i] {
      if i < |x| { assert s[i] == x[i]; } else if i > |x| { assert s[i] == y[i - |x| - 1]; }
    }
  }

  /** Digit strings around a comma-free middle have no comma. */
  lemma CommaFree(a: string, m: string, b: string)
    requires AllDigits(a) && AllDigits(b) && forall i :: 0 <= i < |m| ==> m[i] != ','
    ensures forall i :: 0 <= i < |a + m + b| ==> (a + m + b)[i] != ','
  {
    var s := a + m + b;
    forall i | 0 <= i < |s| ensures s[i] != ',' {
      if i < |a| { assert s[i] == a[i]; }
      else if i < |a| + |m| { assert s[i] == m[i - |a|]; }
      else { assert s[i] == b[i - |a| - |m|]; }
    }
  }

  lemma NoCommaInDigits(a: string)
    requires AllDigits(a)
    ensures forall i :: 0 <= i < |a| ==> a[i] != ','
  {
  }

  // ---------------------------------------------------------------------
  // the generic numeric path on the shapes it was written for

  /** European grouping: `a.ggg,b` (three or more digits after the point)
      reads as `agg.b`, e.g. "1.234,56" is 1234.56. */
  lemma NumericGroupedDecimalComma(raw: string, a: string, g: string, b: string)
    requires AllDigits(a) && AllDigits(g) && AllDigits(b) && |a| >= 1 && |g| >= 3
    requires StripNonNumeric(raw) == a + "." + g + "," + b
    ensures AllDigits(a + g + b)
    ensures ParseFloat(CleanNumeric(raw)) == Some(Decimal(DigitsValue(a + g + b), |b|))
  {
    DigitsValueAppend(a, g);
    CleanGroupedComma(raw, a, g, b);
    ParseFloatPointed(a + g, b, []);
  }

  lemma CleanGroupedComma(raw: string, a: string, g: string, b: string)
    requires AllDigits(a) && AllDigits(g) && AllDigits(b) && |g| >= 3
    requires StripNonNumeric(raw) == a + "." + g + "," + b
    ensures CleanNumeric(raw) == (a + g) + "." + b + []
  {
    CleanNumberChars(raw);
    DropGroupedComma(a, g, b);
    DigitsValueAppend(a, g);
    NoCommaInDigits(a + g);
    NoCommaInDigits(b);
    CommaToPoint(a + g, b);
  }

  /** A point followed by fewer than three digits is a decimal point:
      "3.14" is 3.14. */
  lemma NumericShortFraction(raw: string, a: string, b: string)
    requires AllDigits(a) && AllDigits(b) && |a| + |b| >= 1 && |b| < 3
    requires StripNonNumeric(raw) == a + "." + b
    ensures AllDigits(a + b)
    ensures ParseFloat(CleanNumeric(raw)) == Some(Decimal(DigitsValue(a + b), |b|))
  {
    assert CleanNumeric(raw) == a + "." + b + [] by {
      CleanNumberChars(raw);
      DropShortFraction(a, b);
      CommaFree(a, ".", b);
      ReplaceAbsent(a + "." + b, ',', '.');
    }
    ParseFloatPointed(a, b, []);
  }

  /** A point followed by three or more digits is read as a thousands
      separator even when no comma follows: "1.234" is 1234, not 1.234. */
  lemma NumericLongFractionIsGrouping(raw: string, a: string, b: string)
    requires AllDigits(a) && AllDigits(b) && |b| >= 3
    requires StripNonNumeric(raw) == a + "." + b
    ensures AllDigits(a + b)
    ensures ParseFloat(CleanNumeric(raw)) == Some(Decimal(DigitsValue(a + b), 0))
  {
    DigitsValueAppend(a, b);
    assert CleanNumeric(raw) == (a + b) + [] by {
      CleanNumberChars(raw);
      DropLongFraction(a, b);
      NoCommaInDigits(a + b);
      ReplaceAbsent(a + b, ',', '.');
    }
    ParseFloatInteger(a + b, []);
  }

  /** US grouping is misread: "1,234.50" cleans to "1.234.50", whose numeric
      prefix is 1.234. */
  lemma NumericUsGroupingMisread(raw: string, a: string, g: string, b: string)
    requires AllDigits(a) && AllDigits(g) && AllDigits(b) && |a| >= 1 && |b| < 3
    requires StripNonNumeric(raw) == a + "," + g + "." + b
    ensures AllDigits(a + g)
    ensures ParseFloat(CleanNumeric(raw)) == Some(Decimal(DigitsValue(a + g), |g|))
  {
    CleanUsGrouping(raw, a, g, b);
    ParseFloatPointed(a, g, "." + b);
  }

  lemma CleanUsGrouping(raw: string, a: string, g: string, b: string)
    requires AllDigits(a) && AllDigits(g) && AllDigits(b) && |b| < 3
    requires StripNonNumeric(raw) == a + "," + g + "." + b
    ensures CleanNumeric(raw) == a + "." + g + ("." + b)
  {
    CleanNumberChars(raw);
    DropUsGrouping(a, g, b);
    NoCommaInDigits(a);
    CommaFree(g, ".", b);
    RegroupTail(a, ",", g, ".", b);
    CommaToPoint(a, g + "." + b);
    RegroupTail(a, ".", g, ".", b);
  }

  // ---------------------------------------------------------------------
  // the valuation path on the shapes it was written for

  /** The number characters of `parseValuation`'s input decide its result. */
  lemma ValuationTextStripped(raw: string)
    ensures ValuationText(raw) == DisambiguateSeparators(StripNonNumeric(raw))
  {
    StripIgnoresTrim(ReplaceChar(raw, NBSP, ' '));
    StripIgnoresNbsp(raw);
  }

  /** A lone comma is the decimal point: "US$350,00" is 350 billion. */
  lemma ValuationDecimalComma(raw: string, a: string, b: string)
    requires AllDigits(a) && AllDigits(b) && |a| + |b| >= 1
    requires StripNonNumeric(raw) == a + "," + b
    ensures AllDigits(a + b)
    ensures ParseValuation(raw) == Some(TimesBillion(Decimal(DigitsValue(a + b), |b|)))
  {
    ValuationTextDecimalComma(raw, a, b);
    ParseFloatPointed(a, b, []);
  }

  lemma ValuationTextDecimalComma(raw: string, a: string, b: string)
    requires AllDigits(a) && AllDigits(b)
    requires StripNonNumeric(raw) == a + "," + b
    ensures ValuationText(raw) == a + "." + b + []
  {
    ValuationTextStripped(raw);
    CountAbsent(a, '.');
    CountAbsent(b, '.');
    CountAbsent(a, ',');
    CountAbsent(b, ',');
    CountAround(a, ',', b, '.');
    CountAround(a, ',', b, ',');
    NoCommaInDigits(a);
    NoCommaInDigits(b);
    CommaToPoint(a, b);
  }

  /** With both separators the points group thousands, whatever the group
      lengths, and the comma is the decimal point: "1.234,56" is 1234.56
      billion. */
  lemma ValuationGroupedDecimalComma(raw: string, a: string, g: string, b: string)
    requires AllDigits(a) && AllDigits(g) && AllDigits(b) && |a| >= 1
    requires StripNonNumeric(raw) == a + "." + g + "," + b
    ensures AllDigits(a + g + b)
    ensures ParseValuation(raw) == Some(TimesBillion(Decimal(DigitsValue(a + g + b), |b|)))
  {
    DigitsValueAppend(a, g);
    assert ValuationText(raw) == (a + g) + "." + b + [] by {
      ValuationTextStripped(raw);
      var s := a + "." + g + "," + b;
      assert Count(s, '.') > 0 && Count(s, ',') > 0 by {
        assert s[|a|] == '.' && s[|a| + 1 + |g|] == ',';
        CountAbsent(s, '.');
        CountAbsent(s, ',');
      }
      assert RemoveChar(s, '.') == (a + g) + "," + b by {
        CountAbsent(a, '.');
        CountAbsent(g, '.');
        CountAbsent(b, '.');
        RemovePointsGrouped(a, g, b);
      }
      NoCommaInDigits(a + g);
      NoCommaInDigits(b);
      CommaToPoint(a + g, b);
    }
    ParseFloatPointed(a + g, b, []);
    assert a + g + b == (a + g) + b;
  }

  lemma RemovePointsGrouped(a: string, g: string, b: string)
    requires Count(a, '.') == 0 && Count(g, '.') == 0 && Count(b, '.') == 0
    ensures RemoveChar(a + "." + g + "," + b, '.') == (a + g) + "," + b
  {
    var y := g + ("," + b);
    RemovePointsTail(g, b);
    RemoveCharAbsent(a, '.');
    RemoveCharAppend(a, "." + y, '.');
    Regroup5(a, ".", g, ",", b);
    Regroup4(a, g, ",", b);
  }

  lemma RemovePointsTail(g: string, b: string)
    requires Count(g, '.') == 0 && Count(b, '.') == 0
    ensures RemoveChar("." + (g + ("," + b)), '.') == g + ("," + b)
  {
    var y := g + ("," + b);
    RemoveCharAbsent(g, '.');
    RemoveCharAbsent(b, '.');
    assert RemoveChar(",", '.') == ",";
    RemoveCharAppend(",", b, '.');
    RemoveCharAppend(g, "," + b, '.');
    assert RemoveChar(".", '.') == [];
    RemoveCharAppend(".", y, '.');
    assert [] + y == y;
  }

  /** US grouping is misread here too: with both separators present the
      point is taken for a grouping mark and the comma for the decimal
      point, so "1,234.56" reads as 1.23456 billion. */
  lemma ValuationUsGroupingMisread(raw: string, a: string, g: string, b: string)
    requires AllDigits(a) && AllDigits(g) && AllDigits(b) && |a| >= 1
    requires StripNonNumeric(raw) == a + "," + g + "." + b
    ensures AllDigits(a + (g + b))
    ensures ParseValuation(raw) == Some(TimesBillion(Decimal(DigitsValue(a + (g + b)), |g + b|)))
  {
    var h := g + b;
    assert AllDigits(h);
    ValuationTextUsGrouping(raw, a, g, b);
    ValuationPointed(raw, a, h);
  }

  lemma ValuationTextUsGrouping(raw: string, a: string, g: string, b: string)
    requires AllDigits(a) && AllDigits(g) && AllDigits(b)
    requires StripNonNumeric(raw) == a + "," + g + "." + b
    ensures ValuationText(raw) == a + "." + (g + b) + []
  {
    ValuationTextStripped(raw);
    DisambiguateUsGrouping(a, g, b);
  }

  /** A valuation whose text is digits, one point and digits. */
  lemma ValuationPointed(raw: string, a: string, h: string)
    requires AllDigits(a) && AllDigits(h) && |a| >= 1
    requires ValuationText(raw) == a + "." + h + []
    ensures AllDigits(a + h)
    ensures ParseValuation(raw) == Some(TimesBillion(Decimal(DigitsValue(a + h), |h|)))
  {
    ParseFloatPointed(a, h, []);
  }

  lemma DisambiguateUsGrouping(a: string, g: string, b: string)
    requires AllDigits(a) && AllDigits(g) && AllDigits(b)
    requires forall i :: 0 <= i < |a + "," + g + "." + b| ==> IsNumberChar((a + "," + g + "." + b)[i])
    ensures DisambiguateSeparators(a + "," + g + "." + b) == a + "." + (g + b) + []
  {
    var s := a + "," + g + "." + b;
    assert Count(s, '.') > 0 && Count(s, ',') > 0 by {
      assert s[|a|] == ',' && s[|a| + 1 + |g|] == '.';
      CountAbsent(s, '.');
      CountAbsent(s, ',');
    }
    assert RemoveChar(s, '.') == a + "," + (g + b) by {
      CountAbsent(a, '.');
      CountAbsent(g, '.');
      CountAbsent(b, '.');
      RemoveUsPoint(a, g, b);
    }
    NoCommaInDigits(a);
    NoCommaInDigits(g + b);
    CommaToPoint(a, g + b);
  }

  lemma RemoveUsPoint(a: string, g: string, b: string)
    requires Count(a, '.') == 0 && Count(g, '.') == 0 && Count(b, '.') == 0
    ensures RemoveChar(a + "," + g + "." + b, '.') == a + "," + (g + b)
  {
    var w := "." + b;
    var z := g + w;
    var y := "," + z;
    RemoveLeadingPoint(b);
    RemoveCharAbsent(g, '.');
    RemoveCharAppend(g, w, '.');
    assert RemoveChar(z, '.') == g + b;
    assert RemoveChar(",", '.') == ",";
    RemoveCharAppend(",", z, '.');
    assert RemoveChar(y, '.') == "," + (g + b);
    RemoveCharAbsent(a, '.');
    RemoveCharAppend(a, y, '.');
    assert RemoveChar(a + y, '.') == a + ("," + (g + b));
    Regroup5(a, ",", g, ".", b);
    assert a + "," + g + "." + b == a + y;
    Regroup3(a, ",", g + b);
  }

  lemma RemoveLeadingPoint(b: string)
    requires Count(b, '.') == 0
    ensures RemoveChar("." + b, '.') == b
  {
    RemoveCharAbsent(b, '.');
    assert RemoveChar(".", '.') == [];
    RemoveCharAppend(".", b, '.');
    assert [] + b == b;
  }

  /** A lone point stays the decimal point, whatever follows it: "350.5" is
      350.5 billion (unlike the generic numeric path, which would read
      "350.500" as 350500). */
  lemma ValuationDecimalPoint(raw: string, a: string, b: string)
    requires AllDigits(a) && AllDigits(b) && |a| + |b| >= 1
    requires StripNonNumeric(raw) == a + "." + b
    ensures AllDigits(a + b)
    ensures ParseValuation(raw) == Some(TimesBillion(Decimal(DigitsValue(a + b), |b|)))
  {
    assert ValuationText(raw) == a + "." + b + [] by {
      ValuationTextStripped(raw);
      var s := a + "." + b;
      assert Count(s, ',') == 0 by {
        CommaFree(a, ".", b);
        CountAbsent(s, ',');
      }
    }
    ParseFloatPointed(a, b, []);
  }
}
