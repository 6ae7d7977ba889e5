/** Numbers as the ingestion engine computes them, made exact: a decimal
    value is a mantissa and a power-of-ten scale, and JavaScript's
    `parseFloat` is modelled on the only alphabet it is ever given here,
    digits, `.` and `-` (every caller cleans its input to that alphabet
    first). */
module Numbers {
  import opened Text

  datatype Option<T> = None | Some(value: T)

  /** The number `mantissa / 10^scale`. */
  datatype Decimal = Decimal(mantissa: int, scale: nat) {
    function Value(): real {
      mantissa as real / Pow10(scale) as real
    }
  }

  /** `num * 1_000_000_000`, exactly. */
  function TimesBillion(d: Decimal): (r: Decimal)
    ensures r.Value() == d.Value() * 1000000000.0
  {
    var r := Decimal(d.mantissa * 1000000000, d.scale);
    assert r.Value() == (d.mantissa as real * 1000000000.0) / Pow10(d.scale) as real;
    r
  }

  predicate InCleanAlphabet(c: char) { IsDigit(c) || c == '.' || c == '-' }

  /** The alphabet left after the engine's cleanup chains. */
  predicate IsCleaned(s: string) { forall i :: 0 <= i < |s| ==> InCleanAlphabet(s[i]) }

  /** `t` without its leading minus sign, if it has one. */
  function Unsigned(t: string): string
  {
    if |t| > 0 && t[0] == '-' then t[1..] else t
  }

  /** ECMAScript's StrDecimalLiteral over the alphabet `[0-9.-]`: an optional
      `-`, then digits with at most one `.` among them, and at least one
      digit. */
  predicate IsLiteral(t: string)
  {
    var u := Unsigned(t);
    DigitsAndPoints(u) && AtMostOnePoint(u) && HasDigit(u)
  }

  predicate DigitsAndPoints(u: string) { forall i :: 0 <= i < |u| ==> IsDigit(u[i]) || u[i] == '.' }

  predicate AtMostOnePoint(u: string) { forall i, j :: 0 <= i < j < |u| && u[i] == '.' ==> u[j] != '.' }

  predicate HasDigit(u: string) { exists i :: 0 <= i < |u| && IsDigit(u[i]) }

  /** The mathematical value of a literal: its digits read as an integer,
      scaled by the number of digits after the point. */
  function LiteralValue(t: string): Decimal
    requires IsLiteral(t)
  {
    var u := Unsigned(t);
    var sign := if |t| > 0 && t[0] == '-' then -1 else 1;
    var p := IndexOf(u, '.');
    if p == |u| then
      Decimal(sign * DigitsValue(u), 0)
    else
      assert AllDigits(u[..p]);
      assert AllDigits(u[p + 1..]) by {
        forall j | p + 1 <= j < |u| ensures IsDigit(u[j]) {
          assert u[j] != '.';
        }
      }
      DigitsValueAppend(u[..p], u[p + 1..]);
      Decimal(sign * DigitsValue(u[..p] + u[p + 1..]), |u| - p - 1)
  }

  /** Length of the prefix of `s` that `parseFloat` reads, 0 when there is
      none: a sign, a digit run, and a point followed by a digit run. */
  function LiteralLength(s: string): (n: nat)
    requires IsCleaned(s)
    ensures n <= |s|
  {
    var sg := if |s| > 0 && s[0] == '-' then 1 else 0;
    var a := DigitRun(s, sg);
    if sg + a < |s| && s[sg + a] == '.' then
      var b := DigitRun(s, sg + a + 1);
      if a + b == 0 then 0 else sg + a + 1 + b
    else if a == 0 then 0 else sg + a
  }

  /** JavaScript's `parseFloat` on a cleaned string: the value of the
      longest prefix that is a decimal literal, or `None` (NaN) when no
      prefix is one (see `ParseFloatLongestPrefix`). */
  function ParseFloat(s: string): (r: Option<Decimal>)
    requires IsCleaned(s)
  {
    var n := LiteralLength(s);
    if n == 0 then None
    else
      LongestLiteralPrefix(s);
      Some(LiteralValue(s[..n]))
  }

  /** `parseFloat` reads the longest literal prefix: it yields a number
      exactly when some prefix is a literal, and then the value of the
      longest one. */
  lemma ParseFloatLongestPrefix(s: string)
    requires IsCleaned(s)
    ensures ParseFloat(s).None? ==> forall k :: 0 <= k <= |s| ==> !IsLiteral(s[..k])
    ensures ParseFloat(s).Some? ==>
              IsLiteral(s[..LiteralLength(s)]) &&
              ParseFloat(s).value == LiteralValue(s[..LiteralLength(s)]) &&
              forall k :: LiteralLength(s) < k <= |s| ==> !IsLiteral(s[..k])
  {
    LongestLiteralPrefix(s);
    if LiteralLength(s) == 0 {
      assert !IsLiteral(s[..0]);
    }
  }

  /** `LiteralLength` finds a literal prefix whenever there is one, and no
      longer prefix is a literal. */
  lemma LongestLiteralPrefix(s: string)
    requires IsCleaned(s)
    ensures LiteralLength(s) > 0 ==> IsLiteral(s[..LiteralLength(s)])
    ensures forall k :: LiteralLength(s) < k <= |s| ==> !IsLiteral(s[..k])
  {
    var L := LiteralLength(s);
    var sg := if |s| > 0 && s[0] == '-' then 1 else 0;
    var a := DigitRun(s, sg);
    var dot := sg + a < |s| && s[sg + a] == '.';
    var b := if dot then DigitRun(s, sg + a + 1) else 0;
    if L > 0 {
      LiteralPrefix(s, sg, a, dot, b);
    }
    forall k | L < k <= |s| ensures !IsLiteral(s[..k]) {
      NotLiteralBeyond(s, k, sg, a, dot, b);
    }
  }

  lemma LiteralPrefix(s: string, sg: nat, a: nat, dot: bool, b: nat)
    requires IsCleaned(s)
    requires sg == if |s| > 0 && s[0] == '-' then 1 else 0
    requires a == DigitRun(s, sg)
    requires dot == (sg + a < |s| && s[sg + a] == '.')
    requires b == if dot then DigitRun(s, sg + a + 1) else 0
    requires LiteralLength(s) > 0
    ensures IsLiteral(s[..LiteralLength(s)])
  {
    var L := LiteralLength(s);
    var u := Unsigned(s[..L]);
    DigitRunMaximal(s, sg);
    if dot { DigitRunMaximal(s, sg + a + 1); }
    assert u == s[sg..L];
    forall i | 0 <= i < |u| ensures u[i] == '.' <==> dot && i == a
      ensures IsDigit(u[i]) || u[i] == '.'
    {
      assert u[i] == s[sg + i];
    }
    if a > 0 {
      assert u[0] == s[sg];
    } else {
      assert u[a + 1] == s[sg + a + 1];
    }
  }

  /** Ways a string fails to be a literal. */
  lemma NotLiteralBadChar(t: string, i: nat)
    requires i < |Unsigned(t)| && !IsDigit(Unsigned(t)[i]) && Unsigned(t)[i] != '.'
    ensures !IsLiteral(t)
  {
  }

  lemma NotLiteralTwoPoints(t: string, i: nat, j: nat)
    requires i < j < |Unsigned(t)| && Unsigned(t)[i] == '.' && Unsigned(t)[j] == '.'
    ensures !IsLiteral(t)
  {
  }

  lemma NotLiteralNoDigit(t: string)
    requires forall i :: 0 <= i < |Unsigned(t)| ==> !IsDigit(Unsigned(t)[i])
    ensures !IsLiteral(t)
  {
  }

  lemma NotLiteralBeyond(s: string, k: nat, sg: nat, a: nat, dot: bool, b: nat)
    requires IsCleaned(s)
    requires sg == if |s| > 0 && s[0] == '-' then 1 else 0
    requires a == DigitRun(s, sg)
    requires dot == (sg + a < |s| && s[sg + a] == '.')
    requires b == if dot then DigitRun(s, sg + a + 1) else 0
    requires LiteralLength(s) < k <= |s|
    ensures !IsLiteral(s[..k])
  {
    var t := s[..k];
    var u := Unsigned(t);
    DigitRunMaximal(s, sg);
    if dot { DigitRunMaximal(s, sg + a + 1); }
    assert u == s[sg..k];
    if !dot {
      if a > 0 {
        assert u[a] == s[sg + a];
        NotLiteralBadChar(t, a);
      } else if k == sg {
        NotLiteralNoDigit(t);
      } else {
        assert u[0] == s[sg];
        NotLiteralBadChar(t, 0);
      }
    } else if a + b > 0 {
      var e := sg + a + 1 + b;
      assert u[a] == s[sg + a];
      assert u[e - sg] == s[e];
      if s[e] == '.' {
        NotLiteralTwoPoints(t, a, e - sg);
      } else {
        NotLiteralBadChar(t, e - sg);
      }
    } else if k == sg {
      NotLiteralNoDigit(t);
    } else if k == sg + 1 {
      assert u == [s[sg]];
      NotLiteralNoDigit(t);
    } else {
      assert u[0] == s[sg] && u[1] == s[sg + 1];
      if s[sg + 1] == '.' {
        NotLiteralTwoPoints(t, 0, 1);
      } else {
        NotLiteralBadChar(t, 1);
      }
    }
  }

  // ---------------------------------------------------------------------
  // parseFloat on structured inputs

  /** A run of digits, then anything that neither continues the run nor
      opens a fraction, reads as that integer. */
  lemma ParseFloatInteger(a: string, rest: string)
    requires AllDigits(a) && |a| >= 1 && IsCleaned(a + rest)
    requires rest == [] || (!IsDigit(rest[0]) && rest[0] != '.')
    ensures ParseFloat(a + rest) == Some(Decimal(DigitsValue(a), 0))
  {
    var s := a + rest;
    assert s[0] == a[0];
    DigitRunIs(s, 0, |a|);
    assert LiteralLength(s) == |a|;
    assert s[..|a|] == a;
  }

  /** Digits, a point, digits (at least one digit in all), then anything that
      is not a digit, reads as the decimal `a.b`. */
  lemma ParseFloatPointed(a: string, b: string, rest: string)
    requires AllDigits(a) && AllDigits(b) && |a| + |b| >= 1
    requires IsCleaned(a + "." + b + rest)
    requires rest == [] || !IsDigit(rest[0])
    ensures AllDigits(a + b)
    ensures ParseFloat(a + "." + b + rest) == Some(Decimal(DigitsValue(a + b), |b|))
  {
    DigitsValueAppend(a, b);
    var s := a + "." + b + rest;
    PointedLength(a, b, rest);
    LongestLiteralPrefix(s);
    assert s[..|a| + 1 + |b|] == a + "." + b;
    PointedValue(a, b);
  }

  lemma PointedLength(a: string, b: string, rest: string)
    requires AllDigits(a) && AllDigits(b) && |a| + |b| >= 1
    requires IsCleaned(a + "." + b + rest)
    requires rest == [] || !IsDigit(rest[0])
    ensures LiteralLength(a + "." + b + rest) == |a| + 1 + |b|
  {
    var s := a + "." + b + rest;
    if |a| > 0 { assert s[0] == a[0]; } else { assert s[0] == '.'; }
    DigitRunIs(s, 0, |a|);
    assert s[|a|] == '.';
    DigitRunIs(s, |a| + 1, |b|);
  }

  lemma PointedValue(a: string, b: string)
    requires AllDigits(a) && AllDigits(b) && |a| + |b| >= 1
    requires IsLiteral(a + "." + b)
    ensures AllDigits(a + b)
    ensures LiteralValue(a + "." + b) == Decimal(DigitsValue(a + b), |b|)
  {
    DigitsValueAppend(a, b);
    var t := a + "." + b;
    assert |t| > 0 && t[0] != '-' by {
      if |a| > 0 { assert t[0] == a[0]; } else { assert t[0] == '.'; }
    }
    assert Unsigned(t) == t;
    assert forall j :: 0 <= j < |a| ==> t[j] == a[j];
    IndexOfIs(t, '.', |a|);
    assert t[..|a|] == a && t[|a| + 1..] == b;
  }

  /** A cleaned string that starts with a digit always has a numeric prefix. */
  lemma ParseFloatLeadingDigit(t: string)
    requires IsCleaned(t) && |t| >= 1 && IsDigit(t[0])
    ensures ParseFloat(t).Some?
  {
    assert DigitRun(t, 0) >= 1;
  }
}
