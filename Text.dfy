/** The JavaScript string built-ins the ingestion engine relies on: the
    character classes of its regular expressions (`\d`, `\s`), `trim`,
    `split` with a one-character separator, `toLowerCase`, `padStart`,
    `includes`, `parseInt` on digit strings and number-to-string.
    Strings are sequences of Unicode scalar values. */
module Text {

  /** `\d` in a JavaScript regular expression without the `u` flag. */
  predicate IsDigit(c: char) { '0' <= c <= '9' }

  /** `\s`, and what `String.prototype.trim` removes: WhiteSpace and
      LineTerminator code points of ECMAScript. */
  predicate IsWhitespace(c: char) {
    c == '\t' || c == '\n' || c == '\U{000B}' || c == '\U{000C}' || c == '\r' ||
    c == ' ' || c == '\U{00A0}' || c == '\U{1680}' || ('\U{2000}' <= c <= '\U{200A}') ||
    c == '\U{2028}' || c == '\U{2029}' || c == '\U{202F}' || c == '\U{205F}' ||
    c == '\U{3000}' || c == '\U{FEFF}'
  }

  predicate AllDigits(s: string) { forall i :: 0 <= i < |s| ==> IsDigit(s[i]) }

  predicate NoWhitespace(s: string) { forall i :: 0 <= i < |s| ==> !IsWhitespace(s[i]) }

  /** Number of occurrences of `c` in `s`. */
  function Count(s: string, c: char): (n: nat)
    ensures n <= |s|
  {
    if s == [] then 0 else (if s[0] == c then 1 else 0) + Count(s[1..], c)
  }

  lemma {:induction false} CountAppend(a: string, b: string, c: char)
    ensures Count(a + b, c) == Count(a, c) + Count(b, c)
  {
    if a != [] {
      assert (a + b)[1..] == a[1..] + b;
      CountAppend(a[1..], b, c);
    } else {
      assert a + b == b;
    }
  }

  /** Counting across a single separator character. */
  lemma CountAround(a: string, c: char, b: string, x: char)
    ensures Count(a + [c] + b, x) == Count(a, x) + (if c == x then 1 else 0) + Count(b, x)
  {
    CountAppend(a + [c], b, x);
    CountAppend(a, [c], x);
  }

  lemma {:induction false} CountAbsent(s: string, c: char)
    ensures Count(s, c) == 0 <==> forall i :: 0 <= i < |s| ==> s[i] != c
  {
    if s != [] {
      CountAbsent(s[1..], c);
      assert forall i :: 1 <= i < |s| ==> s[i] == s[1..][i - 1];
    }
  }

  // ---------------------------------------------------------------------
  // trim

  function TrimStart(s: string): (r: string)
    ensures |r| <= |s| && r == s[|s| - |r|..]
    ensures r == [] || !IsWhitespace(r[0])
    ensures forall i :: 0 <= i < |s| - |r| ==> IsWhitespace(s[i])
  {
    if s != [] && IsWhitespace(s[0]) then TrimStart(s[1..]) else s
  }

  function TrimEnd(s: string): (r: string)
    ensures |r| <= |s| && r == s[..|r|]
    ensures r == [] || !IsWhitespace(r[|r| - 1])
    ensures forall i :: |r| <= i < |s| ==> IsWhitespace(s[i])
  {
    if s != [] && IsWhitespace(s[|s| - 1]) then TrimEnd(s[..|s| - 1]) else s
  }

  /** Number of whitespace characters `trim` removes at the start. */
  function LeadingWhitespace(s: string): nat
  {
    |s| - |TrimStart(s)|
  }

  /** `s.trim()`: the slice of `s` left after removing whitespace at both
      ends. */
  function Trim(s: string): (r: string)
    ensures LeadingWhitespace(s) + |r| <= |s|
    ensures r == s[LeadingWhitespace(s)..LeadingWhitespace(s) + |r|]
    ensures forall i :: 0 <= i < LeadingWhitespace(s) ==> IsWhitespace(s[i])
    ensures forall i :: LeadingWhitespace(s) + |r| <= i < |s| ==> IsWhitespace(s[i])
    ensures r == [] || (!IsWhitespace(r[0]) && !IsWhitespace(r[|r| - 1]))
  {
    var t := TrimStart(s);
    var r := TrimEnd(t);
    assert r == s[|s| - |t|..|s| - |t| + |r|];
    r
  }

  /** `!s.trim()`: empty after trimming exactly when every character is
      whitespace. */
  predicate IsBlank(s: string) { Trim(s) == [] }

  lemma BlankIffAllWhitespace(s: string)
    ensures IsBlank(s) <==> forall i :: 0 <= i < |s| ==> IsWhitespace(s[i])
  {
    if !IsBlank(s) {
      var r := Trim(s);
      assert s[LeadingWhitespace(s)] == r[0];
    }
  }

  /** Trimming leaves a string without whitespace unchanged. */
  lemma {:induction false} TrimNoWhitespace(s: string)
    requires NoWhitespace(s)
    ensures Trim(s) == s
  {
    assert TrimStart(s) == s;
    assert TrimEnd(s) == s;
  }

  /** `trimStart` removes exactly a leading whitespace run. */
  lemma {:induction false} TrimStartWhitespace(w: string, rest: string)
    requires forall i :: 0 <= i < |w| ==> IsWhitespace(w[i])
    requires rest == [] || !IsWhitespace(rest[0])
    ensures TrimStart(w + rest) == rest
  {
    if w == [] {
      assert w + rest == rest;
    } else {
      assert (w + rest)[0] == w[0];
      assert (w + rest)[1..] == w[1..] + rest;
      TrimStartWhitespace(w[1..], rest);
    }
  }

  /** `trimEnd` removes exactly a trailing whitespace run. */
  lemma {:induction false} TrimEndWhitespace(rest: string, w: string)
    requires forall i :: 0 <= i < |w| ==> IsWhitespace(w[i])
    requires rest == [] || !IsWhitespace(rest[|rest| - 1])
    ensures TrimEnd(rest + w) == rest
    decreases |w|
  {
    if w == [] {
      assert rest + w == rest;
    } else {
      var w' := w[..|w| - 1];
      assert (rest + w)[|rest + w| - 1] == w[|w| - 1];
      assert (rest + w)[..|rest + w| - 1] == rest + w';
      TrimEndWhitespace(rest, w');
    }
  }

  /** `trim` of a text between two whitespace runs is that text, when it
      starts and ends with non-whitespace. */
  lemma TrimAround(w1: string, s: string, w2: string)
    requires forall i :: 0 <= i < |w1| ==> IsWhitespace(w1[i])
    requires forall i :: 0 <= i < |w2| ==> IsWhitespace(w2[i])
    requires |s| >= 1 && !IsWhitespace(s[0]) && !IsWhitespace(s[|s| - 1])
    ensures Trim(w1 + s + w2) == s
  {
    assert w1 + s + w2 == w1 + (s + w2);
    assert (s + w2)[0] == s[0];
    TrimStartWhitespace(w1, s + w2);
    TrimEndWhitespace(s, w2);
  }

  // ---------------------------------------------------------------------
  // split and join with a one-character separator

  /** The inverse of `Split`: the pieces glued together with `c`. */
  function Join(parts: seq<string>, c: char): string
    requires |parts| >= 1
  {
    if |parts| == 1 then parts[0] else parts[0] + [c] + Join(parts[1..], c)
  }

  /** `s.split(c)` for a one-character string `c`: the maximal pieces
      between occurrences of `c`; there is always at least one piece. */
  function Split(s: string, c: char): (r: seq<string>)
    ensures |r| == Count(s, c) + 1
    ensures forall k :: 0 <= k < |r| ==> Count(r[k], c) == 0
    ensures Join(r, c) == s
  {
    if s == [] then [""]
    else
      var rest := Split(s[1..], c);
      if s[0] == c then
        assert [s[0]] + Join(rest, c) == s;
        [""] + rest
      else
        var r := [[s[0]] + rest[0]] + rest[1..];
        assert Count(r[0], c) == 0 by {
          CountAppend([s[0]], rest[0], c);
        }
        assert forall k :: 1 <= k < |r| ==> r[k] == rest[k];
        JoinConsHead(s[0], rest, c);
        assert [s[0]] + Join(rest, c) == s;
        r
  }

  lemma {:induction false} JoinConsHead(x: char, rest: seq<string>, c: char)
    requires |rest| >= 1
    ensures Join([[x] + rest[0]] + rest[1..], c) == [x] + Join(rest, c)
  {
    var r := [[x] + rest[0]] + rest[1..];
    if |rest| > 1 {
      assert r[1..] == rest[1..];
    }
  }

  /** Splitting the join of separator-free pieces gives the pieces back. */
  lemma {:induction false} SplitJoin(parts: seq<string>, c: char)
    requires |parts| >= 1
    requires forall k :: 0 <= k < |parts| ==> Count(parts[k], c) == 0
    ensures Split(Join(parts, c), c) == parts
  {
    var s := Join(parts, c);
    var r := Split(s, c);
    SplitUnique(s, c, parts);
  }

  /** The pieces of `s` between occurrences of `c` are uniquely determined. */
  lemma {:induction false} SplitUnique(s: string, c: char, parts: seq<string>)
    requires |parts| >= 1
    requires forall k :: 0 <= k < |parts| ==> Count(parts[k], c) == 0
    requires Join(parts, c) == s
    ensures Split(s, c) == parts
    decreases |s|
  {
    var p0 := parts[0];
    if |parts| == 1 {
      // s == p0 has no c, so it is one piece
      var r := Split(s, c);
      assert |r| == 1 && Join(r, c) == r[0];
    } else if p0 == [] {
      assert s == [c] + Join(parts[1..], c);
      SplitUnique(s[1..], c, parts[1..]);
      assert parts == [""] + parts[1..];
    } else {
      var tail := [p0[1..]] + parts[1..];
      assert tail[0] == p0[1..] && tail[1..] == parts[1..];
      assert p0 == [p0[0]] + p0[1..];
      assert parts == [p0] + parts[1..];
      JoinConsHead(p0[0], tail, c);
      CountAppend([p0[0]], p0[1..], c);
      assert forall k :: 1 <= k < |tail| ==> tail[k] == parts[k];
      SplitUnique(s[1..], c, tail);
    }
  }

  // ---------------------------------------------------------------------
  // characters and small transformations

  /** Number of consecutive digits in `s` starting at index `i`. */
  function DigitRun(s: string, i: nat): (n: nat)
    requires i <= |s|
    ensures i + n <= |s|
    decreases |s| - i
  {
    if i < |s| && IsDigit(s[i]) then 1 + DigitRun(s, i + 1) else 0
  }

  /** The run is made of digits and cannot be extended. */
  lemma {:induction false} DigitRunMaximal(s: string, i: nat)
    requires i <= |s|
    ensures forall j :: i <= j < i + DigitRun(s, i) ==> IsDigit(s[j])
    ensures i + DigitRun(s, i) == |s| || !IsDigit(s[i + DigitRun(s, i)])
    decreases |s| - i
  {
    if i < |s| && IsDigit(s[i]) {
      DigitRunMaximal(s, i + 1);
    }
  }

  /** A digit run is determined by where it starts and where its digits
      stop. */
  lemma {:induction false} DigitRunIs(s: string, i: nat, n: nat)
    requires i + n <= |s|
    requires forall j :: i <= j < i + n ==> IsDigit(s[j])
    requires i + n == |s| || !IsDigit(s[i + n])
    ensures DigitRun(s, i) == n
    decreases n
  {
    if n > 0 {
      DigitRunIs(s, i + 1, n - 1);
    }
  }

  /** Concatenation is associative. */
  lemma Regroup3<T>(p: seq<T>, q: seq<T>, r: seq<T>)
    ensures p + (q + r) == (p + q) + r
  {
  }

  /** Regrouping a concatenation of four pieces to the right. */
  lemma Regroup4<T>(p: seq<T>, q: seq<T>, r: seq<T>, s: seq<T>)
    ensures p + q + r + s == p + (q + (r + s))
  {
  }

  /** Regrouping a concatenation of five pieces to the right. */
  lemma Regroup5<T>(p: seq<T>, q: seq<T>, r: seq<T>, s: seq<T>, t: seq<T>)
    ensures p + q + r + s + t == p + (q + (r + (s + t)))
  {
  }

  /** Regrouping the tail of a concatenation of five pieces. */
  lemma RegroupTail<T>(p: seq<T>, q: seq<T>, r: seq<T>, s: seq<T>, t: seq<T>)
    ensures p + q + r + s + t == p + q + (r + s + t)
    ensures p + q + (r + s + t) == p + q + r + (s + t)
  {
  }

  /** The position of the first `c` in `s`, with `|s|` standing for
      "absent"; the `parseFloat` model uses it to find the decimal point. */
  function IndexOf(s: string, c: char): (i: nat)
    ensures i <= |s|
    ensures forall j :: 0 <= j < i ==> s[j] != c
    ensures i < |s| ==> s[i] == c
  {
    if s == [] then 0 else if s[0] == c then 0 else 1 + IndexOf(s[1..], c)
  }

  lemma {:induction false} IndexOfIs(s: string, c: char, i: nat)
    requires i < |s| && s[i] == c
    requires forall j :: 0 <= j < i ==> s[j] != c
    ensures IndexOf(s, c) == i
  {
    if i > 0 {
      IndexOfIs(s[1..], c, i - 1);
    }
  }

  /** `s.replace(/a/g, b)` for single characters. */
  function ReplaceChar(s: string, a: char, b: char): (r: string)
    ensures |r| == |s|
    ensures forall i :: 0 <= i < |s| ==> r[i] == if s[i] == a then b else s[i]
  {
    seq(|s|, i requires 0 <= i < |s| => if s[i] == a then b else s[i])
  }

  lemma {:induction false} ReplaceAbsent(s: string, a: char, b: char)
    requires forall i :: 0 <= i < |s| ==> s[i] != a
    ensures ReplaceChar(s, a, b) == s
  {
  }

  /** `s.replace(/a/g, '')` for a single character. */
  function RemoveChar(s: string, a: char): (r: string)
    ensures Count(r, a) == 0
    ensures |r| == |s| - Count(s, a)
  {
    if s == [] then []
    else
      var h := if s[0] == a then [] else [s[0]];
      CountAppend(h, RemoveChar(s[1..], a), a);
      h + RemoveChar(s[1..], a)
  }

  /** Removing a character keeps only characters of the input. */
  lemma {:induction false} RemoveCharKeeps(s: string, a: char)
    ensures forall x :: x in RemoveChar(s, a) ==> x in s
  {
    if s != [] {
      RemoveCharKeeps(s[1..], a);
    }
  }

  lemma {:induction false} RemoveCharAppend(x: string, y: string, a: char)
    ensures RemoveChar(x + y, a) == RemoveChar(x, a) + RemoveChar(y, a)
  {
    if x == [] {
      assert x + y == y;
    } else {
      assert (x + y)[1..] == x[1..] + y;
      RemoveCharAppend(x[1..], y, a);
    }
  }

  lemma {:induction false} RemoveCharAbsent(x: string, a: char)
    requires Count(x, a) == 0
    ensures RemoveChar(x, a) == x
  {
    if x != [] {
      RemoveCharAbsent(x[1..], a);
    }
  }

  /** `'.'.includes`-style membership: `s.includes(sub)`. */
  predicate Contains(s: string, sub: string)
    decreases |s|
  {
    (|sub| <= |s| && s[..|sub|] == sub) || (s != [] && Contains(s[1..], sub))
  }

  lemma {:induction false} ContainsAt(s: string, sub: string, i: nat)
    requires i + |sub| <= |s| && s[i..i + |sub|] == sub
    ensures Contains(s, sub)
  {
    if i > 0 {
      assert s[1..][i - 1..i - 1 + |sub|] == sub;
      ContainsAt(s[1..], sub, i - 1);
    }
  }

  // ---------------------------------------------------------------------
  // lower case

  /** `toLowerCase` of one character, restricted to what can matter once
      everything outside `[a-z0-9_]` is removed: ASCII capitals, and the two
      non-ASCII characters whose lower case contains an ASCII letter (KELVIN
      SIGN, and LATIN CAPITAL LETTER I WITH DOT ABOVE, which lower-cases to
      `i` followed by a combining dot). Every other character maps to itself:
      its real lower case is neither ASCII nor whitespace. */
  function LowerChar(c: char): string
  {
    if 'A' <= c <= 'Z' then [(c as int + 32) as char]
    else if c == '\U{212A}' then "k"
    else if c == '\U{0130}' then "i\U{0307}"
    else [c]
  }

  function ToLower(s: string): string
  {
    if s == [] then [] else LowerChar(s[0]) + ToLower(s[1..])
  }

  lemma {:induction false} ToLowerAppend(a: string, b: string)
    ensures ToLower(a + b) == ToLower(a) + ToLower(b)
  {
    if a == [] {
      assert a + b == b;
    } else {
      assert (a + b)[0] == a[0];
      assert (a + b)[1..] == a[1..] + b;
      ToLowerAppend(a[1..], b);
    }
  }

  /** On ASCII text `toLowerCase` maps each capital `A`-`Z` to its small
      letter and keeps every other character, position by position. */
  lemma {:induction false} ToLowerAscii(s: string)
    requires forall i :: 0 <= i < |s| ==> s[i] as int < 128
    ensures |ToLower(s)| == |s|
    ensures forall i :: 0 <= i < |s| ==>
              ToLower(s)[i] == if 'A' <= s[i] <= 'Z' then (s[i] as int + 32) as char else s[i]
  {
    if s != [] {
      ToLowerAscii(s[1..]);
      var t := ToLower(s);
      assert t == LowerChar(s[0]) + ToLower(s[1..]);
      forall i | 1 <= i < |s|
        ensures t[i] == if 'A' <= s[i] <= 'Z' then (s[i] as int + 32) as char else s[i]
      {
        assert t[i] == ToLower(s[1..])[i - 1] && s[1..][i - 1] == s[i];
      }
    }
  }

  predicate IsCapital(c: char) { 'A' <= c <= 'Z' || c == '\U{212A}' || c == '\U{0130}' }

  /** Lower-casing changes nothing in a string without capitals. */
  lemma {:induction false} ToLowerNoCapital(s: string)
    requires forall i :: 0 <= i < |s| ==> !IsCapital(s[i])
    ensures ToLower(s) == s
  {
    if s != [] {
      ToLowerNoCapital(s[1..]);
    }
  }

  // ---------------------------------------------------------------------
  // numbers as decimal digit strings

  function DigitValue(c: char): nat
    requires IsDigit(c)
  {
    c as int - '0' as int
  }

  function DigitChar(d: nat): (c: char)
    requires d < 10
    ensures IsDigit(c) && DigitValue(c) == d
  {
    (d + '0' as int) as char
  }

  /** `parseInt(s, 10)` for a non-empty string of decimal digits (leading
      zeros allowed). */
  function DigitsValue(s: string): nat
    requires AllDigits(s)
  {
    if s == [] then 0 else 10 * DigitsValue(s[..|s| - 1]) + DigitValue(s[|s| - 1])
  }

  function Pow10(n: nat): (p: nat)
    ensures p >= 1
  {
    if n == 0 then 1 else 10 * Pow10(n - 1)
  }

  lemma {:induction false} DigitsValueAppend(a: string, b: string)
    requires AllDigits(a) && AllDigits(b)
    ensures AllDigits(a + b)
    ensures DigitsValue(a + b) == DigitsValue(a) * Pow10(|b|) + DigitsValue(b)
    decreases |b|
  {
    var ab := a + b;
    assert AllDigits(ab) by {
      forall i | 0 <= i < |ab| ensures IsDigit(ab[i]) {
        if i < |a| { assert ab[i] == a[i]; } else { assert ab[i] == b[i - |a|]; }
      }
    }
    if b == [] {
      assert ab == a;
    } else {
      var b' := b[..|b| - 1];
      assert ab[..|ab| - 1] == a + b';
      DigitsValueAppend(a, b');
      assert ab[|ab| - 1] == b[|b| - 1];
      assert DigitsValue(ab) == 10 * DigitsValue(a + b') + DigitValue(b[|b| - 1]);
      assert DigitsValue(b) == 10 * DigitsValue(b') + DigitValue(b[|b| - 1]);
      ShiftDigit(DigitsValue(a), Pow10(|b'|), DigitsValue(b'), DigitValue(b[|b| - 1]));
    }
  }

  lemma ShiftDigit(x: nat, p: nat, y: nat, d: nat)
    ensures 10 * (x * p + y) + d == x * (10 * p) + (10 * y + d)
  {
  }

  lemma {:induction false} DigitsValueBound(s: string)
    requires AllDigits(s)
    ensures DigitsValue(s) < Pow10(|s|)
  {
    if s != [] {
      DigitsValueBound(s[..|s| - 1]);
    }
  }

  /** `n.toString()` for a natural number: its shortest decimal digits. */
  function NatToString(n: nat): (r: string)
    ensures AllDigits(r) && |r| >= 1
    ensures DigitsValue(r) == n
    ensures |r| == 1 || r[0] != '0'
    decreases n
  {
    if n < 10 then [DigitChar(n)]
    else
      var r := NatToString(n / 10) + [DigitChar(n % 10)];
      assert r[..|r| - 1] == NatToString(n / 10);
      r
  }

  /** The number of digits of `n` is four exactly when `1000 <= n < 10000`. */
  lemma NatToStringFourDigits(n: nat)
    requires 1000 <= n < 10000
    ensures |NatToString(n)| == 4
  {
    var a := n / 10;
    var b := a / 10;
    var c := b / 10;
    assert 100 <= a < 1000 && 10 <= b < 100 && 1 <= c < 10;
    NatToStringLonger(n);
    NatToStringLonger(a);
    NatToStringLonger(b);
  }

  /** One more digit for every factor of ten. */
  lemma NatToStringLonger(n: nat)
    requires n >= 10
    ensures |NatToString(n)| == |NatToString(n / 10)| + 1
  {
  }

  /** `s.padStart(2, '0')`. */
  function PadStart2(s: string): (r: string)
    ensures |s| < 2 ==> |r| == 2
    ensures |s| >= 2 ==> r == s
    ensures AllDigits(s) ==> AllDigits(r) && DigitsValue(r) == DigitsValue(s)
  {
    if |s| >= 2 then s
    else
      var r := (if |s| == 0 then "00" else "0") + s;
      if AllDigits(s) then
        DigitsValueAppend(if |s| == 0 then "00" else "0", s);
        r
      else r
  }
}
