/** The pure steps of `seed()`: splitting the file into lines, choosing the
    delimiter, locating the header row, turning header labels into column
    slugs, inferring a type per column, the column definitions of the
    `CREATE TABLE`, and the coercion of one cell. */
module SeedSteps {
  import opened Text
  import opened Numbers
  import opened Helpers

  // ---------------------------------------------------------------------
  // lines

  /** A piece that a line feed follows loses the carriage return before it. */
  function DropCarriageReturn(p: string): (r: string)
    ensures |p| > 0 && p[|p| - 1] == '\r' ==> r + "\r" == p
    ensures !(|p| > 0 && p[|p| - 1] == '\r') ==> r == p
    ensures Count(r, '\n') == Count(p, '\n')
  {
    if |p| > 0 && p[|p| - 1] == '\r' then
      assert p == p[..|p| - 1] + "\r";
      CountAppend(p[..|p| - 1], "\r", '\n');
      p[..|p| - 1]
    else p
  }

  /** `content.split(/\r?\n/)`: the pieces between line feeds, each one
      followed by a line feed without the carriage return before that feed.
      There is always at least one line, so the "CSV file is empty" branch
      of `seed()` cannot be taken. */
  function SplitLines(content: string): (lines: seq<string>)
    ensures |lines| == Count(content, '\n') + 1 >= 1
    ensures forall i :: 0 <= i < |lines| ==> Count(lines[i], '\n') == 0
    ensures forall i :: 0 <= i < |lines| - 1 ==>
              var p := Split(content, '\n')[i];
              (|p| > 0 && p[|p| - 1] == '\r' ==> lines[i] + "\r" == p) &&
              (!(|p| > 0 && p[|p| - 1] == '\r') ==> lines[i] == p)
    ensures lines[|lines| - 1] == Split(content, '\n')[|lines| - 1]
  {
    var p := Split(content, '\n');
    seq(|p|, i requires 0 <= i < |p| => if i < |p| - 1 then DropCarriageReturn(p[i]) else p[i])
  }

  // ---------------------------------------------------------------------
  // delimiter

  /** `l.split(c).length - 1`: the number of separators in a line. */
  function Separators(l: string, c: char): (n: nat)
    ensures n == Count(l, c)
  {
    |Split(l, c)| - 1
  }

  /** The sum the `reduce` over the sample computes. */
  function Total(sample: seq<string>, c: char): nat
  {
    if sample == [] then 0 else Separators(sample[0], c) + Total(sample[1..], c)
  }

  /** `lines.slice(0, Math.min(lines.length, 10))`. */
  function SampleLines(lines: seq<string>): (sample: seq<string>)
    ensures |sample| == if |lines| < 10 then |lines| else 10
    ensures sample == lines[..|sample|]
  {
    lines[..if |lines| < 10 then |lines| else 10]
  }

  /** The delimiter choice on the two mean separator counts. */
  function DetectDelimiter(lines: seq<string>): (d: char)
    requires |lines| >= 1
    ensures d == ';' || d == ','
  {
    var sample := SampleLines(lines);
    var avgComma := Total(sample, ',') as real / |sample| as real;
    var avgSemi := Total(sample, ';') as real / |sample| as real;
    if avgSemi > avgComma then ';' else ','
  }

  /** Both means divide by the same sample length, so the semicolon wins
      exactly when its total is strictly larger; a tie gives the comma. */
  lemma DelimiterByTotals(lines: seq<string>)
    requires |lines| >= 1
    ensures DetectDelimiter(lines) == ';' <==>
              Total(SampleLines(lines), ';') > Total(SampleLines(lines), ',')
    ensures DetectDelimiter(lines) == ',' <==>
              Total(SampleLines(lines), ';') <= Total(SampleLines(lines), ',')
  {
    var sample := SampleLines(lines);
    MeansCompare(Total(sample, ';'), Total(sample, ','), |sample|);
  }

  lemma MeansCompare(a: nat, b: nat, n: nat)
    requires n > 0
    ensures a as real / n as real > b as real / n as real <==> a > b
  {
    var x := a as real / n as real;
    var y := b as real / n as real;
    assert x * n as real == a as real;
    assert y * n as real == b as real;
    if x > y {
      assert x * n as real > y * n as real;
    }
    if a > b {
      assert (x - y) * n as real > 0.0;
    }
  }

  /** The separator totals count every occurrence in the sample lines. */
  lemma {:induction false} TotalCounts(sample: seq<string>, c: char)
    ensures Total(sample, c) == 0 <==> forall i :: 0 <= i < |sample| ==> Count(sample[i], c) == 0
  {
    if sample != [] {
      TotalCounts(sample[1..], c);
      assert forall i :: 1 <= i < |sample| ==> sample[i] == sample[1..][i - 1];
    }
  }

  // ---------------------------------------------------------------------
  // header row

  /** `lines.map(l => l.split(delimiter).length)`. */
  function FieldCounts(lines: seq<string>, d: char): (c: seq<nat>)
    ensures |c| == |lines|
    ensures forall i :: 0 <= i < |lines| ==> c[i] == Count(lines[i], d) + 1
  {
    seq(|lines|, i requires 0 <= i < |lines| => |Split(lines[i], d)|)
  }

  /** The `findIndex` test: more than one field, and as many as the next
      line. */
  predicate StartsTable(c: seq<nat>, i: nat)
  {
    i + 1 < |c| && c[i] > 1 && c[i] == c[i + 1]
  }

  /** `findIndex` from position `i`, with `|c|` standing for "none". */
  function FindTableStart(c: seq<nat>, i: nat): (k: nat)
    requires i <= |c|
    ensures i <= k <= |c|
    ensures k < |c| ==> StartsTable(c, k)
    ensures forall j :: i <= j < k ==> !StartsTable(c, j)
    decreases |c| - i
  {
    if i == |c| then |c|
    else if StartsTable(c, i) then i
    else FindTableStart(c, i + 1)
  }

  /** The header index: the first line that starts a table, or 0 when no
      line does. */
  function HeaderIndex(c: seq<nat>): (h: nat)
    ensures forall j :: 0 <= j < h ==> !StartsTable(c, j)
    ensures StartsTable(c, h) || (h == 0 && forall j :: 0 <= j < |c| ==> !StartsTable(c, j))
  {
    var k := FindTableStart(c, 0);
    if k == |c| then 0 else k
  }

  /** When every line has the same number of fields the header is line 0:
      either line 0 starts a table or no line does. */
  lemma UniformCountsHeaderZero(c: seq<nat>)
    requires forall i :: 0 <= i < |c| ==> c[i] == c[0]
    ensures HeaderIndex(c) == 0
  {
  }

  // ---------------------------------------------------------------------
  // slugs

  predicate IsSlugChar(c: char) { 'a' <= c <= 'z' || IsDigit(c) || c == '_' }

  predicate IsSlugText(s: string) { forall i :: 0 <= i < |s| ==> IsSlugChar(s[i]) }

  /** `.replace(/\s+/g, '_')`: every maximal run of whitespace becomes one
      underscore. */
  function CollapseWhitespace(s: string): (r: string)
    decreases |s|
  {
    if s == [] then []
    else if IsWhitespace(s[0]) then
      "_" + CollapseWhitespace(TrimStart(s))
    else [s[0]] + CollapseWhitespace(s[1..])
  }

  lemma {:induction false} CollapseNoWhitespace(s: string)
    ensures NoWhitespace(CollapseWhitespace(s))
    decreases |s|
  {
    if s != [] {
      if IsWhitespace(s[0]) {
        CollapseNoWhitespace(TrimStart(s));
      } else {
        CollapseNoWhitespace(s[1..]);
      }
    }
  }

  lemma {:induction false} CollapseKeepsSolid(s: string)
    requires NoWhitespace(s)
    ensures CollapseWhitespace(s) == s
  {
    if s != [] {
      CollapseKeepsSolid(s[1..]);
    }
  }

  /** Text without whitespace passes through the collapse unchanged. */
  lemma {:induction false} CollapseSolidPrefix(x: string, y: string)
    requires NoWhitespace(x)
    ensures CollapseWhitespace(x + y) == x + CollapseWhitespace(y)
  {
    if x == [] {
      assert x + y == y;
    } else {
      assert (x + y)[0] == x[0];
      assert (x + y)[1..] == x[1..] + y;
      CollapseSolidPrefix(x[1..], y);
    }
  }

  /** A maximal run of whitespace becomes a single underscore. */
  lemma CollapseRun(w: string, y: string)
    requires |w| >= 1 && forall i :: 0 <= i < |w| ==> IsWhitespace(w[i])
    requires y == [] || !IsWhitespace(y[0])
    ensures CollapseWhitespace(w + y) == "_" + CollapseWhitespace(y)
  {
    assert (w + y)[0] == w[0];
    TrimStartWhitespace(w, y);
  }

  /** `.replace(/[^a-z0-9_]/g, '')`. */
  function KeepSlugChars(s: string): (r: string)
    ensures |r| <= |s|
  {
    if s == [] then []
    else (if IsSlugChar(s[0]) then [s[0]] else []) + KeepSlugChars(s[1..])
  }

  lemma {:induction false} KeepSlugCharsSlug(s: string)
    ensures IsSlugText(KeepSlugChars(s))
  {
    if s != [] {
      KeepSlugCharsSlug(s[1..]);
    }
  }

  lemma {:induction false} KeepSlugCharsKeeps(s: string)
    requires IsSlugText(s)
    ensures KeepSlugChars(s) == s
  {
    if s != [] {
      KeepSlugCharsKeeps(s[1..]);
    }
  }

  lemma {:induction false} KeepSlugCharsAppend(a: string, b: string)
    ensures KeepSlugChars(a + b) == KeepSlugChars(a) + KeepSlugChars(b)
  {
    if a == [] {
      assert a + b == b;
    } else {
      assert (a + b)[0] == a[0];
      assert (a + b)[1..] == a[1..] + b;
      var h := if IsSlugChar(a[0]) then [a[0]] else [];
      assert KeepSlugChars(a + b) == h + KeepSlugChars(a[1..] + b);
      KeepSlugCharsAppend(a[1..], b);
      assert KeepSlugChars(a) == h + KeepSlugChars(a[1..]);
      Regroup3(h, KeepSlugChars(a[1..]), KeepSlugChars(b));
    }
  }

  /** The slug of a header label: trimmed, lower-cased, whitespace runs
      to underscores, everything outside `[a-z0-9_]` removed. */
  function Slug(orig: string): (r: string)
    ensures IsSlugText(r)
    ensures NoWhitespace(r)
  {
    var r := KeepSlugChars(CollapseWhitespace(ToLower(Trim(orig))));
    KeepSlugCharsSlug(CollapseWhitespace(ToLower(Trim(orig))));
    r
  }

  /** Slugging a slug changes nothing. */
  lemma SlugIdempotent(orig: string)
    ensures Slug(Slug(orig)) == Slug(orig)
  {
    SlugFixedPoint(Slug(orig));
  }

  /** A string over `[a-z0-9_]` is its own slug. */
  lemma SlugFixedPoint(s: string)
    requires IsSlugText(s)
    ensures Slug(s) == s
  {
    assert NoWhitespace(s) by {
      forall i | 0 <= i < |s| ensures !IsWhitespace(s[i]) {
        assert IsSlugChar(s[i]);
      }
    }
    TrimNoWhitespace(s);
    assert forall i :: 0 <= i < |s| ==> !IsCapital(s[i]) by {
      forall i | 0 <= i < |s| ensures !IsCapital(s[i]) {
        assert IsSlugChar(s[i]);
      }
    }
    ToLowerNoCapital(s);
    CollapseKeepsSolid(s);
    KeepSlugCharsKeeps(s);
  }

  predicate IsAsciiLetter(c: char) { 'A' <= c <= 'Z' || 'a' <= c <= 'z' }

  /** A word of ASCII letters lower-cases to a word of small letters. */
  lemma LowerWord(s: string)
    requires forall i :: 0 <= i < |s| ==> IsAsciiLetter(s[i])
    ensures |ToLower(s)| == |s|
    ensures forall i :: 0 <= i < |s| ==> 'a' <= ToLower(s)[i] <= 'z'
  {
    ToLowerAscii(s);
  }

  /** Whitespace has no capitals, so lower-casing keeps it. */
  lemma LowerWhitespace(w: string)
    requires forall i :: 0 <= i < |w| ==> IsWhitespace(w[i])
    ensures ToLower(w) == w
  {
    assert forall i :: 0 <= i < |w| ==> !IsCapital(w[i]) by {
      forall i | 0 <= i < |w| ensures !IsCapital(w[i]) {
        assert IsWhitespace(w[i]);
      }
    }
    ToLowerNoCapital(w);
  }

  predicate IsSmallWord(s: string) { forall i :: 0 <= i < |s| ==> 'a' <= s[i] <= 'z' }

  lemma LowerTwoWords(a: string, w: string, b: string)
    requires forall i :: 0 <= i < |w| ==> IsWhitespace(w[i])
    requires forall i :: 0 <= i < |a| ==> IsAsciiLetter(a[i])
    requires forall i :: 0 <= i < |b| ==> IsAsciiLetter(b[i])
    ensures ToLower(a + w + b) == ToLower(a) + w + ToLower(b)
    ensures IsSmallWord(ToLower(a)) && IsSmallWord(ToLower(b))
  {
    ToLowerAppend(a + w, b);
    ToLowerAppend(a, w);
    LowerWhitespace(w);
    LowerWord(a);
    LowerWord(b);
  }

  lemma SmallWordSolid(s: string)
    requires IsSmallWord(s)
    ensures NoWhitespace(s)
  {
    forall i | 0 <= i < |s| ensures !IsWhitespace(s[i]) {
      assert 'a' <= s[i] <= 'z';
    }
  }

  /** Between two pieces without whitespace, one run of whitespace becomes
      one `_`. */
  lemma CollapseOneRun(x: string, w: string, y: string)
    requires NoWhitespace(x) && |y| >= 1 && NoWhitespace(y)
    requires |w| >= 1 && forall i :: 0 <= i < |w| ==> IsWhitespace(w[i])
    ensures CollapseWhitespace(x + w + y) == x + "_" + y
  {
    assert x + w + y == x + (w + y);
    CollapseSolidPrefix(x, w + y);
    CollapseRun(w, y);
    CollapseKeepsSolid(y);
  }

  lemma CollapseTwoWords(x: string, w: string, y: string)
    requires IsSmallWord(x) && |y| >= 1 && IsSmallWord(y)
    requires |w| >= 1 && forall i :: 0 <= i < |w| ==> IsWhitespace(w[i])
    ensures CollapseWhitespace(x + w + y) == x + "_" + y
  {
    SmallWordSolid(x);
    SmallWordSolid(y);
    CollapseOneRun(x, w, y);
  }

  lemma KeepTwoWords(x: string, y: string)
    requires IsSmallWord(x) && IsSmallWord(y)
    ensures KeepSlugChars(x + "_" + y) == x + "_" + y
  {
    var t := x + "_" + y;
    forall i | 0 <= i < |t| ensures IsSlugChar(t[i]) {
      if i < |x| {
        assert t[i] == x[i];
      } else if i > |x| {
        assert t[i] == y[i - |x| - 1];
      }
    }
    KeepSlugCharsKeeps(t);
  }

  lemma TrimTwoWords(w1: string, a: string, w: string, b: string, w2: string)
    requires forall i :: 0 <= i < |w1| ==> IsWhitespace(w1[i])
    requires forall i :: 0 <= i < |w2| ==> IsWhitespace(w2[i])
    requires |a| >= 1 && IsAsciiLetter(a[0]) && |b| >= 1 && IsAsciiLetter(b[|b| - 1])
    ensures Trim(w1 + a + w + b + w2) == a + w + b
  {
    var s := a + w + b;
    assert w1 + a + w + b + w2 == w1 + s + w2;
    assert s[0] == a[0] && s[|s| - 1] == b[|b| - 1];
    TrimAround(w1, s, w2);
  }

  /** Lower-casing, collapsing and filtering two trimmed words. */
  lemma SlugInnerTwoWords(a: string, w: string, b: string)
    requires |w| >= 1 && forall i :: 0 <= i < |w| ==> IsWhitespace(w[i])
    requires forall i :: 0 <= i < |a| ==> IsAsciiLetter(a[i])
    requires |b| >= 1 && forall i :: 0 <= i < |b| ==> IsAsciiLetter(b[i])
    ensures KeepSlugChars(CollapseWhitespace(ToLower(a + w + b))) == ToLower(a) + "_" + ToLower(b)
  {
    LowerTwoWords(a, w, b);
    LowerWord(b);
    var la, lb := ToLower(a), ToLower(b);
    CollapseTwoWords(la, w, lb);
    KeepTwoWords(la, lb);
  }

  /** Two words of ASCII letters with whitespace around and between them:
      the outer whitespace is trimmed, the capitals fold to small letters,
      and the inner run of whitespace, however long, becomes one `_`. */
  lemma SlugTwoWords(w1: string, a: string, w: string, b: string, w2: string)
    requires forall i :: 0 <= i < |w1| ==> IsWhitespace(w1[i])
    requires forall i :: 0 <= i < |w2| ==> IsWhitespace(w2[i])
    requires |w| >= 1 && forall i :: 0 <= i < |w| ==> IsWhitespace(w[i])
    requires |a| >= 1 && forall i :: 0 <= i < |a| ==> IsAsciiLetter(a[i])
    requires |b| >= 1 && forall i :: 0 <= i < |b| ==> IsAsciiLetter(b[i])
    ensures Slug(w1 + a + w + b + w2) == ToLower(a) + "_" + ToLower(b)
  {
    TrimTwoWords(w1, a, w, b, w2);
    SlugInnerTwoWords(a, w, b);
  }

  /** A label made only of characters outside the slug alphabet slugs to
      the empty string, and such a label is still a column. */
  lemma SlugOfSymbol()
    ensures Slug("%") == ""
    ensures HeaderSlugs(["%"]) == [HeaderSlug("%", "")]
  {
    assert IsBlank("%") == false by {
      BlankIffAllWhitespace("%");
      assert !IsWhitespace("%"[0]);
    }
    TrimNoWhitespace("%");
    assert ToLower("%") == "%";
  }

  /** `{ orig, slug }` of one header. */
  datatype HeaderSlug = HeaderSlug(orig: string, slug: string)

  /** `Object.keys(rows[0]).filter(orig => orig && orig.trim().length > 0)`
      and the map to slugs: blank labels go, every other label stays, even
      one whose slug is empty. */
  function HeaderSlugs(keys: seq<string>): (hs: seq<HeaderSlug>)
    ensures |hs| <= |keys|
  {
    if keys == [] then []
    else
      (if IsBlank(keys[0]) then [] else [HeaderSlug(keys[0], Slug(keys[0]))]) +
      HeaderSlugs(keys[1..])
  }

  /** The mapping follows the key order: the mapping of a concatenation
      is the mapping of each part, in order. */
  lemma {:induction false} HeaderSlugsAppend(a: seq<string>, b: seq<string>)
    ensures HeaderSlugs(a + b) == HeaderSlugs(a) + HeaderSlugs(b)
  {
    if a == [] {
      assert a + b == b;
    } else {
      assert (a + b)[0] == a[0];
      assert (a + b)[1..] == a[1..] + b;
      var h := if IsBlank(a[0]) then [] else [HeaderSlug(a[0], Slug(a[0]))];
      assert HeaderSlugs(a + b) == h + HeaderSlugs(a[1..] + b);
      HeaderSlugsAppend(a[1..], b);
      assert HeaderSlugs(a) == h + HeaderSlugs(a[1..]);
      Regroup3(h, HeaderSlugs(a[1..]), HeaderSlugs(b));
    }
  }

  /** One key: dropped when blank, otherwise paired with its slug. */
  lemma HeaderSlugsSingle(key: string)
    ensures HeaderSlugs([key]) == if IsBlank(key) then [] else [HeaderSlug(key, Slug(key))]
  {
    assert [key][1..] == [];
  }

  lemma {:induction false} HeaderSlugsMembers(keys: seq<string>, h: HeaderSlug)
    ensures h in HeaderSlugs(keys) <==> h.orig in keys && !IsBlank(h.orig) && h.slug == Slug(h.orig)
  {
    if keys != [] {
      HeaderSlugsMembers(keys[1..], h);
      assert h.orig in keys <==> h.orig == keys[0] || h.orig in keys[1..];
    }
  }

  /** `headerSlugs.map(h => h.slug)`. */
  function Slugs(hs: seq<HeaderSlug>): (r: seq<string>)
    ensures |r| == |hs|
    ensures forall i :: 0 <= i < |hs| ==> r[i] == hs[i].slug
  {
    seq(|hs|, i requires 0 <= i < |hs| => hs[i].slug)
  }

  // ---------------------------------------------------------------------
  // de-duplication

  /** `Array.from(new Set(xs))`. */
  function Dedup<T(==)>(xs: seq<T>): seq<T>
  {
    if xs == [] then []
    else
      var d := Dedup(xs[..|xs| - 1]);
      if xs[|xs| - 1] in d then d else d + [xs[|xs| - 1]]
  }

  predicate Distinct<T(==)>(xs: seq<T>)
  {
    forall i, j :: 0 <= i < j < |xs| ==> xs[i] != xs[j]
  }

  /** The position of the first occurrence. */
  function FirstIndex<T(==)>(xs: seq<T>, x: T): (k: nat)
    requires x in xs
    ensures k < |xs| && xs[k] == x
    ensures forall j :: 0 <= j < k ==> xs[j] != x
  {
    if xs[0] == x then 0 else 1 + FirstIndex(xs[1..], x)
  }

  /** The set holds every element once, the same elements as the input,
      ordered by first occurrence. */
  lemma {:induction false} DedupSpec<T>(xs: seq<T>)
    ensures Distinct(Dedup(xs))
    ensures forall x :: x in Dedup(xs) <==> x in xs
    ensures forall i, j :: 0 <= i < j < |Dedup(xs)| ==>
              FirstIndex(xs, Dedup(xs)[i]) < FirstIndex(xs, Dedup(xs)[j])
  {
    if xs != [] {
      var init := xs[..|xs| - 1];
      var x := xs[|xs| - 1];
      var d := Dedup(init);
      DedupSpec(init);
      assert xs == init + [x];
      forall y | y in init ensures FirstIndex(xs, y) == FirstIndex(init, y) {
        FirstIndexPrefix(init, [x], y);
      }
      if x !in d {
        assert x !in init;
        assert FirstIndex(xs, x) == |xs| - 1 by {
          assert forall j :: 0 <= j < |xs| - 1 ==> xs[j] == init[j];
        }
      }
    }
  }

  lemma {:induction false} FirstIndexPrefix<T>(a: seq<T>, b: seq<T>, x: T)
    requires x in a
    ensures x in a + b && FirstIndex(a + b, x) == FirstIndex(a, x)
  {
    if a[0] != x {
      assert (a + b)[1..] == a[1..] + b;
      FirstIndexPrefix(a[1..], b, x);
    }
  }

  /** `cols`: the distinct slugs in order of first appearance. */
  function Columns(hs: seq<HeaderSlug>): (cols: seq<string>)
    ensures Distinct(cols)
    ensures forall c :: c in cols <==> c in Slugs(hs)
  {
    DedupSpec(Slugs(hs));
    Dedup(Slugs(hs))
  }

  // ---------------------------------------------------------------------
  // type inference

  /** A parsed data row: the value under each header label. */
  type Record = map<string, string>

  /** `r[orig] || ''`. */
  function Cell(r: Record, key: string): string
  {
    if key in r then r[key] else ""
  }

  /** The trimmed cells of a column that are not empty, in row order. */
  function NonBlankCells(rows: seq<Record>, orig: string): (cells: seq<string>)
    ensures |cells| <= |rows|
  {
    if rows == [] then []
    else
      var v := Trim(Cell(rows[0], orig));
      (if v == [] then [] else [v]) + NonBlankCells(rows[1..], orig)
  }

  /** The cells of a concatenation are the cells of each part, in row
      order. */
  lemma {:induction false} NonBlankCellsAppend(a: seq<Record>, b: seq<Record>, orig: string)
    ensures NonBlankCells(a + b, orig) == NonBlankCells(a, orig) + NonBlankCells(b, orig)
  {
    if a == [] {
      assert a + b == b;
    } else {
      assert (a + b)[0] == a[0];
      assert (a + b)[1..] == a[1..] + b;
      var v := Trim(Cell(a[0], orig));
      var h := if v == [] then [] else [v];
      assert NonBlankCells(a + b, orig) == h + NonBlankCells(a[1..] + b, orig);
      NonBlankCellsAppend(a[1..], b, orig);
      assert NonBlankCells(a, orig) == h + NonBlankCells(a[1..], orig);
      Regroup3(h, NonBlankCells(a[1..], orig), NonBlankCells(b, orig));
    }
  }

  /** One row gives its trimmed cell, unless that is empty. */
  lemma NonBlankCellsSingle(r: Record, orig: string)
    ensures NonBlankCells([r], orig) == if Trim(Cell(r, orig)) == [] then [] else [Trim(Cell(r, orig))]
  {
    assert [r][1..] == [];
  }

  lemma {:induction false} NonBlankCellsTrimmed(rows: seq<Record>, orig: string)
    ensures forall c :: c in NonBlankCells(rows, orig) ==> c != [] && !IsBlank(c)
  {
    if rows != [] {
      var v := Trim(Cell(rows[0], orig));
      var head := if v == [] then [] else [v];
      var rest := NonBlankCells(rows[1..], orig);
      NonBlankCellsTrimmed(rows[1..], orig);
      if v != [] {
        TrimmedNotBlank(Cell(rows[0], orig));
      }
      assert NonBlankCells(rows, orig) == head + rest;
      forall c | c in head + rest ensures c != [] && !IsBlank(c) {
        if c !in rest {
          assert c in head;
        }
      }
    }
  }

  /** A non-empty trimmed string is not blank. */
  lemma TrimmedNotBlank(s: string)
    requires Trim(s) != []
    ensures !IsBlank(Trim(s))
  {
    var v := Trim(s);
    assert !IsWhitespace(v[0]);
    BlankIffAllWhitespace(v);
  }

  /** The samples of a column: the first 30 trimmed non-empty cells. */
  function Samples(rows: seq<Record>, orig: string): (s: seq<string>)
    ensures |s| <= 30 && |s| <= |NonBlankCells(rows, orig)|
    ensures s == NonBlankCells(rows, orig)[..|s|]
    ensures |s| < 30 ==> s == NonBlankCells(rows, orig)
  {
    var cells := NonBlankCells(rows, orig);
    if |cells| <= 30 then cells else cells[..30]
  }

  /** `samples.filter(p).length`. */
  function CountIf(s: seq<string>, p: string -> bool): (n: nat)
    ensures n <= |s|
  {
    if s == [] then 0 else (if p(s[0]) then 1 else 0) + CountIf(s[1..], p)
  }

  /** Every date string is a numeric string, so a column never has more date
      samples than numeric ones. */
  lemma {:induction false} DatesAreNumeric(s: seq<string>)
    ensures CountIf(s, IsDateString) <= CountIf(s, IsNumericString)
  {
    if s != [] {
      if IsDateString(s[0]) {
        DateStringIsNumeric(s[0]);
      }
      DatesAreNumeric(s[1..]);
    }
  }

  datatype ColType = DateType | NumericType | TextType

  /** The classification of a sample list, with the two ratio tests in the
      source's order. */
  function Classify(samples: seq<string>): ColType
  {
    var n := |samples|;
    if n > 0 && CountIf(samples, IsDateString) as real / n as real > 0.8 then DateType
    else if n > 0 && CountIf(samples, IsNumericString) as real / n as real > 0.8 then NumericType
    else TextType
  }

  lemma RatioAboveFourFifths(c: nat, n: nat)
    requires n > 0
    ensures c as real / n as real > 0.8 <==> 5 * c > 4 * n
  {
    assert c as real / n as real == (5 * c) as real / (5 * n) as real;
    assert 0.8 == (4 * n) as real / (5 * n) as real;
    MeansCompare(5 * c, 4 * n, 5 * n);
  }

  /** The classification in integer terms: "date" when more than four
      fifths of the samples are dates, else "numeric" when more than four
      fifths are numeric, else "text" -- in particular "text" when there is
      no sample at all. */
  lemma ClassifySpec(samples: seq<string>)
    ensures var n := |samples|;
            var dates := CountIf(samples, IsDateString);
            var numbers := CountIf(samples, IsNumericString);
            && (Classify(samples) == DateType <==> n > 0 && 5 * dates > 4 * n)
            && (Classify(samples) == NumericType <==> n > 0 && 5 * dates <= 4 * n && 5 * numbers > 4 * n)
            && (n == 0 ==> Classify(samples) == TextType)
  {
    var n := |samples|;
    if n > 0 {
      RatioAboveFourFifths(CountIf(samples, IsDateString), n);
      RatioAboveFourFifths(CountIf(samples, IsNumericString), n);
    }
  }

  /** A column that passes the date test also passes the numeric one: the
      date test has to come first for any column to be a date column. */
  lemma DateColumnsLookNumeric(samples: seq<string>)
    requires Classify(samples) == DateType
    ensures 5 * CountIf(samples, IsNumericString) > 4 * |samples|
  {
    ClassifySpec(samples);
    DatesAreNumeric(samples);
  }

  /** The type inferred for one header: its samples, classified. */
  function ClassifyColumn(rows: seq<Record>, orig: string): ColType
  {
    Classify(Samples(rows, orig))
  }

  /** The one slug a plain object does not store: `columnTypes["__proto__"] = t`
      sets the object's prototype, which ignores a string, so no entry is
      written; reading the key back gives `Object.prototype`, which matches
      no case of the `switch`, as a missing entry does. */
  const ProtoKey: string := "__proto__"

  /** `columnTypes[slug] = t` on the plain object `columnTypes`. */
  function SetType(types: map<string, ColType>, slug: string, t: ColType): (r: map<string, ColType>)
    ensures forall s :: s in r <==> s in types || (s == slug && slug != ProtoKey)
    ensures slug != ProtoKey ==> r[slug] == t
    ensures forall s :: s in types && s != slug ==> r[s] == types[s]
  {
    if slug == ProtoKey then types else types[slug := t]
  }

  /** `columnTypes` after the loop over the first `|hs|` headers: each
      header writes its slug's entry, so a later header with the same slug
      overwrites an earlier one. */
  function TypesOf(rows: seq<Record>, hs: seq<HeaderSlug>): map<string, ColType>
  {
    if hs == [] then map[]
    else
      var last := hs[|hs| - 1];
      SetType(TypesOf(rows, hs[..|hs| - 1]), last.slug, ClassifyColumn(rows, last.orig))
  }

  /** One entry per slug other than `__proto__`, and no other. */
  lemma {:induction false} TypesOfKeys(rows: seq<Record>, hs: seq<HeaderSlug>)
    ensures forall s :: s in TypesOf(rows, hs) <==> s in Slugs(hs) && s != ProtoKey
  {
    if hs != [] {
      var init, last := hs[..|hs| - 1], hs[|hs| - 1];
      TypesOfKeys(rows, init);
      SlugsSnoc(hs);
      forall s ensures s in TypesOf(rows, hs) <==> s in Slugs(hs) && s != ProtoKey {
        assert s in Slugs(hs) <==> s in Slugs(init) || s == last.slug;
      }
    }
  }

  lemma SlugsSnoc(hs: seq<HeaderSlug>)
    requires hs != []
    ensures Slugs(hs) == Slugs(hs[..|hs| - 1]) + [hs[|hs| - 1].slug]
  {
    var a, b := Slugs(hs), Slugs(hs[..|hs| - 1]);
    forall k | 0 <= k < |b| ensures a[k] == b[k] {
      assert hs[..|hs| - 1][k] == hs[k];
    }
    assert a == b + [hs[|hs| - 1].slug];
  }

  /** The entry of a slug is the type of the last header carrying it;
      `__proto__` never gets one. */
  lemma {:induction false} LastHeaderWins(rows: seq<Record>, hs: seq<HeaderSlug>, i: nat)
    requires i < |hs|
    requires forall j :: i < j < |hs| ==> hs[j].slug != hs[i].slug
    ensures hs[i].slug in TypesOf(rows, hs) <==> hs[i].slug != ProtoKey
    ensures hs[i].slug != ProtoKey ==> TypesOf(rows, hs)[hs[i].slug] == ClassifyColumn(rows, hs[i].orig)
  {
    if i < |hs| - 1 {
      LastHeaderWins(rows, hs[..|hs| - 1], i);
    } else if hs[i].slug == ProtoKey {
      TypesOfKeys(rows, hs);
    }
  }

  // ---------------------------------------------------------------------
  // column definitions

  datatype SqlType = DATE | NUMERIC | TEXT

  datatype ColumnDef = ColumnDef(name: string, sqlType: SqlType)

  /** `columnTypes[c]`, with a missing entry (which is what `__proto__`
      always is) falling to the `default` case. */
  function TypeFor(types: map<string, ColType>, c: string): ColType
  {
    if c in types then types[c] else TextType
  }

  function SqlTypeOf(t: ColType): SqlType
  {
    match t
    case DateType => DATE
    case NumericType => NUMERIC
    case TextType => TEXT
  }

  /** `colDefs`: one definition per column, in column order. */
  function ColumnDefs(cols: seq<string>, types: map<string, ColType>): (defs: seq<ColumnDef>)
    ensures |defs| == |cols|
    ensures forall i :: 0 <= i < |cols| ==> defs[i].name == cols[i]
  {
    seq(|cols|, i requires 0 <= i < |cols| => ColumnDef(cols[i], SqlTypeOf(TypeFor(types, cols[i]))))
  }

  /** Each column of the created table is typed by the samples of the last
      header with that slug: DATE, NUMERIC or TEXT as the classification
      says; a `__proto__` column is always TEXT. */
  lemma ColumnDefsTyped(rows: seq<Record>, hs: seq<HeaderSlug>, k: nat, i: nat)
    requires k < |Columns(hs)|
    requires i < |hs| && hs[i].slug == Columns(hs)[k]
    requires forall j :: i < j < |hs| ==> hs[j].slug != hs[i].slug
    ensures ColumnDefs(Columns(hs), TypesOf(rows, hs))[k] ==
              ColumnDef(hs[i].slug, if hs[i].slug == ProtoKey then TEXT else SqlTypeOf(ClassifyColumn(rows, hs[i].orig)))
  {
    LastHeaderWins(rows, hs, i);
  }

  // ---------------------------------------------------------------------
  // cell coercion

  /** A query parameter: SQL null, a string, an exact number, or the NaN
      that `parseFloat` gives for a string without a numeric prefix. */
  datatype Value = Null | Str(s: string) | Num(d: Decimal) | NotANumber

  /** The value of one cell of column `c` of type `t`. */
  function CoerceCell(c: string, t: ColType, raw: string): Value
  {
    if IsBlank(raw) then Null
    else
      match t
      case DateType => Str(ParseDate(Trim(raw)))
      case NumericType =>
        if Contains(c, "valuation") then
          (match ParseValuation(raw)
           case None => Null
           case Some(d) => Num(d))
        else
          (match ParseFloat(CleanNumeric(raw))
           case None => NotANumber
           case Some(d) => Num(d))
      case TextType => Str(Trim(raw))
  }

  /** A cell is null exactly when it is blank, or when it is in a numeric
      valuation column and `parseValuation` finds no number: the date and
      text paths never give null, and the generic numeric path gives NaN
      instead. */
  lemma CoerceNull(c: string, t: ColType, raw: string)
    ensures CoerceCell(c, t, raw) == Null <==>
              IsBlank(raw) || (t == NumericType && Contains(c, "valuation") && ParseValuation(raw).None?)
    ensures CoerceCell(c, t, raw) == NotANumber <==>
              !IsBlank(raw) && t == NumericType && !Contains(c, "valuation") && !IsNumericString(raw)
  {
    if !IsBlank(raw) && t == NumericType {
      if Contains(c, "valuation") {
        assert CoerceCell(c, t, raw) != NotANumber;
      } else {
        assert CoerceCell(c, t, raw) != Null;
      }
    }
  }

  /** A date cell that `isDateString` accepts is stored as an ISO date. */
  lemma CoerceDate(c: string, raw: string)
    requires IsDateString(Trim(raw))
    ensures CoerceCell(c, DateType, raw).Str?
    ensures IsIsoDate(CoerceCell(c, DateType, raw).s)
  {
    ParseDateYieldsIso(Trim(raw));
    assert Trim(raw) != [];
  }

  /** The header whose cell fills column `c`: the first one with slug `c`
      (`find`). */
  function FirstOrig(hs: seq<HeaderSlug>, c: string): (orig: string)
    requires c in Slugs(hs)
    ensures exists k :: 0 <= k < |hs| && hs[k].slug == c && hs[k].orig == orig &&
                        forall j :: 0 <= j < k ==> hs[j].slug != c
  {
    hs[FirstIndex(Slugs(hs), c)].orig
  }

  /** `values` for one row: each column's cell, coerced by its type. */
  function CoerceRow(row: Record, cols: seq<string>, hs: seq<HeaderSlug>, types: map<string, ColType>): (values: seq<Value>)
    requires forall c :: c in cols ==> c in Slugs(hs)
    ensures |values| == |cols|
  {
    seq(|cols|, i requires 0 <= i < |cols| =>
      CoerceCell(cols[i], TypeFor(types, cols[i]), Cell(row, FirstOrig(hs, cols[i]))))
  }

  /** Column k's value: with i the first and j the last header carrying its
      slug (the same header when only one carries it), the column takes its
      type from header j but its cells from header i. */
  lemma DuplicateSlugs(rows: seq<Record>, row: Record, hs: seq<HeaderSlug>, k: nat, i: nat, j: nat)
    requires k < |Columns(hs)|
    requires i <= j < |hs| && hs[i].slug == hs[j].slug == Columns(hs)[k]
    requires forall m :: 0 <= m < i ==> hs[m].slug != hs[i].slug
    requires forall m :: j < m < |hs| ==> hs[m].slug != hs[j].slug
    ensures forall c :: c in Columns(hs) ==> c in Slugs(hs)
    ensures CoerceRow(row, Columns(hs), hs, TypesOf(rows, hs))[k] ==
              CoerceCell(hs[i].slug, if hs[i].slug == ProtoKey then TextType else ClassifyColumn(rows, hs[j].orig),
                         Cell(row, hs[i].orig))
  {
    DedupSpec(Slugs(hs));
    LastHeaderWins(rows, hs, j);
    assert FirstIndex(Slugs(hs), hs[i].slug) == i;
  }

  /** `$1, ..., $n`. */
  function Placeholders(n: nat): (ps: seq<string>)
    ensures |ps| == n
    ensures forall i :: 0 <= i < n ==>
              |ps[i]| >= 2 && ps[i][0] == '$' && AllDigits(ps[i][1..]) && DigitsValue(ps[i][1..]) == i + 1
  {
    seq(n, i requires 0 <= i < n => "$" + NatToString(i + 1))
  }

  /** Distinct positions get distinct placeholders. */
  lemma PlaceholdersDistinct(n: nat)
    ensures Distinct(Placeholders(n))
  {
  }

  // ---------------------------------------------------------------------
  // table name

  /** The path without the `/` characters that end it. */
  function StripTrailingSlashes(path: string): (t: string)
    ensures |t| <= |path| && t == path[..|t|]
    ensures t == [] || t[|t| - 1] != '/'
  {
    if path == [] || path[|path| - 1] != '/' then path
    else StripTrailingSlashes(path[..|path| - 1])
  }

  /** Only slashes are removed. */
  lemma {:induction false} StripOnlySlashes(path: string)
    ensures forall i :: |StripTrailingSlashes(path)| <= i < |path| ==> path[i] == '/'
  {
    if path != [] && path[|path| - 1] == '/' {
      StripOnlySlashes(path[..|path| - 1]);
    }
  }

  /** What follows the last `/` of a path. */
  function LastSegment(path: string): (seg: string)
    ensures |seg| <= |path| && seg == path[|path| - |seg|..]
    ensures Count(seg, '/') == 0
    ensures |seg| < |path| ==> path[|path| - |seg| - 1] == '/'
  {
    if path == [] then []
    else if path[|path| - 1] == '/' then
      CountAbsent([], '/');
      []
    else
      var init := path[..|path| - 1];
      var front := LastSegment(init);
      CountAppend(front, [path[|path| - 1]], '/');
      assert path[|path| - |front| - 1..] == init[|init| - |front|..] + [path[|path| - 1]];
      front + [path[|path| - 1]]
  }

  /** `path.basename(p)` on POSIX paths: trailing slashes are ignored and
      the last segment remains; a path of slashes only gives "". */
  function BaseName(path: string): (base: string)
    ensures Count(base, '/') == 0
    ensures base == [] <==> StripTrailingSlashes(path) == []
  {
    var t := StripTrailingSlashes(path);
    LastSegmentNonEmpty(t);
    LastSegment(t)
  }

  /** The base name is the segment after the last `/` once trailing slashes
      are ignored. */
  lemma BaseNameIsLastSegment(path: string)
    ensures var t := StripTrailingSlashes(path);
            var base := BaseName(path);
            |base| <= |t| && base == t[|t| - |base|..] &&
            (|base| < |t| ==> t[|t| - |base| - 1] == '/')
  {
    var t := StripTrailingSlashes(path);
    assert BaseName(path) == LastSegment(t);
  }

  lemma LastSegmentNonEmpty(t: string)
    ensures t != [] && t[|t| - 1] != '/' ==> LastSegment(t) != []
  {
  }

  lemma StripOneSlash(p: string)
    requires p == [] || p[|p| - 1] != '/'
    ensures StripTrailingSlashes(p + "/") == p
    ensures StripTrailingSlashes(p) == p
  {
    var q := p + "/";
    assert q[|q| - 1] == '/' && q[..|q| - 1] == p;
    assert StripTrailingSlashes(q) == StripTrailingSlashes(p);
  }

  /** The file name after a directory's `/` is the last segment. */
  lemma {:induction false} LastSegmentOfFile(dir: string, file: string)
    requires Count(file, '/') == 0
    ensures LastSegment(dir + "/" + file) == file
    decreases |file|
  {
    var path := dir + "/" + file;
    if file == [] {
      assert path[|path| - 1] == '/';
    } else {
      var last := file[|file| - 1];
      var init := file[..|file| - 1];
      assert file == init + [last];
      CountAppend(init, [last], '/');
      CountAbsent(file, '/');
      assert last != '/';
      LastSegmentOfFile(dir, init);
      var pre := dir + "/" + init;
      assert path == pre + [last] by {
        Regroup3(dir + "/", init, [last]);
      }
      assert path[..|path| - 1] == pre;
      assert LastSegment(path) == LastSegment(pre) + [last];
    }
  }

  /** The base name of `dir/file` is `file`. */
  lemma BaseNameOfFile(dir: string, file: string)
    requires file != [] && Count(file, '/') == 0
    ensures BaseName(dir + "/" + file) == file
  {
    var path := dir + "/" + file;
    CountAbsent(file, '/');
    assert path[|path| - 1] == file[|file| - 1];
    assert StripTrailingSlashes(path) == path;
    LastSegmentOfFile(dir, file);
  }

  /** `dir/name.csv` names the table `name`. */
  lemma TableNameOfCsvFile(dir: string, file: string)
    requires Count(file, '/') == 0 && |file| > 4 && file[|file| - 4..] == ".csv"
    ensures TableName(dir + "/" + file) == file[..|file| - 4]
  {
    BaseNameOfFile(dir, file);
    DropCsv(file);
  }

  /** A name that `.csv` ends with but that is shorter than it: `v`, `sv`,
      `csv`. */
  predicate IsCsvTail(s: string)
  {
    var suffix := ".csv";
    0 < |s| < |suffix| && s == suffix[|suffix| - |s|..]
  }

  /** `path.basename(csvFile, '.csv')`, following the POSIX algorithm of
      Node's `path` module: the path equal to the suffix gives ""; a suffix
      longer than the path is not looked at; otherwise the suffix is removed
      from a last segment that ends with it and is longer than it. The scan
      that matches the suffix also has two edge cases: a path of slashes only
      is returned whole, and a segment that is a proper tail of the suffix is
      returned with the slashes that follow it. */
  function TableName(csvFile: string): (name: string)
    ensures csvFile == ".csv" ==> name == ""
    ensures |csvFile| < 4 ==> name == BaseName(csvFile)
    ensures |csvFile| >= 4 && csvFile != ".csv" ==>
              var b := BaseName(csvFile);
              && (|b| > 4 && b[|b| - 4..] == ".csv" ==> name + ".csv" == b)
              && (b == ".csv" ==> name == b)
              && (b == [] ==> name == csvFile)
              && (IsCsvTail(b) ==> name == b + csvFile[|StripTrailingSlashes(csvFile)|..])
              && (b != [] && !IsCsvTail(b) && !(|b| >= 4 && b[|b| - 4..] == ".csv") ==> name == b)
  {
    var b := BaseName(csvFile);
    if |csvFile| < 4 then b
    else if csvFile == ".csv" then ""
    else if b == [] then csvFile
    else if |b| > 4 && b[|b| - 4..] == ".csv" then
      DropCsv(b);
      b[..|b| - 4]
    else if IsCsvTail(b) then
      var t := StripTrailingSlashes(csvFile);
      b + csvFile[|t|..]
    else b
  }

  lemma DropCsv(base: string)
    requires |base| > 4 && base[|base| - 4..] == ".csv"
    ensures base[..|base| - 4] + ".csv" == base
  {
    var name := base[..|base| - 4];
    assert name + base[|base| - 4..] == base;
  }

  /** A name taken from a path holds a `/` only in the two edge cases of the
      suffix scan. */
  lemma TableNameNoSlash(csvFile: string)
    requires BaseName(csvFile) != [] && !IsCsvTail(BaseName(csvFile))
    ensures Count(TableName(csvFile), '/') == 0
  {
    var b := BaseName(csvFile);
    if |csvFile| >= 4 && csvFile != ".csv" && |b| > 4 && b[|b| - 4..] == ".csv" {
      var name := b[..|b| - 4];
      DropCsv(b);
      CountAppend(name, ".csv", '/');
    }
  }

  /** Trailing slashes do not change the table name, apart from the edge
      cases of the suffix scan. */
  lemma TableNameTrailingSlash(p: string)
    requires |p| >= 4 && p[|p| - 1] != '/'
    requires BaseName(p) != ".csv" && !IsCsvTail(BaseName(p))
    ensures TableName(p + "/") == TableName(p)
  {
    var q := p + "/";
    StripOneSlash(p);
    assert BaseName(q) == LastSegment(p) == BaseName(p);
    LastSegmentNonEmpty(p);
    assert |q| != 4;
  }
}
