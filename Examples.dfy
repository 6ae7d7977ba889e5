/** Worked instances: concrete dates, amounts and sample columns, and what
    the model computes for them, derived from the general lemmas. */
module Examples {
  import opened Text
  import opened Numbers
  import opened Helpers
  import opened SeedSteps

  // -------------------------------------------------------------------
  // "5/1/23": day first, two-digit year, single digits padded

  lemma Year2023()
    ensures FullYear("23") == "2023"
  {
    assert DigitsValue("23") == 23 by {
      assert "23"[..1] == "2" && "2"[..0] == [];
    }
    assert NatToString(2023) == "2023";
  }

  lemma Iso20230105()
    ensures "2023" + "-" + "01" + "-" + "05" == "2023-01-05"
  {
  }

  lemma FormatTwoDigitYear(p: DateParts)
    requires p == DateParts("5", "1", "23")
    ensures FormatDate(p) == "2023" + "-" + "01" + "-" + "05"
  {
    assert PadStart2("5") == "05" && PadStart2("1") == "01";
    assert DigitsValue("05") == 5 by {
      assert "05"[..1] == "0" && "0"[..0] == [];
    }
    Year2023();
  }

  lemma ParseDateTwoDigitYear(p: DateParts)
    requires p == DateParts("5", "1", "23")
    ensures ParseDate(DateText(p)) == "2023-01-05"
  {
    ParseDateMatched(p);
    FormatTwoDigitYear(p);
    Iso20230105();
  }

  // -------------------------------------------------------------------
  // "2/13/2024" and "13/2/2024": a month field over 12 swaps, so both
  // orders give the same date

  lemma Values13And02()
    ensures DigitsValue("13") == 13 && DigitsValue("02") == 2
  {
    assert "13"[..1] == "1" && "1"[..0] == [];
    assert "02"[..1] == "0" && "0"[..0] == [];
  }

  lemma Iso20240213()
    ensures "2024" + "-" + "02" + "-" + "13" == "2024-02-13"
  {
  }

  lemma FormatMonthFirst(p: DateParts)
    requires p == DateParts("2", "13", "2024")
    ensures FormatDate(p) == "2024" + "-" + "02" + "-" + "13"
  {
    assert PadStart2("2") == "02" && PadStart2("13") == "13";
    Values13And02();
    assert Swaps(2, 13);
  }

  lemma ParseDateMonthFirst(p: DateParts)
    requires p == DateParts("2", "13", "2024")
    ensures ParseDate(DateText(p)) == "2024-02-13"
  {
    ParseDateMatched(p);
    FormatMonthFirst(p);
    Iso20240213();
  }

  lemma FormatDayFirst(p: DateParts)
    requires p == DateParts("13", "2", "2024")
    ensures FormatDate(p) == "2024" + "-" + "02" + "-" + "13"
  {
    assert PadStart2("13") == "13" && PadStart2("2") == "02";
    Values13And02();
    assert !Swaps(13, 2);
  }

  lemma ParseDateDayFirst(p: DateParts)
    requires p == DateParts("13", "2", "2024")
    ensures ParseDate(DateText(p)) == "2024-02-13"
  {
    ParseDateMatched(p);
    FormatDayFirst(p);
    Iso20240213();
  }

  // -------------------------------------------------------------------
  // "0/13/2024": the swap needs a day field of at least 1, so this one
  // keeps month 13 and day 0

  lemma Iso20241300()
    ensures "2024" + "-" + "13" + "-" + "00" == "2024-13-00"
  {
  }

  lemma FormatZeroDay(p: DateParts)
    requires p == DateParts("0", "13", "2024")
    ensures FormatDate(p) == "2024" + "-" + "13" + "-" + "00"
  {
    assert PadStart2("0") == "00" && PadStart2("13") == "13";
    Values13And02();
    assert DigitsValue("00") == 0 by {
      assert "00"[..1] == "0" && "0"[..0] == [];
    }
    assert !Swaps(0, 13);
  }

  lemma ParseDateZeroDay(p: DateParts)
    requires p == DateParts("0", "13", "2024")
    ensures ParseDate(DateText(p)) == "2024-13-00"
  {
    ParseDateMatched(p);
    FormatZeroDay(p);
    Iso20241300();
  }

  // -------------------------------------------------------------------
  // "US$350,00" in a valuation column: 350 billion

  lemma {:induction false} StripNone(x: string)
    requires forall i :: 0 <= i < |x| ==> !IsNumberChar(x[i])
    ensures StripNonNumeric(x) == []
  {
    if x != [] {
      StripNone(x[1..]);
    }
  }

  lemma StripNumberText(x: string)
    requires |x| >= 1 && forall i :: 0 <= i < |x| ==> IsNumberChar(x[i])
    ensures StripNonNumeric(x) == x
  {
    StripNumberChars(x);
  }

  lemma StripUs(raw: string)
    requires raw == "US$350,00"
    ensures StripNonNumeric(raw) == "350,00"
  {
    assert raw == raw[..3] + raw[3..];
    StripAppend(raw[..3], raw[3..]);
    StripNone(raw[..3]);
    StripNumberText(raw[3..]);
  }

  lemma Digits35000()
    ensures AllDigits("35000") && DigitsValue("35000") == 35000
  {
    assert "35000"[..4] == "3500";
    assert "3500"[..3] == "350";
    assert "350"[..2] == "35";
    assert "35"[..1] == "3";
    assert "3"[..0] == [];
  }

  lemma ValuationUsDecimal(raw: string)
    requires raw == "US$350,00"
    ensures ParseValuation(raw) == Some(TimesBillion(Decimal(35000, 2)))
  {
    StripUs(raw);
    Split35000();
    ValuationDecimalComma(raw, "350", "00");
    Digits35000();
  }

  lemma Split35000()
    ensures "350,00" == "350" + "," + "00" && "350" + "00" == "35000"
  {
  }

  lemma ThreeHundredFiftyBillion()
    ensures TimesBillion(Decimal(35000, 2)).Value() == 350000000000.0
  {
    assert Pow10(2) == 100;
    assert Decimal(35000, 2).Value() == 350.0;
  }

  /** The documented example of `parseValuation`. */
  lemma ValuationUs(raw: string)
    requires raw == "US$350,00"
    ensures ParseValuation(raw).Some?
    ensures ParseValuation(raw).value.Value() == 350000000000.0
  {
    ValuationUsDecimal(raw);
    ThreeHundredFiftyBillion();
  }

  // -------------------------------------------------------------------
  // "1.234,56" on the generic numeric path: 1234.56

  lemma Digits123456()
    ensures AllDigits("123456") && DigitsValue("123456") == 123456
  {
    assert "123456"[..5] == "12345";
    assert "12345"[..4] == "1234";
    assert "1234"[..3] == "123";
    assert "123"[..2] == "12";
    assert "12"[..1] == "1";
    assert "1"[..0] == [];
  }

  lemma StripEuro(raw: string)
    requires raw == "1.234,56"
    ensures StripNonNumeric(raw) == "1" + "." + "234" + "," + "56"
  {
    StripNumberText(raw);
  }

  lemma NumericEuro(raw: string)
    requires raw == "1.234,56"
    ensures ParseFloat(CleanNumeric(raw)) == Some(Decimal(123456, 2))
  {
    StripEuro(raw);
    NumericGroupedDecimalComma(raw, "1", "234", "56");
    assert "1" + "234" + "56" == "123456";
    Digits123456();
  }

  lemma NumericEuroValue(raw: string)
    requires raw == "1.234,56"
    ensures ParseFloat(CleanNumeric(raw)).Some?
    ensures ParseFloat(CleanNumeric(raw)).value.Value() == 1234.56
  {
    NumericEuro(raw);
    assert Pow10(2) == 100;
  }

  // -------------------------------------------------------------------
  // sample columns

  lemma IsoSample(s: string)
    requires |s| == 10 && s[4] == '-' && s[7] == '-'
    requires forall i :: 0 <= i < 10 && i != 4 && i != 7 ==> IsDigit(s[i])
    ensures IsDateString(s)
  {
    assert AllDigits(s[..4]) && AllDigits(s[5..7]) && AllDigits(s[8..]);
  }

  /** Counting over three samples. */
  lemma CountIfThree(samples: seq<string>, p: string -> bool)
    requires |samples| == 3
    ensures CountIf(samples, p) ==
              (if p(samples[0]) then 1 else 0) + (if p(samples[1]) then 1 else 0) + (if p(samples[2]) then 1 else 0)
  {
    var t1 := samples[1..];
    var t2 := t1[1..];
    assert t2[1..] == [] && CountIf(t2[1..], p) == 0;
    assert t1[0] == samples[1] && t2[0] == samples[2];
    assert CountIf(t2, p) == (if p(samples[2]) then 1 else 0);
    assert CountIf(t1, p) == (if p(samples[1]) then 1 else 0) + CountIf(t2, p);
  }

  lemma ClassifyIsoDates(samples: seq<string>)
    requires samples == ["2023-01-05", "2023-02-10", "2023-03-15"]
    ensures Classify(samples) == DateType
  {
    IsoSample(samples[0]);
    IsoSample(samples[1]);
    IsoSample(samples[2]);
    CountIfThree(samples, IsDateString);
    ClassifySpec(samples);
  }

  /** A string without a slash that is not ten characters long is no date. */
  lemma NotDate(s: string)
    requires |s| != 10 && Count(s, '/') == 0
    ensures !IsDateString(s)
  {
  }

  lemma GroupedNumbersNoDates(samples: seq<string>)
    requires samples == ["1,234.50", "980", "2,000"]
    ensures CountIf(samples, IsDateString) == 0
  {
    NotDate(samples[0]);
    NotDate(samples[1]);
    NotDate(samples[2]);
    CountIfThree(samples, IsDateString);
  }

  lemma GroupedNumbersAllNumeric(samples: seq<string>)
    requires samples == ["1,234.50", "980", "2,000"]
    ensures CountIf(samples, IsNumericString) == 3
  {
    LeadingDigitIsNumeric(samples[0]);
    LeadingDigitIsNumeric(samples[1]);
    LeadingDigitIsNumeric(samples[2]);
    CountIfThree(samples, IsNumericString);
  }

  lemma ClassifyGroupedNumbers(samples: seq<string>)
    requires samples == ["1,234.50", "980", "2,000"]
    ensures Classify(samples) == NumericType
  {
    GroupedNumbersNoDates(samples);
    GroupedNumbersAllNumeric(samples);
    ClassifySpec(samples);
  }

  // -------------------------------------------------------------------
  // the cells of the row "Acme","5/1/23","1.234,56" under name, joined,
  // amount

  /** A pattern longer than the text is not contained in it. */
  lemma {:induction false} NotContainsLonger(s: string, sub: string)
    requires |sub| > |s|
    ensures !Contains(s, sub)
    decreases |s|
  {
    if s != [] {
      NotContainsLonger(s[1..], sub);
    }
  }

  lemma Solid(s: string)
    requires |s| >= 1 && NoWhitespace(s)
    ensures Trim(s) == s && !IsBlank(s)
  {
    TrimNoWhitespace(s);
  }

  lemma CoerceJoined(c: string, raw: string)
    requires raw == "5/1/23"
    ensures CoerceCell(c, DateType, raw) == Str("2023-01-05")
  {
    var p := DateParts("5", "1", "23");
    assert DateText(p) == raw;
    Solid(raw);
    ParseDateTwoDigitYear(p);
  }

  /** The generic numeric path, for a cell that is not blank in a column
      whose name does not mention valuations. */
  lemma CoerceGenericNumeric(c: string, raw: string)
    requires !IsBlank(raw) && !Contains(c, "valuation")
    ensures CoerceCell(c, NumericType, raw) ==
              match ParseFloat(CleanNumeric(raw))
              case None => NotANumber
              case Some(d) => Num(d)
  {
  }

  lemma CoerceAmount(c: string, raw: string)
    requires c == "amount" && raw == "1.234,56"
    ensures CoerceCell(c, NumericType, raw) == Num(Decimal(123456, 2))
  {
    NotContainsLonger(c, "valuation");
    Solid(raw);
    CoerceGenericNumeric(c, raw);
    NumericEuro(raw);
  }

  /** The valuation path, for a cell that is not blank in a column whose
      name mentions valuations. */
  lemma CoerceValuationPath(c: string, raw: string)
    requires !IsBlank(raw) && Contains(c, "valuation")
    ensures CoerceCell(c, NumericType, raw) ==
              match ParseValuation(raw)
              case None => Null
              case Some(d) => Num(d)
  {
  }

  /** A `valuation_b` column's cells go through `parseValuation`. */
  lemma CoerceValuationColumn(c: string, raw: string)
    requires c == "valuation_b" && raw == "US$350,00"
    ensures CoerceCell(c, NumericType, raw) == Num(TimesBillion(Decimal(35000, 2)))
  {
    ContainsAt(c, "valuation", 0);
    Solid(raw);
    CoerceValuationPath(c, raw);
    ValuationUsDecimal(raw);
  }

  /** A "Valuation ($B)" header slugs to `valuation_b`, whose cells go
      through `parseValuation`. */
  lemma CoerceValuation(header: string, c: string, raw: string)
    requires header == "Valuation ($B)" && c == Slug(header) && raw == "US$350,00"
    ensures CoerceCell(c, NumericType, raw) == Num(TimesBillion(Decimal(35000, 2)))
  {
    SlugValuation(header);
    CoerceValuationColumn(c, raw);
  }

  lemma CoerceName(c: string, raw: string)
    requires raw == "Acme"
    ensures CoerceCell(c, TextType, raw) == Str("Acme")
  {
    Solid(raw);
  }

  // -------------------------------------------------------------------
  // Header slugs: "Valuation ($B)" and "  First   Name "

  /** Printable ASCII other than the space is not whitespace. */
  lemma GraphicSolid(s: string)
    requires forall i :: 0 <= i < |s| ==> '!' <= s[i] <= '~'
    ensures NoWhitespace(s)
  {
    forall i | 0 <= i < |s| ensures !IsWhitespace(s[i]) {
      assert '!' <= s[i] <= '~';
    }
  }

  /** The capitals of the example headers' words fold to small letters. */
  lemma LowerHeaderWords(a: string, b: string)
    requires (a == "First" && b == "Name") || (a == "Valuation" && b == "($B)")
    ensures a == "First" ==> ToLower(a) == "first" && ToLower(b) == "name"
    ensures a == "Valuation" ==> ToLower(a) == "valuation" && ToLower(b) == "($b)"
  {
    ToLowerAscii(a);
    ToLowerAscii(b);
  }

  lemma SlugFirstNameWords(header: string, a: string, b: string)
    requires header == "  First   Name " && a == "First" && b == "Name"
    ensures Slug(header) == ToLower(a) + "_" + ToLower(b)
  {
    assert header == "  " + a + "   " + b + " ";
    SlugTwoWords("  ", a, "   ", b, " ");
  }

  lemma FirstNameText(la: string, lb: string)
    requires la == "first" && lb == "name"
    ensures la + "_" + lb == "first_name"
  {
  }

  lemma SlugFirstNameParts(header: string, a: string, b: string)
    requires header == "  First   Name " && a == "First" && b == "Name"
    ensures Slug(header) == "first_name"
  {
    SlugFirstNameWords(header, a, b);
    LowerHeaderWords(a, b);
    FirstNameText(ToLower(a), ToLower(b));
  }

  /** The surrounding spaces are trimmed and the inner run of three spaces
      becomes a single `_`. */
  lemma SlugFirstName(header: string)
    requires header == "  First   Name "
    ensures Slug(header) == "first_name"
  {
    SlugFirstNameParts(header, "First", "Name");
  }

  /** Text that neither starts nor ends with whitespace is its own trim. */
  lemma TrimSolidEnds(s: string)
    requires |s| >= 1 && !IsWhitespace(s[0]) && !IsWhitespace(s[|s| - 1])
    ensures Trim(s) == s
  {
    assert [] + s + [] == s;
    TrimAround([], s, []);
  }

  lemma ValuationText(header: string, a: string, w: string, b: string)
    requires header == "Valuation ($B)" && a == "Valuation" && w == " " && b == "($B)"
    ensures header == a + w + b
  {
  }

  lemma TrimValuation(header: string, a: string, w: string, b: string)
    requires header == "Valuation ($B)" && a == "Valuation" && w == " " && b == "($B)"
    ensures Trim(header) == a + w + b
  {
    assert header[0] == 'V' && header[|header| - 1] == ')';
    TrimSolidEnds(header);
    ValuationText(header, a, w, b);
  }

  lemma SlugValuationPieces(header: string, a: string, w: string, b: string)
    requires header == "Valuation ($B)" && a == "Valuation" && w == " " && b == "($B)"
    ensures Slug(header) == KeepSlugChars(CollapseWhitespace(ToLower(a) + w + ToLower(b)))
  {
    TrimValuation(header, a, w, b);
    ToLowerAppend(a + w, b);
    ToLowerAppend(a, w);
    LowerWhitespace(w);
  }

  lemma CollapseValuation(la: string, w: string, lb: string)
    requires la == "valuation" && w == " " && lb == "($b)"
    ensures CollapseWhitespace(la + w + lb) == la + "_" + lb
  {
    GraphicSolid(la);
    GraphicSolid(lb);
    CollapseOneRun(la, w, lb);
  }

  lemma KeepSymbols(lb: string)
    requires lb == "($b)"
    ensures KeepSlugChars(lb) == "b"
  {
    assert KeepSlugChars(lb[3..]) == [] by {
      assert lb[3..][1..] == [];
    }
    assert KeepSlugChars(lb[2..]) == "b" + KeepSlugChars(lb[3..]) by {
      assert lb[2..][1..] == lb[3..];
    }
    assert KeepSlugChars(lb[1..]) == KeepSlugChars(lb[2..]) by {
      assert lb[1..][1..] == lb[2..];
    }
  }

  lemma KeepValuation(la: string, lb: string)
    requires la == "valuation" && lb == "($b)"
    ensures KeepSlugChars(la + "_" + lb) == "valuation_b"
  {
    KeepSlugCharsAppend(la + "_", lb);
    KeepSlugCharsKeeps(la + "_");
    KeepSymbols(lb);
  }

  lemma SlugValuationParts(header: string, a: string, w: string, b: string)
    requires header == "Valuation ($B)" && a == "Valuation" && w == " " && b == "($B)"
    ensures Slug(header) == "valuation_b"
  {
    SlugValuationPieces(header, a, w, b);
    LowerHeaderWords(a, b);
    CollapseValuation(ToLower(a), w, ToLower(b));
    KeepValuation(ToLower(a), ToLower(b));
  }

  /** Capitals fold to lower case, the space becomes `_`, and the
      parentheses and dollar sign are dropped. */
  lemma SlugValuation(header: string)
    requires header == "Valuation ($B)"
    ensures Slug(header) == "valuation_b"
  {
    SlugValuationParts(header, "Valuation", " ", "($B)");
  }

  // -------------------------------------------------------------------
  // A one-row column: the `joined` cell of an Acme row

  lemma JoinedIsDate(s: string)
    requires s == "5/1/23"
    ensures IsDateString(s)
  {
    var p := DateParts("5", "1", "23");
    assert DateText(p) == s;
    MatchDmyComplete(p);
  }

  /** The row's `joined` cell is the column's only sample, a D/M/Y date, so
      the column is a date column. */
  lemma ClassifyJoinedColumn(row: Record)
    requires row == map["name" := "Acme", "joined" := "5/1/23", "amount" := "1.234,56"]
    ensures ClassifyColumn([row], "joined") == DateType
  {
    var cell := Cell(row, "joined");
    assert cell == "5/1/23";
    Solid(cell);
    NonBlankCellsSingle(row, "joined");
    var samples := Samples([row], "joined");
    assert samples == [cell];
    JoinedIsDate(cell);
    assert samples[1..] == [];
    assert CountIf(samples, IsDateString) == 1;
    ClassifySpec(samples);
  }

  // -------------------------------------------------------------------
  // Table names

  lemma CsvFileSlashFree(file: string)
    requires file == "unicorns.csv"
    ensures Count(file, '/') == 0
  {
    CountAbsent(file, '/');
  }

  lemma CsvFileName(file: string)
    requires file == "unicorns.csv"
    ensures Count(file, '/') == 0
    ensures |file| > 4 && file[|file| - 4..] == ".csv" && file[..|file| - 4] == "unicorns"
  {
    CsvFileSlashFree(file);
  }

  lemma UnicornsPath(p: string, dir: string, file: string)
    requires p == "data/unicorns.csv" && dir == "data" && file == "unicorns.csv"
    ensures p == dir + "/" + file
  {
  }

  lemma TableNameOfPathParts(p: string, dir: string, file: string)
    requires p == "data/unicorns.csv" && dir == "data" && file == "unicorns.csv"
    ensures TableName(p) == "unicorns"
  {
    UnicornsPath(p, dir, file);
    CsvFileName(file);
    TableNameOfCsvFile(dir, file);
  }

  /** "data/unicorns.csv" names the table `unicorns`. */
  lemma TableNameOfPath(p: string)
    requires p == "data/unicorns.csv"
    ensures TableName(p) == "unicorns"
  {
    TableNameOfPathParts(p, "data", "unicorns.csv");
  }

  lemma SlashEndParts(p: string, q: string, dir: string, file: string)
    requires p == "data/unicorns.csv/" && q == "data/unicorns.csv" && dir == "data" && file == "unicorns.csv"
    ensures p == q + "/" && q == dir + "/" + file && |q| >= 4 && q[|q| - 1] != '/'
  {
  }

  lemma TableNameSlashEndParts(p: string, q: string, dir: string, file: string)
    requires p == "data/unicorns.csv/" && q == "data/unicorns.csv" && dir == "data" && file == "unicorns.csv"
    ensures TableName(p) == "unicorns"
  {
    SlashEndParts(p, q, dir, file);
    CsvFileName(file);
    BaseNameOfFile(dir, file);
    assert BaseName(q) == file && |file| > 4;
    TableNameTrailingSlash(q);
    TableNameOfPathParts(q, dir, file);
  }

  /** A trailing slash is ignored: "data/unicorns.csv/" also names the table
      `unicorns`. */
  lemma TableNameSlashEnd(p: string)
    requires p == "data/unicorns.csv/"
    ensures TableName(p) == "unicorns"
  {
    TableNameSlashEndParts(p, "data/unicorns.csv", "data", "unicorns.csv");
  }

  /** The path that is exactly the suffix gives the empty name. */
  lemma TableNameBareSuffix(p: string)
    requires p == ".csv"
    ensures TableName(p) == ""
  {
  }
}
