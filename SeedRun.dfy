/** The stateful part of `seed()`: the loop that fills `columnTypes`, the
    database the table is created in, the row loop with its skip-on-null
    policy, and the whole run from file content to the final count. */
module SeedRun {
  import opened Text
  import opened Numbers
  import opened Helpers
  import opened SeedSteps

  // ---------------------------------------------------------------------
  // column types

  /** The `for (const { orig, slug } of headerSlugs)` loop. */
  method InferColumnTypes(rows: seq<Record>, hs: seq<HeaderSlug>) returns (types: map<string, ColType>)
    ensures types == TypesOf(rows, hs)
    ensures forall s :: s in types <==> s in Slugs(hs) && s != ProtoKey
  {
    types := map[];
    for i := 0 to |hs|
      invariant types == TypesOf(rows, hs[..i])
    {
      var samples := Samples(rows, hs[i].orig);
      var dateCount := CountIf(samples, IsDateString);
      var numCount := CountIf(samples, IsNumericString);
      var t: ColType;
      // `count / samples.length > 0.8`, compared exactly in integers
      if |samples| > 0 && 5 * dateCount > 4 * |samples| {
        t := DateType;
      } else if |samples| > 0 && 5 * numCount > 4 * |samples| {
        t := NumericType;
      } else {
        t := TextType;
      }
      ClassifySpec(samples);
      assert t == ClassifyColumn(rows, hs[i].orig);
      types := SetType(types, hs[i].slug, t);
      TypesOfStep(rows, hs, i);
    }
    assert hs[..|hs|] == hs;
    TypesOfKeys(rows, hs);
  }

  /** One header more writes one entry more. */
  lemma TypesOfStep(rows: seq<Record>, hs: seq<HeaderSlug>, i: nat)
    requires i < |hs|
    ensures TypesOf(rows, hs[..i + 1]) == SetType(TypesOf(rows, hs[..i]), hs[i].slug, ClassifyColumn(rows, hs[i].orig))
  {
    var h := hs[..i + 1];
    assert |h| == i + 1 && h[i] == hs[i];
    assert h[..i] == hs[..i];
  }

  // ---------------------------------------------------------------------
  // the database

  /** A table: its column definitions and the rows inserted so far. */
  datatype TableData = TableData(columns: seq<ColumnDef>, rows: seq<seq<Value>>)

  /** The database the run writes to, as a map from table names to tables. */
  class Database {
    var tables: map<string, TableData>

    constructor (initial: map<string, TableData>)
      ensures tables == initial
    {
      tables := initial;
    }

    /** `DROP TABLE IF EXISTS` followed by `CREATE TABLE`: the table is
        empty with the given columns, and no other table changes. */
    method Recreate(name: string, defs: seq<ColumnDef>)
      modifies this
      ensures tables == old(tables)[name := TableData(defs, [])]
    {
      tables := tables[name := TableData(defs, [])];
    }

    /** `INSERT INTO` an existing table: one row more at the end. */
    method Insert(name: string, values: seq<Value>)
      requires name in tables
      modifies this
      ensures tables == old(tables)[name := old(tables)[name].(rows := old(tables)[name].rows + [values])]
    {
      tables := tables[name := tables[name].(rows := tables[name].rows + [values])];
    }
  }

  // ---------------------------------------------------------------------
  // the row loop

  /** A row goes in when none of its values is null. */
  predicate Accepted(values: seq<Value>)
  {
    Null !in values
  }

  /** The values of every row, in row order. */
  function CoerceRows(rows: seq<Record>, cols: seq<string>, hs: seq<HeaderSlug>, types: map<string, ColType>): (vs: seq<seq<Value>>)
    requires forall c :: c in cols ==> c in Slugs(hs)
    ensures |vs| == |rows|
    ensures forall i :: 0 <= i < |rows| ==> vs[i] == CoerceRow(rows[i], cols, hs, types)
  {
    seq(|rows|, i requires 0 <= i < |rows| => CoerceRow(rows[i], cols, hs, types))
  }

  /** The value rows that pass the null check, in order. */
  function Kept(vs: seq<seq<Value>>): seq<seq<Value>>
  {
    if vs == [] then []
    else Kept(vs[..|vs| - 1]) + (if Accepted(vs[|vs| - 1]) then [vs[|vs| - 1]] else [])
  }

  /** The number of value rows that fail it. */
  function Skipped(vs: seq<seq<Value>>): nat
  {
    if vs == [] then 0
    else Skipped(vs[..|vs| - 1]) + (if Accepted(vs[|vs| - 1]) then 0 else 1)
  }

  /** The rows the loop inserts. */
  function InsertedRows(rows: seq<Record>, cols: seq<string>, hs: seq<HeaderSlug>, types: map<string, ColType>): seq<seq<Value>>
    requires forall c :: c in cols ==> c in Slugs(hs)
  {
    Kept(CoerceRows(rows, cols, hs, types))
  }

  /** Coercing one row more adds its values at the end. */
  lemma CoerceRowsSnoc(rows: seq<Record>, i: nat, cols: seq<string>, hs: seq<HeaderSlug>, types: map<string, ColType>)
    requires forall c :: c in cols ==> c in Slugs(hs)
    requires i < |rows|
    ensures CoerceRows(rows[..i + 1], cols, hs, types) ==
              CoerceRows(rows[..i], cols, hs, types) + [CoerceRow(rows[i], cols, hs, types)]
  {
    var a := CoerceRows(rows[..i + 1], cols, hs, types);
    var b := CoerceRows(rows[..i], cols, hs, types);
    forall k | 0 <= k < i ensures a[k] == b[k] {
      assert rows[..i + 1][k] == rows[..i][k];
    }
    assert a[i] == CoerceRow(rows[i], cols, hs, types) by {
      assert rows[..i + 1][i] == rows[i];
    }
    SeqSnoc(a, b, CoerceRow(rows[i], cols, hs, types));
  }

  lemma SeqSnoc<T>(a: seq<T>, b: seq<T>, x: T)
    requires |a| == |b| + 1 && a[|b|] == x
    requires forall k :: 0 <= k < |b| ==> a[k] == b[k]
    ensures a == b + [x]
  {
  }

  lemma KeptStep(vs: seq<seq<Value>>, v: seq<Value>)
    ensures Kept(vs + [v]) == Kept(vs) + (if Accepted(v) then [v] else [])
    ensures Skipped(vs + [v]) == Skipped(vs) + (if Accepted(v) then 0 else 1)
  {
    assert (vs + [v])[..|vs|] == vs;
  }

  /** Inserting into a table whose rows are `start`'s plus `done` leaves
      `start`'s rows plus `done` and the new row. */
  lemma InsertStep(m: map<string, TableData>, table: string, start: TableData,
                   done: seq<seq<Value>>, values: seq<Value>)
    ensures var t := m[table := start.(rows := start.rows + done)];
            t[table := t[table].(rows := t[table].rows + [values])] ==
            m[table := start.(rows := start.rows + (done + [values]))]
  {
    var t := m[table := start.(rows := start.rows + done)];
    assert t[table].rows + [values] == start.rows + (done + [values]);
    UpdateTwice(m, table, start.(rows := start.rows + done), start.(rows := start.rows + (done + [values])));
  }

  /** `for (const row of rows)`: coerce, skip a row holding a null, insert
      the others. */
  method LoadRows(db: Database, table: string, rows: seq<Record>, cols: seq<string>,
                  hs: seq<HeaderSlug>, types: map<string, ColType>)
    requires forall c :: c in cols ==> c in Slugs(hs)
    requires table in db.tables
    modifies db
    ensures db.tables == old(db.tables)[table :=
              old(db.tables)[table].(rows := old(db.tables)[table].rows + InsertedRows(rows, cols, hs, types))]
  {
    ghost var start := old(db.tables)[table];
    assert CoerceRows(rows[..0], cols, hs, types) == [];
    assert start.rows + [] == start.rows;
    assert db.tables == db.tables[table := start.(rows := start.rows)];
    for i := 0 to |rows|
      invariant table in db.tables
      invariant db.tables == old(db.tables)[table :=
                  start.(rows := start.rows + Kept(CoerceRows(rows[..i], cols, hs, types)))]
    {
      ghost var before := CoerceRows(rows[..i], cols, hs, types);
      var values := CoerceRow(rows[i], cols, hs, types);
      CoerceRowsSnoc(rows, i, cols, hs, types);
      KeptStep(before, values);
      ghost var done := Kept(before);
      if Null in values {
        assert done + [] == done;
        continue;
      }
      db.Insert(table, values);
      InsertStep(old(db.tables), table, start, done, values);
    }
    assert rows[..|rows|] == rows;
  }

  /** Every kept row is free of nulls and keeps its length. */
  lemma {:induction false} KeptShape(vs: seq<seq<Value>>, n: nat)
    requires forall i :: 0 <= i < |vs| ==> |vs[i]| == n
    ensures forall v :: v in Kept(vs) ==> |v| == n && Null !in v
  {
    if vs != [] {
      KeptShape(vs[..|vs| - 1], n);
    }
  }

  /** Every row is either kept or skipped. */
  lemma {:induction false} KeptPlusSkipped(vs: seq<seq<Value>>)
    ensures |Kept(vs)| + Skipped(vs) == |vs|
  {
    if vs != [] {
      KeptPlusSkipped(vs[..|vs| - 1]);
    }
  }

  /** Keeping works row by row, in order. */
  lemma {:induction false} KeptAppend(a: seq<seq<Value>>, b: seq<seq<Value>>)
    ensures Kept(a + b) == Kept(a) + Kept(b)
    decreases |b|
  {
    if b == [] {
      assert a + b == a;
    } else {
      var b' := b[..|b| - 1];
      var v := b[|b| - 1];
      assert a + b == (a + b') + [v];
      assert b == b' + [v];
      KeptStep(a + b', v);
      KeptStep(b', v);
      KeptAppend(a, b');
      var extra := if Accepted(v) then [v] else [];
      assert Kept(a) + Kept(b') + extra == Kept(a) + (Kept(b') + extra);
    }
  }

  /** Every inserted row has one value per column and no null. */
  lemma InsertedRowsShape(rows: seq<Record>, cols: seq<string>, hs: seq<HeaderSlug>, types: map<string, ColType>)
    requires forall c :: c in cols ==> c in Slugs(hs)
    ensures forall v :: v in InsertedRows(rows, cols, hs, types) ==> |v| == |cols| && Null !in v
  {
    KeptShape(CoerceRows(rows, cols, hs, types), |cols|);
  }

  /** Rows are inserted in source order: the inserted rows of a
      concatenation are those of the first part followed by those of the
      second. */
  lemma InsertedRowsAppend(a: seq<Record>, b: seq<Record>, cols: seq<string>, hs: seq<HeaderSlug>, types: map<string, ColType>)
    requires forall c :: c in cols ==> c in Slugs(hs)
    ensures InsertedRows(a + b, cols, hs, types) == InsertedRows(a, cols, hs, types) + InsertedRows(b, cols, hs, types)
  {
    assert CoerceRows(a + b, cols, hs, types) == CoerceRows(a, cols, hs, types) + CoerceRows(b, cols, hs, types);
    KeptAppend(CoerceRows(a, cols, hs, types), CoerceRows(b, cols, hs, types));
  }

  /** One row is inserted exactly when none of its values is null. */
  lemma InsertedRowsSingle(row: Record, cols: seq<string>, hs: seq<HeaderSlug>, types: map<string, ColType>)
    requires forall c :: c in cols ==> c in Slugs(hs)
    ensures InsertedRows([row], cols, hs, types) ==
              if Null in CoerceRow(row, cols, hs, types) then [] else [CoerceRow(row, cols, hs, types)]
  {
    var v := CoerceRow(row, cols, hs, types);
    assert CoerceRows([row], cols, hs, types) == [] + [v];
    KeptStep([], v);
  }

  /** The final log line reports every parsed row; it equals the number
      inserted exactly when no row was skipped. */
  lemma ReportedCount(rows: seq<Record>, cols: seq<string>, hs: seq<HeaderSlug>, types: map<string, ColType>)
    requires forall c :: c in cols ==> c in Slugs(hs)
    ensures |InsertedRows(rows, cols, hs, types)| <= |rows|
    ensures |InsertedRows(rows, cols, hs, types)| == |rows| <==> Skipped(CoerceRows(rows, cols, hs, types)) == 0
  {
    KeptPlusSkipped(CoerceRows(rows, cols, hs, types));
  }

  // ---------------------------------------------------------------------
  // the whole run

  /** What `csv-parser` hands back for a separator and a number of skipped
      lines: the keys of the first row object, in order, and the rows. */
  datatype Parsed = Parsed(keys: seq<string>, records: seq<Record>)

  datatype Outcome = NoDataRows | Seeded(reported: nat)

  function DelimiterOf(content: string): char
  {
    DetectDelimiter(SplitLines(content))
  }

  function HeaderIndexOf(content: string): nat
  {
    HeaderIndex(FieldCounts(SplitLines(content), DelimiterOf(content)))
  }

  /** `seed(csvFile)` on the file's content, with `readCsv` standing for
      the `csv-parser` stream over the same file. */
  method Seed(csvFile: string, content: string, readCsv: (char, nat) -> Parsed, db: Database)
    returns (outcome: Outcome)
    modifies db
    ensures var parsed := readCsv(DelimiterOf(content), HeaderIndexOf(content));
            var hs := HeaderSlugs(parsed.keys);
            var types := TypesOf(parsed.records, hs);
            (outcome == NoDataRows <==> parsed.records == []) &&
            (outcome == NoDataRows ==> db.tables == old(db.tables)) &&
            (outcome.Seeded? ==>
               outcome.reported == |parsed.records| &&
               db.tables == old(db.tables)[TableName(csvFile) :=
                 TableData(ColumnDefs(Columns(hs), types),
                           InsertedRows(parsed.records, Columns(hs), hs, types))])
  {
    var table := TableName(csvFile);
    var lines := SplitLines(content);
    var delimiter := DetectDelimiter(lines);
    var counts := FieldCounts(lines, delimiter);
    var headerIndex := HeaderIndex(counts);
    var parsed := readCsv(delimiter, headerIndex);
    outcome := SeedParsed(table, parsed, db);
  }

  /** The part of `seed()` after the parser has run: the header mapping
      and the early return when there is no data row. */
  method SeedParsed(table: string, parsed: Parsed, db: Database) returns (outcome: Outcome)
    modifies db
    ensures var hs := HeaderSlugs(parsed.keys);
            var types := TypesOf(parsed.records, hs);
            (outcome == NoDataRows <==> parsed.records == []) &&
            (outcome == NoDataRows ==> db.tables == old(db.tables)) &&
            (outcome.Seeded? ==>
               outcome.reported == |parsed.records| &&
               db.tables == old(db.tables)[table :=
                 TableData(ColumnDefs(Columns(hs), types),
                           InsertedRows(parsed.records, Columns(hs), hs, types))])
  {
    var hs := HeaderSlugs(parsed.keys);
    if |parsed.records| == 0 {
      return NoDataRows;
    }
    CreateAndLoad(table, parsed.records, hs, db);
    outcome := Seeded(|parsed.records|);
  }

  /** The column types, `DROP`/`CREATE TABLE` and the row loop. */
  method CreateAndLoad(table: string, rows: seq<Record>, hs: seq<HeaderSlug>, db: Database)
    modifies db
    ensures db.tables == old(db.tables)[table :=
              TableData(ColumnDefs(Columns(hs), TypesOf(rows, hs)),
                        InsertedRows(rows, Columns(hs), hs, TypesOf(rows, hs)))]
  {
    var cols := Columns(hs);
    var types := InferColumnTypes(rows, hs);
    var defs := ColumnDefs(cols, types);
    ghost var before := db.tables;
    db.Recreate(table, defs);
    ghost var created := db.tables;
    LoadRows(db, table, rows, cols, hs, types);
    ghost var inserted := InsertedRows(rows, cols, hs, types);
    assert created[table].(rows := created[table].rows + inserted) == TableData(defs, inserted) by {
      assert created[table] == TableData(defs, []);
      assert [] + inserted == inserted;
    }
    UpdateTwice(before, table, TableData(defs, []), TableData(defs, inserted));
  }

  lemma UpdateTwice<K, V>(m: map<K, V>, k: K, a: V, b: V)
    ensures m[k := a][k := b] == m[k := b]
  {
  }
}
