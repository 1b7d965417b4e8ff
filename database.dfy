/**
 * The `scholarships` table of scraper/database.py: `INSERT OR REPLACE` keyed
 * on UNIQUE(title, source), the batch loop of `save_to_database`, and the
 * projection of `export_to_csv`.
 */
module Database {
  import opened Wrappers
  import opened Records
  import opened Query

  /** A stored row: the AUTOINCREMENT id and the record. */
  datatype Row = Row(id: nat, data: Scholarship)

  /** The table's contents in rowid order, and the next AUTOINCREMENT id. */
  datatype Table = Table(rows: seq<Row>, nextId: nat)

  /** The table's constraints: title is NOT NULL, no two rows collide on
      (title, source), and ids increase and stay below the next id. */
  predicate Valid(t: Table) {
    && (forall i :: 0 <= i < |t.rows| ==> t.rows[i].data.title.Some? && t.rows[i].id < t.nextId)
    && (forall i, j :: 0 <= i < j < |t.rows| ==> t.rows[i].id < t.rows[j].id)
    && (forall i, j :: 0 <= i < j < |t.rows| ==> !SameKey(t.rows[i].data, t.rows[j].data))
  }

  /** The rows an insert of `s` leaves in place: those that do not collide. */
  function Without(rows: seq<Row>, s: Scholarship): (r: seq<Row>)
    ensures |r| <= |rows|
    ensures forall x :: x in r <==> x in rows && !SameKey(s, x.data)
  {
    if rows == [] then []
    else (if SameKey(s, rows[0].data) then [] else [rows[0]]) + Without(rows[1..], s)
  }

  /** `INSERT OR REPLACE`: a record with a NULL title violates NOT NULL and the
      statement is aborted (sqlite3.IntegrityError), leaving the table as it
      was; otherwise the colliding row is deleted and the record appended
      under a fresh id. The stored row is the record itself (see
      `Records.BindingIsFaithful`). */
  function Upsert(t: Table, s: Scholarship): (r: Table)
    ensures Rejected(s) ==> r == t
    ensures !Rejected(s) ==> r.nextId == t.nextId + 1
    ensures !Rejected(s) ==> r.rows != [] && r.rows[|r.rows| - 1] == Row(t.nextId, s)
    ensures !Rejected(s) ==> forall x :: x in r.rows <==>
      x == Row(t.nextId, s) || (x in t.rows && !SameKey(s, x.data))
  {
    if s.title.None? then t
    else Table(Without(t.rows, s) + [Row(t.nextId, s)], t.nextId + 1)
  }

  /** The insert of `s` raises IntegrityError. */
  predicate Rejected(s: Scholarship) {
    s.title.None?
  }

  /** The table after `save_to_database(batch)`: each record upserted in turn. */
  function SaveAll(t: Table, batch: seq<Scholarship>): (r: Table)
    ensures r.nextId == t.nextId + |Accepted(batch)|
    ensures forall x :: x in r.rows ==> x in t.rows || x.data in batch
  {
    if batch == [] then t
    else
      var init := batch[..|batch| - 1];
      assert forall s :: s in init ==> s in batch;
      Upsert(SaveAll(t, init), batch[|batch| - 1])
  }

  /** Saving one more record of the batch is one more upsert. */
  lemma SaveStep(t: Table, batch: seq<Scholarship>, i: nat)
    requires i < |batch|
    ensures SaveAll(t, batch[..i + 1]) == Upsert(SaveAll(t, batch[..i]), batch[i])
    ensures RejectedOf(batch[..i + 1]) == RejectedOf(batch[..i]) + (if Rejected(batch[i]) then [batch[i]] else [])
  {
    assert batch[..i + 1][..i] == batch[..i];
  }

  /** The records of `batch` whose insert raised, in order: one warning each. */
  function RejectedOf(batch: seq<Scholarship>): (r: seq<Scholarship>)
    ensures forall s :: s in r ==> s in batch && Rejected(s)
  {
    if batch == [] then []
    else RejectedOf(batch[..|batch| - 1]) + (if Rejected(batch[|batch| - 1]) then [batch[|batch| - 1]] else [])
  }

  /** The record stored under key `k`, if any (the first, and in a valid
      table the only, such row). */
  function Lookup(rows: seq<Row>, k: (string, string)): Option<Scholarship> {
    if rows == [] then None
    else if HasKey(rows[0].data, k) then Some(rows[0].data)
    else Lookup(rows[1..], k)
  }

  /** The last record of `batch` carrying key `k`. */
  function LastWithKey(batch: seq<Scholarship>, k: (string, string)): Option<Scholarship> {
    if batch == [] then None
    else if HasKey(batch[|batch| - 1], k) then Some(batch[|batch| - 1])
    else LastWithKey(batch[..|batch| - 1], k)
  }

  /** The (title, source) key of a record, if neither part is NULL. */
  function Key(s: Scholarship): Option<(string, string)> {
    if s.title.Some? && s.source.Some? then Some((s.title.value, s.source.value)) else None
  }


  // ----- the table's constraints are kept -----

  /** A row placed in front of a valid table keeps it valid when its id is
      smaller than the others' and its key collides with none of them. */
  lemma ValidCons(r: Row, rest: seq<Row>, nextId: nat)
    requires Valid(Table(rest, nextId))
    requires r.data.title.Some? && r.id < nextId
    requires forall j :: 0 <= j < |rest| ==> r.id < rest[j].id && !SameKey(r.data, rest[j].data)
    ensures Valid(Table([r] + rest, nextId))
  {
    var u := [r] + rest;
    assert forall j :: 1 <= j < |u| ==> u[j] == rest[j - 1];
  }

  /** In a valid table the first row precedes, and differs in key from,
      every later one. */
  lemma HeadBeforeRest(rows: seq<Row>, nextId: nat)
    requires Valid(Table(rows, nextId)) && rows != []
    ensures forall x :: x in rows[1..] ==> rows[0].id < x.id && !SameKey(rows[0].data, x.data)
  {
    forall x | x in rows[1..] ensures rows[0].id < x.id && !SameKey(rows[0].data, x.data) {
      var k :| 0 <= k < |rows[1..]| && rows[1..][k] == x;
      assert rows[k + 1] == x;
    }
  }

  /** Deleting the colliding rows keeps the constraints. */
  lemma {:induction false} WithoutKeepsValid(rows: seq<Row>, s: Scholarship, nextId: nat)
    requires Valid(Table(rows, nextId))
    ensures Valid(Table(Without(rows, s), nextId))
    decreases |rows|
  {
    if rows != [] {
      var rest := rows[1..];
      assert Valid(Table(rest, nextId));
      WithoutKeepsValid(rest, s, nextId);
      var w := Without(rest, s);
      if !SameKey(s, rows[0].data) {
        assert Without(rows, s) == [rows[0]] + w;
        HeadBeforeRest(rows, nextId);
        assert forall j :: 0 <= j < |w| ==> w[j] in rest;
        ValidCons(rows[0], w, nextId);
      } else {
        assert Without(rows, s) == w;
      }
    }
  }

  /** Every `INSERT OR REPLACE` keeps title NOT NULL, (title, source) UNIQUE
      and ids increasing. */
  lemma UpsertKeepsValid(t: Table, s: Scholarship)
    requires Valid(t)
    ensures Valid(Upsert(t, s))
  {
    if !Rejected(s) {
      WithoutKeepsValid(t.rows, s, t.nextId);
      var w := Without(t.rows, s);
      var u := Upsert(t, s).rows;
      assert u == w + [Row(t.nextId, s)];
      forall i | 0 <= i < |w|
        ensures w[i].id < t.nextId && !SameKey(w[i].data, s)
      {
        assert w[i] in w;
      }
    }
  }

  /** Saving a batch keeps the table's constraints. */
  lemma {:induction false} SaveAllKeepsValid(t: Table, batch: seq<Scholarship>)
    requires Valid(t)
    ensures Valid(SaveAll(t, batch))
    decreases |batch|
  {
    if batch != [] {
      SaveAllKeepsValid(t, batch[..|batch| - 1]);
      UpsertKeepsValid(SaveAll(t, batch[..|batch| - 1]), batch[|batch| - 1]);
    }
  }

  // ----- what a lookup by key sees -----

  lemma {:induction false} LookupAppend(rows: seq<Row>, r: Row, k: (string, string))
    ensures Lookup(rows + [r], k) ==
      if Lookup(rows, k).Some? then Lookup(rows, k)
      else if HasKey(r.data, k) then Some(r.data) else None
    decreases |rows|
  {
    if rows != [] {
      assert (rows + [r])[1..] == rows[1..] + [r];
      LookupAppend(rows[1..], r, k);
    }
  }

  /** Deleting the rows that collide with `s` hides exactly the key of `s`. */
  lemma {:induction false} LookupWithout(rows: seq<Row>, s: Scholarship, k: (string, string))
    ensures Lookup(Without(rows, s), k) == if HasKey(s, k) then None else Lookup(rows, k)
    decreases |rows|
  {
    if rows != [] {
      LookupWithout(rows[1..], s, k);
      if SameKey(s, rows[0].data) {
        assert Without(rows, s) == Without(rows[1..], s);
      } else {
        assert Without(rows, s) == [rows[0]] + Without(rows[1..], s);
        assert ([rows[0]] + Without(rows[1..], s))[1..] == Without(rows[1..], s);
      }
    }
  }

  /** After `INSERT OR REPLACE` of an accepted record, its key finds it and
      every other key finds what it found before. */
  lemma UpsertLookup(t: Table, s: Scholarship, k: (string, string))
    ensures Lookup(Upsert(t, s).rows, k) == if HasKey(s, k) then Some(s) else Lookup(t.rows, k)
  {
    if !Rejected(s) {
      LookupWithout(t.rows, s, k);
      LookupAppend(Without(t.rows, s), Row(t.nextId, s), k);
    }
  }

  /** Last write wins: after saving a batch, each key holds the last record
      of the batch carrying it, and keys the batch does not carry keep their
      old record. */
  lemma {:induction false} SaveAllLookup(t: Table, batch: seq<Scholarship>, k: (string, string))
    ensures Lookup(SaveAll(t, batch).rows, k) ==
      if LastWithKey(batch, k).Some? then LastWithKey(batch, k) else Lookup(t.rows, k)
    decreases |batch|
  {
    if batch != [] {
      SaveAllLookup(t, batch[..|batch| - 1], k);
      UpsertLookup(SaveAll(t, batch[..|batch| - 1]), batch[|batch| - 1], k);
    }
  }

  // ----- how the table grows -----

  /** In a valid table at most one row collides with an accepted record, and
      it is the one a lookup by the record's key finds. */
  lemma {:induction false} WithoutCount(rows: seq<Row>, s: Scholarship, nextId: nat)
    requires Valid(Table(rows, nextId)) && Key(s).Some?
    ensures |Without(rows, s)| == |rows| - (if Lookup(rows, Key(s).value).Some? then 1 else 0)
    decreases |rows|
  {
    if rows != [] {
      assert Valid(Table(rows[1..], nextId));
      WithoutCount(rows[1..], s, nextId);
      if SameKey(s, rows[0].data) {
        NoOtherCollides(rows, s, nextId);
        LookupAbsent(rows[1..], s);
      }
    }
  }

  lemma NoOtherCollides(rows: seq<Row>, s: Scholarship, nextId: nat)
    requires Valid(Table(rows, nextId)) && rows != [] && SameKey(s, rows[0].data)
    ensures forall j :: 1 <= j < |rows| ==> !SameKey(s, rows[j].data)
  {
    forall j | 1 <= j < |rows| ensures !SameKey(s, rows[j].data) {
      assert !SameKey(rows[0].data, rows[j].data);
    }
  }

  lemma {:induction false} LookupAbsent(rows: seq<Row>, s: Scholarship)
    requires Key(s).Some?
    requires forall j :: 0 <= j < |rows| ==> !SameKey(s, rows[j].data)
    ensures Lookup(rows, Key(s).value).None?
    ensures Without(rows, s) == rows
    decreases |rows|
  {
    if rows != [] {
      LookupAbsent(rows[1..], s);
      assert [rows[0]] + rows[1..] == rows;
    }
  }

  /** Saving an accepted record adds a row exactly when its key was new; a
      record whose source is NULL never collides, so it always adds one. */
  lemma UpsertCount(t: Table, s: Scholarship)
    requires Valid(t) && !Rejected(s)
    ensures Key(s).None? ==> |Upsert(t, s).rows| == |t.rows| + 1
    ensures Key(s).Some? ==>
      |Upsert(t, s).rows| == |t.rows| + (if Lookup(t.rows, Key(s).value).Some? then 0 else 1)
  {
    if Key(s).Some? {
      WithoutCount(t.rows, s, t.nextId);
    } else {
      assert forall j :: 0 <= j < |t.rows| ==> !SameKey(s, t.rows[j].data);
      WithoutKeepsAll(t.rows, s);
    }
  }

  /** How many rows saving `batch` adds to `t`: one for each accepted record
      whose source is NULL, and one for each key that neither the table nor
      an earlier record of the batch carries. */
  function Added(t: Table, batch: seq<Scholarship>): nat {
    if batch == [] then 0
    else
      var init, s := batch[..|batch| - 1], batch[|batch| - 1];
      Added(t, init) + (
        if Rejected(s) then 0
        else if Key(s).None? then 1
        else if LastWithKey(init, Key(s).value).Some? || Lookup(t.rows, Key(s).value).Some? then 0
        else 1)
  }

  /** The row count after a whole batch: the table grows by the number of
      new keys in the batch plus the number of records with a NULL source. */
  lemma {:induction false} SaveAllCount(t: Table, batch: seq<Scholarship>)
    requires Valid(t)
    ensures |SaveAll(t, batch).rows| == |t.rows| + Added(t, batch)
    decreases |batch|
  {
    if batch != [] {
      var init, s := batch[..|batch| - 1], batch[|batch| - 1];
      SaveAllCount(t, init);
      if !Rejected(s) {
        SaveAllKeepsValid(t, init);
        UpsertCount(SaveAll(t, init), s);
        if Key(s).Some? {
          SaveAllLookup(t, init, Key(s).value);
        }
      }
    }
  }

  lemma {:induction false} WithoutKeepsAll(rows: seq<Row>, s: Scholarship)
    requires forall j :: 0 <= j < |rows| ==> !SameKey(s, rows[j].data)
    ensures Without(rows, s) == rows
    decreases |rows|
  {
    if rows != [] {
      WithoutKeepsAll(rows[1..], s);
      assert [rows[0]] + rows[1..] == rows;
    }
  }

  // ----- rejected records -----

  /** The records of `batch` whose insert succeeds. */
  function Accepted(batch: seq<Scholarship>): (r: seq<Scholarship>)
    ensures |r| + |RejectedOf(batch)| == |batch|
    ensures forall s :: s in r ==> s in batch && !Rejected(s)
  {
    if batch == [] then []
    else Accepted(batch[..|batch| - 1]) + (if Rejected(batch[|batch| - 1]) then [] else [batch[|batch| - 1]])
  }

  /** A record whose insert raised leaves no trace: saving the batch is saving
      only its accepted records. */
  lemma {:induction false} RejectedLeaveNoTrace(t: Table, batch: seq<Scholarship>)
    ensures SaveAll(t, batch) == SaveAll(t, Accepted(batch))
    decreases |batch|
  {
    if batch != [] {
      var init := batch[..|batch| - 1];
      var s := batch[|batch| - 1];
      RejectedLeaveNoTrace(t, init);
      assert SaveAll(t, batch) == Upsert(SaveAll(t, init), s);
      if Rejected(s) {
        assert Accepted(batch) == Accepted(init);
      } else {
        var a := Accepted(init) + [s];
        assert Accepted(batch) == a;
        assert a[..|a| - 1] == Accepted(init);
        assert SaveAll(t, a) == Upsert(SaveAll(t, Accepted(init)), s);
      }
    }
  }

  // ----- export_to_csv -----

  /** A value of a `SELECT *` row: the INTEGER id, a TEXT cell or NULL. */
  datatype SqlValue = IntV(i: int) | TextV(t: string) | NullV

  function SqlOf(c: Cell): (v: SqlValue)
    ensures !v.IntV?
  {
    if c.Some? then TextV(c.value) else NullV
  }

  /** The row `SELECT * FROM scholarships` yields: id, then the thirteen
      columns in table order. */
  function SelectStar(r: Row): (v: seq<SqlValue>)
    ensures |v| == 1 + |InsertColumns|
    ensures v[0] == IntV(r.id)
    ensures forall i :: 1 <= i < |v| ==> v[i] == SqlOf(Values(r.data)[i - 1])
  {
    var cells := Values(r.data);
    [IntV(r.id)] + seq(|cells|, i requires 0 <= i < |cells| => SqlOf(cells[i]))
  }

  /** How `csv.writer` writes a TEXT or NULL value: NULL as the empty field. */
  function CsvField(v: SqlValue): string
    requires !v.IntV?
  {
    if v.TextV? then v.t else ""
  }

  /** The CSV header row. */
  const Header: seq<string> := [
    "Title", "Description", "Field of Study", "Category", "Min CGPA",
    "Max Income", "Minority Preference", "Disability Preference", "Army Preference"]

  /** `writer.writerow(row[1:10])`: the slice of the `SELECT *` row after the id. */
  function ExportRow(r: Row): (line: seq<string>)
    ensures |line| == |Header|
    ensures forall i :: 0 <= i < |line| ==> line[i] == Values(r.data)[i].GetOr("")
  {
    var v := SelectStar(r)[1..10];
    seq(|v|, i requires 0 <= i < |v| => CsvField(v[i]))
  }

  /** The lines the CSV file holds: the header, then one line per row. */
  function ExportLines(rows: seq<Row>): (lines: seq<seq<string>>)
    ensures |lines| == |rows| + 1 && lines[0] == Header
    ensures forall i :: 0 <= i < |rows| ==> lines[i + 1] == ExportRow(rows[i])
  {
    [Header] + ExportBody(rows)
  }

  /** One line per row, in table order. */
  function ExportBody(rows: seq<Row>): (body: seq<seq<string>>)
    ensures |body| == |rows|
    ensures forall i :: 0 <= i < |rows| ==> body[i] == ExportRow(rows[i])
  {
    if rows == [] then []
    else ExportBody(rows[..|rows| - 1]) + [ExportRow(rows[|rows| - 1])]
  }

  /** An exported line is the record's first nine fields, lined up with the
      header, NULL written as an empty field: id, application URL, reference
      website, source and scrape date are not exported. */
  lemma ExportRowIsHeaderColumns(r: Row)
    ensures |ExportRow(r)| == |Header|
    ensures ExportRow(r) == [
      r.data.title.GetOr(""), r.data.description.GetOr(""), r.data.fieldOfStudy.GetOr(""),
      r.data.category.GetOr(""), r.data.minCgpa.GetOr(""), r.data.maxIncome.GetOr(""),
      r.data.minorityPreference.GetOr(""), r.data.disabilityPreference.GetOr(""),
      r.data.armyPreference.GetOr("")]
  {
    var e := ExportRow(r);
    var v := SelectStar(r);
    assert forall i :: 0 <= i < 9 ==> e[i] == CsvField(v[i + 1]);
  }

  /** Rows that differ only in what is not exported give the same line, so
      two records of one title from two sources can export as identical lines. */
  lemma ExportOmitsProvenance(a: Row, b: Row)
    requires a.data.title == b.data.title && a.data.description == b.data.description
    requires a.data.fieldOfStudy == b.data.fieldOfStudy && a.data.category == b.data.category
    requires a.data.minCgpa == b.data.minCgpa && a.data.maxIncome == b.data.maxIncome
    requires a.data.minorityPreference == b.data.minorityPreference
    requires a.data.disabilityPreference == b.data.disabilityPreference
    requires a.data.armyPreference == b.data.armyPreference
    ensures ExportRow(a) == ExportRow(b)
  {
    ExportRowIsHeaderColumns(a);
    ExportRowIsHeaderColumns(b);
  }

  lemma {:induction false} LookupFound(rows: seq<Row>, k: (string, string))
    requires Lookup(rows, k).Some?
    ensures exists i :: 0 <= i < |rows| && rows[i].data == Lookup(rows, k).value
    decreases |rows|
  {
    if !HasKey(rows[0].data, k) {
      LookupFound(rows[1..], k);
      var i :| 0 <= i < |rows[1..]| && rows[1..][i].data == Lookup(rows[1..], k).value;
      assert rows[i + 1].data == Lookup(rows, k).value;
    }
  }

  /** After a batch is saved, the export holds a line for the last record of
      the batch under every key the batch carries. */
  lemma SavedRecordIsExported(t: Table, batch: seq<Scholarship>, k: (string, string))
    requires LastWithKey(batch, k).Some?
    ensures exists i :: (0 <= i < |SaveAll(t, batch).rows| &&
      SaveAll(t, batch).rows[i].data == LastWithKey(batch, k).value &&
      ExportLines(SaveAll(t, batch).rows)[i + 1] == ExportRow(SaveAll(t, batch).rows[i]))
  {
    var rows := SaveAll(t, batch).rows;
    SaveAllLookup(t, batch, k);
    LookupFound(rows, k);
    var i :| 0 <= i < |rows| && rows[i].data == Lookup(rows, k).value;
    assert ExportLines(rows)[i + 1] == ExportRow(rows[i]);
  }

  // ----- query_scholarships_by_criteria -----

  /** The rows the statement returns: those satisfying every clause, in
      rowid order. */
  function Select(rows: seq<Row>, cs: seq<Condition>, cast: string -> real): (r: seq<Row>)
    ensures |r| <= |rows|
    ensures forall x :: x in r <==> x in rows && AllHold(cs, x.data, cast)
  {
    if rows == [] then []
    else (if AllHold(cs, rows[0].data, cast) then [rows[0]] else []) + Select(rows[1..], cs, cast)
  }

  /** `cursor.description`: the table's columns in declaration order. */
  const Columns: seq<string> := ["id"] + InsertColumns

  /** `dict(zip(keys, values))`: pairs taken in order, a later key winning. */
  function Zip<V>(keys: seq<string>, values: seq<V>): map<string, V>
    requires |keys| == |values|
  {
    if keys == [] then map[]
    else Zip(keys[..|keys| - 1], values[..|keys| - 1])[keys[|keys| - 1] := values[|keys| - 1]]
  }

  lemma {:induction false} ZipLookup<V>(keys: seq<string>, values: seq<V>, i: int)
    requires |keys| == |values| && 0 <= i < |keys|
    requires forall j :: i < j < |keys| ==> keys[j] != keys[i]
    ensures keys[i] in Zip(keys, values) && Zip(keys, values)[keys[i]] == values[i]
    decreases |keys|
  {
    if i < |keys| - 1 {
      ZipLookup(keys[..|keys| - 1], values[..|keys| - 1], i);
    }
  }

  /** With distinct keys, every key maps to its own value. */
  lemma ZipAll<V>(keys: seq<string>, values: seq<V>)
    requires |keys| == |values|
    requires forall i, j :: 0 <= i < j < |keys| ==> keys[i] != keys[j]
    ensures forall i :: 0 <= i < |keys| ==> keys[i] in Zip(keys, values) && Zip(keys, values)[keys[i]] == values[i]
  {
    forall i | 0 <= i < |keys| ensures keys[i] in Zip(keys, values) && Zip(keys, values)[keys[i]] == values[i] {
      ZipLookup(keys, values, i);
    }
  }

  /** The nine header names are distinct. */
  lemma HeaderDistinct()
    ensures forall i, j :: 0 <= i < j < |Header| ==> Header[i] != Header[j]
  {
    var h := Header;
    assert forall i :: 0 <= i < |h| ==> |h[i]| > 0;
  }

  /** A result row as the function returns it: column name to value. */
  function AsDict(r: Row): map<string, SqlValue> {
    Zip(Columns, SelectStar(r))
  }

  /** The dictionary holds every column under its own name: the id under
      "id" and each field under its column. */
  lemma DictHoldsColumns(r: Row)
    ensures "id" in AsDict(r) && AsDict(r)["id"] == IntV(r.id)
    ensures forall i :: 0 <= i < |InsertColumns| ==>
      InsertColumns[i] in AsDict(r) && AsDict(r)[InsertColumns[i]] == SqlOf(Values(r.data)[i])
  {
    ColumnsDistinct();
    ZipLookup(Columns, SelectStar(r), 0);
    forall i | 0 <= i < |InsertColumns|
      ensures InsertColumns[i] in AsDict(r) && AsDict(r)[InsertColumns[i]] == SqlOf(Values(r.data)[i])
    {
      assert Columns[i + 1] == InsertColumns[i];
      ZipLookup(Columns, SelectStar(r), i + 1);
    }
  }

  lemma ColumnsDistinct()
    ensures forall i, j :: 0 <= i < j < |Columns| ==> Columns[i] != Columns[j]
  {
    var c := Columns;
    assert c == ["id", "title", "description", "field_of_study", "category", "min_cgpa", "max_income",
      "minority_preference", "disability_preference", "army_preference",
      "application_url", "reference_website", "source", "scraped_date"];
    assert forall i :: 0 <= i < |c| ==> |c[i]| > 0;
  }

  // ----- the database file -----

  /** The SQLite file at DB_PATH, reduced to its `scholarships` table. */
  class Store {
    var rows: seq<Row>
    var nextId: nat

    function Snapshot(): Table
      reads this
    {
      Table(rows, nextId)
    }

    /** `setup_database` on a new file: the table exists and is empty, and
        AUTOINCREMENT starts at 1. */
    constructor ()
      ensures rows == [] && nextId == 1
      ensures Valid(Snapshot())
    {
      rows := [];
      nextId := 1;
    }

    /** One `cursor.execute` of the INSERT OR REPLACE statement; `ok` is false
        when it raises sqlite3.IntegrityError. */
    method InsertOrReplace(s: Scholarship) returns (ok: bool)
      modifies this
      ensures Snapshot() == Upsert(old(Snapshot()), s)
      ensures ok <==> !Rejected(s)
      ensures old(Valid(Snapshot())) ==> Valid(Snapshot())
    {
      if Valid(Snapshot()) {
        UpsertKeepsValid(Snapshot(), s);
      }
      if s.title.None? {
        ok := false;
      } else {
        rows := Without(rows, s) + [Row(nextId, s)];
        nextId := nextId + 1;
        ok := true;
      }
    }

    /** `save_to_database`: every record of the batch inserted in turn; the
        records whose insert raised are returned, one logged warning each. */
    method SaveToDatabase(batch: seq<Scholarship>) returns (skipped: seq<Scholarship>)
      modifies this
      ensures Snapshot() == SaveAll(old(Snapshot()), batch)
      ensures skipped == RejectedOf(batch)
      ensures old(Valid(Snapshot())) ==> Valid(Snapshot())
    {
      ghost var start := Snapshot();
      skipped := [];
      var i := 0;
      while i < |batch|
        invariant 0 <= i <= |batch|
        invariant Snapshot() == SaveAll(start, batch[..i])
        invariant skipped == RejectedOf(batch[..i])
      {
        SaveStep(start, batch, i);
        var ok := InsertOrReplace(batch[i]);
        if !ok {
          skipped := skipped + [batch[i]];
        }
        i := i + 1;
      }
      assert batch[..i] == batch;
      if Valid(start) {
        SaveAllKeepsValid(start, batch);
      }
    }

    /** `query_scholarships_by_criteria`: the query built from the filters,
        run against the table, each row returned as a dictionary. */
    method QueryByCriteria(f: Filters, cast: string -> real) returns (result: seq<map<string, SqlValue>>)
      ensures |result| == |Select(rows, Conditions(f), cast)|
      ensures forall i :: 0 <= i < |result| ==> result[i] == AsDict(Select(rows, Conditions(f), cast)[i])
      ensures PlainFilters(f) ==> forall x :: x in Select(rows, Conditions(f), cast) <==>
        x in rows && Matches(f, x.data, cast)
    {
      var query, params := BuildQuery(f);
      var found := Select(rows, Conditions(f), cast);
      result := seq(|found|, i requires 0 <= i < |found| => AsDict(found[i]));
      if PlainFilters(f) {
        forall x | x in rows
          ensures AllHold(Conditions(f), x.data, cast) <==> Matches(f, x.data, cast)
        {
          ClausesMeanFilters(f, x.data, cast);
        }
      }
    }

    /** `export_to_csv`: the header, then `row[1:10]` of every row of
        `SELECT *`; `count` is the number of records the log line reports. */
    method ExportToCsv() returns (lines: seq<seq<string>>, count: nat)
      ensures lines == ExportLines(rows)
      ensures |lines| == |rows| + 1 && count == |rows|
      ensures forall j :: 0 <= j < |lines| ==> |lines[j]| == |Header|
    {
      lines := [Header];
      var i := 0;
      while i < |rows|
        invariant 0 <= i <= |rows|
        invariant lines == ExportLines(rows[..i])
        invariant forall j :: 0 <= j < |lines| ==> |lines[j]| == |Header|
      {
        assert rows[..i + 1][..i] == rows[..i];
        lines := lines + [ExportRow(rows[i])];
        i := i + 1;
      }
      assert rows[..i] == rows;
      count := |rows|;
    }
  }
}
