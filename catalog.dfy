/**
 * The catalog file both halves share: `export_to_csv` (scraper/database.py)
 * writes it and `load_scholarships` (backend/app.py) reads it back with
 * `csv.DictReader`, keyed by the header row.
 */
module Catalog {
  import Text
  import Records
  import Database
  import Student
  import Scoring

  /** `csv.DictReader` on one exported line: header name -> field. */
  function Entry(line: seq<string>): (e: Scoring.Scholarship)
    requires |line| == |Database.Header|
    ensures forall k :: k in e <==> k in Database.Header
    ensures forall i :: 0 <= i < |line| ==> Database.Header[i] in e && e[Database.Header[i]] == line[i]
  {
    ZipKeys(Database.Header, line);
    Database.HeaderDistinct();
    Database.ZipAll(Database.Header, line);
    Database.Zip(Database.Header, line)
  }

  lemma {:induction false} ZipKeys<V>(keys: seq<string>, values: seq<V>)
    requires |keys| == |values|
    ensures forall k :: k in Database.Zip(keys, values) <==> k in keys
    decreases |keys|
  {
    if keys != [] {
      ZipKeys(keys[..|keys| - 1], values[..|keys| - 1]);
      assert keys == keys[..|keys| - 1] + [keys[|keys| - 1]];
    }
  }

  /** The scorer's numeric and category columns are not among the header
      names the export writes; only "Field of Study" is shared. */
  lemma HeaderLacksScorerKeys()
    ensures Scoring.MinGpaKey !in Database.Header
    ensures Scoring.MaxIncomeKey !in Database.Header
    ensures Scoring.CategoriesKey !in Database.Header
    ensures Database.Header[2] == Scoring.FieldKey
  {
    var h := Database.Header;
    assert h[0][0] != 'M' && h[1][0] != 'M' && h[2][0] != 'M' && h[3][0] != 'M';
    assert h[4] != Scoring.MinGpaKey by { assert h[4][3] != Scoring.MinGpaKey[3]; }
    assert h[4] != Scoring.MaxIncomeKey by { assert h[4][2] != Scoring.MaxIncomeKey[2]; }
    assert h[5] != Scoring.MinGpaKey by { assert h[5][1] != Scoring.MinGpaKey[1]; }
    assert h[5] != Scoring.MaxIncomeKey by { assert |h[5]| != |Scoring.MaxIncomeKey|; }
    assert h[6] != Scoring.MinGpaKey by { assert h[6][4] != Scoring.MinGpaKey[4]; }
    assert h[6] != Scoring.MaxIncomeKey by { assert h[6][1] != Scoring.MaxIncomeKey[1]; }
    assert h[6][0] != 'S';
    assert h[7][0] != 'M' && h[7][0] != 'S';
    assert h[8][0] != 'M' && h[8][0] != 'S';
    assert h[0][0] != 'S' && h[1][0] != 'S' && h[2][0] != 'S' && h[3][0] != 'S';
    assert h[4][0] != 'S' && h[5][0] != 'S';
  }

  lemma EntryKeys(line: seq<string>)
    requires |line| == |Database.Header|
    ensures Scoring.MinGpaKey !in Entry(line)
    ensures Scoring.MaxIncomeKey !in Entry(line)
    ensures Scoring.CategoriesKey !in Entry(line)
    ensures Scoring.FieldKey in Entry(line) && Entry(line)[Scoring.FieldKey] == line[2]
  {
    HeaderLacksScorerKeys();
  }

  /** A record the scraper stored, once exported and read back by the
      recommender, is scored without its eligibility criteria: the minimum
      GPA, the income ceiling and the categories fall back to their defaults,
      so only the field of study is compared with the student's. */
  lemma ExportedRecordScore(p: Student.Profile, r: Database.Row, ps: Student.Parsers)
    ensures |Database.ExportRow(r)| == |Database.Header|
    ensures Scoring.Score(p, Entry(Database.ExportRow(r)), ps) ==
      (if p.cgpa >= 0.0 then 3 else 0)
      + (if p.familyIncome <= Scoring.IncomeCeilingDefault then 3 else 0)
      + (if Text.Lower(r.data.fieldOfStudy.GetOr("")) in {p.fieldOfStudy, "any"} then 2 else 0)
      + (if p.category == "" then 1 else 0)
  {
    Database.ExportRowIsHeaderColumns(r);
    var line := Database.ExportRow(r);
    var d := Entry(line);
    EntryKeys(line);
    assert Scoring.Categories(d) == "";
    assert Text.Occurs("", p.category) <==> p.category == "" by {
      if p.category == "" {
        assert Text.OccursAt("", p.category, 0);
      }
    }
    assert !Text.Occurs("", "minority") && !Text.Occurs("", "disability") && !Text.Occurs("", "army");
  }
}
