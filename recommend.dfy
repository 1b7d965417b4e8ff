/**
 * The ranking steps inside the `/submit` and `/send-pdf` handlers of
 * backend/app.py: score every catalog record, keep those scoring above zero,
 * stable-sort them by descending score, and keep the first `limit`.
 */
module Recommend {
  import opened Wrappers
  import opened PyValues
  import opened Text
  import opened Student
  import opened Scoring
  import opened Ranking

  /** `/submit` returns the top 5, `/send-pdf` puts the top 10 in the PDF. */
  const SubmitLimit := 5
  const PdfLimit := 10

  /** A catalog record annotated with its `match_score`, as `/submit` does. */
  datatype Scored = Scored(record: Scholarship, matchScore: int)

  /** The sort key of `/submit`: `x["match_score"]`. */
  function MatchScoreOf(c: Scored): int {
    c.matchScore
  }

  /** The records of the catalog that score above zero, annotated with their
      score, in catalog order. */
  function Positive(p: Profile, catalog: seq<Scholarship>, ps: Parsers): (r: seq<Scored>)
    ensures |r| <= |catalog|
    ensures forall c :: c in r ==>
      c.record in catalog && c.matchScore == Score(p, c.record, ps) && c.matchScore > 0
  {
    if catalog == [] then []
    else
      Positive(p, catalog[..|catalog| - 1], ps) + Kept(p, catalog[|catalog| - 1], ps)
  }

  /** What the filter makes of one record. */
  function Kept(p: Profile, s: Scholarship, ps: Parsers): seq<Scored> {
    if Score(p, s, ps) > 0 then [Scored(s, Score(p, s, ps))] else []
  }

  /** Nothing that scores is dropped: every catalog record with a positive
      score is kept, annotated with that score. */
  lemma {:induction false} PositiveKeepsAllScoring(p: Profile, catalog: seq<Scholarship>, ps: Parsers, s: Scholarship)
    requires s in catalog && Score(p, s, ps) > 0
    ensures Scored(s, Score(p, s, ps)) in Positive(p, catalog, ps)
    decreases |catalog|
  {
    var init, last := catalog[..|catalog| - 1], catalog[|catalog| - 1];
    assert catalog == init + [last];
    if s != last {
      PositiveKeepsAllScoring(p, init, ps, s);
    }
  }

  /** The filter keeps catalog order: filtering a concatenation filters each
      part and concatenates the results. */
  lemma {:induction false} PositiveAppend(p: Profile, a: seq<Scholarship>, b: seq<Scholarship>, ps: Parsers)
    ensures Positive(p, a + b, ps) == Positive(p, a, ps) + Positive(p, b, ps)
    decreases |b|
  {
    if b == [] {
      PositiveNil(p, a, b, ps);
    } else {
      PositiveAppend(p, a, b[..|b| - 1], ps);
      AppendStep(p, a, b, ps);
    }
  }

  lemma AppendStep(p: Profile, a: seq<Scholarship>, b: seq<Scholarship>, ps: Parsers)
    requires b != []
    requires Positive(p, a + b[..|b| - 1], ps) == Positive(p, a, ps) + Positive(p, b[..|b| - 1], ps)
    ensures Positive(p, a + b, ps) == Positive(p, a, ps) + Positive(p, b, ps)
  {
    var init, last := b[..|b| - 1], b[|b| - 1];
    DropLast(a, b);
    Assoc(Positive(p, a, ps), Positive(p, init, ps), Kept(p, last, ps));
  }

  lemma Assoc<T>(x: seq<T>, y: seq<T>, z: seq<T>)
    ensures (x + y) + z == x + (y + z)
  {
  }

  /** The last element of `a + b`, and what precedes it, when `b` is not empty. */
  lemma DropLast<T>(a: seq<T>, b: seq<T>)
    requires b != []
    ensures (a + b)[..|a + b| - 1] == a + b[..|b| - 1]
    ensures (a + b)[|a + b| - 1] == b[|b| - 1]
  {
  }

  /** Filtering one more record of the catalog. */
  lemma PositiveStep(p: Profile, catalog: seq<Scholarship>, i: nat, ps: Parsers)
    requires i < |catalog|
    ensures Positive(p, catalog[..i + 1], ps) == Positive(p, catalog[..i], ps) + Kept(p, catalog[i], ps)
  {
    assert catalog[..i + 1][..i] == catalog[..i];
  }

  lemma PositiveNil(p: Profile, a: seq<Scholarship>, b: seq<Scholarship>, ps: Parsers)
    requires b == []
    ensures Positive(p, a + b, ps) == Positive(p, a, ps) + Positive(p, b, ps)
  {
    assert a + b == a;
  }

  /** What the handler returns: the first `limit` of the sorted positive
      records (`scored[:limit]`). */
  function Top(p: Profile, catalog: seq<Scholarship>, ps: Parsers, limit: nat): (r: seq<Scored>)
    ensures |r| <= limit
    ensures forall c :: c in r ==> c in Positive(p, catalog, ps)
  {
    var sorted := SortDesc(Positive(p, catalog, ps), MatchScoreOf);
    SortDescMembers(Positive(p, catalog, ps), MatchScoreOf);
    var n := if limit < |sorted| then limit else |sorted|;
    assert forall c :: c in sorted[..n] ==> c in sorted;
    sorted[..n]
  }

  /** The ranking loop of `/submit` (and, with limit 10, of `/send-pdf`). */
  method Rank(p: Profile, catalog: seq<Scholarship>, ps: Parsers, limit: nat) returns (top: seq<Scored>)
    ensures top == Top(p, catalog, ps, limit)
  {
    var scored: seq<Scored> := [];
    var i := 0;
    while i < |catalog|
      invariant 0 <= i <= |catalog|
      invariant scored == Positive(p, catalog[..i], ps)
    {
      var score := MatchScore(p, catalog[i], ps);
      if score > 0 {
        scored := scored + [Scored(catalog[i], score)];
      }
      PositiveStep(p, catalog, i, ps);
      i := i + 1;
    }
    assert catalog[..i] == catalog;
    scored := SortDesc(scored, MatchScoreOf);
    top := scored[..if limit < |scored| then limit else |scored|];
  }

  /** The ranking's promises: at most `limit` entries, each a catalog record
      annotated with its own positive score, in non-increasing score order,
      and as many as there are positive records up to the limit. */
  lemma TopIsRanked(p: Profile, catalog: seq<Scholarship>, ps: Parsers, limit: nat)
    ensures |Top(p, catalog, ps, limit)| <= limit
    ensures |Top(p, catalog, ps, limit)| == if limit < |Positive(p, catalog, ps)| then limit else |Positive(p, catalog, ps)|
    ensures forall c :: c in Top(p, catalog, ps, limit) ==>
      c.record in catalog && c.matchScore == Score(p, c.record, ps) && 0 < c.matchScore
    ensures NonIncreasing(Top(p, catalog, ps, limit), MatchScoreOf)
  {
    var pos := Positive(p, catalog, ps);
    var sorted := SortDesc(pos, MatchScoreOf);
    SortDescIsSorted(pos, MatchScoreOf);
    forall c | c in Top(p, catalog, ps, limit)
      ensures c.record in catalog && c.matchScore == Score(p, c.record, ps) && 0 < c.matchScore
    {
      assert c in multiset(sorted);
    }
  }

  /** Stability: the entries of each score appear in catalog order, and they
      are the first ones of that score in the catalog. */
  lemma TopKeepsCatalogOrder(p: Profile, catalog: seq<Scholarship>, ps: Parsers, limit: nat, k: int)
    ensures WithKey(Top(p, catalog, ps, limit), MatchScoreOf, k) <= WithKey(Positive(p, catalog, ps), MatchScoreOf, k)
  {
    var pos := Positive(p, catalog, ps);
    var sorted := SortDesc(pos, MatchScoreOf);
    SortDescIsStable(pos, MatchScoreOf, k);
    WithKeyOfPrefix(sorted, MatchScoreOf, k, |Top(p, catalog, ps, limit)|);
  }

  /** Top-N: nothing the cut leaves out of the sorted list scores higher
      than anything kept. */
  lemma TopIsBest(p: Profile, catalog: seq<Scholarship>, ps: Parsers, limit: nat)
    ensures var sorted := SortDesc(Positive(p, catalog, ps), MatchScoreOf);
      var n := |Top(p, catalog, ps, limit)|;
      forall i, j :: 0 <= i < n <= j < |sorted| ==> sorted[j].matchScore <= sorted[i].matchScore
  {
    SortDescIsSorted(Positive(p, catalog, ps), MatchScoreOf);
  }

  /** An empty catalog, or one where nothing scores, ranks to nothing. */
  lemma NothingScoresNothingRanked(p: Profile, catalog: seq<Scholarship>, ps: Parsers, limit: nat)
    requires forall s :: s in catalog ==> Score(p, s, ps) == 0
    ensures Top(p, catalog, ps, limit) == []
  {
    NothingPositive(p, catalog, ps);
  }

  lemma {:induction false} NothingPositive(p: Profile, catalog: seq<Scholarship>, ps: Parsers)
    requires forall s :: s in catalog ==> Score(p, s, ps) == 0
    ensures Positive(p, catalog, ps) == []
  {
    if catalog != [] {
      NothingPositive(p, catalog[..|catalog| - 1], ps);
      assert catalog[|catalog| - 1] in catalog;
    }
  }

  /** `score(x)` for `/send-pdf`'s sort key. */
  function ScoreKey(p: Profile, ps: Parsers): Scholarship -> int {
    s => Score(p, s, ps)
  }

  /** The records of a scored list, without their annotation. */
  function RecordOf(c: Scored): Scholarship {
    c.record
  }

  /** `[s for s in scholarships if student.match_score(s) > 0]`. */
  function Matched(p: Profile, catalog: seq<Scholarship>, ps: Parsers): (r: seq<Scholarship>)
    ensures forall s :: s in r <==> s in catalog && Score(p, s, ps) > 0
  {
    if catalog == [] then []
    else
      var last := catalog[|catalog| - 1];
      Matched(p, catalog[..|catalog| - 1], ps) + (if Score(p, last, ps) > 0 then [last] else [])
  }

  /** `/send-pdf`: the matched records sorted by a freshly computed score,
      cut to `limit`. */
  function PdfTop(p: Profile, catalog: seq<Scholarship>, ps: Parsers, limit: nat): (r: seq<Scholarship>)
    ensures |r| <= limit
    ensures forall s :: s in r ==> s in catalog && Score(p, s, ps) > 0
  {
    var sorted := SortDesc(Matched(p, catalog, ps), ScoreKey(p, ps));
    SortDescMembers(Matched(p, catalog, ps), ScoreKey(p, ps));
    var n := if limit < |sorted| then limit else |sorted|;
    assert forall s :: s in sorted[..n] ==> s in sorted;
    sorted[..n]
  }

  lemma {:induction false} MatchedIsPositiveRecords(p: Profile, catalog: seq<Scholarship>, ps: Parsers)
    ensures Matched(p, catalog, ps) == Map(Positive(p, catalog, ps), RecordOf)
  {
    if catalog != [] {
      var init := catalog[..|catalog| - 1];
      MatchedIsPositiveRecords(p, init, ps);
      var last := catalog[|catalog| - 1];
      var tail := if Score(p, last, ps) > 0 then [Scored(last, Score(p, last, ps))] else [];
      MapAppend(Positive(p, init, ps), tail, RecordOf);
    }
  }

  lemma {:induction false} MapAppend<T, U>(a: seq<T>, b: seq<T>, f: T -> U)
    ensures Map(a + b, f) == Map(a, f) + Map(b, f)
  {
    var l, r := Map(a + b, f), Map(a, f) + Map(b, f);
    assert |l| == |r|;
    forall i | 0 <= i < |l| ensures l[i] == r[i] {
      if i < |a| {
        assert (a + b)[i] == a[i];
      } else {
        assert (a + b)[i] == b[i - |a|];
      }
    }
  }

  /** Both call sites select the same records in the same order: `/send-pdf`,
      which re-scores inside the sort key, agrees with `/submit`'s annotated
      ranking stripped of its annotations. */
  lemma PdfAgreesWithSubmit(p: Profile, catalog: seq<Scholarship>, ps: Parsers, limit: nat)
    ensures PdfTop(p, catalog, ps, limit) == Map(Top(p, catalog, ps, limit), RecordOf)
  {
    var pos := Positive(p, catalog, ps);
    var sorted := SortDesc(pos, MatchScoreOf);
    PdfSortAgrees(p, catalog, ps);
    var n := if limit < |sorted| then limit else |sorted|;
    MapPrefix(sorted, RecordOf, n);
  }

  lemma PdfSortAgrees(p: Profile, catalog: seq<Scholarship>, ps: Parsers)
    ensures SortDesc(Matched(p, catalog, ps), ScoreKey(p, ps))
      == Map(SortDesc(Positive(p, catalog, ps), MatchScoreOf), RecordOf)
  {
    var pos := Positive(p, catalog, ps);
    var key := ScoreKey(p, ps);
    MatchedIsPositiveRecords(p, catalog, ps);
    forall x | x in pos ensures key(RecordOf(x)) == MatchScoreOf(x) {
    }
    SortDescMaps(pos, MatchScoreOf, RecordOf, key);
  }

  lemma MapPrefix<T, U>(s: seq<T>, f: T -> U, n: nat)
    requires n <= |s|
    ensures Map(s, f)[..n] == Map(s[..n], f)
  {
  }

  /** A worked request: cgpa 8.5, engineering, family income 50000, minority
      status, and no category (so the category defaults to ""). */
  const ScenarioRequest: map<string, Value> := map[
    "name" := Str("Student"), "email" := Str("student@example.org"),
    "cgpa" := Num(8.5), "field_of_study" := Str("engineering"),
    "family_income" := Num(50000.0), "minority_status" := Bool(true)]

  /** Record A meets every requirement and names the minority category. */
  const RecordA: Scholarship := map[
    MinGpaKey := "7", MaxIncomeKey := "60000", FieldKey := "engineering", CategoriesKey := "minority"]

  /** Record B asks for a higher GPA and another field, and states no ceiling. */
  const RecordB: Scholarship := map[MinGpaKey := "9", FieldKey := "arts"]

  /** Numbers in the records parse as Python would parse them. */
  predicate ParsesScenario(ps: Parsers) {
    ps.parseFloat("7") == Some(7.0) && ps.parseInt("60000") == Some(60000) && ps.parseFloat("9") == Some(9.0)
  }

  lemma ScenarioTextsAreLower()
    ensures Lower("engineering") == "engineering"
    ensures Lower("minority") == "minority"
    ensures Lower("arts") == "arts"
  {
    LowerOfLower("engineering");
    LowerOfLower("minority");
    LowerOfLower("arts");
  }

  lemma ScenarioProfile(ps: Parsers)
    ensures BuildProfile(ScenarioRequest, ps).Some?
    ensures var p := BuildProfile(ScenarioRequest, ps).value;
      p.cgpa == 8.5 && p.familyIncome == 50000 && p.fieldOfStudy == "engineering" && p.category == ""
      && p.minorityStatus && !p.disabilityStatus && !p.armyBackground
  {
    var d := ScenarioRequest;
    assert "category" !in d && "year_of_graduation" !in d && "current_semester" !in d;
    assert "last_year_cgpa" !in d && "army_background" !in d && "disability_status" !in d;
    assert d["cgpa"] == Num(8.5) && d["family_income"] == Num(50000.0);
    assert d["field_of_study"] == Str("engineering") && d["minority_status"] == Bool(true);
    assert LowerField(d, "category") == Some("");
    ScenarioTextsAreLower();
    assert LowerField(d, "field_of_study") == Some("engineering");
    assert IntOf(Get(d, "family_income", Num(0.0)), ps) == Some(50000);
    assert Get(d, "year_of_graduation", Num(0.0)) == Num(0.0);
    assert Get(d, "current_semester", Num(0.0)) == Num(0.0);
    assert Get(d, "last_year_cgpa", Num(0.0)) == Num(0.0);
    assert FloatOf(Get(d, "cgpa", Num(0.0)), ps) == Some(8.5);
  }

  lemma ScenarioScoreA(p: Profile, ps: Parsers)
    requires ParsesScenario(ps)
    requires p.cgpa == 8.5 && p.familyIncome == 50000 && p.fieldOfStudy == "engineering" && p.category == ""
    requires p.minorityStatus && !p.disabilityStatus && !p.armyBackground
    ensures Score(p, RecordA, ps) == 10
  {
    var a := RecordA;
    assert a[MinGpaKey] == "7" && a[MaxIncomeKey] == "60000";
    assert a[FieldKey] == "engineering" && a[CategoriesKey] == "minority";
    assert GpaPoints(p, a, ps) == 3;
    assert IncomePoints(p, a, ps) == 3;
    ScenarioTextsAreLower();
    assert FieldPoints(p, a) == 2;
    var text := "minority";
    assert Categories(a) == text;
    assert OccursAt(text, text, 0);
    EmptyAlwaysContained(text);
    assert CategoryPoints(p, a) == 1;
    assert KeywordPoints(p.minorityStatus, a, "minority") == 1;
  }

  lemma ScenarioScoreB(p: Profile, ps: Parsers)
    requires ParsesScenario(ps)
    requires p.cgpa == 8.5 && p.familyIncome == 50000 && p.fieldOfStudy == "engineering" && p.category == ""
    requires p.minorityStatus && !p.disabilityStatus && !p.armyBackground
    ensures Score(p, RecordB, ps) == 4
  {
    assert MaxIncomeKey !in RecordB && CategoriesKey !in RecordB;
    assert Categories(RecordB) == "";
    ScenarioTextsAreLower();
    assert Lower(Cell(RecordB, FieldKey)) == "arts";
    EmptyAlwaysContained("");
  }

  lemma ScenarioPositive(p: Profile, ps: Parsers)
    requires Score(p, RecordA, ps) == 10 && Score(p, RecordB, ps) == 4
    ensures Positive(p, [RecordA, RecordB], ps) == [Scored(RecordA, 10), Scored(RecordB, 4)]
  {
    var catalog := [RecordA, RecordB];
    assert catalog[..1] == [RecordA] && catalog[..1][..0] == [];
    assert Positive(p, catalog[..1], ps) == [Scored(RecordA, 10)];
  }

  lemma ScenarioSorted()
    ensures SortDesc([Scored(RecordA, 10), Scored(RecordB, 4)], MatchScoreOf)
      == [Scored(RecordA, 10), Scored(RecordB, 4)]
  {
    var a, b := Scored(RecordA, 10), Scored(RecordB, 4);
    assert [a, b][1..] == [b];
    assert SortDesc([b], MatchScoreOf) == [b];
  }

  /** The worked request ranks A (10 points) before B (4 points). B keeps
      4 points: its missing income ceiling defaults to 10^9 and the empty
      category is found in its empty special categories. */
  lemma ScenarioRanking(ps: Parsers)
    requires ParsesScenario(ps)
    ensures BuildProfile(ScenarioRequest, ps).Some?
    ensures Top(BuildProfile(ScenarioRequest, ps).value, [RecordA, RecordB], ps, SubmitLimit)
      == [Scored(RecordA, 10), Scored(RecordB, 4)]
  {
    ScenarioProfile(ps);
    var p := BuildProfile(ScenarioRequest, ps).value;
    ScenarioScoreA(p, ps);
    ScenarioScoreB(p, ps);
    ScenarioPositive(p, ps);
    ScenarioSorted();
  }
}
