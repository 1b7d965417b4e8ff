/**
 * `Student.match_score` (backend/app.py): an additive point system over one
 * scholarship record read from the catalog file, a dictionary from column
 * header to text.
 */
module Scoring {
  import opened Wrappers
  import opened Text
  import opened PyValues
  import opened Student

  /** One catalog row, as `csv.DictReader` yields it: header -> cell text. */
  type Scholarship = map<string, string>

  const MinGpaKey := "Minimum GPA"
  const MaxIncomeKey := "Maximum Family Income"
  const FieldKey := "Field of Study"
  const CategoriesKey := "Special Categories"

  /** `int(1e9)`, the income ceiling of a record without one. */
  const IncomeCeilingDefault := 1_000_000_000

  /** The largest score any record can reach: 3 + 3 + 2 + 1 + 1 + 1 + 1. */
  const MaxScore := 12

  /** `scholarship.get(key, "")`. */
  function Cell(s: Scholarship, key: string): string {
    if key in s then s[key] else ""
  }

  /** `float(scholarship.get("Minimum GPA", 0))`; `None` where it raises. */
  function MinGpa(s: Scholarship, ps: Parsers): Option<real> {
    if MinGpaKey in s then ps.parseFloat(s[MinGpaKey]) else Some(0.0)
  }

  /** `int(scholarship.get("Maximum Family Income", 1e9))`; `None` where it raises. */
  function MaxIncome(s: Scholarship, ps: Parsers): Option<int> {
    if MaxIncomeKey in s then ps.parseInt(s[MaxIncomeKey]) else Some(IncomeCeilingDefault)
  }

  /** The lower-cased "Special Categories" text the last four rules search. */
  function Categories(s: Scholarship): string {
    Lower(Cell(s, CategoriesKey))
  }

  /** Rule 1: three points when the student's cgpa reaches the minimum GPA; a
      minimum that does not parse costs the rule its points. */
  function GpaPoints(p: Profile, s: Scholarship, ps: Parsers): (r: int)
    ensures r == 0 || r == 3
    ensures MinGpaKey !in s ==> (r == 3 <==> p.cgpa >= 0.0)
    ensures MinGpaKey in s ==> (r == 3 <==> exists g :: ps.parseFloat(s[MinGpaKey]) == Some(g) && p.cgpa >= g)
    ensures MinGpaKey in s && ps.parseFloat(s[MinGpaKey]).None? ==> r == 0
  {
    match MinGpa(s, ps)
    case Some(g) => if p.cgpa >= g then 3 else 0
    case None => 0
  }

  /** Rule 2: three points when the family income is within the ceiling; a
      missing ceiling is 10^9, one that does not parse costs the rule its points. */
  function IncomePoints(p: Profile, s: Scholarship, ps: Parsers): (r: int)
    ensures r == 0 || r == 3
    ensures MaxIncomeKey !in s ==> (r == 3 <==> p.familyIncome <= 1_000_000_000)
    ensures MaxIncomeKey in s ==> (r == 3 <==> exists m :: ps.parseInt(s[MaxIncomeKey]) == Some(m) && p.familyIncome <= m)
    ensures MaxIncomeKey in s && ps.parseInt(s[MaxIncomeKey]).None? ==> r == 0
  {
    match MaxIncome(s, ps)
    case Some(m) => if p.familyIncome <= m then 3 else 0
    case None => 0
  }

  /** Rule 3: two points when the record's field, lower-cased, is the
      student's field or the wildcard "any". */
  function FieldPoints(p: Profile, s: Scholarship): (r: int)
    ensures r == 0 || r == 2
    ensures r == 2 <==> Lower(Cell(s, FieldKey)) in {p.fieldOfStudy, "any"}
  {
    var field := Lower(Cell(s, FieldKey));
    if p.fieldOfStudy == field || field == "any" then 2 else 0
  }

  /** Rule 4: one point when the student's category is a substring of the
      record's special categories. */
  function CategoryPoints(p: Profile, s: Scholarship): (r: int)
    ensures r == 0 || r == 1
    ensures r == 1 <==> Occurs(Categories(s), p.category)
  {
    if Contains(Categories(s), p.category) then 1 else 0
  }

  /** Rules 5-7: one point when the student's flag is set and the keyword
      occurs in the record's special categories. */
  function KeywordPoints(flag: bool, s: Scholarship, keyword: string): (r: int)
    ensures r == 0 || r == 1
    ensures r == 1 <==> flag && Occurs(Categories(s), keyword)
  {
    if flag && Find(Categories(s), keyword) != -1 then 1 else 0
  }

  /** The score as the sum of the seven independent rule contributions. */
  function Score(p: Profile, s: Scholarship, ps: Parsers): (r: int)
    ensures 0 <= r <= MaxScore
  {
    var numeric := GpaPoints(p, s, ps) + IncomePoints(p, s, ps);
    var textual := FieldPoints(p, s) + CategoryPoints(p, s);
    var flagged := KeywordPoints(p.minorityStatus, s, "minority")
      + KeywordPoints(p.disabilityStatus, s, "disability")
      + KeywordPoints(p.armyBackground, s, "army");
    assert 0 <= numeric <= 6 && 0 <= textual <= 3 && 0 <= flagged <= 3;
    numeric + textual + flagged
  }

  /** `Student.match_score`: the score accumulated rule by rule. */
  method MatchScore(p: Profile, s: Scholarship, ps: Parsers) returns (score: int)
    ensures score == Score(p, s, ps)
    ensures 0 <= score <= MaxScore
  {
    score := 0;
    var minGpa := MinGpa(s, ps);
    if minGpa.Some? && p.cgpa >= minGpa.value {
      score := score + 3;
    }
    var maxIncome := MaxIncome(s, ps);
    if maxIncome.Some? && p.familyIncome <= maxIncome.value {
      score := score + 3;
    }
    var field := Lower(Cell(s, FieldKey));
    if p.fieldOfStudy == field || field == "any" {
      score := score + 2;
    }
    var category := Lower(Cell(s, CategoriesKey));
    if Contains(category, p.category) {
      score := score + 1;
    }
    var textual := score;
    if p.minorityStatus && Find(category, "minority") != -1 {
      score := score + 1;
    }
    if p.disabilityStatus && Find(category, "disability") != -1 {
      score := score + 1;
    }
    if p.armyBackground && Find(category, "army") != -1 {
      score := score + 1;
    }
    assert textual == GpaPoints(p, s, ps) + IncomePoints(p, s, ps) + FieldPoints(p, s) + CategoryPoints(p, s);
  }

  /** A record whose minimum GPA and income ceiling the student meets and
      whose field matches scores at least 8. */
  lemma EligibleFieldMatchScoresAtLeastEight(p: Profile, s: Scholarship, ps: Parsers)
    requires exists g :: MinGpa(s, ps) == Some(g) && p.cgpa >= g
    requires exists m :: MaxIncome(s, ps) == Some(m) && p.familyIncome <= m
    requires Lower(Cell(s, FieldKey)) == p.fieldOfStudy
    ensures Score(p, s, ps) >= 8
  {
  }

  /** With all three flags false the keyword rules add nothing, so the score
      is at most 9. */
  lemma NoFlagsNoKeywordPoints(p: Profile, s: Scholarship, ps: Parsers)
    requires !p.minorityStatus && !p.disabilityStatus && !p.armyBackground
    ensures Score(p, s, ps) == GpaPoints(p, s, ps) + IncomePoints(p, s, ps) + FieldPoints(p, s) + CategoryPoints(p, s)
    ensures Score(p, s, ps) <= 9
  {
  }

  /** An empty student category is a substring of every text, so it always
      earns the category point. */
  lemma EmptyCategoryAlwaysEarnsPoint(p: Profile, s: Scholarship)
    requires p.category == ""
    ensures CategoryPoints(p, s) == 1
  {
    EmptyAlwaysContained(Categories(s));
  }

  /** Lower-cased equality is equality ignoring case. */
  lemma LowerEqualIffEqualsIgnoringCase(a: string, b: string)
    ensures Lower(a) == Lower(b) <==> EqualsIgnoringCase(a, b)
  {
    if EqualsIgnoringCase(a, b) {
      assert forall i :: 0 <= i < |a| ==> Lower(a)[i] == Lower(b)[i];
    }
    if Lower(a) == Lower(b) {
      assert forall i :: 0 <= i < |a| ==> Lower(a)[i] == Lower(b)[i];
    }
  }

  /** For a student built from a request, the field rule ignores case on both
      sides: it fires when the record's field and the submitted field are
      equal ignoring case, or the record's field is "any" in any case. */
  lemma FieldRuleIgnoresCase(data: map<string, Value>, ps: Parsers, s: Scholarship)
    requires BuildProfile(data, ps).Some?
    requires "field_of_study" in data && data["field_of_study"].Str?
    ensures FieldPoints(BuildProfile(data, ps).value, s) == 2 <==>
      EqualsIgnoringCase(data["field_of_study"].s, Cell(s, FieldKey)) || EqualsIgnoringCase(Cell(s, FieldKey), "any")
  {
    LowerEqualIffEqualsIgnoringCase(data["field_of_study"].s, Cell(s, FieldKey));
    LowerEqualIffEqualsIgnoringCase(Cell(s, FieldKey), "any");
    LowerOfLower("any");
  }

  /** The special categories of the record that reaches the highest score. */
  const AllKeywords := "minority disability army"

  lemma AllKeywordsLower()
    ensures Lower(AllKeywords) == AllKeywords
  {
    LowerOfLower(AllKeywords);
  }

  lemma AllKeywordsFound()
    ensures Contains(AllKeywords, "minority") && Contains(AllKeywords, "disability")
    ensures Contains(AllKeywords, "army")
  {
    assert OccursAt(AllKeywords, "minority", 0) by {
      assert AllKeywords[0..8] == "minority";
    }
    assert OccursAt(AllKeywords, "disability", 9) by {
      assert AllKeywords[9..19] == "disability";
    }
    assert OccursAt(AllKeywords, "army", 20) by {
      assert AllKeywords[20..24] == "army";
    }
  }

  /** The highest score, 12, is reached: a record open to any field whose
      special categories name all three keywords, for a student with all
      flags, no category, non-negative cgpa and income within 10^9. */
  lemma MaxScoreIsReached(p: Profile, ps: Parsers)
    requires p.cgpa >= 0.0 && p.familyIncome <= 1_000_000_000
    requires p.category == "" && p.minorityStatus && p.disabilityStatus && p.armyBackground
    ensures Score(p, map[FieldKey := "Any", CategoriesKey := AllKeywords], ps) == MaxScore
  {
    var s := map[FieldKey := "Any", CategoriesKey := AllKeywords];
    assert MinGpaKey !in s && MaxIncomeKey !in s;
    assert GpaPoints(p, s, ps) + IncomePoints(p, s, ps) == 6;
    assert FieldPoints(p, s) == 2 by {
      assert Cell(s, FieldKey) == "Any";
      assert Lower("Any") == "any";
    }
    assert Categories(s) == AllKeywords by {
      assert Cell(s, CategoriesKey) == AllKeywords;
      AllKeywordsLower();
    }
    AllKeywordsFound();
    EmptyAlwaysContained(AllKeywords);
    assert CategoryPoints(p, s) == 1;
    assert KeywordPoints(p.minorityStatus, s, "minority") == 1;
    assert KeywordPoints(p.disabilityStatus, s, "disability") == 1;
    assert KeywordPoints(p.armyBackground, s, "army") == 1;
  }
}
