/**
 * The student profile built from a request body (class `Student` in
 * backend/app.py): field defaults, lower-casing, numeric conversions and the
 * normalisation of the three boolean flags.
 */
module Student {
  import opened Wrappers
  import opened PyValues
  import opened Text

  /** Python's `int(str)` and `float(str)`, as partial functions: `None` when
      the call would raise `ValueError`. Their exact string grammar is a
      parameter of the model. */
  datatype Parsers = Parsers(parseFloat: string -> Option<real>, parseInt: string -> Option<int>)

  /** The profile of one student; immutable once built. */
  datatype Profile = Profile(
    name: Value, dob: Value, gender: Value, email: Value, phone: Value,
    category: string, fieldOfStudy: string,
    yearOfGraduation: int, currentSemester: int,
    collegeName: Value,
    cgpa: real, familyIncome: int, lastYearCgpa: real,
    armyBackground: bool, disabilityStatus: bool, minorityStatus: bool)

  /** `Student._convert_to_bool`: booleans are kept, strings are true exactly
      when their lower-cased form is "true", "1" or "yes", anything else is
      Python's truthiness. */
  function ConvertToBool(v: Value): (r: bool)
    ensures v.Bool? ==> r == v.b
    ensures v.Str? ==>
      (r <==> EqualsIgnoringCase(v.s, "true") || v.s == "1" || EqualsIgnoringCase(v.s, "yes"))
    ensures !v.Bool? && !v.Str? ==> r == Truthy(v)
  {
    match v
    case Bool(b) => b
    case Str(s) => FlagTokens(s); Lower(s) in ["true", "1", "yes"]
    case _ => Truthy(v)
  }

  /** Python's `int(v)`; `None` where it raises. */
  function IntOf(v: Value, ps: Parsers): Option<int> {
    match v
    case Bool(b) => Some(if b then 1 else 0)
    case Str(s) => ps.parseInt(s)
    case Num(x) => Some(Trunc(x))
    case _ => None
  }

  /** Python's `float(v)`; `None` where it raises. */
  function FloatOf(v: Value, ps: Parsers): Option<real> {
    match v
    case Bool(b) => Some(if b then 1.0 else 0.0)
    case Str(s) => ps.parseFloat(s)
    case Num(x) => Some(x)
    case _ => None
  }

  /** `data.get(key, default)`. */
  function Get(data: map<string, Value>, key: string, default: Value): Value {
    if key in data then data[key] else default
  }

  /** `data.get(key, "").lower()`; `None` where `.lower()` raises (a value
      that is not a string). */
  function LowerField(data: map<string, Value>, key: string): Option<string> {
    match Get(data, key, Str(""))
    case Str(s) => Some(Lower(s))
    case _ => None
  }

  /** Every conversion in `Student.__init__` succeeds. */
  predicate WellFormed(data: map<string, Value>, ps: Parsers) {
    && LowerField(data, "category").Some?
    && LowerField(data, "field_of_study").Some?
    && IntOf(Get(data, "year_of_graduation", Num(0.0)), ps).Some?
    && IntOf(Get(data, "current_semester", Num(0.0)), ps).Some?
    && FloatOf(Get(data, "cgpa", Num(0.0)), ps).Some?
    && IntOf(Get(data, "family_income", Num(0.0)), ps).Some?
    && FloatOf(Get(data, "last_year_cgpa", Num(0.0)), ps).Some?
  }

  /** `Student.__init__`: `None` where the constructor raises. */
  function BuildProfile(data: map<string, Value>, ps: Parsers): (r: Option<Profile>)
    ensures r.Some? <==> WellFormed(data, ps)
    ensures r.Some? ==> IsLower(r.value.category) && IsLower(r.value.fieldOfStudy)
    ensures r.Some? ==>
      && r.value.name == Get(data, "name", Str("")) && r.value.dob == Get(data, "dob", Str(""))
      && r.value.gender == Get(data, "gender", Str("")) && r.value.email == Get(data, "email", Str(""))
      && r.value.phone == Get(data, "phone", Str(""))
      && r.value.collegeName == Get(data, "college_name", Str(""))
    ensures r.Some? ==>
      && Get(data, "category", Str("")).Str?
      && r.value.category == Lower(Get(data, "category", Str("")).s)
      && Get(data, "field_of_study", Str("")).Str?
      && r.value.fieldOfStudy == Lower(Get(data, "field_of_study", Str("")).s)
    ensures r.Some? ==>
      && IntOf(Get(data, "year_of_graduation", Num(0.0)), ps) == Some(r.value.yearOfGraduation)
      && IntOf(Get(data, "current_semester", Num(0.0)), ps) == Some(r.value.currentSemester)
      && FloatOf(Get(data, "cgpa", Num(0.0)), ps) == Some(r.value.cgpa)
      && IntOf(Get(data, "family_income", Num(0.0)), ps) == Some(r.value.familyIncome)
      && FloatOf(Get(data, "last_year_cgpa", Num(0.0)), ps) == Some(r.value.lastYearCgpa)
    ensures r.Some? ==>
      && r.value.armyBackground == ConvertToBool(Get(data, "army_background", Bool(false)))
      && r.value.disabilityStatus == ConvertToBool(Get(data, "disability_status", Bool(false)))
      && r.value.minorityStatus == ConvertToBool(Get(data, "minority_status", Bool(false)))
    ensures r.Some? && "cgpa" !in data ==> r.value.cgpa == 0.0
    ensures r.Some? && "family_income" !in data ==> r.value.familyIncome == 0
    ensures r.Some? && "army_background" !in data ==> !r.value.armyBackground
    ensures r.Some? && "disability_status" !in data ==> !r.value.disabilityStatus
    ensures r.Some? && "minority_status" !in data ==> !r.value.minorityStatus
  {
    if !WellFormed(data, ps) then None
    else
      var category := LowerField(data, "category").value;
      var field := LowerField(data, "field_of_study").value;
      LowerIdempotent(Get(data, "category", Str("")).s);
      LowerIdempotent(Get(data, "field_of_study", Str("")).s);
      Some(Profile(
        Get(data, "name", Str("")), Get(data, "dob", Str("")), Get(data, "gender", Str("")),
        Get(data, "email", Str("")), Get(data, "phone", Str("")),
        category, field,
        IntOf(Get(data, "year_of_graduation", Num(0.0)), ps).value,
        IntOf(Get(data, "current_semester", Num(0.0)), ps).value,
        Get(data, "college_name", Str("")),
        FloatOf(Get(data, "cgpa", Num(0.0)), ps).value,
        IntOf(Get(data, "family_income", Num(0.0)), ps).value,
        FloatOf(Get(data, "last_year_cgpa", Num(0.0)), ps).value,
        ConvertToBool(Get(data, "army_background", Bool(false))),
        ConvertToBool(Get(data, "disability_status", Bool(false))),
        ConvertToBool(Get(data, "minority_status", Bool(false)))))
  }

  /** Two strings that are equal once lower-cased. */
  predicate EqualsIgnoringCase(a: string, b: string) {
    |a| == |b| && forall i :: 0 <= i < |a| ==> LowerChar(a[i]) == LowerChar(b[i])
  }

  /** A string lower-cases to one of the three true tokens exactly when it
      spells "true" or "yes" in any mix of cases, or is "1". */
  lemma FlagTokens(s: string)
    ensures Lower(s) in ["true", "1", "yes"] <==>
      EqualsIgnoringCase(s, "true") || s == "1" || EqualsIgnoringCase(s, "yes")
  {
    var l := Lower(s);
    LowerOfLower("true");
    LowerOfLower("yes");
    assert EqualsIgnoringCase(s, "true") <==> l == "true" by {
      if EqualsIgnoringCase(s, "true") {
        assert forall i :: 0 <= i < 4 ==> l[i] == "true"[i];
      }
    }
    assert EqualsIgnoringCase(s, "yes") <==> l == "yes" by {
      if EqualsIgnoringCase(s, "yes") {
        assert forall i :: 0 <= i < 3 ==> l[i] == "yes"[i];
      }
    }
    assert s == "1" <==> l == "1" by {
      if l == "1" {
        assert LowerChar(s[0]) == '1';
      }
    }
  }

  /** Spellings that read as true. */
  lemma TrueFlagSpellings()
    ensures ConvertToBool(Str("TRUE")) && ConvertToBool(Str("Yes")) && ConvertToBool(Str("1"))
    ensures ConvertToBool(Num(2.0)) && ConvertToBool(Container(1))
  {
    assert Lower("TRUE") == "true";
    assert Lower("Yes") == "yes";
    assert Lower("1") == "1";
  }

  /** Spellings that read as false: anything but the three tokens. */
  lemma FalseFlagSpellings()
    ensures !ConvertToBool(Str("no")) && !ConvertToBool(Str("0")) && !ConvertToBool(Str(""))
    ensures !ConvertToBool(Str("y"))
    ensures !ConvertToBool(Num(0.0)) && !ConvertToBool(Null) && !ConvertToBool(Container(0))
  {
    assert Lower("no") == "no";
    assert Lower("0") == "0";
    assert Lower("y") == "y";
  }

  /** A request that carries every field of `p` in the form the constructor
      expects: texts as strings, whole numbers and reals as JSON numbers,
      flags as booleans. */
  predicate Carries(data: map<string, Value>, p: Profile) {
    && Get(data, "name", Str("")) == p.name && Get(data, "dob", Str("")) == p.dob
    && Get(data, "gender", Str("")) == p.gender && Get(data, "email", Str("")) == p.email
    && Get(data, "phone", Str("")) == p.phone && Get(data, "college_name", Str("")) == p.collegeName
    && Get(data, "category", Str("")) == Str(p.category)
    && Get(data, "field_of_study", Str("")) == Str(p.fieldOfStudy)
    && Get(data, "year_of_graduation", Num(0.0)) == Num(p.yearOfGraduation as real)
    && Get(data, "current_semester", Num(0.0)) == Num(p.currentSemester as real)
    && Get(data, "cgpa", Num(0.0)) == Num(p.cgpa)
    && Get(data, "family_income", Num(0.0)) == Num(p.familyIncome as real)
    && Get(data, "last_year_cgpa", Num(0.0)) == Num(p.lastYearCgpa)
    && Get(data, "army_background", Bool(false)) == Bool(p.armyBackground)
    && Get(data, "disability_status", Bool(false)) == Bool(p.disabilityStatus)
    && Get(data, "minority_status", Bool(false)) == Bool(p.minorityStatus)
  }

  /** `int()` of a whole JSON number gives the number back. */
  lemma TruncOfWhole(n: int)
    ensures Trunc(n as real) == n
  {
  }

  /** Building a profile from a request that carries it gives it back,
      whenever its category and field are already lower-case. */
  lemma ProfileRoundTrip(data: map<string, Value>, p: Profile, ps: Parsers)
    requires Carries(data, p) && IsLower(p.category) && IsLower(p.fieldOfStudy)
    ensures BuildProfile(data, ps) == Some(p)
  {
    TruncOfWhole(p.yearOfGraduation);
    TruncOfWhole(p.currentSemester);
    TruncOfWhole(p.familyIncome);
    LowerOfLower(p.category);
    LowerOfLower(p.fieldOfStudy);
    assert WellFormed(data, ps);
  }
}
