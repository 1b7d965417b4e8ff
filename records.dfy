/**
 * The scraped `Scholarship` dataclass of scraper/models.py and the way
 * `save_to_database` binds it to the columns of the `scholarships` table.
 */
module Records {
  import opened Wrappers

  /** A TEXT cell: a string, or NULL where the Python value is `None`. */
  type Cell = Option<string>

  /** One record as a scraper emits it; fields in declaration order. */
  datatype Scholarship = Scholarship(
    title: Cell, description: Cell, fieldOfStudy: Cell, category: Cell,
    minCgpa: Cell, maxIncome: Cell,
    minorityPreference: Cell, disabilityPreference: Cell, armyPreference: Cell,
    applicationUrl: Cell, referenceWebsite: Cell, source: Cell, scrapedDate: Cell)

  /** The column list of the INSERT statement. */
  const InsertColumns: seq<string> := [
    "title", "description", "field_of_study", "category", "min_cgpa", "max_income",
    "minority_preference", "disability_preference", "army_preference",
    "application_url", "reference_website", "source", "scraped_date"]

  /** `tuple(vars(scholarship).values())`: the parameters of the INSERT, the
      fields in declaration order. */
  function Values(s: Scholarship): (r: seq<Cell>)
    ensures |r| == |InsertColumns|
    ensures r[0] == s.title && r[11] == s.source
  {
    [s.title, s.description, s.fieldOfStudy, s.category, s.minCgpa, s.maxIncome,
     s.minorityPreference, s.disabilityPreference, s.armyPreference,
     s.applicationUrl, s.referenceWebsite, s.source, s.scrapedDate]
  }

  /** The row the INSERT stores: the i-th parameter goes to the i-th column. */
  function Bind(params: seq<Cell>): Scholarship
    requires |params| == |InsertColumns|
  {
    Scholarship(params[0], params[1], params[2], params[3], params[4], params[5],
                params[6], params[7], params[8], params[9], params[10], params[11], params[12])
  }

  /** The value a stored record holds in the named column (`None` for a name
      that is not a column of the INSERT). */
  function Column(s: Scholarship, name: string): Option<Cell> {
    if name == "title" then Some(s.title)
    else if name == "description" then Some(s.description)
    else if name == "field_of_study" then Some(s.fieldOfStudy)
    else if name == "category" then Some(s.category)
    else if name == "min_cgpa" then Some(s.minCgpa)
    else if name == "max_income" then Some(s.maxIncome)
    else if name == "minority_preference" then Some(s.minorityPreference)
    else if name == "disability_preference" then Some(s.disabilityPreference)
    else if name == "army_preference" then Some(s.armyPreference)
    else if name == "application_url" then Some(s.applicationUrl)
    else if name == "reference_website" then Some(s.referenceWebsite)
    else if name == "source" then Some(s.source)
    else if name == "scraped_date" then Some(s.scrapedDate)
    else None
  }

  /** Binding the positional parameters stores the record unchanged, and
      every field lands in the column of its own name. */
  lemma BindingIsFaithful(s: Scholarship)
    ensures Bind(Values(s)) == s
    ensures forall i :: 0 <= i < |InsertColumns| ==> Column(s, InsertColumns[i]) == Some(Values(s)[i])
  {
  }

  /** Binding is one-to-one: distinct parameter tuples store distinct rows. */
  lemma ValuesOfBind(params: seq<Cell>)
    requires |params| == |InsertColumns|
    ensures Values(Bind(params)) == params
  {
  }

  /** The UNIQUE(title, source) constraint: two records collide when both
      keys are equal and neither is NULL (NULLs never equal each other). */
  predicate SameKey(a: Scholarship, b: Scholarship) {
    a.title.Some? && a.source.Some? && a.title == b.title && a.source == b.source
  }

  /** The record carries the (title, source) key `k`. */
  predicate HasKey(s: Scholarship, k: (string, string)) {
    s.title == Some(k.0) && s.source == Some(k.1)
  }
}
