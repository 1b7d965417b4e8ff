/**
 * The query `query_scholarships_by_criteria` of scraper/database.py builds:
 * one WHERE clause and one bound parameter per filter that is set, and what
 * SQLite makes of them.
 */
module Query {
  import opened Wrappers
  import opened Records
  import opened Text

  /** The keyword arguments; `None` where the caller left the default. */
  datatype Filters = Filters(
    field: Option<string>, category: Option<string>, minCgpa: Option<real>,
    minority: Option<string>, disability: Option<string>, army: Option<string>)

  /** `if x:` on an optional string: given and non-empty. */
  predicate TextSet(x: Option<string>) {
    x.Some? && x.value != ""
  }

  /** `if min_cgpa:` on an optional number: given and non-zero. */
  predicate NumSet(x: Option<real>) {
    x.Some? && x.value != 0.0
  }

  /** A bound parameter of the statement. */
  datatype Param = TextParam(t: string) | RealParam(x: real)

  /** One clause of the WHERE, with the value bound to its placeholder. */
  datatype Condition =
    | FieldLike(pattern: string)
    | CategoryLike(pattern: string)
    | CgpaAtMost(bound: real)
    | MinorityIs(value: string)
    | DisabilityIs(value: string)
    | ArmyIs(value: string)

  const Base: string := "SELECT * FROM scholarships WHERE 1=1"

  /** The text a clause appends to the query; its value goes to a parameter. */
  function ClauseText(c: Condition): string {
    ClauseHead(c) + "?"
  }

  /** A clause's text up to its placeholder. */
  function ClauseHead(c: Condition): string {
    match c
    case FieldLike(_) => " AND field_of_study LIKE "
    case CategoryLike(_) => " AND category LIKE "
    case CgpaAtMost(_) => " AND CAST(min_cgpa AS REAL) <= "
    case MinorityIs(_) => " AND minority_preference = "
    case DisabilityIs(_) => " AND disability_preference = "
    case ArmyIs(_) => " AND army_preference = "
  }

  function ParamOf(c: Condition): Param {
    match c
    case FieldLike(p) => TextParam(p)
    case CategoryLike(p) => TextParam(p)
    case CgpaAtMost(b) => RealParam(b)
    case MinorityIs(v) => TextParam(v)
    case DisabilityIs(v) => TextParam(v)
    case ArmyIs(v) => TextParam(v)
  }

  /** The clause each filter adds when it is set. */
  function FieldClause(f: Filters): Option<Condition> {
    if TextSet(f.field) then Some(FieldLike("%" + f.field.value + "%")) else None
  }
  function CategoryClause(f: Filters): Option<Condition> {
    if TextSet(f.category) then Some(CategoryLike("%" + f.category.value + "%")) else None
  }
  function CgpaClause(f: Filters): Option<Condition> {
    if NumSet(f.minCgpa) then Some(CgpaAtMost(f.minCgpa.value)) else None
  }
  function MinorityClause(f: Filters): Option<Condition> {
    if TextSet(f.minority) then Some(MinorityIs(f.minority.value)) else None
  }
  function DisabilityClause(f: Filters): Option<Condition> {
    if TextSet(f.disability) then Some(DisabilityIs(f.disability.value)) else None
  }
  function ArmyClause(f: Filters): Option<Condition> {
    if TextSet(f.army) then Some(ArmyIs(f.army.value)) else None
  }

  /** What testing one filter appends to the query text. */
  function TextPart(c: Option<Condition>): string {
    if c.Some? then ClauseText(c.value) else ""
  }

  /** What testing one filter appends to the parameter list. */
  function ParamPart(c: Option<Condition>): seq<Param> {
    if c.Some? then [ParamOf(c.value)] else []
  }

  /** The clauses testing one filter adds to the WHERE. */
  function ClausePart(c: Option<Condition>): seq<Condition> {
    if c.Some? then [c.value] else []
  }

  /** The query text: the base query and the clause of every set filter. */
  function QueryText(f: Filters): string {
    Base + TextPart(FieldClause(f)) + TextPart(CategoryClause(f)) + TextPart(CgpaClause(f))
    + TextPart(MinorityClause(f)) + TextPart(DisabilityClause(f)) + TextPart(ArmyClause(f))
  }

  /** The parameter list, one per clause. */
  function QueryParams(f: Filters): seq<Param> {
    ParamPart(FieldClause(f)) + ParamPart(CategoryClause(f)) + ParamPart(CgpaClause(f))
    + ParamPart(MinorityClause(f)) + ParamPart(DisabilityClause(f)) + ParamPart(ArmyClause(f))
  }

  /** The WHERE clauses, in the order the function tests the filters. */
  function Conditions(f: Filters): seq<Condition> {
    ClausePart(FieldClause(f)) + ClausePart(CategoryClause(f)) + ClausePart(CgpaClause(f))
    + ClausePart(MinorityClause(f)) + ClausePart(DisabilityClause(f)) + ClausePart(ArmyClause(f))
  }

  /** One `if <filter>: query += <clause text>; params.append(<value>)`
      block, for the clause the filter yields when it is set. */
  method AddIfSet(query: string, params: seq<Param>, c: Option<Condition>)
    returns (query': string, params': seq<Param>)
    ensures query' == query + TextPart(c) && params' == params + ParamPart(c)
  {
    if c.Some? {
      query' := query + ClauseText(c.value);
      params' := params + [ParamOf(c.value)];
    } else {
      query', params' := query, params;
    }
  }

  /** The query and parameter list, built filter by filter in the order the
      function tests them. */
  method BuildQuery(f: Filters) returns (query: string, params: seq<Param>)
    ensures query == QueryText(f) && params == QueryParams(f)
  {
    var q1, p1 := AddIfSet(Base, [], FieldClause(f));
    var q2, p2 := AddIfSet(q1, p1, CategoryClause(f));
    var q3, p3 := AddIfSet(q2, p2, CgpaClause(f));
    var q4, p4 := AddIfSet(q3, p3, MinorityClause(f));
    var q5, p5 := AddIfSet(q4, p4, DisabilityClause(f));
    query, params := AddIfSet(q5, p5, ArmyClause(f));
    Chain(Base, TextPart(FieldClause(f)), TextPart(CategoryClause(f)), TextPart(CgpaClause(f)),
      TextPart(MinorityClause(f)), TextPart(DisabilityClause(f)), TextPart(ArmyClause(f)),
      q1, q2, q3, q4, q5, query);
    Chain([], ParamPart(FieldClause(f)), ParamPart(CategoryClause(f)), ParamPart(CgpaClause(f)),
      ParamPart(MinorityClause(f)), ParamPart(DisabilityClause(f)), ParamPart(ArmyClause(f)),
      p1, p2, p3, p4, p5, params);
    EmptyPrefix(ParamPart(FieldClause(f)));
  }

  /** Six appends in a row, written as one concatenation. */
  lemma Chain<T>(x0: seq<T>, t1: seq<T>, t2: seq<T>, t3: seq<T>, t4: seq<T>, t5: seq<T>, t6: seq<T>,
                 x1: seq<T>, x2: seq<T>, x3: seq<T>, x4: seq<T>, x5: seq<T>, x6: seq<T>)
    requires x1 == x0 + t1 && x2 == x1 + t2 && x3 == x2 + t3
    requires x4 == x3 + t4 && x5 == x4 + t5 && x6 == x5 + t6
    ensures x6 == x0 + t1 + t2 + t3 + t4 + t5 + t6
  {
  }

  lemma EmptyPrefix<T>(s: seq<T>)
    ensures [] + s == s
  {
  }

  // ----- what the text and the parameters say -----

  /** Adding one filter's parameter and clause keeps the i-th parameter the
      value of the i-th clause. */
  lemma AppendPart(ps: seq<Param>, cs: seq<Condition>, c: Option<Condition>)
    requires |ps| == |cs| && forall i :: 0 <= i < |cs| ==> ps[i] == ParamOf(cs[i])
    ensures |ps + ParamPart(c)| == |cs + ClausePart(c)|
    ensures forall i :: 0 <= i < |cs + ClausePart(c)| ==>
      (ps + ParamPart(c))[i] == ParamOf((cs + ClausePart(c))[i])
  {
  }

  /** The i-th parameter is the value of the i-th clause. */
  lemma ParamsFollowClauses(f: Filters)
    ensures |QueryParams(f)| == |Conditions(f)|
    ensures forall i :: 0 <= i < |Conditions(f)| ==> QueryParams(f)[i] == ParamOf(Conditions(f)[i])
  {
    var p1, c1 := ParamPart(FieldClause(f)), ClausePart(FieldClause(f));
    AppendPart([], [], FieldClause(f));
    assert [] + p1 == p1 && [] + c1 == c1;
    AppendPart(p1, c1, CategoryClause(f));
    var p2, c2 := p1 + ParamPart(CategoryClause(f)), c1 + ClausePart(CategoryClause(f));
    AppendPart(p2, c2, CgpaClause(f));
    var p3, c3 := p2 + ParamPart(CgpaClause(f)), c2 + ClausePart(CgpaClause(f));
    AppendPart(p3, c3, MinorityClause(f));
    var p4, c4 := p3 + ParamPart(MinorityClause(f)), c3 + ClausePart(MinorityClause(f));
    AppendPart(p4, c4, DisabilityClause(f));
    var p5, c5 := p4 + ParamPart(DisabilityClause(f)), c4 + ClausePart(DisabilityClause(f));
    AppendPart(p5, c5, ArmyClause(f));
  }

  /** The query text depends only on which filters are set, never on their
      values: every value reaches SQLite as a bound parameter. */
  lemma TextIgnoresValues(f: Filters, g: Filters)
    requires TextSet(f.field) == TextSet(g.field) && TextSet(f.category) == TextSet(g.category)
    requires NumSet(f.minCgpa) == NumSet(g.minCgpa) && TextSet(f.minority) == TextSet(g.minority)
    requires TextSet(f.disability) == TextSet(g.disability) && TextSet(f.army) == TextSet(g.army)
    ensures QueryText(f) == QueryText(g)
  {
  }

  /** With no filter set the query is the bare `SELECT ... WHERE 1=1`. */
  lemma NoFilterNoClause(f: Filters)
    requires !TextSet(f.field) && !TextSet(f.category) && !NumSet(f.minCgpa)
    requires !TextSet(f.minority) && !TextSet(f.disability) && !TextSet(f.army)
    ensures QueryText(f) == Base && QueryParams(f) == [] && Conditions(f) == []
  {
  }

  /** The number of `?` placeholders in a statement's text. */
  function Placeholders(s: string): nat {
    if s == [] then 0
    else Placeholders(s[..|s| - 1]) + (if s[|s| - 1] == '?' then 1 else 0)
  }

  lemma {:induction false} PlaceholdersAppend(a: string, b: string)
    ensures Placeholders(a + b) == Placeholders(a) + Placeholders(b)
    decreases |b|
  {
    if b != [] {
      PlaceholdersAppend(a, b[..|b| - 1]);
      assert (a + b)[..|a + b| - 1] == a + b[..|b| - 1];
    } else {
      assert a + b == a;
    }
  }

  lemma {:induction false} NoPlaceholders(s: string)
    requires forall i :: 0 <= i < |s| ==> s[i] != '?'
    ensures Placeholders(s) == 0
    decreases |s|
  {
    if s != [] {
      NoPlaceholders(s[..|s| - 1]);
    }
  }

  /** The base query holds no `?` of its own. */
  lemma BaseHoldsNoPlaceholder()
    ensures Placeholders(Base) == 0
  {
    assert forall i :: 0 <= i < |Base| ==> Base[i] != '?';
    NoPlaceholders(Base);
  }

  /** Nor does the text before a clause's placeholder. */
  lemma HeadHoldsNoPlaceholder(c: Condition)
    ensures Placeholders(ClauseHead(c)) == 0
  {
    var h := ClauseHead(c);
    match c {
      case FieldLike(_) => assert forall i :: 0 <= i < |h| ==> h[i] != '?';
      case CategoryLike(_) => assert forall i :: 0 <= i < |h| ==> h[i] != '?';
      case CgpaAtMost(_) => assert forall i :: 0 <= i < |h| ==> h[i] != '?';
      case MinorityIs(_) => assert forall i :: 0 <= i < |h| ==> h[i] != '?';
      case DisabilityIs(_) => assert forall i :: 0 <= i < |h| ==> h[i] != '?';
      case ArmyIs(_) => assert forall i :: 0 <= i < |h| ==> h[i] != '?';
    }
    NoPlaceholders(h);
  }

  /** Each filter's block adds as many placeholders as parameters. */
  lemma PartPlaceholders(c: Option<Condition>)
    ensures Placeholders(TextPart(c)) == |ParamPart(c)|
  {
    if c.Some? {
      HeadHoldsNoPlaceholder(c.value);
      PlaceholdersAppend(ClauseHead(c.value), "?");
      assert "?"[..0] == [];
    }
  }

  /** The statement is well-formed for `execute`: its text holds exactly one
      placeholder per bound parameter. */
  lemma PlaceholdersMatchParams(f: Filters)
    ensures Placeholders(QueryText(f)) == |QueryParams(f)|
  {
    var c1, c2, c3 := FieldClause(f), CategoryClause(f), CgpaClause(f);
    var c4, c5, c6 := MinorityClause(f), DisabilityClause(f), ArmyClause(f);
    PartPlaceholders(c1); PartPlaceholders(c2); PartPlaceholders(c3);
    PartPlaceholders(c4); PartPlaceholders(c5); PartPlaceholders(c6);
    BaseHoldsNoPlaceholder();
    var t1 := Base + TextPart(c1);
    var t2 := t1 + TextPart(c2);
    var t3 := t2 + TextPart(c3);
    var t4 := t3 + TextPart(c4);
    var t5 := t4 + TextPart(c5);
    PlaceholdersAppend(Base, TextPart(c1));
    PlaceholdersAppend(t1, TextPart(c2));
    PlaceholdersAppend(t2, TextPart(c3));
    PlaceholdersAppend(t3, TextPart(c4));
    PlaceholdersAppend(t4, TextPart(c5));
    PlaceholdersAppend(t5, TextPart(c6));
  }

  // ----- how SQLite evaluates the clauses -----

  /** SQLite's `LIKE` without ESCAPE: `%` matches any run of characters, `_`
      any one character, and other characters match ignoring ASCII case. */
  function LikeMatch(s: string, p: string): (r: bool)
    ensures NoWildcards(p) ==> (r <==> Lower(s) == Lower(p))
    decreases |s| + |p|
  {
    if p == [] then s == []
    else if p[0] == '%' then LikeMatch(s, p[1..]) || (s != [] && LikeMatch(s[1..], p))
    else if s == [] then false
    else
      LowerStep(s, p);
      assert NoWildcards(p) ==> NoWildcards(p[1..]);
      (p[0] == '_' || LowerChar(s[0]) == LowerChar(p[0])) && LikeMatch(s[1..], p[1..])
  }

  /** Lower-cased texts are equal exactly when their first characters and
      their rests are. */
  lemma LowerStep(a: string, b: string)
    requires a != [] && b != []
    ensures Lower(a) == Lower(b) <==>
      LowerChar(a[0]) == LowerChar(b[0]) && Lower(a[1..]) == Lower(b[1..])
  {
    if |a| == |b| {
      LowerCons(a, b);
    }
  }

  /** A filter value with no `LIKE` wildcard in it. */
  predicate NoWildcards(x: string) {
    forall i :: 0 <= i < |x| ==> x[i] != '%' && x[i] != '_'
  }

  lemma {:induction false} PercentMatchesAll(s: string)
    ensures LikeMatch(s, "%")
    decreases |s|
  {
    assert "%"[1..] == "";
    if s != [] {
      PercentMatchesAll(s[1..]);
    }
  }

  lemma LowerCons(a: string, b: string)
    requires |a| == |b| > 0
    ensures Lower(a) == Lower(b) <==>
      LowerChar(a[0]) == LowerChar(b[0]) && Lower(a[1..]) == Lower(b[1..])
  {
    if LowerChar(a[0]) == LowerChar(b[0]) && Lower(a[1..]) == Lower(b[1..]) {
      forall i | 0 <= i < |a| ensures Lower(a)[i] == Lower(b)[i] {
        if i > 0 {
          assert Lower(a[1..])[i - 1] == Lower(b[1..])[i - 1];
        }
      }
    }
    if Lower(a) == Lower(b) {
      assert Lower(a)[0] == Lower(b)[0];
      forall i | 0 <= i < |a| - 1 ensures Lower(a[1..])[i] == Lower(b[1..])[i] {
        assert Lower(a)[i + 1] == Lower(b)[i + 1];
      }
    }
  }

  /** A pattern that starts with plain characters matches exactly when the
      text starts with them, ignoring case, and the rest matches the rest. */
  lemma {:induction false} LiteralPrefix(s: string, x: string, rest: string)
    requires NoWildcards(x)
    ensures LikeMatch(s, x + rest) <==>
      |x| <= |s| && Lower(s[..|x|]) == Lower(x) && LikeMatch(s[|x|..], rest)
    decreases |x|
  {
    if x == [] {
      assert x + rest == rest && s[..0] == [] && s[0..] == s;
    } else {
      var p := x + rest;
      assert p[0] == x[0] && p[1..] == x[1..] + rest;
      if s != [] {
        LiteralPrefix(s[1..], x[1..], rest);
        if |x| <= |s| {
          LowerCons(s[..|x|], x);
          assert s[..|x|][1..] == s[1..][..|x| - 1];
          assert s[1..][|x| - 1..] == s[|x|..];
        }
      }
    }
  }

  /** A pattern that starts with `%` matches when its rest matches some
      suffix of the text. */
  lemma {:induction false} PercentPrefix(s: string, q: string)
    ensures LikeMatch(s, "%" + q) <==> exists i :: 0 <= i <= |s| && LikeMatch(s[i..], q)
    decreases |s|
  {
    var p := "%" + q;
    assert p[0] == '%' && p[1..] == q;
    if s == [] {
      assert LikeMatch(s, p) <==> LikeMatch(s, q);
      assert s[0..] == s;
    } else {
      PercentPrefix(s[1..], q);
      assert forall j :: 0 <= j <= |s| - 1 ==> s[1..][j..] == s[j + 1..];
      if exists i :: 0 <= i <= |s| && LikeMatch(s[i..], q) {
        var i :| 0 <= i <= |s| && LikeMatch(s[i..], q);
        if i == 0 {
          assert s[0..] == s;
        } else {
          assert LikeMatch(s[1..][i - 1..], q);
        }
      }
      if LikeMatch(s, q) {
        assert s[0..] == s;
      }
    }
  }

  lemma LikeFindsOccurrence(v: string, x: string)
    requires NoWildcards(x) && LikeMatch(v, "%" + x + "%")
    ensures Contains(Lower(v), Lower(x))
  {
    assert "%" + x + "%" == "%" + (x + "%");
    PercentPrefix(v, x + "%");
    var i :| 0 <= i <= |v| && LikeMatch(v[i..], x + "%");
    SuffixMatchIsOccurrence(v, x, i);
    assert OccursAt(Lower(v), Lower(x), i);
  }

  /** A suffix of the text that matches `x%` starts with `x`, ignoring case. */
  lemma SuffixMatchIsOccurrence(v: string, x: string, i: int)
    requires NoWildcards(x) && 0 <= i <= |v| && LikeMatch(v[i..], x + "%")
    ensures OccursAt(Lower(v), Lower(x), i)
  {
    LiteralPrefix(v[i..], x, "%");
    assert v[i..][..|x|] == v[i..i + |x|];
    LowerSlice(v, i, i + |x|);
  }

  lemma OccurrenceIsLiked(v: string, x: string)
    requires NoWildcards(x) && Contains(Lower(v), Lower(x))
    ensures LikeMatch(v, "%" + x + "%")
  {
    var i :| OccursAt(Lower(v), Lower(x), i);
    LowerSlice(v, i, i + |x|);
    assert v[i..][..|x|] == v[i..i + |x|];
    assert v[i..][|x|..] == v[i + |x|..];
    PercentMatchesAll(v[i + |x|..]);
    LiteralPrefix(v[i..], x, "%");
    assert "%" + x + "%" == "%" + (x + "%");
    PercentPrefix(v, x + "%");
  }

  /** `column LIKE '%x%'` for a value `x` without wildcards holds exactly when
      `x` occurs in the column, ignoring ASCII case. */
  lemma LikeIsContainment(v: string, x: string)
    requires NoWildcards(x)
    ensures LikeMatch(v, "%" + x + "%") <==> Contains(Lower(v), Lower(x))
  {
    if LikeMatch(v, "%" + x + "%") {
      LikeFindsOccurrence(v, x);
    }
    if Contains(Lower(v), Lower(x)) {
      OccurrenceIsLiked(v, x);
    }
  }

  lemma LowerSlice(s: string, i: int, j: int)
    requires 0 <= i <= j <= |s|
    ensures Lower(s[i..j]) == Lower(s)[i..j]
  {
    assert forall k :: 0 <= k < j - i ==> Lower(s[i..j])[k] == Lower(s)[i + k];
  }

  /** SQLite's reading of one clause against a row. `cast` is SQLite's
      CAST(text AS REAL); a NULL cell makes every comparison false. */
  predicate Holds(c: Condition, s: Scholarship, cast: string -> real) {
    match c
    case FieldLike(p) => s.fieldOfStudy.Some? && LikeMatch(s.fieldOfStudy.value, p)
    case CategoryLike(p) => s.category.Some? && LikeMatch(s.category.value, p)
    case CgpaAtMost(b) => s.minCgpa.Some? && cast(s.minCgpa.value) <= b
    case MinorityIs(v) => s.minorityPreference == Some(v)
    case DisabilityIs(v) => s.disabilityPreference == Some(v)
    case ArmyIs(v) => s.armyPreference == Some(v)
  }

  /** The row the filters ask for, stated directly: each filter that is set
      constrains its column, and the constraints are conjoined. */
  predicate Matches(f: Filters, s: Scholarship, cast: string -> real) {
    && (TextSet(f.field) ==>
          s.fieldOfStudy.Some? && Contains(Lower(s.fieldOfStudy.value), Lower(f.field.value)))
    && (TextSet(f.category) ==>
          s.category.Some? && Contains(Lower(s.category.value), Lower(f.category.value)))
    && (NumSet(f.minCgpa) ==> s.minCgpa.Some? && cast(s.minCgpa.value) <= f.minCgpa.value)
    && (TextSet(f.minority) ==> s.minorityPreference == f.minority)
    && (TextSet(f.disability) ==> s.disabilityPreference == f.disability)
    && (TextSet(f.army) ==> s.armyPreference == f.army)
  }

  /** The field and category values carry no `LIKE` wildcard. */
  predicate PlainFilters(f: Filters) {
    NoWildcards(f.field.GetOr("")) && NoWildcards(f.category.GetOr(""))
  }

  /** Every clause of `cs` holds of the row. */
  predicate AllHold(cs: seq<Condition>, s: Scholarship, cast: string -> real) {
    forall c :: c in cs ==> Holds(c, s, cast)
  }

  lemma AllHoldAppend(a: seq<Condition>, b: seq<Condition>, s: Scholarship, cast: string -> real)
    ensures AllHold(a + b, s, cast) <==> AllHold(a, s, cast) && AllHold(b, s, cast)
  {
  }

  lemma AllHoldPart(c: Option<Condition>, s: Scholarship, cast: string -> real)
    ensures AllHold(ClausePart(c), s, cast) <==> (c.Some? ==> Holds(c.value, s, cast))
  {
    if c.Some? {
      assert c.value in ClausePart(c);
    }
  }

  lemma FieldPartMeans(f: Filters, s: Scholarship, cast: string -> real)
    requires PlainFilters(f)
    ensures AllHold(ClausePart(FieldClause(f)), s, cast) <==>
      (TextSet(f.field) ==> s.fieldOfStudy.Some? && Contains(Lower(s.fieldOfStudy.value), Lower(f.field.value)))
  {
    AllHoldPart(FieldClause(f), s, cast);
    if TextSet(f.field) {
      LikeIsContainment(s.fieldOfStudy.GetOr(""), f.field.value);
    }
  }

  lemma CategoryPartMeans(f: Filters, s: Scholarship, cast: string -> real)
    requires PlainFilters(f)
    ensures AllHold(ClausePart(CategoryClause(f)), s, cast) <==>
      (TextSet(f.category) ==> s.category.Some? && Contains(Lower(s.category.value), Lower(f.category.value)))
  {
    AllHoldPart(CategoryClause(f), s, cast);
    if TextSet(f.category) {
      LikeIsContainment(s.category.GetOr(""), f.category.value);
    }
  }

  lemma ExactPartsMean(f: Filters, s: Scholarship, cast: string -> real)
    ensures AllHold(ClausePart(CgpaClause(f)), s, cast) <==>
      (NumSet(f.minCgpa) ==> s.minCgpa.Some? && cast(s.minCgpa.value) <= f.minCgpa.value)
    ensures AllHold(ClausePart(MinorityClause(f)), s, cast) <==>
      (TextSet(f.minority) ==> s.minorityPreference == f.minority)
    ensures AllHold(ClausePart(DisabilityClause(f)), s, cast) <==>
      (TextSet(f.disability) ==> s.disabilityPreference == f.disability)
    ensures AllHold(ClausePart(ArmyClause(f)), s, cast) <==>
      (TextSet(f.army) ==> s.armyPreference == f.army)
  {
    AllHoldPart(CgpaClause(f), s, cast);
    AllHoldPart(MinorityClause(f), s, cast);
    AllHoldPart(DisabilityClause(f), s, cast);
    AllHoldPart(ArmyClause(f), s, cast);
  }

  /** A row satisfies every generated clause exactly when it matches the
      filters: the clauses are ANDed, LIKE '%x%' is containment ignoring case,
      and the preferences compare exactly. */
  lemma ClausesMeanFilters(f: Filters, s: Scholarship, cast: string -> real)
    requires PlainFilters(f)
    ensures AllHold(Conditions(f), s, cast) <==> Matches(f, s, cast)
  {
    var c1 := ClausePart(FieldClause(f));
    var c2 := c1 + ClausePart(CategoryClause(f));
    var c3 := c2 + ClausePart(CgpaClause(f));
    var c4 := c3 + ClausePart(MinorityClause(f));
    var c5 := c4 + ClausePart(DisabilityClause(f));
    AllHoldAppend(c1, ClausePart(CategoryClause(f)), s, cast);
    AllHoldAppend(c2, ClausePart(CgpaClause(f)), s, cast);
    AllHoldAppend(c3, ClausePart(MinorityClause(f)), s, cast);
    AllHoldAppend(c4, ClausePart(DisabilityClause(f)), s, cast);
    AllHoldAppend(c5, ClausePart(ArmyClause(f)), s, cast);
    FieldPartMeans(f, s, cast);
    CategoryPartMeans(f, s, cast);
    ExactPartsMean(f, s, cast);
  }
}
