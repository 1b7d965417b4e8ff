# Scholarship matching and catalog store — a Dafny model

This project models the two parts of the scholarship recommender that carry
logic.

- **The matching engine** (`backend/app.py`):
  - A student profile is built from a request mapping. It lower-cases the
    text fields, defaults the numbers and parses the three flags.
  - Each catalog record gets a score under seven additive rules.
  - The records that score above zero are ranked by a stable descending sort
    and cut to the top 5 (the `/submit` reply) or the top 10 (the PDF report).
- **The catalog store** (`scraper/scraper.py`):
  - A SQLite table of scraped scholarships. `UNIQUE(title, source)` holds on
    it, and `INSERT OR REPLACE` writes into it.
  - It is exported to a nine-column CSV snapshot.
  - It can be filtered by optional criteria: `LIKE` substring filters, a
    `CAST … AS REAL` bound and exact-match preference filters.

Modules:

| module | file | models |
|---|---|---|
| `Wrappers` | wrappers.dfy | `Option` |
| `PyValues` | pyvalues.dfy | the Python values a JSON request can carry, truthiness, `int()` truncation |
| `Text` | text.dfy | ASCII `str.lower`, `str.find` and `in` on strings |
| `Student` | student.dfy | `Student.__init__` and `_convert_to_bool` |
| `Scoring` | scoring.dfy | `Student.match_score`, rule by rule |
| `Ranking` | ranking.dfy | Python's stable `list.sort(key=…, reverse=True)`, as an insertion sort |
| `Recommend` | recommend.dfy | the ranking in `submit` and `send_pdf` |
| `Records` | records.dfy | the `Scholarship` dataclass and its 13 insert parameters |
| `Query` | query.dfy | the SQL text and parameters `query_scholarships_by_criteria` builds, and what its `WHERE` clause means |
| `Database` | database.dfy | the `scholarships` table, `save_to_database`, `export_to_csv`, the query's result dictionaries, and a `Store` class whose methods update the table in place |
| `Catalog` | catalog.dfy | what the matching engine sees when it reads the exported CSV |

The environment becomes parameters:
- Number parsing (`float(str)`, `int(str)`) is a `Parsers` value. Each of
  its functions returns `None` where Python raises.
- SQLite's `CAST(text AS REAL)` is a function `cast: string -> real`.

## Model

| member | source | states |
|---|---|---|
| Student.BuildProfile | backend/app.py:18-36 | The constructor succeeds exactly when every conversion succeeds. Each text field is the request's value, with "" as default. Category and field of study are that value lower-cased. Each number is the `int()` or `float()` of the request's value, with 0 as default. Each flag is `_convert_to_bool` of the request's value, with false as default. |
| Student.ProfileRoundTrip | backend/app.py:18-36 | A request that carries every field of a profile, with lower-case category and field, builds exactly that profile. |
| Student.ConvertToBool | backend/app.py:38-43 | A boolean passes through. A string is true exactly when it is "true" or "yes" ignoring case, or "1". Any other value is true exactly when Python finds it truthy. |
| Student.FlagTokens | backend/app.py:41-42 | Membership of the lower-cased string in ["true", "1", "yes"] is the same as comparing it with those spellings ignoring case. |
| Student.TrueFlagSpellings | backend/app.py:41-43 | "TRUE", "Yes" and "1" convert to true, and so do a non-zero number and a non-empty container. |
| Student.FalseFlagSpellings | backend/app.py:41-43 | "no", "0", "y" and the empty string convert to false, and so do zero, None and an empty container. |
| Scoring.GpaPoints | backend/app.py:47-52 | 3 points exactly when the cgpa reaches the parsed minimum GPA, whose default is 0. A minimum that does not parse earns 0 points. |
| Scoring.IncomePoints | backend/app.py:54-59 | 3 points exactly when the family income is at most the parsed ceiling, whose default is 10^9. A ceiling that does not parse earns 0 points. |
| Scoring.FieldPoints | backend/app.py:61-63 | 2 points exactly when the lower-cased field is the student's field or "any". |
| Scoring.CategoryPoints | backend/app.py:65-67 | 1 point exactly when the student's category occurs in the lower-cased special categories. |
| Scoring.KeywordPoints | backend/app.py:69-74 | 1 point exactly when the flag is set and the keyword occurs in the special categories. |
| Scoring.Score | backend/app.py:45-76 | The score always lies between 0 and 12. |
| Scoring.MatchScore | backend/app.py:45-76 | The step-by-step accumulation equals the sum of the seven rules. |
| Scoring.EligibleFieldMatchScoresAtLeastEight | backend/app.py:47-63 | A record scores at least 8 when its minimum GPA and income ceiling parse and are met and its field matches. |
| Scoring.NoFlagsNoKeywordPoints | backend/app.py:69-74 | A student with no flags scores only the first four rules, so at most 9. |
| Scoring.EmptyCategoryAlwaysEarnsPoint | backend/app.py:65-67 | An empty student category earns the category point against every record. |
| Scoring.FieldRuleIgnoresCase | backend/app.py:61-63 | The field rule compares the record's field without regard to case. |
| Scoring.AllKeywordsFound | backend/app.py:69-74 | The categories text "minority disability army" contains each of the three keywords the flag rules search. |
| Scoring.MaxScoreIsReached | backend/app.py:45-76 | Some profile and record reach the maximum of 12. |
| Text.Find | backend/app.py:69-73 | `find` returns -1 exactly when the keyword does not occur. Otherwise it returns the first index where it occurs. |
| Text.LowerIdempotent | backend/app.py:24-25 | Lower-casing gives lower-case text and is idempotent. |
| Text.EmptyAlwaysContained | backend/app.py:66 | The empty string is contained in every string, at index 0. |
| Ranking.SortDesc | backend/app.py:158 | The sort returns a permutation of its input: the same length and the same multiset of elements. |
| Ranking.SortDescMembers | backend/app.py:158 | An element is in the sorted list exactly when it is in the input. |
| Ranking.SortDescIsSorted | backend/app.py:158 | The sort's output is in non-increasing key order. |
| Ranking.SortDescIsStable | backend/app.py:158 | Among equal keys the sort keeps the input order. |
| Ranking.SortDescCharacterised | backend/app.py:158 | Any ordering that is non-increasing and stable is the sort's output. |
| Ranking.SortedAndStableIsUnique | backend/app.py:158 | Two orderings that are both non-increasing and stable over the same input are equal. |
| Ranking.SortDescMaps | backend/app.py:177-178 | Sorting commutes with mapping when the key is preserved. |
| Recommend.Positive | backend/app.py:151-156 | No more entries than catalog records. Each kept record comes from the catalog, with a positive score equal to its score. |
| Recommend.PositiveKeepsAllScoring | backend/app.py:151-156 | Every catalog record with a positive score is kept, annotated with that score. |
| Recommend.PositiveAppend | backend/app.py:151-156 | The filter keeps catalog order: filtering two catalogs in a row is filtering each and concatenating the results. |
| Recommend.Top | backend/app.py:151-159 | At most `limit` entries, each one of the positive records. |
| Recommend.Rank | backend/app.py:151-159 | The filtering loop followed by sort and slice yields the specified top list. |
| Recommend.TopIsRanked | backend/app.py:151-159 | The result has min(limit, number of positive records) entries. Each is a catalog record with its positive score, and the scores are non-increasing. |
| Recommend.TopKeepsCatalogOrder | backend/app.py:158-159 | Records with equal scores appear in catalog order. |
| Recommend.TopIsBest | backend/app.py:158-159 | The result is the prefix of the sorted positive records. |
| Recommend.NothingScoresNothingRanked | backend/app.py:151-159 | When no record scores above zero, the result is empty. |
| Recommend.Matched | backend/app.py:177 | A record is matched exactly when it is in the catalog and scores above zero. |
| Recommend.PdfTop | backend/app.py:177-179 | At most `limit` records, each a catalog record that scores above zero. |
| Recommend.MatchedIsPositiveRecords | backend/app.py:177 | The PDF route keeps the same records as the submit route. |
| Recommend.PdfSortAgrees | backend/app.py:178 | Sorting by the recomputed score orders them as submit does. |
| Recommend.PdfAgreesWithSubmit | backend/app.py:177-179 | The PDF list is the submit list at the same limit, stripped of scores. |
| Recommend.ScenarioProfile | backend/app.py:18-36 | The example request builds a profile with cgpa 8.5, field "engineering" and the minority flag. |
| Recommend.ScenarioScoreA | backend/app.py:45-76 | Record A scores 10. |
| Recommend.ScenarioScoreB | backend/app.py:45-76 | Record B scores 4. |
| Recommend.ScenarioRanking | backend/app.py:151-159 | The example request ranks [A with 10, B with 4]. |
| Records.Values | scraper/scraper.py:85-91 | A record binds 13 parameters, with the title first and the source twelfth. |
| Records.BindingIsFaithful | scraper/scraper.py:29-42 | Binding the dataclass's field values in order puts each field into its own column, and reads back as the same record. |
| Records.ValuesOfBind | scraper/scraper.py:85-91 | Thirteen parameters round-trip through a record. |
| Database.Without | scraper/scraper.py:85-86 | A row is kept by the replace exactly when it is an original row that does not collide with the new record. |
| Database.Upsert | scraper/scraper.py:85-91 | A NULL title leaves the table unchanged. Otherwise the counter grows by one, the new record is the last row with the old counter as its id, and the rows are the new one plus exactly the old rows that do not collide with it. |
| Database.SaveAll | scraper/scraper.py:80-95 | After a batch the counter has grown by the number of accepted records, and every row is an old row or a record of the batch. |
| Database.SaveAllCount | scraper/scraper.py:80-95 | After a batch the table has grown by one row for each accepted record whose key is new, or whose source is NULL. |
| Database.WithoutCount | scraper/scraper.py:85-86 | In a valid table the replace removes one row when the key is present and none otherwise. |
| Database.UpsertKeepsValid | scraper/scraper.py:58-91 | One insert-or-replace keeps the table valid: titles not NULL, ids increasing, no two rows with the same (title, source). |
| Database.SaveAllKeepsValid | scraper/scraper.py:80-95 | A whole batch keeps the table valid. |
| Database.UpsertLookup | scraper/scraper.py:85-91 | After the upsert, its own key finds the new record, and every other key finds what it found before. |
| Database.SaveAllLookup | scraper/scraper.py:80-95 | After a batch, a key finds its last record in the batch (last write wins), or its old row when the batch does not mention it. |
| Database.UpsertCount | scraper/scraper.py:73-91 | The row count grows by one for a new key or a NULL source, and stays the same when a row is replaced. |
| Database.Accepted | scraper/scraper.py:83-93 | Every record is either accepted or rejected, and the accepted ones have a title. |
| Database.RejectedLeaveNoTrace | scraper/scraper.py:92-93 | A batch with its rejected records removed leaves the same table. |
| Database.RejectedOf | scraper/scraper.py:92-93 | The skipped records are batch records with a NULL title. |
| Database.ExportRow | scraper/scraper.py:108-109 | An exported line has as many fields as the header, and each field is the matching column's value, with NULL written as "". |
| Database.ExportLines | scraper/scraper.py:103-109 | The export is the header followed by one line per row, in table order. |
| Database.ExportRowIsHeaderColumns | scraper/scraper.py:105-109 | An exported line is the nine header columns from title to army preference, in order, with NULL written as the empty field. |
| Database.ExportOmitsProvenance | scraper/scraper.py:109 | Two rows that differ only in id, URLs, source or date export the same line. |
| Database.SavedRecordIsExported | scraper/scraper.py:80-111 | The last record saved under a key is a row of the table the export reads. |
| Database.Select | scraper/scraper.py:138-139 | A selected row is one that is in the table and satisfies every clause. |
| Database.DictHoldsColumns | scraper/scraper.py:140-142 | Each result dictionary maps "id" and every column name to that row's value. |
| Database.ColumnsDistinct | scraper/scraper.py:140 | The fourteen column names are distinct, so no value in a dictionary is shadowed. |
| Database.Store.constructor | scraper/scraper.py:54-77 | The new table is empty, its AUTOINCREMENT counter is 1, and it is valid. |
| Database.Store.InsertOrReplace | scraper/scraper.py:84-93 | The table becomes the upsert of the old one. The call reports failure exactly when the title is NULL, and it keeps the table valid. |
| Database.Store.SaveToDatabase | scraper/scraper.py:80-95 | The loop leaves the batch's fold of upserts and returns the skipped records. It keeps the table valid. |
| Database.Store.QueryByCriteria | scraper/scraper.py:114-142 | The result is the selected rows, as dictionaries in table order. For filters without wildcards, a row is selected exactly when it satisfies every given filter. |
| Database.Store.ExportToCsv | scraper/scraper.py:98-111 | The lines are the header followed by one line per row, each nine fields wide. The count is the number of rows. |
| Query.AddIfSet | scraper/scraper.py:120-137 | Each optional filter appends its clause text and its parameter, or nothing. |
| Query.BuildQuery | scraper/scraper.py:118-137 | The text is the base select followed by the clause of each set filter, in the order the code tests them. The parameters are those filters' values, in the same order. |
| Query.PlaceholdersMatchParams | scraper/scraper.py:118-137 | The query text holds exactly as many `?` placeholders as there are parameters. |
| Query.ParamsFollowClauses | scraper/scraper.py:118-137 | There is one parameter per clause, in clause order, and each parameter belongs to its clause. |
| Query.TextIgnoresValues | scraper/scraper.py:118-137 | The SQL text depends only on which filters are truthy, never on their values. |
| Query.NoFilterNoClause | scraper/scraper.py:118-119 | With no truthy filter the query is the bare select, with no parameters. |
| Query.LikeMatch | scraper/scraper.py:121-125 | For a pattern without wildcards, `LIKE` is equality ignoring ASCII case. |
| Query.LikeIsContainment | scraper/scraper.py:121-125 | For a value without wildcards, `LIKE '%x%'` holds exactly when x occurs in the column, ignoring ASCII case. |
| Query.PercentMatchesAll | scraper/scraper.py:122 | `LIKE '%'` matches every text. |
| Query.ExactPartsMean | scraper/scraper.py:126-137 | The cgpa clause bounds the cast min_cgpa, and a NULL min_cgpa fails it. The preference clauses are exact matches, where NULL fails. |
| Query.ClausesMeanFilters | scraper/scraper.py:118-139 | The clause list holds exactly when the record satisfies every given filter. |
| Catalog.Entry | backend/app.py:91 | A CSV line read back as a dictionary has exactly the header's keys, and each header column maps to the line's field in that position. |
| Catalog.HeaderLacksScorerKeys | scraper/scraper.py:105-107 | The export header has no "Minimum GPA", "Maximum Family Income" or "Special Categories" column. Its third column is "Field of Study". |
| Catalog.EntryKeys | scraper/scraper.py:105-109 | A CSV line read back as a dictionary has the field of study under the scorer's key, and none of the other three keys. |
| Catalog.ExportedRecordScore | backend/app.py:45-76 | An exported record's score is: 3 when cgpa ≥ 0, plus 3 when family income ≤ 10^9, plus 2 for the field rule, plus 1 when the student's category is empty. |

## Left out

- File and network I/O are parameters or left out: reading the catalog CSV, writing the student CSV (`save_student`), opening the database, the CSV file itself, and logging.
- The HTTP layer is left out: routes, JSON decoding, and the 400 errors for a missing name, email or address (backend/app.py:144-145, 172-173).
- PDF generation and mail delivery are left out.
- `load_scholarships` is left out. The catalog reaches the ranking as a sequence of string dictionaries.
- The scraper units and `MasterScraper` are left out. The scraper's `run_scraper.py` is not part of this model.
- `setup_database` is modelled only as the empty, valid table of `Database.Store.constructor`.
- Number parsing is abstract: `float()` and `int()` of a string are the `Parsers` functions. NaN and infinity are not modelled, because `real` has neither.
- `Text.Lower` maps only ASCII letters. Python's full Unicode lower-casing is not modelled.
- `Database.Store.SaveToDatabase`: the connection, the transaction and the commit are left out. Every statement is applied in order to one in-memory table.
- `Database.Select`: rows are returned in rowid order, the order SQLite gives a table scan without `ORDER BY`. This order is assumed, not a SQL guarantee.
- `Database.Store.ExportToCsv`: produces the CSV cells, not the quoted text. Quoting is assumed to round-trip through `csv.reader`.
- `Catalog.Entry`: assumes the CSV reader sees exactly nine cells per line.
- `Database.Store.QueryByCriteria`: the meaning is proved only for filter values without `%` or `_`. Those characters act as wildcards in the `LIKE` pattern, which the model's `LikeMatch` captures but no lemma characterises.
- `Query.BuildQuery`: `min_cgpa` is a number. A string `min_cgpa` would make SQLite compare text with a real, and that is not modelled. Preference filters are strings.
- Consequences of the code that the model keeps as written:
  - All seven rules can fire together, including all three flag rules, so the maximum score is 12 (`Scoring.MaxScoreIsReached`).
  - Take a request with cgpa 8.5, field "engineering", family income 50000, the minority flag and an empty category. Record A has the category text "minority", and the empty category is contained in every string, so A scores 3+3+2+1+1 = 10. Record B states no income ceiling, so it earns the 3 income points under the 10^9 default, plus the category point, for 4. The `/submit` ranking is [A, B] (`Recommend.ScenarioRanking`).
  - A stored `min_cgpa` that is not numeric is cast by SQLite (to 0.0) and compared like any other value. The model keeps `cast` abstract and does not exclude such rows.
  - `save_to_database` logs "Duplicate entry" only when SQLite raises. Under `INSERT OR REPLACE` a duplicate (title, source) never raises: it replaces the row. The only error left is a NULL title, so the message reads "Duplicate entry: None".
  - The exported CSV names its columns "Min CGPA", "Max Income" and "Category". The scorer reads "Minimum GPA", "Maximum Family Income" and "Special Categories". Only "Field of Study" is shared, so a record read back from the export is scored without its GPA, income and category requirements (`Catalog.ExportedRecordScore`).
