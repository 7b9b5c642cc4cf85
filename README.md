# Job-board ingestion and report queries, in Dafny

This project models the three core classes of a small Python program. It
harvests employers and their vacancies from the HeadHunter job-board API,
stores them in two PostgreSQL tables, and answers a handful of report
queries over those tables.

- `api.dfy` (module `Api`) models class `HHAPI`. The HTTP session becomes
  oracles: a lookup function gives the answer to each employer request, and
  a page feed gives the answers to one listing's page requests in the order
  they are made. A failed request (`requests.RequestException`) is an
  explicit answer.
  - `get_vacancies_by_employer` is a `while true` loop. It is proved to
    return `Harvest(feed, 0)`, a recursive definition of the pagination rule.
  - Lemmas then say what that function means: the items of every page
    requested, in request order, with the loop stopping after the last page
    or on the first failure.
  - `get_employers` and `get_all_vacancies` are loops over the id list,
    proved against what each lookup returned.
- `database.dfy` (module `Database`) models class `DatabaseManager`.
  - It is a Dafny `class` whose fields the methods update in place:
    - the database catalog of the server;
    - whether the tables exist;
    - the `employers` and `vacancies` tables, each a map from primary key to
      the other columns.
  - A write ends in one of three ways: it commits, it rolls back on a
    database error, or it raises a Python exception before any SQL runs.
  - The committed state is stated as a pure upsert function on the old
    tables. The constraints the schema imposes are stated outright:
    - INTEGER range;
    - `VARCHAR(n)` truncation and failure;
    - NOT NULL;
    - the foreign key, checked only when the vacancy row is new, since the
      ON CONFLICT update leaves `employer_id`.
  - Every committed write is proved to preserve the schema invariant.
- `db_manager.dfy` (module `DbManager`) models class `DBManager`.
  - Each report runs in two stages, as the program does:
    - the SQL statement is a pure function from the tables to result rows
      (join, WHERE, ORDER BY, LIMIT, GROUP BY, AVG);
    - the Python loop over `cursor.fetchall()` is a method that turns each
      row into its dictionary.
  - `DBManager` inherits from `DatabaseManager`; Dafny has no class
    inheritance. So each query method takes `db: Option<Tables>`, which is
    `m.Snapshot()` of a `DatabaseManager` m. `None` stands for the missing
    database or tables that make the program return `[]` (or `0.0`).
- `text.dfy` (module `Text`) holds the text operations the queries use:
  - `str()` of an int, with its parse-back;
  - lower-casing;
  - SQL `LIKE` with its default escape character `\`;
  - text ORDER BY.
- `sorting.dfy` (module `Sorting`) holds the relational building blocks: a
  row filter, `LIMIT`, an ORDER BY proved ordered and a permutation of its
  input, and a key scan.
- `payloads.dfy` (module `Payloads`) describes the JSON objects the API
  returns. A key can be absent, `null` or present, which matters because the
  program reads keys with `[]`, `.get` and `.get(k, default)`.

What the code does not do, so neither does the model:
- `get_employers` makes one direct request per id and has no fallback text
  search.
- `get_vacancies_by_employer` stops only when `page >= pages - 1` or a
  request fails. It does not stop on an empty page and has no page ceiling.
  In the model every feed is finite, and a page past its end fails.
- There are no delays between requests.

In `src/api.py`, `get_all_vacancies` keeps the result of the last listing
for an id that occurs twice in its input.

## Model

| member | source | states |
|---|---|---|
| Api.GetVacanciesByEmployer | src/api.py:49-82 | the loop returns exactly the pagination function `Harvest(feed, 0)`; it requests pages 0, 1, 2, … in order, as many as `RequestCount` |
| Api.HarvestIsRequestedItems | src/api.py:53-76 | the result is the concatenation, in request order, of the items of every page requested; a failed request or an absent `items` adds nothing |
| Api.OnlyTheLastRequestStops | src/api.py:72-76 | every page request but the last was answered by a page that let the loop go on (`page < pages - 1`) |
| Api.LastRequestStops | src/api.py:72-80 | the last request was answered by a failure or by a page with `page >= pages - 1`; with `OnlyTheLastRequestStops`, exactly the last request stops the loop |
| Api.UniformPageCount | src/api.py:72-74 | when every page reports the same total P, exactly max(1, P) pages are requested and their items are returned in page order; an absent `pages` counts as 0 |
| Api.FailureKeepsEarlierPages | src/api.py:78-80 | a failure on page k after k pages that let the loop go on ends the loop with the items of pages 0..k-1 kept, after k+1 requests |
| Api.GetEmployers | src/api.py:26-37 | the loop returns `Resolved(lookup, ids, 0)`: the record of every lookup that succeeded, in the order of the ids, failed lookups skipped |
| Api.ResolvedSpec | src/api.py:28-35 | each returned record is what the lookup of one of the ids returned, every successful lookup's record is returned, and there are never more records than ids |
| Api.ResolvedCount | src/api.py:28-35 | when every lookup succeeds there is one record per id; when every lookup fails the list is empty |
| Api.Harvest | src/api.py:53-80 | the pagination rule as a function of the page answers: every item it returns comes from a page answered at or after the starting page |
| Api.RequestCount | src/api.py:53-80 | at least one request is made, and never more than one past the end of the feed |
| Api.Resolved | src/api.py:26-37 | the records of the successful employer lookups from a position on, never more than the ids left |
| Api.GetAllVacancies | src/api.py:94-101 | the keys are exactly the given ids; each id maps to the vacancies harvested by its last listing in the id list |
| Database.Varchar | src/database.py:94-95 | a value stored in a VARCHAR(n) column is the given string when it fits, and otherwise that string cut to exactly n characters, only spaces being cut off |
| Database.EmployerArguments | src/database.py:147-153 | the parameter tuple of `insert_employer`: it cannot be built exactly when `id` or `name` is absent; an absent `open_vacancies` becomes 0 |
| Database.UpsertEmployer | src/database.py:139-146 | `INSERT … ON CONFLICT (employer_id) DO UPDATE`: the record's id gets the new row, every other employer row and the vacancies are kept |
| Database.ExtractSalary | src/database.py:175-183 | the salary columns of a vacancy; their meaning is stated by `Database.SalaryExtraction` |
| Database.VacancyArguments | src/database.py:200-211 | the parameter tuple of `insert_vacancy`: it cannot be built exactly when `id`, `employer`, its `id` or `name` is absent, or `snippet` is null; the salary columns are `ExtractSalary` of the salary |
| Database.UpsertVacancy | src/database.py:185-199 | `INSERT … ON CONFLICT (vacancy_id) DO UPDATE`: the item's id gets the new row, whose employer id is the old row's when there was one; every other vacancy row and the employers are kept |
| Database.SalaryExtraction | src/database.py:175-183 | the salary columns are the salary object's `from`, `to` and `currency`, read with `.get`, or all null when there is no salary object |
| Database.EmployerUpsertStoresRecord | src/database.py:139-153 | a committed employer write leaves one row for the record's id, holding its name, url, description and `open_vacancies` (0 when absent); every other row and the vacancies are unchanged |
| Database.EmployerLastWriteWins | src/database.py:139-146 | two committed writes of the same employer id leave what the second alone would |
| Database.EmployerUpsertIdempotent | src/database.py:139-146 | writing the same employer twice is writing it once |
| Database.EmployerRejected | src/database.py:147-153 | an absent `id` or `name` raises; a null one, or a name that does not fit VARCHAR(255), is refused by the table |
| Database.VacancyUpsertStoresRecord | src/database.py:185-211 | a committed vacancy write leaves one row for the item's id, holding the item's title, salary bounds, currency (cut to VARCHAR(10)), url, snippet texts and publication time; a new row takes the item's employer id and an existing row keeps its own; nothing else changes |
| Database.ConflictKeepsEmployer | src/database.py:191-199 | on conflict the proposed employer_id is ignored: two writes differing only there store the same tables |
| Database.ForeignKeyRejects | src/database.py:105 | a new vacancy whose employer has no row violates the foreign key and does not commit |
| Database.VacancyNotNullRejects | src/database.py:104-110 | a null vacancy id, title or url makes the write fail |
| Database.EmployerFirstThenVacancy | src/database.py:105 | once its employer is stored, a well-formed new vacancy of that employer passes the foreign key |
| Database.UpsertEmployerValid | src/database.py:91-99 | a committed employer write keeps every schema guarantee of both tables |
| Database.UpsertVacancyValid | src/database.py:102-115 | a committed vacancy write keeps every schema guarantee, the foreign key included |
| Database.DatabaseManager.constructor | src/database.py:10-12 | a manager for the configured database starts from the server's state: the tables that already exist, if any, which satisfy the schema invariant |
| Database.DatabaseManager.CreateDatabase | src/database.py:50-82 | creates the configured database exactly when the server lacks it; the database is then in the catalog; the tables are untouched |
| Database.DatabaseManager.CreateTables | src/database.py:84-126 | raises exactly when the database is missing; otherwise the tables exist afterwards, and existing rows are kept (IF NOT EXISTS) |
| Database.DatabaseManager.InsertEmployer | src/database.py:128-162 | raises iff the database is missing or `id`/`name` is absent; commits iff the tables exist and the row passes every constraint, the new state then being the upsert of the old; otherwise nothing changes |
| Database.DatabaseManager.InsertVacancy | src/database.py:164-220 | raises iff the database is missing or the parameter tuple cannot be built; commits iff the tables exist and the row passes the column constraints and the foreign key, the new state then being the vacancy upsert of the old; otherwise nothing changes |
| DbManager.Midpoint | src/db_manager.py:143 | the midpoint of a vacancy's bounds, null bounds read as 0; its meaning is stated by `DbManager.MidpointMeaning` |
| DbManager.SalaryRange | src/db_manager.py:152 | the range text of a row; `DbManager.BoundTextMeaning` states how each bound shows |
| DbManager.SalaryInfo | src/db_manager.py:71-77 | the salary text of a listing row; `DbManager.SalaryInfoNotStated` states when it is "не указана" |
| DbManager.AvgMidpoint | src/db_manager.py:106-110 | the SQL average of the midpoints of the vacancies with a bound; `DbManager.AvgMidpointNull`, `AvgMidpointWithin` and `AvgMidpointAttained` state its meaning |
| DbManager.GetAvgSalary | src/db_manager.py:95-120 | `get_avg_salary` before rounding; `DbManager.GetAvgSalaryMeaning` states its cases |
| DbManager.AllVacancyRows | src/db_manager.py:56-67 | the rows of the listing query; `DbManager.AllVacancyRowsSpec` states which rows and in what order |
| DbManager.HigherSalaryRows | src/db_manager.py:133-148 | the rows of the above-average query; `DbManager.HigherSalaryRowsSpec` states which rows and in what order |
| DbManager.KeywordRows | src/db_manager.py:183-195 | the rows of the keyword query; `DbManager.KeywordRowsSpec` states which rows and in what order |
| DbManager.TopRows | src/db_manager.py:237-251 | the rows of the top query, or an error for a negative limit; `DbManager.TopRowsPrefix` and `DbManager.TopRowsSpec` state them |
| DbManager.CountRows | src/db_manager.py:20-26 | the rows of the grouping query; `DbManager.CountRowsSpec`, `CountRowsDistinct` and `CountRowsSorted` state them |
| DbManager.JoinRows | src/db_manager.py:64-65 | the join holds a row for exactly the vacancies whose employer_id names an employer row, each once, with that employer's name |
| DbManager.TruncDiv2 | src/db_manager.py:143 | SQL integer division by 2 truncates toward zero |
| DbManager.MidpointMeaning | src/db_manager.py:143 | the midpoint lies between two ordered bounds; a single bound is halved; no bound gives 0 |
| DbManager.BoundTextMeaning | src/db_manager.py:73-74 | a bound shows as "не указано" exactly when it is NULL or 0; otherwise as digits that read back as the bound |
| DbManager.SalaryInfoNotStated | src/db_manager.py:71-77 | the salary text is "не указана" exactly when both bounds are falsy, whatever the currency |
| DbManager.AvgMidpointNull | src/db_manager.py:106-110 | the average is NULL exactly when no vacancy has a salary bound |
| DbManager.AvgMidpointWithin | src/db_manager.py:106-110 | the average lies within any bounds of the midpoints of the vacancies with a bound |
| DbManager.AvgMidpointAttained | src/db_manager.py:106-110 | some vacancy with a bound has a midpoint at most the average, and some one at least the average |
| DbManager.AvgMidpointExample | src/db_manager.py:106-110 | bounds (100, 200), (null, null) and (50, null) average to 87.5; the fully null vacancy is excluded |
| DbManager.GetAvgSalaryMeaning | src/db_manager.py:95-120 | the result is 0 on a database error or when no vacancy has a bound; otherwise it is the SQL average |
| DbManager.AllVacancyRowsSpec | src/db_manager.py:56-67 | lists every vacancy whose employer exists, once, with its employer's name, ordered by company and then title |
| DbManager.HigherSalaryRowsSpec | src/db_manager.py:133-148 | lists exactly the joined vacancies whose midpoint is strictly above the average, each once, highest midpoint first; nothing when no vacancy has a bound |
| DbManager.LeastBounded | src/db_manager.py:106-110 | some vacancy with a bound has the least midpoint of all of them, and that midpoint is at most the average |
| DbManager.HigherSalaryLeavesOneOut | src/db_manager.py:143-146 | a vacancy with a bound whose midpoint is the least of all vacancies with a bound is never listed as above the average |
| DbManager.KeywordRowsSpec | src/db_manager.py:183-195 | for a keyword without LIKE's special characters, lists exactly the joined vacancies whose lower-cased title contains the lower-cased keyword, each once, ordered by company and then title |
| DbManager.RankedRowsSpec | src/db_manager.py:245-249 | the candidates of the top query are every joined vacancy with a bound, once, highest midpoint first |
| DbManager.TopRowsPrefix | src/db_manager.py:249-251 | a negative LIMIT is an error; otherwise the result is the first `limit` candidates, or all of them when there are fewer |
| DbManager.TopRowsSpec | src/db_manager.py:237-251 | at most `limit` joined vacancies with a bound, each once, carrying their joined values, highest midpoint first |
| DbManager.TopRowsAll | src/db_manager.py:248-250 | with no more candidates than the limit, every joined vacancy with a bound is returned |
| DbManager.TopRowsNoneBetterLeftOut | src/db_manager.py:249-250 | no vacancy with a bound that is left out has a higher midpoint than any returned one |
| DbManager.GroupsSpec | src/db_manager.py:21-24 | before ordering there is one group per employer row, each with its name and the number of vacancies naming it, with no group twice |
| DbManager.CountRowsSpec | src/db_manager.py:20-26 | one entry per employer row, those without vacancies included with count 0, each with its name and the number of vacancies naming it |
| DbManager.CountRowsDistinct | src/db_manager.py:24 | no employer is listed twice |
| DbManager.CountRowsSorted | src/db_manager.py:25 | the counts never increase along the list |
| DbManager.CountsAddUp | src/db_manager.py:21-24 | in a valid store the counts add up to the number of vacancies with an employer: none is counted twice or lost |
| DbManager.ListEntries | src/db_manager.py:69-84 | one dictionary per row, in order: company, title, the salary text with its "не указана" case, and url |
| DbManager.RangeEntries | src/db_manager.py:150-158 | one dictionary per row, in order, with the range text always |
| DbManager.CountEntries | src/db_manager.py:28-33 | one dictionary per group, in order: company and vacancy count |
| DbManager.RankEntries | src/db_manager.py:253-262 | one dictionary per row, in order, with the range text and the midpoint as `avg_salary` |
| DbManager.GetCompaniesAndVacanciesCount | src/db_manager.py:9-42 | `[]` on a database error; otherwise the entries of the grouped and ordered count rows, one per row |
| DbManager.GetAllVacancies | src/db_manager.py:44-93 | `[]` on a database error; otherwise the listing entries of the ordered join, one per row |
| DbManager.GetVacanciesWithHigherSalary | src/db_manager.py:122-167 | `[]` on a database error; otherwise the range entries of the above-average rows, one per row |
| DbManager.GetVacanciesWithKeyword | src/db_manager.py:169-221 | `[]` on a database error; otherwise the listing entries of the keyword rows, one per row |
| DbManager.GetTopVacanciesBySalary | src/db_manager.py:223-271 | `[]` on a database error or a negative limit; otherwise at most `limit` ranked entries of the top rows |
| Text.IntToStringRoundTrip | src/db_manager.py:75 | the decimal text of an integer reads back as the same integer |
| Text.LowerStr | src/db_manager.py:193-195 | lower-casing keeps the length and maps each character on its own |
| Text.Like | src/db_manager.py:193-195 | SQL `LIKE` with `%`, `_` and the escape `\`; `Text.ContainsPattern` states what `%k%` matches |
| Text.StrLe | src/db_manager.py:66 | text ORDER BY in code-point order; `Text.StrLeTotal`, `StrLeTransitive` and `StrLeAntisymmetric` make it a total order |
| Text.ContainsPattern | src/db_manager.py:193-195 | the LIKE pattern `%k%` matches exactly the strings that contain k, when k has no special characters |
| Sorting.SortBySorted | src/db_manager.py:66 | ORDER BY yields rows in order under a total preorder |
| Sorting.SortByMembers | src/db_manager.py:66 | ORDER BY keeps every row and adds none |

## Left out

- The HTTP transport is replaced by oracles: the requests session, its headers, `raise_for_status`, JSON decoding, and the query parameters `per_page` and `only_with_salary`. The server's filtering is part of what a feed holds.
- `items` or `pages` present but `null` in a page is not modelled; that makes the Python loop raise a TypeError, which is not caught. Only absent keys are modelled, for which `.get` supplies its default.
- The `print` logging of every method is left out, because it changes no result.
- `_load_config` and the configuration file are left out; the constructor takes the database name as a parameter.
- `connect` and `disconnect` are not modelled as operations, since every method opens and closes its own connection. What connecting decides is folded into each operation's outcome: a missing database raises in the writes and gives `[]` in the queries.
- DatabaseManager.CreateDatabase: a failure to reach the `postgres` maintenance database, or a failing `CREATE DATABASE`, is not modelled; both raise in the program.
- DatabaseManager.CreateTables: a failure while creating the tables, other than a missing database, is not modelled.
- Database: ids are modelled as integers. A JSON id that is a numeric string is cast by the database; the error for a non-numeric one is not modelled.
- Database: `published_at` is kept as opaque text. The error PostgreSQL raises for text that is not a timestamp is not modelled.
- DbManager.GetAvgSalary: the result is the exact SQL average. `round(float(...), 2)` is not modelled, because floating point is not.
- DbManager.Midpoint: does not model the "integer out of range" error that PostgreSQL raises when `salary_from + salary_to` overflows 32 bits; bounds near 2^31 would then make the query return `[]`.
- DbManager.AvgMidpoint: the average is exact, whereas PostgreSQL's `numeric` average has a finite scale.
- Text.StrLe: ORDER BY on text is modelled as code-point order (the "C" collation), not the database's configured locale collation.
- Text.Lower: covers Latin and the basic Cyrillic block only; other letters are left unchanged. Python's `str.lower()` and SQL `LOWER()` are treated as the same mapping.
- DbManager.KeywordRowsSpec: states substring search only for a keyword without `%`, `_` or `\`. For other keywords the query is modelled exactly by `Text.Like`, with no simpler characterisation proved. A pattern ending in a lone `\`, an error in SQL, matches nothing in the model.
- Sorting.SortBy: rows that tie in ORDER BY come out in an order the database chooses. The model fixes one order and proves only what holds for every order: sortedness and permutation.
- DbManager.GetTopVacanciesBySalary: the default argument `limit=10` is not modelled; callers pass the limit.
- Api.GetAllVacancies: the key order of the returned dict is not modelled, because a Dafny map has no order. In Python it is insertion order, and a repeated id keeps its first position.
- `src/main.py`, the interactive menu and the employer-id discovery are not part of this model.
