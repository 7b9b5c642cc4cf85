/**
 * The relational store (class DatabaseManager): the `employers` and
 * `vacancies` tables, each a map from its primary key to its other columns,
 * and the insert-or-update writes of the ingestion pipeline.
 *
 * A write either commits, or fails on a database error and is rolled back
 * (the error is printed and swallowed), or raises a Python exception before
 * any SQL runs; the last two leave both tables as they were.
 *
 * The SQL facts the writes depend on: a PRIMARY KEY column is NOT NULL; an
 * INTEGER holds -2^31 .. 2^31-1; assigning a string to VARCHAR(n) fails
 * unless its characters past the n-th are all spaces, which are then cut
 * off; a foreign key is checked on a row that is inserted or whose key
 * column is changed, and `ON CONFLICT DO UPDATE` without `employer_id` in its
 * SET list changes no key column.
 */
module Database {
  import opened Payloads

  const IntegerMin: int := -0x8000_0000
  const IntegerMax: int := 0x7FFF_FFFF

  const NameLength: nat := 255
  const UrlLength: nat := 255
  const TitleLength: nat := 255
  const CurrencyLength: nat := 10

  predicate IsInteger(x: int)
  {
    IntegerMin <= x <= IntegerMax
  }

  predicate IntegerOrNull(x: Option<int>)
  {
    x.Some? ==> IsInteger(x.value)
  }

  /** Assigning s to a VARCHAR(n) column does not fail. */
  predicate FitsVarchar(s: string, n: nat)
  {
    forall i :: n <= i < |s| ==> s[i] == ' '
  }

  predicate VarcharOrNull(s: Option<string>, n: nat)
  {
    s.Some? ==> FitsVarchar(s.value, n)
  }

  /** The value a VARCHAR(n) column stores for s. */
  function Varchar(s: string, n: nat): (r: string)
    requires FitsVarchar(s, n)
    ensures |r| == if |s| <= n then |s| else n
    ensures r <= s
    ensures |s| <= n ==> r == s
    ensures forall i :: |r| <= i < |s| ==> s[i] == ' '
  {
    if |s| <= n then s else s[..n]
  }

  function VarcharOpt(s: Option<string>, n: nat): Option<string>
    requires VarcharOrNull(s, n)
  {
    if s.Some? then Some(Varchar(s.value, n)) else None
  }

  /** A row of `employers` without its key `employer_id`. */
  datatype EmployerRow = EmployerRow(
    name: string,
    url: Option<string>,
    description: Option<string>,
    openVacancies: Option<int>)

  /** A row of `vacancies` without its key `vacancy_id`. */
  datatype VacancyRow = VacancyRow(
    employerId: Option<int>,
    title: string,
    salaryFrom: Option<int>,
    salaryTo: Option<int>,
    currency: Option<string>,
    url: string,
    requirement: Option<string>,
    responsibility: Option<string>,
    publishedAt: Option<string>)

  datatype Tables = Tables(employers: map<int, EmployerRow>, vacancies: map<int, VacancyRow>)

  ghost predicate EmployerRowOk(r: EmployerRow)
  {
    |r.name| <= NameLength && (r.url.Some? ==> |r.url.value| <= UrlLength) && IntegerOrNull(r.openVacancies)
  }

  ghost predicate VacancyRowOk(r: VacancyRow)
  {
    && IntegerOrNull(r.employerId)
    && |r.title| <= TitleLength
    && IntegerOrNull(r.salaryFrom)
    && IntegerOrNull(r.salaryTo)
    && (r.currency.Some? ==> |r.currency.value| <= CurrencyLength)
    && |r.url| <= UrlLength
  }

  /** What the schema guarantees of any committed state, the foreign key included. */
  ghost predicate TablesValid(t: Tables)
  {
    && (forall id :: id in t.employers ==> IsInteger(id) && EmployerRowOk(t.employers[id]))
    && (forall id :: id in t.vacancies ==> IsInteger(id) && VacancyRowOk(t.vacancies[id]))
    && (forall id :: id in t.vacancies && t.vacancies[id].employerId.Some? ==>
          t.vacancies[id].employerId.value in t.employers)
  }

  datatype Outcome = Committed | RolledBack | Raised

  /** The parameter tuple of insert_employer's INSERT (None is Python None). */
  datatype EmployerArgs = EmployerArgs(
    id: Option<int>,
    name: Option<string>,
    url: Option<string>,
    description: Option<string>,
    openVacancies: Option<int>)

  /**
   * Building the tuple: `id` and `name` are read with `[]` and raise KeyError
   * when absent (None); `alternate_url` and `description` with `.get`;
   * `open_vacancies` with `.get(..., 0)`.
   */
  function EmployerArguments(d: EmployerJson): (r: Option<EmployerArgs>)
    ensures r.None? <==> d.id.Missing? || d.name.Missing?
    ensures r.Some? ==> r.value.openVacancies == if d.openVacancies.Missing? then Some(0) else Get(d.openVacancies)
  {
    if d.id.Missing? || d.name.Missing? then None
    else Some(EmployerArgs(Get(d.id), Get(d.name), Get(d.alternateUrl), Get(d.description), GetOr(d.openVacancies, 0)))
  }

  /** The INSERT passes the constraints of `employers`. */
  predicate EmployerAccepted(a: EmployerArgs)
  {
    && a.id.Some? && IsInteger(a.id.value)
    && a.name.Some? && FitsVarchar(a.name.value, NameLength)
    && VarcharOrNull(a.url, UrlLength)
    && IntegerOrNull(a.openVacancies)
  }

  function EmployerRowOf(a: EmployerArgs): EmployerRow
    requires EmployerAccepted(a)
  {
    EmployerRow(Varchar(a.name.value, NameLength), VarcharOpt(a.url, UrlLength), a.description, a.openVacancies)
  }

  /** The committed `INSERT ... ON CONFLICT (employer_id) DO UPDATE` of every other column. */
  function UpsertEmployer(t: Tables, a: EmployerArgs): (r: Tables)
    requires EmployerAccepted(a)
    ensures r.employers.Keys == t.employers.Keys + {a.id.value}
    ensures r.employers[a.id.value] == EmployerRowOf(a)
    ensures forall k :: k in t.employers && k != a.id.value ==> r.employers[k] == t.employers[k]
    ensures r.vacancies == t.vacancies
  {
    t.(employers := t.employers[a.id.value := EmployerRowOf(a)])
  }

  /** The three salary columns of a vacancy. */
  datatype SalaryColumns = SalaryColumns(lower: Option<int>, upper: Option<int>, currency: Option<string>)

  /** `if vacancy_data.get('salary')`: absent, null and an empty object are falsy. */
  predicate SalaryTruthy(f: Field<SalaryJson>)
  {
    f.Present? && !(f.value.lower.Missing? && f.value.upper.Missing? && f.value.currency.Missing?)
  }

  /** The salary columns: all null for a falsy salary, else each key read with `.get`. */
  function ExtractSalary(f: Field<SalaryJson>): SalaryColumns
  {
    if SalaryTruthy(f) then SalaryColumns(Get(f.value.lower), Get(f.value.upper), Get(f.value.currency))
    else SalaryColumns(None, None, None)
  }

  /** The parameter tuple of insert_vacancy's INSERT. */
  datatype VacancyArgs = VacancyArgs(
    id: Option<int>,
    employerId: Option<int>,
    title: Option<string>,
    salary: SalaryColumns,
    url: Option<string>,
    requirement: Option<string>,
    responsibility: Option<string>,
    publishedAt: Option<string>)

  /**
   * Building the tuple raises (None) for an absent `id`, `employer`,
   * `employer.id` or `name` (KeyError), a null `employer` (TypeError) or a
   * null `snippet` (AttributeError); an absent `snippet` reads as `{}`.
   */
  function VacancyArguments(d: VacancyJson): (r: Option<VacancyArgs>)
    ensures r.None? <==>
      d.id.Missing? || !d.employer.Present? || d.employer.value.id.Missing? || d.name.Missing? || d.snippet.Null?
    ensures r.Some? ==> r.value.salary == ExtractSalary(d.salary)
  {
    if d.id.Missing? || !d.employer.Present? || d.employer.value.id.Missing? || d.name.Missing? || d.snippet.Null? then None
    else
      var snippet := if d.snippet.Present? then d.snippet.value else SnippetJson(Missing, Missing);
      Some(VacancyArgs(Get(d.id), Get(d.employer.value.id), Get(d.name), ExtractSalary(d.salary),
        Get(d.alternateUrl), Get(snippet.requirement), Get(snippet.responsibility), Get(d.publishedAt)))
  }

  /** The proposed row passes the column constraints of `vacancies`. */
  predicate VacancyColumnsOk(a: VacancyArgs)
  {
    && a.id.Some? && IsInteger(a.id.value)
    && IntegerOrNull(a.employerId)
    && a.title.Some? && FitsVarchar(a.title.value, TitleLength)
    && IntegerOrNull(a.salary.lower)
    && IntegerOrNull(a.salary.upper)
    && VarcharOrNull(a.salary.currency, CurrencyLength)
    && a.url.Some? && FitsVarchar(a.url.value, UrlLength)
  }

  /**
   * The INSERT commits: the columns pass, and a row that is new references an
   * existing employer or none; an existing row keeps its employer_id, so the
   * proposed one is never checked against `employers`.
   */
  predicate VacancyAccepted(t: Tables, a: VacancyArgs)
  {
    && VacancyColumnsOk(a)
    && (a.id.value !in t.vacancies && a.employerId.Some? ==> a.employerId.value in t.employers)
  }

  /** The committed `INSERT ... ON CONFLICT (vacancy_id) DO UPDATE` of every column but employer_id. */
  function UpsertVacancy(t: Tables, a: VacancyArgs): (r: Tables)
    requires VacancyColumnsOk(a)
    ensures r.vacancies.Keys == t.vacancies.Keys + {a.id.value}
    ensures r.vacancies[a.id.value].employerId ==
      if a.id.value in t.vacancies then t.vacancies[a.id.value].employerId else a.employerId
    ensures forall k :: k in t.vacancies && k != a.id.value ==> r.vacancies[k] == t.vacancies[k]
    ensures r.employers == t.employers
  {
    var id := a.id.value;
    var owner := if id in t.vacancies then t.vacancies[id].employerId else a.employerId;
    t.(vacancies := t.vacancies[id := VacancyRow(owner, Varchar(a.title.value, TitleLength), a.salary.lower,
      a.salary.upper, VarcharOpt(a.salary.currency, CurrencyLength), Varchar(a.url.value, UrlLength),
      a.requirement, a.responsibility, a.publishedAt)])
  }

  /**
   * The salary columns are each key of the salary object read with `.get`, or
   * null when there is no salary object: the truthiness test changes nothing,
   * because an empty object gives nulls either way.
   */
  lemma SalaryExtraction(f: Field<SalaryJson>)
    ensures ExtractSalary(f).lower == (if f.Present? then Get(f.value.lower) else None)
    ensures ExtractSalary(f).upper == (if f.Present? then Get(f.value.upper) else None)
    ensures ExtractSalary(f).currency == (if f.Present? then Get(f.value.currency) else None)
  {
  }

  /**
   * A committed insert_employer leaves exactly one row for the record's id,
   * holding the record's values whether or not the row existed, and changes
   * nothing else.
   */
  lemma EmployerUpsertStoresRecord(t: Tables, d: EmployerJson)
    requires EmployerArguments(d).Some? && EmployerAccepted(EmployerArguments(d).value)
    ensures d.id.Present? && d.name.Present?
    ensures var t' := UpsertEmployer(t, EmployerArguments(d).value);
      && t'.employers.Keys == t.employers.Keys + {d.id.value}
      && t'.employers[d.id.value].name == Varchar(d.name.value, NameLength)
      && (d.alternateUrl.Present? ==> t'.employers[d.id.value].url == Some(Varchar(d.alternateUrl.value, UrlLength)))
      && (!d.alternateUrl.Present? ==> t'.employers[d.id.value].url == None)
      && t'.employers[d.id.value].description == Get(d.description)
      && t'.employers[d.id.value].openVacancies == (if d.openVacancies.Missing? then Some(0) else Get(d.openVacancies))
      && (forall k :: k in t.employers && k != d.id.value ==> t'.employers[k] == t.employers[k])
      && t'.vacancies == t.vacancies
  {
  }

  /** Upserting two records with the same id keeps only the second: last write wins. */
  lemma EmployerLastWriteWins(t: Tables, a: EmployerArgs, b: EmployerArgs)
    requires EmployerAccepted(a) && EmployerAccepted(b) && a.id == b.id
    ensures UpsertEmployer(UpsertEmployer(t, a), b) == UpsertEmployer(t, b)
  {
  }

  /** Writing the same employer twice is writing it once. */
  lemma EmployerUpsertIdempotent(t: Tables, a: EmployerArgs)
    requires EmployerAccepted(a)
    ensures UpsertEmployer(UpsertEmployer(t, a), a) == UpsertEmployer(t, a)
  {
    EmployerLastWriteWins(t, a, a);
  }

  /** A missing `id` or `name` raises; a null one, or one that does not fit its column, rolls back. */
  lemma EmployerRejected(d: EmployerJson)
    ensures d.id.Missing? || d.name.Missing? ==> EmployerArguments(d).None?
    ensures EmployerArguments(d).Some? && (d.id.Null? || d.name.Null?) ==> !EmployerAccepted(EmployerArguments(d).value)
    ensures EmployerArguments(d).Some? && d.name.Present? && !FitsVarchar(d.name.value, NameLength) ==>
      !EmployerAccepted(EmployerArguments(d).value)
  {
  }

  /**
   * A committed insert_vacancy leaves exactly one row for the item's id with
   * the item's values, except that a row that already existed keeps its
   * employer_id; nothing else changes.
   */
  lemma VacancyUpsertStoresRecord(t: Tables, d: VacancyJson)
    requires VacancyArguments(d).Some? && VacancyAccepted(t, VacancyArguments(d).value)
    ensures d.id.Present? && d.employer.Present? && d.name.Present? && d.alternateUrl.Present?
    ensures var t' := UpsertVacancy(t, VacancyArguments(d).value);
      var row := t'.vacancies[d.id.value];
      && t'.vacancies.Keys == t.vacancies.Keys + {d.id.value}
      && (d.id.value in t.vacancies ==> row.employerId == t.vacancies[d.id.value].employerId)
      && (d.id.value !in t.vacancies ==> row.employerId == Get(d.employer.value.id))
      && row.title == Varchar(d.name.value, TitleLength)
      && row.salaryFrom == (if d.salary.Present? then Get(d.salary.value.lower) else None)
      && row.salaryTo == (if d.salary.Present? then Get(d.salary.value.upper) else None)
      && row.currency == (if d.salary.Present? && d.salary.value.currency.Present?
                          then Some(Varchar(d.salary.value.currency.value, CurrencyLength)) else None)
      && row.url == Varchar(d.alternateUrl.value, UrlLength)
      && row.requirement == (if d.snippet.Present? then Get(d.snippet.value.requirement) else None)
      && row.responsibility == (if d.snippet.Present? then Get(d.snippet.value.responsibility) else None)
      && row.publishedAt == Get(d.publishedAt)
      && (forall k :: k in t.vacancies && k != d.id.value ==> t'.vacancies[k] == t.vacancies[k])
      && t'.employers == t.employers
  {
    SalaryExtraction(d.salary);
  }

  /** On conflict the proposed employer_id is ignored: two writes differing only there store the same. */
  lemma ConflictKeepsEmployer(t: Tables, a: VacancyArgs, b: VacancyArgs)
    requires VacancyColumnsOk(a) && VacancyColumnsOk(b)
    requires a.id.value in t.vacancies && b == a.(employerId := b.employerId)
    ensures UpsertVacancy(t, a) == UpsertVacancy(t, b)
  {
  }

  /** A new vacancy whose employer has no row violates the foreign key and is rolled back. */
  lemma ForeignKeyRejects(t: Tables, d: VacancyJson)
    requires VacancyArguments(d).Some?
    requires d.id.Present? && d.id.value !in t.vacancies
    requires d.employer.value.id.Present? && d.employer.value.id.value !in t.employers
    ensures !VacancyAccepted(t, VacancyArguments(d).value)
  {
  }

  /** A null title or url rolls back, as does a new vacancy's null id. */
  lemma VacancyNotNullRejects(t: Tables, d: VacancyJson)
    requires VacancyArguments(d).Some?
    requires d.id.Null? || d.name.Null? || !d.alternateUrl.Present?
    ensures !VacancyAccepted(t, VacancyArguments(d).value)
  {
  }

  /** Employers before their vacancies: once the employer is stored, its new vacancy passes the foreign key. */
  lemma EmployerFirstThenVacancy(t: Tables, e: EmployerArgs, v: VacancyArgs)
    requires EmployerAccepted(e) && VacancyColumnsOk(v) && v.employerId == e.id
    ensures VacancyAccepted(UpsertEmployer(t, e), v)
  {
  }

  /** A committed employer write keeps every schema guarantee. */
  lemma UpsertEmployerValid(t: Tables, a: EmployerArgs)
    requires TablesValid(t) && EmployerAccepted(a)
    ensures TablesValid(UpsertEmployer(t, a))
  {
    var t' := UpsertEmployer(t, a);
    assert EmployerRowOk(t'.employers[a.id.value]);
    assert t.employers.Keys <= t'.employers.Keys;
  }

  /** A committed vacancy write keeps every schema guarantee, the foreign key included. */
  lemma UpsertVacancyValid(t: Tables, a: VacancyArgs)
    requires TablesValid(t) && VacancyAccepted(t, a)
    ensures TablesValid(UpsertVacancy(t, a))
  {
    var t' := UpsertVacancy(t, a);
    assert VacancyRowOk(t'.vacancies[a.id.value]);
  }

  class DatabaseManager {
    /** The configured database name (`config['database']`). */
    const database: string
    /** The databases the server has (`pg_database`). */
    var catalog: set<string>
    var hasTables: bool
    var employers: map<int, EmployerRow>
    var vacancies: map<int, VacancyRow>

    ghost predicate Valid()
      reads this
    {
      && (hasTables ==> database in catalog)
      && (!hasTables ==> employers == map[] && vacancies == map[])
      && TablesValid(Tables(employers, vacancies))
    }

    function State(): Tables
      reads this
    {
      Tables(employers, vacancies)
    }

    /** What a read query sees: the tables, or None when connecting or querying them fails. */
    function Snapshot(): Option<Tables>
      reads this
    {
      if database in catalog && hasTables then Some(State()) else None
    }

    /** A manager for `database` on a server holding `catalog`, and `stored` if the tables already exist. */
    constructor (database: string, catalog: set<string>, stored: Option<Tables>)
      requires stored.Some? ==> database in catalog && TablesValid(stored.value)
      ensures Valid()
      ensures this.database == database && this.catalog == catalog
      ensures hasTables == stored.Some?
      ensures State() == if stored.Some? then stored.value else Tables(map[], map[])
    {
      this.database := database;
      this.catalog := catalog;
      hasTables := stored.Some?;
      employers := if stored.Some? then stored.value.employers else map[];
      vacancies := if stored.Some? then stored.value.vacancies else map[];
    }

    /** `create_database`: create the configured database only if the server lacks it. */
    method CreateDatabase() returns (created: bool)
      requires Valid()
      modifies this
      ensures Valid()
      ensures created == (database !in old(catalog))
      ensures catalog == old(catalog) + {database}
      ensures hasTables == old(hasTables) && State() == old(State())
    {
      var present := database in catalog;
      if !present {
        catalog := catalog + {database};
      }
      created := !present;
    }

    /**
     * `create_tables`: `CREATE TABLE IF NOT EXISTS` for both tables; existing
     * tables and their rows are left alone. Connecting to a database that does
     * not exist raises.
     */
    method CreateTables() returns (raised: bool)
      requires Valid()
      modifies this
      ensures Valid()
      ensures raised == (database !in catalog)
      ensures catalog == old(catalog)
      ensures hasTables == (old(hasTables) || !raised)
      ensures Snapshot().Some? <==> !raised
      ensures State() == old(State())
    {
      if database !in catalog {
        return true;
      }
      hasTables := true;
      raised := false;
    }

    /**
     * `insert_employer`. It raises when the database is missing (connect fails
     * and the handler's rollback then raises) or the tuple cannot be
     * built; it rolls back when the tables are missing or a constraint fails.
     */
    method InsertEmployer(employerData: EmployerJson) returns (outcome: Outcome)
      requires Valid()
      modifies this
      ensures Valid()
      ensures catalog == old(catalog) && hasTables == old(hasTables)
      ensures outcome == Raised <==> database !in catalog || EmployerArguments(employerData).None?
      ensures outcome == Committed <==>
        && database in catalog && hasTables && EmployerArguments(employerData).Some?
        && EmployerAccepted(EmployerArguments(employerData).value)
      ensures outcome == Committed ==> State() == UpsertEmployer(old(State()), EmployerArguments(employerData).value)
      ensures outcome != Committed ==> State() == old(State())
    {
      if database !in catalog {
        return Raised;
      }
      var args := EmployerArguments(employerData);
      if args.None? {
        return Raised;
      }
      if !hasTables || !EmployerAccepted(args.value) {
        return RolledBack;
      }
      UpsertEmployerValid(State(), args.value);
      employers := employers[args.value.id.value := EmployerRowOf(args.value)];
      outcome := Committed;
    }

    /**
     * `insert_vacancy`: the salary columns start null and are taken from a
     * truthy salary object; then as insert_employer.
     */
    method InsertVacancy(vacancyData: VacancyJson) returns (outcome: Outcome)
      requires Valid()
      modifies this
      ensures Valid()
      ensures catalog == old(catalog) && hasTables == old(hasTables)
      ensures outcome == Raised <==> database !in catalog || VacancyArguments(vacancyData).None?
      ensures outcome == Committed <==>
        && database in catalog && hasTables && VacancyArguments(vacancyData).Some?
        && VacancyAccepted(old(State()), VacancyArguments(vacancyData).value)
      ensures outcome == Committed ==> State() == UpsertVacancy(old(State()), VacancyArguments(vacancyData).value)
      ensures outcome != Committed ==> State() == old(State())
    {
      if database !in catalog {
        return Raised;
      }
      var salaryFrom: Option<int> := None;
      var salaryTo: Option<int> := None;
      var currency: Option<string> := None;
      if SalaryTruthy(vacancyData.salary) {
        var salary := vacancyData.salary.value;
        salaryFrom := Get(salary.lower);
        salaryTo := Get(salary.upper);
        currency := Get(salary.currency);
      }
      var d := vacancyData;
      if d.id.Missing? || !d.employer.Present? || d.employer.value.id.Missing? || d.name.Missing? || d.snippet.Null? {
        return Raised;
      }
      var snippet := if d.snippet.Present? then d.snippet.value else SnippetJson(Missing, Missing);
      var args := VacancyArgs(Get(d.id), Get(d.employer.value.id), Get(d.name),
        SalaryColumns(salaryFrom, salaryTo, currency), Get(d.alternateUrl),
        Get(snippet.requirement), Get(snippet.responsibility), Get(d.publishedAt));
      assert VacancyArguments(d) == Some(args);
      if !hasTables || !VacancyAccepted(State(), args) {
        return RolledBack;
      }
      UpsertVacancyValid(State(), args);
      var id := args.id.value;
      var owner := if id in vacancies then vacancies[id].employerId else args.employerId;
      vacancies := vacancies[id := VacancyRow(owner, Varchar(args.title.value, TitleLength), salaryFrom, salaryTo,
        VarcharOpt(currency, CurrencyLength), Varchar(args.url.value, UrlLength),
        args.requirement, args.responsibility, args.publishedAt)];
      outcome := Committed;
    }
  }
}
