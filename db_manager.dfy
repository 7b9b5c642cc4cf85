/**
 * The report queries of class DBManager over the two tables.
 *
 * Each query runs in two stages, as in the program: the SQL statement, a
 * pure function from the tables to a sequence of result rows, and the Python
 * loop over `cursor.fetchall()` that turns each row into a dictionary, a
 * method over that sequence.
 *
 * `db` is what a query sees of the store: `Some(tables)`, or `None` when
 * connecting or running the statement fails with a database error (missing
 * database or tables), in which case every list query returns `[]` and the
 * average returns 0. For a `DatabaseManager` m that is `m.Snapshot()`.
 */
module DbManager {
  import opened Payloads
  import opened Text
  import opened Sorting
  import opened Database

  // ---------------------------------------------------------------------
  // vacancies v JOIN employers e ON v.employer_id = e.employer_id
  // ---------------------------------------------------------------------

  /** One row of the join: the vacancy's key, its employer's name and its columns. */
  datatype JoinedRow = JoinedRow(vacancyId: int, company: string, vacancy: VacancyRow)

  /** The vacancy `id` has a partner in the join: its employer_id is not NULL and names an employer row. */
  predicate Joins(t: Tables, id: int)
  {
    id in t.vacancies && t.vacancies[id].employerId.Some? && t.vacancies[id].employerId.value in t.employers
  }

  function JoinedRowOf(t: Tables, id: int): JoinedRow
    requires Joins(t, id)
  {
    JoinedRow(id, t.employers[t.vacancies[id].employerId.value].name, t.vacancies[id])
  }

  /** ON v.employer_id = e.employer_id, on vacancy keys. */
  function JoinsIn(t: Tables): int -> bool
  {
    id => Joins(t, id)
  }

  /** The keys of the vacancies that join, each once. */
  function JoinedIds(t: Tables): (ids: seq<int>)
    ensures forall i :: 0 <= i < |ids| ==> Joins(t, ids[i])
    ensures forall id :: Joins(t, id) ==> id in ids
    ensures NoDup(ids)
  {
    SelectKeys(t.vacancies.Keys, JoinsIn(t))
  }

  /** The joined rows of the vacancies ids, in order. */
  function RowsOf(t: Tables, ids: seq<int>): (r: seq<JoinedRow>)
    requires forall i :: 0 <= i < |ids| ==> Joins(t, ids[i])
    ensures |r| == |ids|
    ensures forall i :: 0 <= i < |ids| ==> r[i] == JoinedRowOf(t, ids[i])
  {
    if ids == [] then [] else [JoinedRowOf(t, ids[0])] + RowsOf(t, ids[1..])
  }

  /** Each row of RowsOf is the join of its own vacancy. */
  lemma RowsOfJoined(t: Tables, ids: seq<int>)
    requires forall i :: 0 <= i < |ids| ==> Joins(t, ids[i])
    ensures forall i :: 0 <= i < |ids| ==>
      Joins(t, RowsOf(t, ids)[i].vacancyId) && RowsOf(t, ids)[i] == JoinedRowOf(t, RowsOf(t, ids)[i].vacancyId)
  {
    var r := RowsOf(t, ids);
    forall i | 0 <= i < |ids| ensures Joins(t, r[i].vacancyId) && r[i] == JoinedRowOf(t, r[i].vacancyId) {
      assert r[i] == JoinedRowOf(t, ids[i]);
    }
  }

  /** RowsOf holds the join of every listed vacancy. */
  lemma RowsOfCovers(t: Tables, ids: seq<int>, id: int)
    requires forall i :: 0 <= i < |ids| ==> Joins(t, ids[i])
    requires Joins(t, id) && id in ids
    ensures JoinedRowOf(t, id) in RowsOf(t, ids)
  {
    var i :| 0 <= i < |ids| && ids[i] == id;
    assert RowsOf(t, ids)[i] == JoinedRowOf(t, id);
  }

  /** Distinct vacancies give distinct rows. */
  lemma RowsOfNoDup(t: Tables, ids: seq<int>)
    requires forall i :: 0 <= i < |ids| ==> Joins(t, ids[i])
    requires NoDup(ids)
    ensures NoDup(RowsOf(t, ids))
  {
    var r := RowsOf(t, ids);
    forall i, j | 0 <= i < j < |r| ensures r[i] != r[j] {
      assert r[i].vacancyId == ids[i] && r[j].vacancyId == ids[j];
    }
  }

  /** The inner join: exactly the vacancies with an existing employer, each once. */
  function JoinRows(t: Tables): (r: seq<JoinedRow>)
    ensures forall i :: 0 <= i < |r| ==> Joins(t, r[i].vacancyId) && r[i] == JoinedRowOf(t, r[i].vacancyId)
    ensures forall id :: Joins(t, id) ==> JoinedRowOf(t, id) in r
    ensures NoDup(r)
  {
    var ids := JoinedIds(t);
    RowsOfJoined(t, ids);
    RowsOfNoDup(t, ids);
    assert forall id :: Joins(t, id) ==> JoinedRowOf(t, id) in RowsOf(t, ids) by {
      forall id | Joins(t, id) ensures JoinedRowOf(t, id) in RowsOf(t, ids) {
        RowsOfCovers(t, ids, id);
      }
    }
    RowsOf(t, ids)
  }

  /**
   * q holds exactly the joined rows that satisfy p, each once: every row of
   * q is the join of its vacancy and satisfies p, and every joined row that
   * satisfies p is in q.
   */
  ghost predicate Selects(t: Tables, q: seq<JoinedRow>, p: JoinedRow -> bool)
  {
    && (forall i :: 0 <= i < |q| ==> Joins(t, q[i].vacancyId) && q[i] == JoinedRowOf(t, q[i].vacancyId) && p(q[i]))
    && (forall id :: Joins(t, id) && p(JoinedRowOf(t, id)) ==> JoinedRowOf(t, id) in q)
    && NoDup(q)
  }

  /** Every joined row qualifies (no WHERE clause). */
  predicate AnyRow(r: JoinedRow)
  {
    true
  }

  lemma JoinSelectsAll(t: Tables)
    ensures Selects(t, JoinRows(t), AnyRow)
  {
  }

  /** A WHERE clause on the join selects exactly the rows it accepts. */
  lemma FilterSelects(t: Tables, p: JoinedRow -> bool)
    ensures Selects(t, Filter(p, JoinRows(t)), p)
  {
    var r := JoinRows(t);
    FilterNoDup(p, r);
  }

  /** ORDER BY keeps a selection a selection. */
  lemma SortSelects(t: Tables, q: seq<JoinedRow>, p: JoinedRow -> bool, le: (JoinedRow, JoinedRow) -> bool)
    requires Selects(t, q, p)
    ensures Selects(t, SortBy(q, le), p)
  {
    var s := SortBy(q, le);
    SortByMembers(q, le);
    SortByNoDup(q, le);
    forall i | 0 <= i < |s|
      ensures Joins(t, s[i].vacancyId) && s[i] == JoinedRowOf(t, s[i].vacancyId) && p(s[i])
    {
      assert s[i] in q;
    }
  }

  /** Two conditions that agree on every row select the same rows. */
  lemma SelectsSameCondition(t: Tables, q: seq<JoinedRow>, p: JoinedRow -> bool, p': JoinedRow -> bool)
    requires Selects(t, q, p)
    requires forall r :: p(r) == p'(r)
    ensures Selects(t, q, p')
  {
  }

  // ---------------------------------------------------------------------
  // ORDER BY
  // ---------------------------------------------------------------------

  /** ORDER BY e.name, v.title. */
  predicate ByCompanyTitle(a: JoinedRow, b: JoinedRow)
  {
    StrLt(a.company, b.company) || (a.company == b.company && StrLe(a.vacancy.title, b.vacancy.title))
  }

  lemma ByCompanyTitleTotal()
    ensures TotalPreorder(ByCompanyTitle)
  {
    forall a: JoinedRow, b: JoinedRow ensures ByCompanyTitle(a, b) || ByCompanyTitle(b, a) {
      StrLeTotal(a.company, b.company);
      StrLeTotal(a.vacancy.title, b.vacancy.title);
    }
    forall a: JoinedRow, b: JoinedRow, c: JoinedRow | ByCompanyTitle(a, b) && ByCompanyTitle(b, c)
      ensures ByCompanyTitle(a, c)
    {
      if a.company == b.company && b.company == c.company {
        StrLeTransitive(a.vacancy.title, b.vacancy.title, c.vacancy.title);
      } else {
        StrLeReflexive(a.company);
        StrLeReflexive(b.company);
        StrLeTransitive(a.company, b.company, c.company);
        if a.company == c.company {
          StrLeAntisymmetric(b.company, c.company);
        }
      }
    }
  }

  /** ORDER BY the midpoint, DESC. */
  predicate ByMidpointDesc(a: JoinedRow, b: JoinedRow)
  {
    Midpoint(a.vacancy) >= Midpoint(b.vacancy)
  }

  lemma ByMidpointDescTotal()
    ensures TotalPreorder(ByMidpointDesc)
  {
  }

  // ---------------------------------------------------------------------
  // Salaries
  // ---------------------------------------------------------------------

  /** Integer division in SQL: the quotient is truncated toward zero. */
  function TruncDiv2(x: int): (q: int)
    ensures x >= 0 ==> 0 <= x - 2 * q <= 1
    ensures x < 0 ==> -1 <= x - 2 * q <= 0
  {
    if x >= 0 then x / 2 else -((-x) / 2)
  }

  /** At least one salary bound is not NULL. */
  predicate HasBound(v: VacancyRow)
  {
    v.salaryFrom.Some? || v.salaryTo.Some?
  }

  /** `(COALESCE(salary_from, 0) + COALESCE(salary_to, 0)) / 2`. */
  function Midpoint(v: VacancyRow): int
  {
    TruncDiv2(OrElse(v.salaryFrom, 0) + OrElse(v.salaryTo, 0))
  }

  /**
   * The midpoint lies between two bounds that are in order, and a single
   * bound counts against an implied 0: its midpoint is half of it.
   */
  lemma MidpointMeaning(v: VacancyRow)
    ensures v.salaryFrom.Some? && v.salaryTo.Some? && v.salaryFrom.value <= v.salaryTo.value ==>
      v.salaryFrom.value <= Midpoint(v) <= v.salaryTo.value
    ensures v.salaryFrom.Some? && v.salaryTo.None? ==> Midpoint(v) == TruncDiv2(v.salaryFrom.value)
    ensures v.salaryFrom.None? && v.salaryTo.Some? ==> Midpoint(v) == TruncDiv2(v.salaryTo.value)
    ensures !HasBound(v) ==> Midpoint(v) == 0
  {
  }

  /** Python truthiness of a nullable integer: NULL and 0 are false. */
  predicate Truthy(x: Option<int>)
  {
    x.Some? && x.value != 0
  }

  /** The text shown for a missing bound. */
  const NotGiven: string := "не указано"
  /** The text shown for a vacancy without any salary. */
  const NotStated: string := "не указана"

  /** `f"{bound or 'не указано'}"`. */
  function BoundText(x: Option<int>): string
  {
    if Truthy(x) then IntToString(x.value) else NotGiven
  }

  /** `f"{from or 'не указано'}-{to or 'не указано'} {currency or ''}"`. */
  function SalaryRange(lower: Option<int>, upper: Option<int>, currency: Option<string>): string
  {
    BoundText(lower) + "-" + BoundText(upper) + " " + OrElse(currency, "")
  }

  /** The salary text of get_all_vacancies and get_vacancies_with_keyword. */
  function SalaryInfo(lower: Option<int>, upper: Option<int>, currency: Option<string>): string
  {
    if Truthy(lower) || Truthy(upper) then SalaryRange(lower, upper, currency) else NotStated
  }

  /** A bound shows as the placeholder exactly when it is falsy, else as digits that read back as the bound. */
  lemma BoundTextMeaning(x: Option<int>)
    ensures BoundText(x) == NotGiven <==> !Truthy(x)
    ensures Truthy(x) ==> ParseInt(BoundText(x)) == x.value
  {
    if Truthy(x) {
      var s := IntToString(x.value);
      assert s[0] == '-' || IsDigit(s[0]);
      assert NotGiven[0] == 'н';
      IntToStringRoundTrip(x.value);
    }
  }

  /** The salary reads "не указана" exactly when both bounds are NULL or 0, whatever the currency. */
  lemma SalaryInfoNotStated(lower: Option<int>, upper: Option<int>, currency: Option<string>)
    ensures SalaryInfo(lower, upper, currency) == NotStated <==> !Truthy(lower) && !Truthy(upper)
  {
    if Truthy(lower) || Truthy(upper) {
      var s := SalaryRange(lower, upper, currency);
      assert s[|BoundText(lower)|] == '-';
      assert forall k :: 0 <= k < |NotStated| ==> NotStated[k] != '-';
    }
  }

  // ---------------------------------------------------------------------
  // AVG
  // ---------------------------------------------------------------------

  function Sum(s: seq<int>): int
  {
    if s == [] then 0 else s[0] + Sum(s[1..])
  }

  /** AVG over the values s: NULL (None) over no rows. */
  function Mean(s: seq<int>): Option<real>
  {
    if s == [] then None else Some(Sum(s) as real / |s| as real)
  }

  lemma {:induction false} SumBounds(s: seq<int>, lo: int, hi: int)
    requires forall i :: 0 <= i < |s| ==> lo <= s[i] <= hi
    ensures lo * |s| <= Sum(s) <= hi * |s|
  {
    if s != [] {
      SumBounds(s[1..], lo, hi);
      assert lo * |s| == lo * |s[1..]| + lo;
      assert hi * |s| == hi * |s[1..]| + hi;
    }
  }

  /** The position of a least value. */
  function ArgMin(s: seq<int>): (k: nat)
    requires s != []
    ensures k < |s| && forall i :: 0 <= i < |s| ==> s[k] <= s[i]
  {
    if |s| == 1 then 0
    else
      var k := ArgMin(s[1..]) + 1;
      if s[0] <= s[k] then 0 else k
  }

  /** The position of a greatest value. */
  function ArgMax(s: seq<int>): (k: nat)
    requires s != []
    ensures k < |s| && forall i :: 0 <= i < |s| ==> s[i] <= s[k]
  {
    if |s| == 1 then 0
    else
      var k := ArgMax(s[1..]) + 1;
      if s[0] >= s[k] then 0 else k
  }

  lemma ScaledBelow(a: int, b: int, n: nat)
    requires n > 0 && a * n <= b
    ensures a as real <= b as real / n as real
  {
    assert (a * n) as real == a as real * n as real;
    assert b as real / n as real * n as real == b as real;
  }

  lemma ScaledAbove(a: int, b: int, n: nat)
    requires n > 0 && a * n >= b
    ensures a as real >= b as real / n as real
  {
    assert (a * n) as real == a as real * n as real;
    assert b as real / n as real * n as real == b as real;
  }

  /** The mean lies between any lower and upper bound of the values. */
  lemma MeanWithin(s: seq<int>, lo: int, hi: int)
    requires s != []
    requires forall i :: 0 <= i < |s| ==> lo <= s[i] <= hi
    ensures lo as real <= Mean(s).value <= hi as real
  {
    SumBounds(s, lo, hi);
    ScaledBelow(lo, Sum(s), |s|);
    ScaledAbove(hi, Sum(s), |s|);
  }

  /** Some value is at most the mean and some value is at least the mean. */
  lemma MeanAttained(s: seq<int>)
    requires s != []
    ensures exists i :: 0 <= i < |s| && s[i] as real <= Mean(s).value
    ensures exists i :: 0 <= i < |s| && s[i] as real >= Mean(s).value
  {
    var i := ArgMin(s);
    var j := ArgMax(s);
    MeanWithin(s, s[i], s[j]);
  }

  /** WHERE salary_from IS NOT NULL OR salary_to IS NOT NULL, on vacancy keys. */
  function BoundedIn(t: Tables): int -> bool
  {
    id => id in t.vacancies && HasBound(t.vacancies[id])
  }

  /** The vacancies the average runs over: every one with a bound, with or without an employer. */
  function BoundedIds(t: Tables): (ids: seq<int>)
    ensures forall i :: 0 <= i < |ids| ==> ids[i] in t.vacancies && HasBound(t.vacancies[ids[i]])
    ensures forall id :: id in t.vacancies && HasBound(t.vacancies[id]) ==> id in ids
    ensures NoDup(ids)
  {
    SelectKeys(t.vacancies.Keys, BoundedIn(t))
  }

  function MidpointsOf(t: Tables, ids: seq<int>): (m: seq<int>)
    requires forall i :: 0 <= i < |ids| ==> ids[i] in t.vacancies
    ensures |m| == |ids|
    ensures forall i :: 0 <= i < |ids| ==> m[i] == Midpoint(t.vacancies[ids[i]])
  {
    seq(|ids|, i requires 0 <= i < |ids| => Midpoint(t.vacancies[ids[i]]))
  }

  /** The subquery `SELECT AVG(midpoint) FROM vacancies WHERE salary_from IS NOT NULL OR salary_to IS NOT NULL`. */
  function AvgMidpoint(t: Tables): Option<real>
  {
    Mean(MidpointsOf(t, BoundedIds(t)))
  }

  /** The average is NULL exactly when no vacancy has a bound. */
  lemma AvgMidpointNull(t: Tables)
    ensures AvgMidpoint(t).None? <==> forall id :: id in t.vacancies ==> !HasBound(t.vacancies[id])
  {
    var ids := BoundedIds(t);
    if ids != [] {
      assert ids[0] in t.vacancies && HasBound(t.vacancies[ids[0]]);
    }
  }

  /** The average lies between any bounds of the midpoints it runs over. */
  lemma AvgMidpointWithin(t: Tables, lo: int, hi: int)
    requires AvgMidpoint(t).Some?
    requires forall id :: id in t.vacancies && HasBound(t.vacancies[id]) ==> lo <= Midpoint(t.vacancies[id]) <= hi
    ensures lo as real <= AvgMidpoint(t).value <= hi as real
  {
    var ids := BoundedIds(t);
    var m := MidpointsOf(t, ids);
    forall i | 0 <= i < |m| ensures lo <= m[i] <= hi {
      assert ids[i] in t.vacancies && HasBound(t.vacancies[ids[i]]);
    }
    MeanWithin(m, lo, hi);
  }

  /** Some vacancy with a bound has a midpoint at most the average, and some one at least the average. */
  lemma AvgMidpointAttained(t: Tables)
    requires AvgMidpoint(t).Some?
    ensures exists id :: id in t.vacancies && HasBound(t.vacancies[id]) && Midpoint(t.vacancies[id]) as real <= AvgMidpoint(t).value
    ensures exists id :: id in t.vacancies && HasBound(t.vacancies[id]) && Midpoint(t.vacancies[id]) as real >= AvgMidpoint(t).value
  {
    var ids := BoundedIds(t);
    var m := MidpointsOf(t, ids);
    MeanAttained(m);
    var i :| 0 <= i < |m| && m[i] as real <= Mean(m).value;
    var j :| 0 <= j < |m| && m[j] as real >= Mean(m).value;
    assert ids[i] in t.vacancies && HasBound(t.vacancies[ids[i]]);
    assert ids[j] in t.vacancies && HasBound(t.vacancies[ids[j]]);
  }

  function SalaryRow(lower: Option<int>, upper: Option<int>): VacancyRow
  {
    VacancyRow(None, "", lower, upper, None, "", None, None, None)
  }

  /** Three vacancies with bounds (100, 200), (NULL, NULL) and (50, NULL). */
  function ExampleTables(): Tables
  {
    Tables(map[], map[1 := SalaryRow(Some(100), Some(200)), 2 := SalaryRow(None, None), 3 := SalaryRow(Some(50), None)])
  }

  lemma KeysOfThree()
    ensures SortedKeys({1, 2, 3}) == [1, 2, 3]
  {
    var r := SortedKeys({1, 2, 3});
    assert r[0] in {1, 2, 3} && r[1] in {1, 2, 3} && r[2] in {1, 2, 3};
    assert r[0] < r[1] < r[2];
    assert r[0] == 1 && r[1] == 2 && r[2] == 3;
  }

  lemma ExampleKeys()
    ensures SortedKeys(ExampleTables().vacancies.Keys) == [1, 2, 3]
  {
    assert ExampleTables().vacancies.Keys == {1, 2, 3};
    KeysOfThree();
  }

  /** Of the example's vacancies, 1 and 3 have a bound and 2 has none. */
  lemma ExampleBounds()
    ensures BoundedIn(ExampleTables())(1) && !BoundedIn(ExampleTables())(2) && BoundedIn(ExampleTables())(3)
  {
  }

  /** Filtering three values of which the middle one fails. */
  lemma FilterThree<T>(p: T -> bool, a: T, b: T, c: T)
    requires p(a) && !p(b) && p(c)
    ensures Filter(p, [a, b, c]) == [a, c]
  {
    var s := [a, b, c];
    FilterCons(p, s);
    FilterCons(p, s[1..]);
    FilterCons(p, s[2..]);
    assert s[1..][1..] == s[2..] && s[2..][1..] == [];
  }

  lemma ExampleFilter()
    ensures Filter(BoundedIn(ExampleTables()), [1, 2, 3]) == [1, 3]
  {
    ExampleBounds();
    FilterThree(BoundedIn(ExampleTables()), 1, 2, 3);
  }

  lemma ExampleUnfold()
    ensures BoundedIds(ExampleTables()) == Filter(BoundedIn(ExampleTables()), SortedKeys(ExampleTables().vacancies.Keys))
  {
  }

  /** Only the vacancies 1 and 3 have a bound. */
  lemma ExampleBoundedIds()
    ensures BoundedIds(ExampleTables()) == [1, 3]
  {
    ExampleUnfold();
    ExampleKeys();
    ExampleFilter();
  }

  lemma ExampleMidpoints()
    ensures MidpointsOf(ExampleTables(), [1, 3]) == [150, 25]
  {
  }

  lemma ExampleMean()
    ensures Mean([150, 25]) == Some(87.5)
  {
    assert [150, 25][1..] == [25] && [25][1..] == [];
  }

  /** The average of the example is (150 + 25) / 2 = 87.5: the vacancy without bounds is not counted. */
  lemma AvgMidpointExample()
    ensures AvgMidpoint(ExampleTables()) == Some(87.5)
  {
    ExampleBoundedIds();
    ExampleMidpoints();
    ExampleMean();
  }

  /** `get_avg_salary` before rounding: 0 on a database error or when no vacancy has a bound. */
  function GetAvgSalary(db: Option<Tables>): real
  {
    if db.None? then 0.0 else OrElse(AvgMidpoint(db.value), 0.0)
  }

  lemma GetAvgSalaryMeaning(db: Option<Tables>)
    ensures db.None? ==> GetAvgSalary(db) == 0.0
    ensures db.Some? && (forall id :: id in db.value.vacancies ==> !HasBound(db.value.vacancies[id])) ==>
      GetAvgSalary(db) == 0.0
    ensures db.Some? && AvgMidpoint(db.value).Some? ==> GetAvgSalary(db) == AvgMidpoint(db.value).value
  {
    if db.Some? {
      AvgMidpointNull(db.value);
    }
  }

  // ---------------------------------------------------------------------
  // The SQL statements
  // ---------------------------------------------------------------------

  /** get_all_vacancies: the join, ordered by company and title. */
  function AllVacancyRows(t: Tables): seq<JoinedRow>
  {
    SortBy(JoinRows(t), ByCompanyTitle)
  }

  /** WHERE midpoint > (the average). */
  function AboveAverage(avg: real): JoinedRow -> bool
  {
    (r: JoinedRow) => Midpoint(r.vacancy) as real > avg
  }

  /** get_vacancies_with_higher_salary: a comparison with a NULL average keeps no row. */
  function HigherSalaryRows(t: Tables): seq<JoinedRow>
  {
    var avg := AvgMidpoint(t);
    if avg.None? then [] else SortBy(Filter(AboveAverage(avg.value), JoinRows(t)), ByMidpointDesc)
  }

  /** WHERE LOWER(v.title) LIKE '%' || keyword.lower() || '%'. */
  function TitleLike(keyword: string): JoinedRow -> bool
  {
    (r: JoinedRow) => Like(LowerStr(r.vacancy.title), "%" + LowerStr(keyword) + "%")
  }

  function KeywordRows(t: Tables, keyword: string): seq<JoinedRow>
  {
    SortBy(Filter(TitleLike(keyword), JoinRows(t)), ByCompanyTitle)
  }

  predicate Bounded(r: JoinedRow)
  {
    HasBound(r.vacancy)
  }

  /** The joined vacancies with a bound, highest midpoint first. */
  function RankedRows(t: Tables): seq<JoinedRow>
  {
    SortBy(Filter(Bounded, JoinRows(t)), ByMidpointDesc)
  }

  /** get_top_vacancies_by_salary: `LIMIT limit`; a negative limit is an error (None). */
  function TopRows(t: Tables, limit: int): Option<seq<JoinedRow>>
  {
    if limit < 0 then None else Some(Limit(RankedRows(t), limit))
  }

  /** get_all_vacancies lists every vacancy whose employer exists, once, ordered by company then title. */
  lemma AllVacancyRowsSpec(t: Tables)
    ensures Selects(t, AllVacancyRows(t), AnyRow)
    ensures SortedBy(ByCompanyTitle, AllVacancyRows(t))
  {
    JoinSelectsAll(t);
    SortSelects(t, JoinRows(t), AnyRow, ByCompanyTitle);
    ByCompanyTitleTotal();
    SortBySorted(JoinRows(t), ByCompanyTitle);
  }

  /**
   * The above-average query lists exactly the joined vacancies whose
   * midpoint is strictly above the average, highest first; nothing when no
   * vacancy has a bound.
   */
  lemma HigherSalaryRowsSpec(t: Tables)
    ensures AvgMidpoint(t).None? ==> HigherSalaryRows(t) == []
    ensures (forall id :: id in t.vacancies ==> !HasBound(t.vacancies[id])) ==> HigherSalaryRows(t) == []
    ensures AvgMidpoint(t).Some? ==>
      && Selects(t, HigherSalaryRows(t), AboveAverage(AvgMidpoint(t).value))
      && SortedBy(ByMidpointDesc, HigherSalaryRows(t))
  {
    AvgMidpointNull(t);
    var avg := AvgMidpoint(t);
    if avg.Some? {
      var q := Filter(AboveAverage(avg.value), JoinRows(t));
      FilterSelects(t, AboveAverage(avg.value));
      SortSelects(t, q, AboveAverage(avg.value), ByMidpointDesc);
      ByMidpointDescTotal();
      SortBySorted(q, ByMidpointDesc);
    }
  }

  /** Every vacancy the above-average query lists has a midpoint above the average. */
  lemma HigherSalaryRowsAbove(t: Tables)
    requires AvgMidpoint(t).Some?
    ensures forall i :: 0 <= i < |HigherSalaryRows(t)| ==>
      var id := HigherSalaryRows(t)[i].vacancyId;
      id in t.vacancies && Midpoint(t.vacancies[id]) as real > AvgMidpoint(t).value
  {
    HigherSalaryRowsSpec(t);
    var q := HigherSalaryRows(t);
    forall i | 0 <= i < |q|
      ensures q[i].vacancyId in t.vacancies && Midpoint(t.vacancies[q[i].vacancyId]) as real > AvgMidpoint(t).value
    {
      assert AboveAverage(AvgMidpoint(t).value)(q[i]);
    }
  }

  /** Not every vacancy with a bound is above the average: one with the least midpoint is left out. */
  lemma HigherSalaryLeavesOneOut(t: Tables)
    requires AvgMidpoint(t).Some?
    ensures exists id ::
      && id in t.vacancies && HasBound(t.vacancies[id])
      && (forall j :: j in t.vacancies && HasBound(t.vacancies[j]) ==> Midpoint(t.vacancies[id]) <= Midpoint(t.vacancies[j]))
      && (forall i :: 0 <= i < |HigherSalaryRows(t)| ==> HigherSalaryRows(t)[i].vacancyId != id)
  {
    var id := LeastBounded(t);
    HigherSalaryRowsAbove(t);
  }

  /** A vacancy with a bound and the least midpoint; that midpoint is at most the average. */
  lemma LeastBounded(t: Tables) returns (id: int)
    requires AvgMidpoint(t).Some?
    ensures id in t.vacancies && HasBound(t.vacancies[id])
    ensures forall j :: j in t.vacancies && HasBound(t.vacancies[j]) ==> Midpoint(t.vacancies[id]) <= Midpoint(t.vacancies[j])
    ensures Midpoint(t.vacancies[id]) as real <= AvgMidpoint(t).value
  {
    var ids := BoundedIds(t);
    var m := MidpointsOf(t, ids);
    var lo, hi := ArgMin(m), ArgMax(m);
    id := ids[lo];
    forall j | j in t.vacancies && HasBound(t.vacancies[j])
      ensures m[lo] <= Midpoint(t.vacancies[j]) <= m[hi]
    {
      var k :| 0 <= k < |ids| && ids[k] == j;
      assert m[k] == Midpoint(t.vacancies[j]);
    }
    AvgMidpointWithin(t, m[lo], m[hi]);
  }

  /** TitleLike, for a keyword without LIKE's special characters, is case-insensitive substring search. */
  function ContainsKeyword(keyword: string): JoinedRow -> bool
  {
    (r: JoinedRow) => IsSubstring(LowerStr(keyword), LowerStr(r.vacancy.title))
  }

  /**
   * The keyword query lists exactly the joined vacancies whose lower-cased
   * title contains the lower-cased keyword, ordered by company then title.
   */
  lemma KeywordRowsSpec(t: Tables, keyword: string)
    requires NoWildcards(keyword)
    ensures Selects(t, KeywordRows(t, keyword), ContainsKeyword(keyword))
    ensures SortedBy(ByCompanyTitle, KeywordRows(t, keyword))
  {
    var q := Filter(TitleLike(keyword), JoinRows(t));
    FilterSelects(t, TitleLike(keyword));
    SortSelects(t, q, TitleLike(keyword), ByCompanyTitle);
    LowerKeepsNoWildcards(keyword);
    forall r ensures TitleLike(keyword)(r) == ContainsKeyword(keyword)(r) {
      ContainsPattern(LowerStr(r.vacancy.title), LowerStr(keyword));
    }
    SelectsSameCondition(t, SortBy(q, ByCompanyTitle), TitleLike(keyword), ContainsKeyword(keyword));
    ByCompanyTitleTotal();
    SortBySorted(q, ByCompanyTitle);
  }

  /** The candidates of the top-N query: every joined vacancy with a bound, once, highest midpoint first. */
  lemma RankedRowsSpec(t: Tables)
    ensures Selects(t, RankedRows(t), Bounded)
    ensures SortedBy(ByMidpointDesc, RankedRows(t))
  {
    var q := Filter(Bounded, JoinRows(t));
    FilterSelects(t, Bounded);
    SortSelects(t, q, Bounded, ByMidpointDesc);
    ByMidpointDescTotal();
    SortBySorted(q, ByMidpointDesc);
  }

  /** A negative limit is an error; otherwise the result is the first `limit` candidates, or all of them. */
  lemma TopRowsPrefix(t: Tables, limit: int)
    ensures TopRows(t, limit).None? <==> limit < 0
    ensures limit >= 0 ==>
      var top := TopRows(t, limit).value;
      && |top| == (if limit < |RankedRows(t)| then limit else |RankedRows(t)|)
      && top == RankedRows(t)[..|top|]
  {
  }

  /**
   * Top-N returns at most `limit` joined vacancies with a bound, each once,
   * highest midpoint first, carrying what the join gives for them.
   */
  lemma TopRowsSpec(t: Tables, limit: int)
    requires limit >= 0
    ensures var top := TopRows(t, limit).value;
      && |top| <= limit
      && (forall i :: 0 <= i < |top| ==>
            Joins(t, top[i].vacancyId) && top[i] == JoinedRowOf(t, top[i].vacancyId) && HasBound(top[i].vacancy))
      && NoDup(top)
      && SortedBy(ByMidpointDesc, top)
  {
    RankedRowsSpec(t);
    TopRowsPrefix(t, limit);
    var ranked := RankedRows(t);
    var top := TopRows(t, limit).value;
    PrefixKeepsOrder(ranked, |top|, ByMidpointDesc);
    forall i | 0 <= i < |top|
      ensures Joins(t, top[i].vacancyId) && top[i] == JoinedRowOf(t, top[i].vacancyId) && HasBound(top[i].vacancy)
    {
      assert top[i] == ranked[i];
      assert Bounded(ranked[i]);
    }
  }

  /** With no more candidates than the limit, every joined vacancy with a bound is returned. */
  lemma TopRowsAll(t: Tables, limit: int)
    requires 0 <= limit && |RankedRows(t)| <= limit
    ensures Selects(t, TopRows(t, limit).value, Bounded)
  {
    RankedRowsSpec(t);
  }

  /** No joined vacancy with a bound that is left out has a higher midpoint than one returned. */
  lemma TopRowsNoneBetterLeftOut(t: Tables, limit: int, id: int)
    requires limit >= 0
    requires Joins(t, id) && HasBound(t.vacancies[id]) && JoinedRowOf(t, id) !in TopRows(t, limit).value
    ensures forall i :: 0 <= i < |TopRows(t, limit).value| ==>
      Midpoint(t.vacancies[id]) <= Midpoint(TopRows(t, limit).value[i].vacancy)
  {
    RankedRowsSpec(t);
    TopRowsPrefix(t, limit);
    var ranked := RankedRows(t);
    var top := TopRows(t, limit).value;
    var r := JoinedRowOf(t, id);
    assert Bounded(r);
    var j :| 0 <= j < |ranked| && ranked[j] == r;
    forall i | 0 <= i < |top| ensures Midpoint(t.vacancies[id]) <= Midpoint(top[i].vacancy) {
      assert top[i] == ranked[i];
      assert ByMidpointDesc(ranked[i], ranked[j]);
    }
  }

  // ---------------------------------------------------------------------
  // Company counts
  // ---------------------------------------------------------------------

  /** The vacancies whose employer_id is e: what COUNT(v.vacancy_id) counts in e's group. */
  function VacanciesOf(t: Tables, e: int): set<int>
  {
    set id | id in t.vacancies && t.vacancies[id].employerId == Some(e)
  }

  /** One group of the LEFT JOIN ... GROUP BY e.employer_id, e.name. */
  datatype CountRow = CountRow(employerId: int, company: string, count: nat)

  function GroupsOf(t: Tables, ks: seq<int>): (g: seq<CountRow>)
    requires forall i :: 0 <= i < |ks| ==> ks[i] in t.employers
    ensures |g| == |ks|
    ensures forall i :: 0 <= i < |ks| ==> g[i] == CountRow(ks[i], t.employers[ks[i]].name, |VacanciesOf(t, ks[i])|)
  {
    if ks == [] then []
    else [CountRow(ks[0], t.employers[ks[0]].name, |VacanciesOf(t, ks[0])|)] + GroupsOf(t, ks[1..])
  }

  predicate ByCountDesc(a: CountRow, b: CountRow)
  {
    a.count >= b.count
  }

  lemma ByCountDescTotal()
    ensures TotalPreorder(ByCountDesc)
  {
  }

  /** g is the group of its employer: that employer's name and the number of vacancies naming it. */
  ghost predicate IsGroupOf(t: Tables, g: CountRow)
  {
    g.employerId in t.employers && g == CountRow(g.employerId, t.employers[g.employerId].name, |VacanciesOf(t, g.employerId)|)
  }

  /** The groups, one per employer row, in key order. */
  function Groups(t: Tables): seq<CountRow>
  {
    GroupsOf(t, SortedKeys(t.employers.Keys))
  }

  /** get_companies_and_vacancies_count: the groups, largest count first. */
  function CountRows(t: Tables): seq<CountRow>
  {
    SortBy(Groups(t), ByCountDesc)
  }

  lemma GroupsAreGroups(t: Tables)
    ensures |Groups(t)| == |t.employers|
    ensures forall i :: 0 <= i < |Groups(t)| ==> IsGroupOf(t, Groups(t)[i])
  {
    var ks := SortedKeys(t.employers.Keys);
    assert |ks| == |t.employers.Keys| == |t.employers|;
  }

  lemma GroupsCover(t: Tables, e: int)
    requires e in t.employers
    ensures CountRow(e, t.employers[e].name, |VacanciesOf(t, e)|) in Groups(t)
  {
    var ks := SortedKeys(t.employers.Keys);
    var i :| 0 <= i < |ks| && ks[i] == e;
    assert Groups(t)[i] == CountRow(e, t.employers[e].name, |VacanciesOf(t, e)|);
  }

  lemma GroupsNoDup(t: Tables)
    ensures NoDup(Groups(t))
  {
    var ks := SortedKeys(t.employers.Keys);
    var g := Groups(t);
    forall i, j | 0 <= i < j < |g| ensures g[i] != g[j] {
      assert g[i].employerId == ks[i] < ks[j] == g[j].employerId;
    }
  }

  /** One group per employer row, with its name and the number of vacancies naming it, none twice. */
  lemma GroupsSpec(t: Tables)
    ensures |Groups(t)| == |t.employers|
    ensures forall i :: 0 <= i < |Groups(t)| ==> IsGroupOf(t, Groups(t)[i])
    ensures forall e :: e in t.employers ==> CountRow(e, t.employers[e].name, |VacanciesOf(t, e)|) in Groups(t)
    ensures NoDup(Groups(t))
  {
    GroupsAreGroups(t);
    forall e | e in t.employers ensures CountRow(e, t.employers[e].name, |VacanciesOf(t, e)|) in Groups(t) {
      GroupsCover(t, e);
    }
    GroupsNoDup(t);
  }

  lemma CountRowsLength(t: Tables)
    ensures |CountRows(t)| == |t.employers|
  {
    GroupsSpec(t);
    SortByMembers(Groups(t), ByCountDesc);
  }

  lemma CountRowsAreGroups(t: Tables)
    ensures forall i :: 0 <= i < |CountRows(t)| ==> IsGroupOf(t, CountRows(t)[i])
  {
    GroupsSpec(t);
    SortKeeps(Groups(t), ByCountDesc, g => IsGroupOf(t, g));
  }

  lemma CountRowsCover(t: Tables)
    ensures forall e :: e in t.employers ==> CountRow(e, t.employers[e].name, |VacanciesOf(t, e)|) in CountRows(t)
  {
    GroupsSpec(t);
    SortByMembers(Groups(t), ByCountDesc);
  }

  /**
   * One entry per employer row, those without vacancies included (count 0),
   * each with its name and the number of vacancies naming it.
   */
  lemma CountRowsSpec(t: Tables)
    ensures |CountRows(t)| == |t.employers|
    ensures forall i :: 0 <= i < |CountRows(t)| ==> IsGroupOf(t, CountRows(t)[i])
    ensures forall e :: e in t.employers ==> CountRow(e, t.employers[e].name, |VacanciesOf(t, e)|) in CountRows(t)
  {
    CountRowsLength(t);
    CountRowsAreGroups(t);
    CountRowsCover(t);
  }

  /** No employer is listed twice. */
  lemma CountRowsDistinct(t: Tables)
    ensures forall i, j :: 0 <= i < j < |CountRows(t)| ==> CountRows(t)[i].employerId != CountRows(t)[j].employerId
  {
    var r := CountRows(t);
    CountRowsSpec(t);
    GroupsSpec(t);
    SortByNoDup(Groups(t), ByCountDesc);
    forall i, j | 0 <= i < j < |r| ensures r[i].employerId != r[j].employerId {
      assert IsGroupOf(t, r[i]) && IsGroupOf(t, r[j]);
      assert r[i] != r[j];
    }
  }

  /** The counts never increase along the list. */
  lemma CountRowsSorted(t: Tables)
    ensures forall i, j :: 0 <= i < j < |CountRows(t)| ==> CountRows(t)[i].count >= CountRows(t)[j].count
  {
    ByCountDescTotal();
    SortBySorted(Groups(t), ByCountDesc);
  }

  function SumCounts(rows: seq<CountRow>): int
  {
    if rows == [] then 0 else rows[0].count + SumCounts(rows[1..])
  }

  lemma {:induction false} SumCountsInsert(x: CountRow, s: seq<CountRow>, le: (CountRow, CountRow) -> bool)
    ensures SumCounts(Insert(x, s, le)) == x.count + SumCounts(s)
  {
    if s != [] && !le(x, s[0]) {
      SumCountsInsert(x, s[1..], le);
      var r := Insert(x, s, le);
      assert r[0] == s[0] && r[1..] == Insert(x, s[1..], le);
    }
  }

  /** Sorting the groups does not change the total of their counts. */
  lemma {:induction false} SumCountsSorted(s: seq<CountRow>, le: (CountRow, CountRow) -> bool)
    ensures SumCounts(SortBy(s, le)) == SumCounts(s)
  {
    if s != [] {
      SumCountsSorted(s[1..], le);
      SumCountsInsert(s[0], SortBy(s[1..], le), le);
    }
  }

  /** The vacancies whose employer_id is one of ks. */
  function OwnedBy(t: Tables, ks: seq<int>): set<int>
  {
    set id | id in t.vacancies && t.vacancies[id].employerId.Some? && t.vacancies[id].employerId.value in ks
  }

  lemma {:induction false} GroupsAddUp(t: Tables, ks: seq<int>)
    requires forall i :: 0 <= i < |ks| ==> ks[i] in t.employers
    requires NoDup(ks)
    ensures SumCounts(GroupsOf(t, ks)) == |OwnedBy(t, ks)|
  {
    if ks == [] {
      assert OwnedBy(t, ks) == {};
    } else {
      GroupsAddUp(t, ks[1..]);
      var a := VacanciesOf(t, ks[0]);
      var b := OwnedBy(t, ks[1..]);
      assert ks[0] !in ks[1..];
      assert OwnedBy(t, ks) == a + b;
      assert a * b == {};
    }
  }

  /** Under the foreign key, the employers of ks, when they are all, own every vacancy that names one. */
  lemma OwnedByAll(t: Tables, ks: seq<int>)
    requires forall id :: id in t.vacancies && t.vacancies[id].employerId.Some? ==>
      t.vacancies[id].employerId.value in t.employers
    requires forall e :: e in t.employers ==> e in ks
    ensures OwnedBy(t, ks) == set id | id in t.vacancies && t.vacancies[id].employerId.Some?
  {
    forall id | id in t.vacancies && t.vacancies[id].employerId.Some? ensures id in OwnedBy(t, ks) {
      var e := t.vacancies[id].employerId.value;
      assert e in t.employers;
      assert e in ks;
    }
  }

  /** The counts add up to the number of vacancies that name an employer: no vacancy is counted twice or lost. */
  lemma CountsAddUp(t: Tables)
    requires TablesValid(t)
    ensures SumCounts(CountRows(t)) == |set id | id in t.vacancies && t.vacancies[id].employerId.Some?|
  {
    var ks := SortedKeys(t.employers.Keys);
    GroupsAddUp(t, ks);
    SumCountsSorted(Groups(t), ByCountDesc);
    OwnedByAll(t, ks);
  }

  // ---------------------------------------------------------------------
  // The Python loops over cursor.fetchall()
  // ---------------------------------------------------------------------

  /** `{'company': ..., 'vacancies_count': ...}`. */
  datatype CompanyEntry = CompanyEntry(company: string, vacanciesCount: int)

  /** `{'company': ..., 'title': ..., 'salary': ..., 'url': ...}`. */
  datatype VacancyEntry = VacancyEntry(company: string, title: string, salary: string, url: string)

  /** The same with `'avg_salary'`. */
  datatype TopEntry = TopEntry(company: string, title: string, salary: string, url: string, avgSalary: int)

  function ListingEntry(r: JoinedRow): VacancyEntry
  {
    VacancyEntry(r.company, r.vacancy.title, SalaryInfo(r.vacancy.salaryFrom, r.vacancy.salaryTo, r.vacancy.currency), r.vacancy.url)
  }

  function RangedEntry(r: JoinedRow): VacancyEntry
  {
    VacancyEntry(r.company, r.vacancy.title, SalaryRange(r.vacancy.salaryFrom, r.vacancy.salaryTo, r.vacancy.currency), r.vacancy.url)
  }

  function RankedEntry(r: JoinedRow): TopEntry
  {
    TopEntry(r.company, r.vacancy.title, SalaryRange(r.vacancy.salaryFrom, r.vacancy.salaryTo, r.vacancy.currency),
      r.vacancy.url, Midpoint(r.vacancy))
  }

  /** The loop of get_all_vacancies and get_vacancies_with_keyword: "не указана" unless a bound is truthy. */
  method ListEntries(rows: seq<JoinedRow>) returns (result: seq<VacancyEntry>)
    ensures |result| == |rows|
    ensures forall i :: 0 <= i < |rows| ==> result[i] == ListingEntry(rows[i])
  {
    result := [];
    for i := 0 to |rows|
      invariant |result| == i
      invariant forall k :: 0 <= k < i ==> result[k] == ListingEntry(rows[k])
    {
      var v := rows[i].vacancy;
      var salaryInfo := "";
      if Truthy(v.salaryFrom) || Truthy(v.salaryTo) {
        salaryInfo := SalaryRange(v.salaryFrom, v.salaryTo, v.currency);
      } else {
        salaryInfo := NotStated;
      }
      result := result + [VacancyEntry(rows[i].company, v.title, salaryInfo, v.url)];
    }
  }

  /** The loop of get_vacancies_with_higher_salary: always the range text. */
  method RangeEntries(rows: seq<JoinedRow>) returns (result: seq<VacancyEntry>)
    ensures |result| == |rows|
    ensures forall i :: 0 <= i < |rows| ==> result[i] == RangedEntry(rows[i])
  {
    result := [];
    for i := 0 to |rows|
      invariant |result| == i
      invariant forall k :: 0 <= k < i ==> result[k] == RangedEntry(rows[k])
    {
      var v := rows[i].vacancy;
      var salaryInfo := SalaryRange(v.salaryFrom, v.salaryTo, v.currency);
      result := result + [VacancyEntry(rows[i].company, v.title, salaryInfo, v.url)];
    }
  }

  /** The loop of get_companies_and_vacancies_count. */
  method CountEntries(rows: seq<CountRow>) returns (result: seq<CompanyEntry>)
    ensures |result| == |rows|
    ensures forall i :: 0 <= i < |rows| ==> result[i] == CompanyEntry(rows[i].company, rows[i].count)
  {
    result := [];
    for i := 0 to |rows|
      invariant |result| == i
      invariant forall k :: 0 <= k < i ==> result[k] == CompanyEntry(rows[k].company, rows[k].count)
    {
      result := result + [CompanyEntry(rows[i].company, rows[i].count)];
    }
  }

  method GetCompaniesAndVacanciesCount(db: Option<Tables>) returns (result: seq<CompanyEntry>)
    ensures db.None? ==> result == []
    ensures db.Some? ==> |result| == |CountRows(db.value)|
    ensures db.Some? ==> forall i :: 0 <= i < |result| ==>
      result[i] == CompanyEntry(CountRows(db.value)[i].company, CountRows(db.value)[i].count)
  {
    if db.None? {
      return [];
    }
    result := CountEntries(CountRows(db.value));
  }

  method GetAllVacancies(db: Option<Tables>) returns (result: seq<VacancyEntry>)
    ensures db.None? ==> result == []
    ensures db.Some? ==> |result| == |AllVacancyRows(db.value)|
    ensures db.Some? ==> forall i :: 0 <= i < |result| ==> result[i] == ListingEntry(AllVacancyRows(db.value)[i])
  {
    if db.None? {
      return [];
    }
    result := ListEntries(AllVacancyRows(db.value));
  }

  method GetVacanciesWithHigherSalary(db: Option<Tables>) returns (result: seq<VacancyEntry>)
    ensures db.None? ==> result == []
    ensures db.Some? ==> |result| == |HigherSalaryRows(db.value)|
    ensures db.Some? ==> forall i :: 0 <= i < |result| ==> result[i] == RangedEntry(HigherSalaryRows(db.value)[i])
  {
    if db.None? {
      return [];
    }
    result := RangeEntries(HigherSalaryRows(db.value));
  }

  method GetVacanciesWithKeyword(db: Option<Tables>, keyword: string) returns (result: seq<VacancyEntry>)
    ensures db.None? ==> result == []
    ensures db.Some? ==> |result| == |KeywordRows(db.value, keyword)|
    ensures db.Some? ==> forall i :: 0 <= i < |result| ==> result[i] == ListingEntry(KeywordRows(db.value, keyword)[i])
  {
    if db.None? {
      return [];
    }
    result := ListEntries(KeywordRows(db.value, keyword));
  }

  /** The loop of get_top_vacancies_by_salary: the range text and the midpoint. */
  method RankEntries(rows: seq<JoinedRow>) returns (result: seq<TopEntry>)
    ensures |result| == |rows|
    ensures forall i :: 0 <= i < |rows| ==> result[i] == RankedEntry(rows[i])
  {
    result := [];
    for i := 0 to |rows|
      invariant |result| == i
      invariant forall k :: 0 <= k < i ==> result[k] == RankedEntry(rows[k])
    {
      var v := rows[i].vacancy;
      var salaryInfo := SalaryRange(v.salaryFrom, v.salaryTo, v.currency);
      result := result + [TopEntry(rows[i].company, v.title, salaryInfo, v.url, Midpoint(v))];
    }
  }

  method GetTopVacanciesBySalary(db: Option<Tables>, limit: int) returns (result: seq<TopEntry>)
    ensures db.None? || limit < 0 ==> result == []
    ensures db.Some? && limit >= 0 ==> |result| == |TopRows(db.value, limit).value| <= limit
    ensures db.Some? && limit >= 0 ==> forall i :: 0 <= i < |result| ==>
      result[i] == RankedEntry(TopRows(db.value, limit).value[i])
  {
    if db.None? || limit < 0 {
      return [];
    }
    result := RankEntries(TopRows(db.value, limit).value);
  }
}
