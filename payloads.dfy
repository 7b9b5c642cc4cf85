/**
 * The values the program reads out of decoded JSON: a key of a decoded
 * object is absent, present with `null`, or present with a value, and the
 * source tells these apart (`d['k']` raises for an absent key, `d.get('k')`
 * gives None for both, `d.get('k', v)` gives v only for an absent key).
 * Also the shapes of the employer and vacancy payloads of the job-board API.
 */
module Payloads {

  /** A value that may be Python None / SQL NULL. */
  datatype Option<T> = None | Some(value: T)

  /** One key of a decoded JSON object. */
  datatype Field<T> = Missing | Null | Present(value: T)

  /** `d.get(key)`: an absent key and an explicit null both give None. */
  function Get<T>(f: Field<T>): Option<T>
  {
    if f.Present? then Some(f.value) else None
  }

  /** `d.get(key, default)`: only an absent key gives the default; null stays None. */
  function GetOr<T>(f: Field<T>, default: T): Option<T>
  {
    match f
    case Missing => Some(default)
    case Null => None
    case Present(v) => Some(v)
  }

  /** `x or default` / `COALESCE(x, default)` on a possibly-None value. */
  function OrElse<T>(o: Option<T>, default: T): T
  {
    if o.Some? then o.value else default
  }

  /** The `salary` object of a vacancy: keys `from`, `to` and `currency`. */
  datatype SalaryJson = SalaryJson(lower: Field<int>, upper: Field<int>, currency: Field<string>)

  /** The `snippet` object of a vacancy. */
  datatype SnippetJson = SnippetJson(requirement: Field<string>, responsibility: Field<string>)

  /** The `employer` object nested in a vacancy; only its `id` is read. */
  datatype EmployerRefJson = EmployerRefJson(id: Field<int>)

  /** An employer as returned by `GET employers/{id}`. */
  datatype EmployerJson = EmployerJson(
    id: Field<int>,
    name: Field<string>,
    alternateUrl: Field<string>,
    description: Field<string>,
    openVacancies: Field<int>)

  /** One item of the `items` list of `GET vacancies`. */
  datatype VacancyJson = VacancyJson(
    id: Field<int>,
    employer: Field<EmployerRefJson>,
    name: Field<string>,
    salary: Field<SalaryJson>,
    alternateUrl: Field<string>,
    snippet: Field<SnippetJson>,
    publishedAt: Field<string>)
}
