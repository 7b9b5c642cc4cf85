/**
 * The job-board client (class HHAPI): per-id employer lookups, the paginated
 * vacancy listing of one employer, and the listing of several employers
 * collected into a dictionary.
 *
 * The HTTP session is replaced by oracles. `lookup(id, k)` is the server's
 * answer to the k-th lookup of a run, made for `id` (None: the request raised
 * a RequestException). A page feed is the sequence of answers to one
 * listing's page requests in the order they are made; a page past the end
 * of the feed fails, so every listing ends. `listing(id, k)` is the feed
 * served to the k-th listing of a run, made for `id`.
 */
module Api {
  import opened Payloads

  type EmployerId = string

  /** The answer to one `GET vacancies` page request. */
  datatype PageResponse<V> =
    | Failure  // a RequestException: HTTP error status, transport error, undecodable JSON
    | Page(items: Option<seq<V>>, pages: Option<int>)  // None: the key is absent

  /** The answer to the request for page `page`. */
  function Fetch<V>(feed: seq<PageResponse<V>>, page: nat): PageResponse<V>
  {
    if page < |feed| then feed[page] else Failure
  }

  /** The loop goes on to the next page: `page >= pages - 1` is false, `pages` defaulting to 0. */
  predicate Continues<V>(r: PageResponse<V>, page: nat)
  {
    r.Page? && page < OrElse(r.pages, 0) - 1
  }

  /** The vacancies collected from page `page` on. */
  function Harvest<V>(feed: seq<PageResponse<V>>, page: nat): (r: seq<V>)
    ensures forall x :: x in r ==> exists k :: page <= k < |feed| && feed[k].Page? && x in OrElse(feed[k].items, [])
    decreases |feed| - page
  {
    if page >= |feed| then []
    else
      match feed[page]
      case Failure => []
      case Page(items, pages) =>
        OrElse(items, []) + (if Continues(feed[page], page) then Harvest(feed, page + 1) else [])
  }

  /** The number of page requests made from page `page` on, the failing one included. */
  function RequestCount<V>(feed: seq<PageResponse<V>>, page: nat): (n: nat)
    ensures n >= 1
    ensures page <= |feed| ==> n <= |feed| - page + 1
    decreases |feed| - page
  {
    if page < |feed| && Continues(feed[page], page) then 1 + RequestCount(feed, page + 1) else 1
  }

  /** The items of the answers in `rs`, in order; a failure and an absent `items` give none. */
  function ItemsOf<V>(rs: seq<PageResponse<V>>): seq<V>
  {
    if rs == [] then []
    else (if rs[0].Page? then OrElse(rs[0].items, []) else []) + ItemsOf(rs[1..])
  }

  /** The answers to `n` consecutive page requests starting at page `page`. */
  function Answers<V>(feed: seq<PageResponse<V>>, page: nat, n: nat): (rs: seq<PageResponse<V>>)
    ensures |rs| == n
    ensures forall i :: 0 <= i < n ==> rs[i] == Fetch(feed, page + i)
    decreases n
  {
    if n == 0 then [] else [Fetch(feed, page)] + Answers(feed, page + 1, n - 1)
  }

  /**
   * What the loop returns is the concatenation, in request order, of the
   * items of every page it requested: a failed request adds nothing.
   */
  lemma {:induction false} HarvestIsRequestedItems<V>(feed: seq<PageResponse<V>>, page: nat)
    ensures Harvest(feed, page) == ItemsOf(Answers(feed, page, RequestCount(feed, page)))
    decreases |feed| - page
  {
    var n := RequestCount(feed, page);
    var rs := Answers(feed, page, n);
    assert rs[0] == Fetch(feed, page);
    if page < |feed| && Continues(feed[page], page) {
      HarvestIsRequestedItems(feed, page + 1);
      assert rs[1..] == Answers(feed, page + 1, n - 1);
    } else {
      assert rs[1..] == [];
    }
  }

  /** Every request but the last one was answered with a page that let the loop go on. */
  lemma {:induction false} OnlyTheLastRequestStops<V>(feed: seq<PageResponse<V>>, page: nat, i: nat)
    requires i < RequestCount(feed, page) - 1
    ensures Continues(Fetch(feed, page + i), page + i)
    decreases i
  {
    if i > 0 {
      OnlyTheLastRequestStops(feed, page + 1, i - 1);
    }
  }

  /** The last request made was answered by a failure or by a page with `page >= pages - 1`. */
  lemma {:induction false} LastRequestStops<V>(feed: seq<PageResponse<V>>, page: nat)
    ensures !Continues(Fetch(feed, page + RequestCount(feed, page) - 1), page + RequestCount(feed, page) - 1)
    decreases |feed| - page
  {
    if page < |feed| && Continues(feed[page], page) {
      LastRequestStops(feed, page + 1);
    }
  }

  /**
   * While every page reports the same total `P`, the loop requests exactly
   * max(1, P) pages and returns their items in page order; an absent `pages`
   * counts as P = 0, so only page 0 is requested.
   */
  lemma {:induction false} UniformPageCount<V>(feed: seq<PageResponse<V>>, total: int, page: nat)
    requires page < (if total > 1 then total else 1) <= |feed|
    requires forall i :: page <= i < (if total > 1 then total else 1) ==>
      feed[i].Page? && OrElse(feed[i].pages, 0) == total
    ensures RequestCount(feed, page) == (if total > 1 then total else 1) - page
    ensures Harvest(feed, page) == ItemsOf(feed[page..(if total > 1 then total else 1)])
    decreases |feed| - page
  {
    var last := if total > 1 then total else 1;
    var rest := feed[page..last];
    assert rest[0] == feed[page];
    if page + 1 < last {
      UniformPageCount(feed, total, page + 1);
      assert rest[1..] == feed[page + 1..last];
    } else {
      assert rest[1..] == [];
    }
  }

  /**
   * A failure answering page k, after pages 0..k-1 all let the loop go on,
   * ends the loop with exactly the items of pages 0..k-1.
   */
  lemma {:induction false} FailureKeepsEarlierPages<V>(feed: seq<PageResponse<V>>, k: nat, page: nat)
    requires page <= k && page <= |feed|
    requires forall i :: page <= i < k ==> Continues(Fetch(feed, i), i)
    requires Fetch(feed, k).Failure?
    ensures k <= |feed|
    ensures RequestCount(feed, page) == k - page + 1
    ensures Harvest(feed, page) == ItemsOf(feed[page..k])
    decreases k - page
  {
    if page < k {
      assert Continues(Fetch(feed, page), page);
      FailureKeepsEarlierPages(feed, k, page + 1);
      var rest := feed[page..k];
      assert rest[0] == feed[page] && rest[1..] == feed[page + 1..k];
    } else {
      assert feed[page..k] == [];
    }
  }

  /** One step of the pagination: the answer to page `page` and what follows it. */
  lemma HarvestStep<V>(feed: seq<PageResponse<V>>, page: nat)
    requires Fetch(feed, page).Page?
    ensures Harvest(feed, page) ==
      OrElse(Fetch(feed, page).items, []) + (if Continues(Fetch(feed, page), page) then Harvest(feed, page + 1) else [])
    ensures RequestCount(feed, page) == if Continues(Fetch(feed, page), page) then 1 + RequestCount(feed, page + 1) else 1
  {
  }

  /**
   * `get_vacancies_by_employer`: request pages 0, 1, 2, ... and extend the
   * result with each page's items until a page reports it is the last or a
   * request fails; the partial result is kept on failure.
   */
  method GetVacanciesByEmployer<V>(feed: seq<PageResponse<V>>) returns (vacancies: seq<V>, ghost requested: seq<nat>)
    ensures vacancies == Harvest(feed, 0)
    ensures |requested| == RequestCount(feed, 0)
    ensures forall i :: 0 <= i < |requested| ==> requested[i] == i
  {
    vacancies := [];
    requested := [];
    var page: nat := 0;
    while true
      invariant page <= |feed|
      invariant |requested| == page
      invariant forall i :: 0 <= i < page ==> requested[i] == i
      invariant vacancies + Harvest(feed, page) == Harvest(feed, 0)
      invariant RequestCount(feed, 0) == page + RequestCount(feed, page)
      decreases |feed| - page
    {
      requested := requested + [page];
      var response := Fetch(feed, page);
      if response.Failure? {
        break;
      }
      HarvestStep(feed, page);
      var items := OrElse(response.items, []);
      assert (vacancies + items) + (if Continues(response, page) then Harvest(feed, page + 1) else []) == Harvest(feed, 0);
      vacancies := vacancies + items;
      var pages := OrElse(response.pages, 0);
      if page >= pages - 1 {
        break;
      }
      page := page + 1;
    }
  }

  /** The position k is the last one that holds ids[k]. */
  ghost predicate LastOccurrence(ids: seq<EmployerId>, k: nat)
    requires k < |ids|
  {
    forall j :: k < j < |ids| ==> ids[j] != ids[k]
  }

  /** The records that the lookups made from position `from` on returned, in order. */
  function Resolved(lookup: (EmployerId, nat) -> Option<EmployerJson>, ids: seq<EmployerId>, from: nat): (r: seq<EmployerJson>)
    ensures |r| <= if from <= |ids| then |ids| - from else 0
    decreases |ids| - from
  {
    if from >= |ids| then []
    else (if lookup(ids[from], from).Some? then [lookup(ids[from], from).value] else []) + Resolved(lookup, ids, from + 1)
  }

  /**
   * The resolved records are exactly the successful lookups' records: each
   * one comes from a lookup of one of the ids, every successful lookup
   * contributes, and there are never more records than ids.
   */
  lemma {:induction false} ResolvedSpec(lookup: (EmployerId, nat) -> Option<EmployerJson>, ids: seq<EmployerId>, from: nat)
    requires from <= |ids|
    ensures |Resolved(lookup, ids, from)| <= |ids| - from
    ensures forall e :: e in Resolved(lookup, ids, from) <==>
      exists k :: from <= k < |ids| && lookup(ids[k], k) == Some(e)
    decreases |ids| - from
  {
    if from < |ids| {
      ResolvedSpec(lookup, ids, from + 1);
      var r := Resolved(lookup, ids, from);
      forall e | exists k :: from <= k < |ids| && lookup(ids[k], k) == Some(e) ensures e in r {
        var k :| from <= k < |ids| && lookup(ids[k], k) == Some(e);
        if k > from {
          assert e in Resolved(lookup, ids, from + 1);
        }
      }
    }
  }

  /** Every lookup succeeding gives one record per id; every lookup failing gives none. */
  lemma {:induction false} ResolvedCount(lookup: (EmployerId, nat) -> Option<EmployerJson>, ids: seq<EmployerId>, from: nat)
    requires from <= |ids|
    ensures (forall k :: from <= k < |ids| ==> lookup(ids[k], k).Some?) ==> |Resolved(lookup, ids, from)| == |ids| - from
    ensures (forall k :: from <= k < |ids| ==> lookup(ids[k], k).None?) ==> Resolved(lookup, ids, from) == []
    decreases |ids| - from
  {
    if from < |ids| {
      ResolvedCount(lookup, ids, from + 1);
    }
  }

  /** One step of the employer requests: the records kept so far, extended by the lookup at position k. */
  lemma ResolvedStep(lookup: (EmployerId, nat) -> Option<EmployerJson>, ids: seq<EmployerId>, k: nat, kept: seq<EmployerJson>)
    requires k < |ids|
    requires kept + Resolved(lookup, ids, k) == Resolved(lookup, ids, 0)
    ensures (if lookup(ids[k], k).Some? then kept + [lookup(ids[k], k).value] else kept) + Resolved(lookup, ids, k + 1)
      == Resolved(lookup, ids, 0)
  {
    var rest := Resolved(lookup, ids, k + 1);
    var head := if lookup(ids[k], k).Some? then [lookup(ids[k], k).value] else [];
    assert Resolved(lookup, ids, k) == head + rest;
    ConcatAssoc(kept, head, rest);
    if head == [] {
      assert kept + head == kept;
    }
  }

  /** Sequence concatenation regrouped, stated on its own so that the step above stays cheap to check. */
  lemma ConcatAssoc<T>(a: seq<T>, b: seq<T>, c: seq<T>)
    ensures a + (b + c) == (a + b) + c
  {
  }

  /**
   * `get_employers`: the records of exactly the lookups that succeeded, in
   * the order of the ids; a failed lookup is skipped and nothing is raised.
   */
  method GetEmployers(lookup: (EmployerId, nat) -> Option<EmployerJson>, employerIds: seq<EmployerId>)
    returns (employers: seq<EmployerJson>)
    ensures employers == Resolved(lookup, employerIds, 0)
  {
    employers := [];
    for k := 0 to |employerIds|
      invariant employers + Resolved(lookup, employerIds, k) == Resolved(lookup, employerIds, 0)
    {
      var response := lookup(employerIds[k], k);
      ResolvedStep(lookup, employerIds, k, employers);
      if response.Some? {
        employers := employers + [response.value];
      }
    }
  }

  /**
   * `get_all_vacancies`: a key for every id; the value for an id is what the
   * listing made at its last position returned, earlier listings for the
   * same id being overwritten.
   */
  method GetAllVacancies<V>(listing: (EmployerId, nat) -> seq<PageResponse<V>>, employerIds: seq<EmployerId>)
    returns (all: map<EmployerId, seq<V>>)
    ensures all.Keys == set k | 0 <= k < |employerIds| :: employerIds[k]
    ensures forall k :: 0 <= k < |employerIds| && LastOccurrence(employerIds, k) ==>
      all[employerIds[k]] == Harvest(listing(employerIds[k], k), 0)
  {
    all := map[];
    for k := 0 to |employerIds|
      invariant all.Keys == set j | 0 <= j < k :: employerIds[j]
      invariant forall j :: 0 <= j < k && (forall i :: j < i < k ==> employerIds[i] != employerIds[j]) ==>
        all[employerIds[j]] == Harvest(listing(employerIds[j], j), 0)
    {
      var vacancies, requested := GetVacanciesByEmployer(listing(employerIds[k], k));
      all := all[employerIds[k] := vacancies];
    }
  }
}
