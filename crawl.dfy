/**
  `fetch_linkedin_jobs`: the pagination loop. The upstream is a finite
  sequence of answers to the successive search-page requests, and a function
  from job id to the answer of that job's detail request. The loop requests
  the page at offset `start`, collects the ids of its entries, fetches and
  keeps complete records until the cap is reached, advances `start` by the
  number of entries, and stops on a failed request, a non-200 status, an empty
  page, a short page or a full result list.
 */
module Crawler {
  import opened Wrappers
  import opened Text
  import opened Extract

  /**
    One `li` of a search page: the `data-entity-urn` attribute of its
    `div.base-card`, `None` when the div or the attribute is missing.
   */
  datatype Entry = Entry(entityUrn: Option<string>)

  /** The answer to one search-page request: the request raised, or a response with its entries. */
  datatype Page = PageFailure | PageResponse(status: int, entries: seq<Entry>)

  /** The returned records and the `start` offset of every page request made, in order. */
  datatype CrawlResult = CrawlResult(jobs: seq<JobRecord>, offsets: seq<nat>)

  /** A page with fewer entries than this is the last one. */
  const PageSize := 25

  /** The ids of a page's entries, in order, skipping entries without a truthy urn. */
  function PageIds(entries: seq<Entry>): seq<string>
    decreases |entries|
  {
    if entries == [] then []
    else
      (if Truthy(entries[0].entityUrn) then [JobId(entries[0].entityUrn.value)] else [])
      + PageIds(entries[1..])
  }

  /** The loop's acceptance test: a record came back and has a truthy title and company. */
  predicate Complete(d: Option<JobRecord>)
  {
    d.Some? && Truthy(d.value.jobTitle) && Truthy(d.value.company)
  }

  /** `fetch_job_details` applied to the answer the detail source gives for an id. */
  function Fetcher(details: string -> DetailPage): string -> Option<JobRecord>
  {
    id => Details(id, details(id))
  }

  /** The complete records fetched for `ids`, in id order. */
  function Accepted(ids: seq<string>, fetch: string -> Option<JobRecord>): seq<JobRecord>
    decreases |ids|
  {
    if ids == [] then []
    else (if Complete(fetch(ids[0])) then [fetch(ids[0]).value] else []) + Accepted(ids[1..], fetch)
  }

  /**
    The inner `for job_id in id_list` loop: append each complete record to
    `jobs` and stop as soon as `jobs` holds `cap` records.
   */
  function Harvest(ids: seq<string>, fetch: string -> Option<JobRecord>, jobs: seq<JobRecord>, cap: int): seq<JobRecord>
    decreases |ids|
  {
    if ids == [] then jobs
    else
      var d := fetch(ids[0]);
      var jobs' := if Complete(d) then jobs + [d.value] else jobs;
      if |jobs'| >= cap then jobs' else Harvest(ids[1..], fetch, jobs', cap)
  }

  /**
    The outer loop from its `t`-th page request on, with cursor `start` and
    the records `jobs` found so far. A request past the end of `pages` raises.
   */
  function CrawlFrom(pages: seq<Page>, fetch: string -> Option<JobRecord>, cap: int,
                     t: nat, start: nat, jobs: seq<JobRecord>): CrawlResult
    requires t <= |pages|
    decreases |pages| - t
  {
    if |jobs| >= cap then CrawlResult(jobs, [])
    else if t == |pages| then CrawlResult(jobs, [start])
    else match pages[t]
      case PageFailure => CrawlResult(jobs, [start])
      case PageResponse(status, entries) =>
        if status != 200 || entries == [] then CrawlResult(jobs, [start])
        else
          var jobs' := Harvest(PageIds(entries), fetch, jobs, cap);
          if |entries| < PageSize then CrawlResult(jobs', [start])
          else
            var rest := CrawlFrom(pages, fetch, cap, t + 1, start + |entries|, jobs');
            CrawlResult(rest.jobs, [start] + rest.offsets)
  }

  /** What `fetch_linkedin_jobs(search_request, max_jobs=cap)` returns, and the requests it makes. */
  function Crawl(pages: seq<Page>, details: string -> DetailPage, cap: int): CrawlResult
  {
    CrawlFrom(pages, Fetcher(details), cap, 0, 0, [])
  }

  // ---------------------------------------------------------------------------
  // The imperative crawler.

  /** The `for job in page_jobs` loop that collects the ids of a page. */
  method CollectIds(entries: seq<Entry>) returns (ids: seq<string>)
    ensures ids == PageIds(entries)
  {
    ids := [];
    var i := 0;
    while i < |entries|
      invariant 0 <= i <= |entries|
      invariant ids + PageIds(entries[i..]) == PageIds(entries)
    {
      var urn := entries[i].entityUrn;
      assert entries[i..][1..] == entries[i + 1..];
      if urn.Some? && urn.value != "" {
        ids := ids + [JobId(urn.value)];
      }
      i := i + 1;
    }
  }

  /** The `for job_id in id_list` loop: fetch each id's details and append the complete records until the cap. */
  method FetchPageJobs(ids: seq<string>, details: string -> DetailPage, jobs0: seq<JobRecord>, maxJobs: int)
    returns (jobs: seq<JobRecord>)
    requires |jobs0| < maxJobs
    ensures jobs == Harvest(ids, Fetcher(details), jobs0, maxJobs)
  {
    jobs := jobs0;
    var i := 0;
    while i < |ids|
      invariant 0 <= i <= |ids|
      invariant |jobs| < maxJobs
      invariant Harvest(ids[i..], Fetcher(details), jobs, maxJobs) == Harvest(ids, Fetcher(details), jobs0, maxJobs)
    {
      var d := FetchJobDetails(ids[i], details(ids[i]));
      assert d == Fetcher(details)(ids[i]);
      assert ids[i..][1..] == ids[i + 1..];
      if d.Some? && Truthy(d.value.jobTitle) && Truthy(d.value.company) {
        jobs := jobs + [d.value];
      }
      if |jobs| >= maxJobs {
        break;
      }
      // time.sleep(random.uniform(1, 2)) between detail requests: pacing is not modelled.
      i := i + 1;
    }
  }

  /**
    One pass of the `while len(job_list) < max_jobs` body: request page `t`
    at `start`, harvest its ids, and advance the cursor. `done` says the loop
    breaks after this request.
   */
  method CrawlPage(pages: seq<Page>, details: string -> DetailPage, maxJobs: int,
                   t: nat, start: nat, jobs: seq<JobRecord>)
    returns (jobs': seq<JobRecord>, start': nat, done: bool)
    requires t <= |pages| && |jobs| < maxJobs
    ensures done ==> CrawlFrom(pages, Fetcher(details), maxJobs, t, start, jobs) == CrawlResult(jobs', [start])
    ensures !done ==>
              && t < |pages|
              && var next := CrawlFrom(pages, Fetcher(details), maxJobs, t + 1, start', jobs');
                 CrawlFrom(pages, Fetcher(details), maxJobs, t, start, jobs) == CrawlResult(next.jobs, [start] + next.offsets)
  {
    jobs', start', done := jobs, start, true;
    if t == |pages| {
      return;
    }
    var page := pages[t];
    if page.PageFailure? || page.status != 200 {
      return;
    }
    var entries := page.entries;
    if |entries| == 0 {
      return;
    }
    var ids := CollectIds(entries);
    jobs' := FetchPageJobs(ids, details, jobs, maxJobs);
    start' := start + |entries|;
    if |entries| < PageSize {
      return;
    }
    done := |jobs'| >= maxJobs;
  }

  /** `fetch_linkedin_jobs`; it also returns the `start` offset of each page request it made. */
  method FetchLinkedinJobs(pages: seq<Page>, details: string -> DetailPage, maxJobs: int)
    returns (jobs: seq<JobRecord>, offsets: seq<nat>)
    ensures CrawlResult(jobs, offsets) == Crawl(pages, details, maxJobs)
  {
    jobs, offsets := [], [];
    var start: nat := 0;
    var t: nat := 0;
    while |jobs| < maxJobs
      invariant t <= |pages|
      invariant var rest := CrawlFrom(pages, Fetcher(details), maxJobs, t, start, jobs);
                Crawl(pages, details, maxJobs) == CrawlResult(rest.jobs, offsets + rest.offsets)
      decreases |pages| - t
    {
      ghost var offsets0 := offsets;
      ghost var start0 := start;
      offsets := offsets + [start];
      var done;
      jobs, start, done := CrawlPage(pages, details, maxJobs, t, start, jobs);
      if done {
        break;
      }
      ghost var next := CrawlFrom(pages, Fetcher(details), maxJobs, t + 1, start, jobs);
      assert offsets0 + ([start0] + next.offsets) == offsets + next.offsets;
      t := t + 1;
    }
  }

  // ---------------------------------------------------------------------------
  // Reference definitions for the crawl.

  /** `s` cut to at most `cap` elements; nothing when `cap` is not positive. */
  function Take<T>(s: seq<T>, cap: int): (r: seq<T>)
    ensures |r| <= |s| && (cap <= 0 ==> r == []) && (cap >= 0 ==> |r| <= cap)
  {
    if cap <= 0 then [] else if |s| <= cap then s else s[..cap]
  }

  /** `Take` keeps a prefix: its elements are those of `s` at the same positions. */
  lemma TakeElements<T>(s: seq<T>, cap: int)
    ensures forall j :: 0 <= j < |Take(s, cap)| ==> Take(s, cap)[j] == s[j]
  {
  }

  /** The ids a page request contributes: those of a 200 response, none otherwise. */
  function IdsOfRequest(pages: seq<Page>, u: nat): seq<string>
  {
    if u < |pages| && pages[u].PageResponse? && pages[u].status == 200
    then PageIds(pages[u].entries)
    else []
  }

  /** The ids of requests `from` to `to - 1`, in request order. */
  function IdsBetween(pages: seq<Page>, from: nat, to: nat): seq<string>
    decreases to - from
  {
    if from >= to then [] else IdsOfRequest(pages, from) + IdsBetween(pages, from + 1, to)
  }

  /**
    The requests at offsets `offsets`, made from request `t` on, were all but
    the last answered by a full 200 page, and each next offset is the previous
    one plus the number of entries on that page.
   */
  predicate Chained(pages: seq<Page>, t: nat, offsets: seq<nat>)
    decreases |offsets|
  {
    |offsets| <= 1 ||
      (&& t < |pages| && pages[t].PageResponse? && pages[t].status == 200
       && |pages[t].entries| >= PageSize
       && offsets[1] == offsets[0] + |pages[t].entries|
       && Chained(pages, t + 1, offsets[1..]))
  }

  /** Request `u` is one after which the loop stops, whatever the record count. */
  predicate StopsAt(pages: seq<Page>, u: nat)
  {
    || u >= |pages|
    || pages[u].PageFailure?
    || pages[u].status != 200
    || pages[u].entries == []
    || |pages[u].entries| < PageSize
  }

  /** Before request `last`, every prefix of requests from `t` on left fewer than `cap` records in `jobs`. */
  predicate BelowCapBefore(pages: seq<Page>, fetch: string -> Option<JobRecord>, cap: int,
                           t: nat, last: int, jobs: seq<JobRecord>)
  {
    forall u :: t < u <= last ==> UnderCap(pages, fetch, cap, t, u, jobs)
  }

  /** After requests `t` to `u - 1`, `jobs` and their accepted records stay below the cap. */
  predicate UnderCap(pages: seq<Page>, fetch: string -> Option<JobRecord>, cap: int,
                     t: nat, u: nat, jobs: seq<JobRecord>)
  {
    |jobs| + |Accepted(IdsBetween(pages, t, u), fetch)| < cap
  }

  lemma {:induction false} AcceptedAppend(a: seq<string>, b: seq<string>, fetch: string -> Option<JobRecord>)
    ensures Accepted(a + b, fetch) == Accepted(a, fetch) + Accepted(b, fetch)
    decreases |a|
  {
    if a != [] {
      assert (a + b)[0] == a[0] && (a + b)[1..] == a[1..] + b;
      AcceptedAppend(a[1..], b, fetch);
    } else {
      assert a + b == b;
    }
  }

  /** Every record `fetch_job_details` returns has a known work mode, so every accepted one has. */
  lemma {:induction false} AcceptedKnownNature(ids: seq<string>, details: string -> DetailPage)
    ensures forall j :: 0 <= j < |Accepted(ids, Fetcher(details))| ==> KnownNature(Accepted(ids, Fetcher(details))[j])
    decreases |ids|
  {
    if ids != [] {
      AcceptedKnownNature(ids[1..], details);
      DetailsFields(ids[0], details(ids[0]));
      assert Fetcher(details)(ids[0]) == Details(ids[0], details(ids[0]));
    }
  }

  /** Every accepted record is complete. */
  lemma {:induction false} AcceptedComplete(ids: seq<string>, fetch: string -> Option<JobRecord>)
    ensures forall j :: 0 <= j < |Accepted(ids, fetch)| ==>
              Truthy(Accepted(ids, fetch)[j].jobTitle) && Truthy(Accepted(ids, fetch)[j].company)
    decreases |ids|
  {
    if ids != [] {
      AcceptedComplete(ids[1..], fetch);
    }
  }

  lemma TakeAppend<T>(a: seq<T>, b: seq<T>, n: int)
    requires |a| < n
    ensures Take(a + b, n) == a + Take(b, n - |a|)
  {
    if |a + b| > n {
      assert (a + b)[..n] == a + b[..n - |a|];
    }
  }

  /** Taking `n > 1` elements of `x` followed by `rest` is `x` followed by `n - 1` of `rest`. */
  lemma TakeCons<T>(jobs: seq<T>, x: T, rest: seq<T>, n: int)
    requires n > 1
    ensures jobs + [x] + Take(rest, n - 1) == jobs + Take([x] + rest, n)
  {
    TakeAppend([x], rest, n);
  }

  /** The inner loop appends the accepted records of the page, cut at the cap. */
  lemma {:induction false} HarvestTakes(ids: seq<string>, fetch: string -> Option<JobRecord>, jobs: seq<JobRecord>, cap: int)
    requires |jobs| < cap
    ensures Harvest(ids, fetch, jobs, cap) == jobs + Take(Accepted(ids, fetch), cap - |jobs|)
    decreases |ids|
  {
    if ids == [] {
      assert jobs + [] == jobs;
    } else {
      var d := fetch(ids[0]);
      var rest := Accepted(ids[1..], fetch);
      if !Complete(d) {
        HarvestTakes(ids[1..], fetch, jobs, cap);
      } else if |jobs| + 1 < cap {
        HarvestTakes(ids[1..], fetch, jobs + [d.value], cap);
        TakeCons(jobs, d.value, rest, cap - |jobs|);
      } else {
        assert Take([d.value] + rest, 1) == [d.value];
      }
    }
  }

  // ---------------------------------------------------------------------------
  // What the crawl returns and which requests it makes.

  /**
    The crawl result `c`, made from request `t` on with the records `jobs`
    already found, holds `jobs` followed by the accepted records of the
    requests it made, cut at the cap.
   */
  predicate JobsFrom(pages: seq<Page>, fetch: string -> Option<JobRecord>, cap: int,
                     t: nat, jobs: seq<JobRecord>, c: CrawlResult)
  {
    c.jobs == jobs + Take(Accepted(IdsBetween(pages, t, t + |c.offsets|), fetch), cap - |jobs|)
  }

  /** The records request `t` leaves behind, from `jobs`, when it is the last one. */
  lemma LastRequestJobs(pages: seq<Page>, fetch: string -> Option<JobRecord>, cap: int,
                        t: nat, start: nat, jobs: seq<JobRecord>)
    requires t <= |pages| && |jobs| < cap
    requires |CrawlFrom(pages, fetch, cap, t, start, jobs).offsets| <= 1
    ensures |CrawlFrom(pages, fetch, cap, t, start, jobs).offsets| == 1
    ensures JobsFrom(pages, fetch, cap, t, jobs, CrawlFrom(pages, fetch, cap, t, start, jobs))
  {
    var c := CrawlFrom(pages, fetch, cap, t, start, jobs);
    IdsBetweenOne(pages, t);
    if t < |pages| && pages[t].PageResponse? && pages[t].status == 200 && pages[t].entries != [] {
      var entries := pages[t].entries;
      var ids := PageIds(entries);
      HarvestTakes(ids, fetch, jobs, cap);
      var jobs' := Harvest(ids, fetch, jobs, cap);
      if |entries| >= PageSize {
        var rest := CrawlFrom(pages, fetch, cap, t + 1, start + |entries|, jobs');
        assert |rest.offsets| == 0;
        assert rest.jobs == jobs';
      }
    } else {
      assert jobs + [] == jobs;
    }
  }

  /** A request that is not the last one got a full 200 page and left the cap unreached. */
  lemma NotLastRequest(pages: seq<Page>, fetch: string -> Option<JobRecord>, cap: int,
                       t: nat, start: nat, jobs: seq<JobRecord>)
    requires t <= |pages| && |CrawlFrom(pages, fetch, cap, t, start, jobs).offsets| >= 2
    ensures t < |pages| && pages[t].PageResponse? && pages[t].status == 200 && |pages[t].entries| >= PageSize
    ensures |jobs| < cap && |Harvest(IdsOfRequest(pages, t), fetch, jobs, cap)| < cap
    ensures var jobs' := Harvest(IdsOfRequest(pages, t), fetch, jobs, cap);
            var rest := CrawlFrom(pages, fetch, cap, t + 1, start + |pages[t].entries|, jobs');
            && rest.offsets != []
            && CrawlFrom(pages, fetch, cap, t, start, jobs) == CrawlResult(rest.jobs, [start] + rest.offsets)
  {
  }

  /** The records a full page adds before the rest of the crawl adds its own. */
  lemma NextRequestJobs(pages: seq<Page>, fetch: string -> Option<JobRecord>, cap: int,
                        t: nat, start: nat, jobs: seq<JobRecord>, jobs': seq<JobRecord>, rest: CrawlResult)
    requires t < |pages| && pages[t].PageResponse? && pages[t].status == 200
    requires |jobs| < cap && |jobs'| < cap
    requires jobs' == Harvest(IdsOfRequest(pages, t), fetch, jobs, cap)
    requires JobsFrom(pages, fetch, cap, t + 1, jobs', rest)
    ensures JobsFrom(pages, fetch, cap, t, jobs, CrawlResult(rest.jobs, [start] + rest.offsets))
  {
    var ids := IdsOfRequest(pages, t);
    var later := IdsBetween(pages, t + 1, t + 1 + |rest.offsets|);
    HarvestTakes(ids, fetch, jobs, cap);
    IdsBetweenCons(pages, t, t + 1 + |rest.offsets|);
    AcceptedAppend(ids, later, fetch);
    TakeInTwo(jobs, Accepted(ids, fetch), Accepted(later, fetch), jobs', rest.jobs, cap);
    assert |[start] + rest.offsets| == 1 + |rest.offsets|;
  }

  /**
    Cutting `a1` and then `a2` at a cap the first cut did not reach is
    cutting `a1 + a2` at that cap.
   */
  lemma TakeInTwo<T>(jobs: seq<T>, a1: seq<T>, a2: seq<T>, mid: seq<T>, final: seq<T>, cap: int)
    requires |jobs| < cap && |mid| < cap
    requires mid == jobs + Take(a1, cap - |jobs|)
    requires final == mid + Take(a2, cap - |mid|)
    ensures final == jobs + Take(a1 + a2, cap - |jobs|)
  {
    var n := cap - |jobs|;
    TakeShort(a1, n);
    TakeAppend(a1, a2, n);
    assert (jobs + a1) + Take(a2, n - |a1|) == jobs + (a1 + Take(a2, n - |a1|));
  }

  /** The ids of the single request `t`. */
  lemma IdsBetweenOne(pages: seq<Page>, t: nat)
    ensures IdsBetween(pages, t, t + 1) == IdsOfRequest(pages, t)
  {
    assert IdsBetween(pages, t + 1, t + 1) == [];
    assert IdsOfRequest(pages, t) + [] == IdsOfRequest(pages, t);
  }

  /** A cut that came out shorter than the cap cut nothing. */
  lemma TakeShort<T>(s: seq<T>, n: int)
    requires |Take(s, n)| < n
    ensures Take(s, n) == s
  {
  }

  /** The ids of requests `from` to `to - 1` are those of request `from` followed by the rest. */
  lemma IdsBetweenCons(pages: seq<Page>, from: nat, to: nat)
    requires from < to
    ensures IdsBetween(pages, from, to) == IdsOfRequest(pages, from) + IdsBetween(pages, from + 1, to)
  {
  }

  /**
    From request `t` on, the crawl appends to `jobs` the accepted records of
    the pages it requests, in page order and id order, cut at the cap.
   */
  lemma {:induction false} CrawlFromJobs(pages: seq<Page>, fetch: string -> Option<JobRecord>, cap: int,
                                         t: nat, start: nat, jobs: seq<JobRecord>)
    requires t <= |pages|
    ensures |jobs| < cap ==> JobsFrom(pages, fetch, cap, t, jobs, CrawlFrom(pages, fetch, cap, t, start, jobs))
    decreases |pages| - t
  {
    if |jobs| < cap {
      if |CrawlFrom(pages, fetch, cap, t, start, jobs).offsets| <= 1 {
        LastRequestJobs(pages, fetch, cap, t, start, jobs);
      } else {
        NotLastRequest(pages, fetch, cap, t, start, jobs);
        var jobs' := Harvest(IdsOfRequest(pages, t), fetch, jobs, cap);
        var rest := CrawlFrom(pages, fetch, cap, t + 1, start + |pages[t].entries|, jobs');
        assert CrawlFrom(pages, fetch, cap, t, start, jobs) == CrawlResult(rest.jobs, [start] + rest.offsets);
        CrawlFromJobs(pages, fetch, cap, t + 1, start + |pages[t].entries|, jobs');
        NextRequestJobs(pages, fetch, cap, t, start, jobs, jobs', rest);
      }
    }
  }

  /**
    The requests of the crawl result `c`, made from request `t` on at cursor
    `start` with the records `jobs`: none when `jobs` already reached the cap,
    at most one more than there are pages left, the first at `start`, and
    chained by the sizes of full pages.
   */
  predicate OffsetsFrom(pages: seq<Page>, cap: int, t: nat, start: nat, jobs: seq<JobRecord>, c: CrawlResult)
  {
    && (c.offsets == [] <==> |jobs| >= cap)
    && |c.offsets| <= |pages| - t + 1
    && (c.offsets != [] ==> c.offsets[0] == start)
    && Chained(pages, t, c.offsets)
  }

  /** The requests of a crawl whose request `t` got a full page, from those of the rest of it. */
  lemma OffsetsStep(pages: seq<Page>, cap: int, t: nat, start: nat, jobs: seq<JobRecord>,
                    jobs': seq<JobRecord>, rest: CrawlResult)
    requires t < |pages| && pages[t].PageResponse? && pages[t].status == 200 && |pages[t].entries| >= PageSize
    requires |jobs| < cap
    requires OffsetsFrom(pages, cap, t + 1, start + |pages[t].entries|, jobs', rest)
    requires rest.offsets != []
    ensures OffsetsFrom(pages, cap, t, start, jobs, CrawlResult(rest.jobs, [start] + rest.offsets))
  {
    assert ([start] + rest.offsets)[1..] == rest.offsets;
  }

  /** The requests of a crawl whose request `t` is its last. */
  lemma LastRequestOffsets(pages: seq<Page>, fetch: string -> Option<JobRecord>, cap: int,
                           t: nat, start: nat, jobs: seq<JobRecord>)
    requires t <= |pages| && |CrawlFrom(pages, fetch, cap, t, start, jobs).offsets| <= 1
    ensures OffsetsFrom(pages, cap, t, start, jobs, CrawlFrom(pages, fetch, cap, t, start, jobs))
  {
  }

  /** From request `t` on, the requests are as `OffsetsFrom` describes. */
  lemma {:induction false} CrawlFromOffsets(pages: seq<Page>, fetch: string -> Option<JobRecord>, cap: int,
                                            t: nat, start: nat, jobs: seq<JobRecord>)
    requires t <= |pages|
    ensures OffsetsFrom(pages, cap, t, start, jobs, CrawlFrom(pages, fetch, cap, t, start, jobs))
    decreases |pages| - t, 1
  {
    if |CrawlFrom(pages, fetch, cap, t, start, jobs).offsets| >= 2 {
      LaterRequestsOffsets(pages, fetch, cap, t, start, jobs);
    } else {
      LastRequestOffsets(pages, fetch, cap, t, start, jobs);
    }
  }

  /** `CrawlFromOffsets` for a request that is not the last one. */
  lemma {:induction false} LaterRequestsOffsets(pages: seq<Page>, fetch: string -> Option<JobRecord>, cap: int,
                                                t: nat, start: nat, jobs: seq<JobRecord>)
    requires t <= |pages| && |CrawlFrom(pages, fetch, cap, t, start, jobs).offsets| >= 2
    ensures OffsetsFrom(pages, cap, t, start, jobs, CrawlFrom(pages, fetch, cap, t, start, jobs))
    decreases |pages| - t, 0
  {
    NotLastRequest(pages, fetch, cap, t, start, jobs);
    var jobs' := Harvest(IdsOfRequest(pages, t), fetch, jobs, cap);
    var rest := CrawlFrom(pages, fetch, cap, t + 1, start + |pages[t].entries|, jobs');
    CrawlFromOffsets(pages, fetch, cap, t + 1, start + |pages[t].entries|, jobs');
    OffsetsStep(pages, cap, t, start, jobs, jobs', rest);
  }

  /**
    The last request of the crawl result `c`, made from request `t` on with
    the records `jobs`, is one where a stop signal fired (no page left, a
    failed request, a non-200 status, an empty or short page) or the cap was
    reached; before it the cap was never reached.
   */
  predicate StopsFrom(pages: seq<Page>, fetch: string -> Option<JobRecord>, cap: int,
                      t: nat, jobs: seq<JobRecord>, c: CrawlResult)
  {
    && (c.offsets != [] ==> StopsAt(pages, t + |c.offsets| - 1) || |c.jobs| >= cap)
    && BelowCapBefore(pages, fetch, cap, t, t + |c.offsets| - 1, jobs)
  }

  /** The stop of a crawl whose request `t` got a full page, from that of the rest of it. */
  lemma {:induction false} StopsStep(pages: seq<Page>, fetch: string -> Option<JobRecord>, cap: int, t: nat, start: nat,
                  jobs: seq<JobRecord>, jobs': seq<JobRecord>, next: nat, rest: CrawlResult)
    requires t < |pages|
    requires |jobs| < cap && |jobs'| < cap && jobs' == Harvest(IdsOfRequest(pages, t), fetch, jobs, cap)
    requires rest == CrawlFrom(pages, fetch, cap, t + 1, next, jobs') && rest.offsets != []
    ensures StopsFrom(pages, fetch, cap, t, jobs, CrawlResult(rest.jobs, [start] + rest.offsets))
    decreases |pages| - t, 0
  {
    CrawlFromStops(pages, fetch, cap, t + 1, next, jobs');
    HarvestTakes(IdsOfRequest(pages, t), fetch, jobs, cap);
    TakeShort(Accepted(IdsOfRequest(pages, t), fetch), cap - |jobs|);
    assert t + |[start] + rest.offsets| - 1 == t + 1 + |rest.offsets| - 1;
    BelowCapStep(pages, fetch, cap, t, t + 1 + |rest.offsets| - 1, jobs, jobs');
  }

  /** From request `t` on, the crawl stops as `StopsFrom` describes. */
  lemma {:induction false} CrawlFromStops(pages: seq<Page>, fetch: string -> Option<JobRecord>, cap: int,
                                          t: nat, start: nat, jobs: seq<JobRecord>)
    requires t <= |pages|
    ensures StopsFrom(pages, fetch, cap, t, jobs, CrawlFrom(pages, fetch, cap, t, start, jobs))
    decreases |pages| - t, 2
  {
    if |CrawlFrom(pages, fetch, cap, t, start, jobs).offsets| >= 2 {
      LaterRequestsStops(pages, fetch, cap, t, start, jobs);
    } else {
      LastRequestStops(pages, fetch, cap, t, start, jobs);
    }
  }

  /** `CrawlFromStops` for a request that is not the last one. */
  lemma {:induction false} LaterRequestsStops(pages: seq<Page>, fetch: string -> Option<JobRecord>, cap: int,
                                              t: nat, start: nat, jobs: seq<JobRecord>)
    requires t <= |pages| && |CrawlFrom(pages, fetch, cap, t, start, jobs).offsets| >= 2
    ensures StopsFrom(pages, fetch, cap, t, jobs, CrawlFrom(pages, fetch, cap, t, start, jobs))
    decreases |pages| - t, 1
  {
    NotLastRequest(pages, fetch, cap, t, start, jobs);
    var jobs' := Harvest(IdsOfRequest(pages, t), fetch, jobs, cap);
    var next := start + |pages[t].entries|;
    StopsStep(pages, fetch, cap, t, start, jobs, jobs', next, CrawlFrom(pages, fetch, cap, t + 1, next, jobs'));
  }

  /** The last request is one where a stop signal fired or the cap was reached. */
  lemma LastRequestStops(pages: seq<Page>, fetch: string -> Option<JobRecord>, cap: int,
                         t: nat, start: nat, jobs: seq<JobRecord>)
    requires t <= |pages| && |CrawlFrom(pages, fetch, cap, t, start, jobs).offsets| <= 1
    ensures StopsFrom(pages, fetch, cap, t, jobs, CrawlFrom(pages, fetch, cap, t, start, jobs))
  {
    if |jobs| < cap && !StopsAt(pages, t) {
      var jobs' := Harvest(PageIds(pages[t].entries), fetch, jobs, cap);
      var rest := CrawlFrom(pages, fetch, cap, t + 1, start + |pages[t].entries|, jobs');
      assert CrawlFrom(pages, fetch, cap, t, start, jobs) == CrawlResult(rest.jobs, [start] + rest.offsets);
      assert rest.offsets == [];
    }
  }

  /** The cap was not reached before `last` from `t` on if request `t` left it unreached and so did the rest. */
  lemma BelowCapStep(pages: seq<Page>, fetch: string -> Option<JobRecord>, cap: int,
                     t: nat, last: int, jobs: seq<JobRecord>, jobs': seq<JobRecord>)
    requires |jobs'| < cap && jobs' == jobs + Accepted(IdsOfRequest(pages, t), fetch)
    requires BelowCapBefore(pages, fetch, cap, t + 1, last, jobs')
    ensures BelowCapBefore(pages, fetch, cap, t, last, jobs)
  {
    var ids := IdsOfRequest(pages, t);
    forall u | t < u <= last
      ensures UnderCap(pages, fetch, cap, t, u, jobs)
    {
      var later := IdsBetween(pages, t + 1, u);
      IdsBetweenCons(pages, t, u);
      AcceptedAppend(ids, later, fetch);
      if u > t + 1 {
        assert UnderCap(pages, fetch, cap, t + 1, u, jobs');
      } else {
        assert later == [];
      }
    }
  }

  /**
    `fetch_linkedin_jobs` returns the accepted records of the pages it
    requested, in page order and then id order, cut at `cap`.
   */
  lemma CrawlJobsInOrder(pages: seq<Page>, details: string -> DetailPage, cap: int)
    ensures Crawl(pages, details, cap).jobs ==
            Take(Accepted(IdsBetween(pages, 0, |Crawl(pages, details, cap).offsets|), Fetcher(details)), cap)
  {
    CrawlFromJobs(pages, Fetcher(details), cap, 0, 0, []);
    var c := Crawl(pages, details, cap);
    var all := Take(Accepted(IdsBetween(pages, 0, |c.offsets|), Fetcher(details)), cap);
    if cap > 0 {
      assert [] + all == all;
    }
  }

  /** At most `cap` records, each with a truthy title and company. */
  lemma CrawlBoundedAndComplete(pages: seq<Page>, details: string -> DetailPage, cap: int)
    ensures |Crawl(pages, details, cap).jobs| <= (if cap < 0 then 0 else cap)
    ensures forall j :: 0 <= j < |Crawl(pages, details, cap).jobs| ==>
              Truthy(Crawl(pages, details, cap).jobs[j].jobTitle) && Truthy(Crawl(pages, details, cap).jobs[j].company)
    ensures forall j :: 0 <= j < |Crawl(pages, details, cap).jobs| ==> KnownNature(Crawl(pages, details, cap).jobs[j])
  {
    var c := Crawl(pages, details, cap);
    CrawlJobsInOrder(pages, details, cap);
    var a := Accepted(IdsBetween(pages, 0, |c.offsets|), Fetcher(details));
    AcceptedComplete(IdsBetween(pages, 0, |c.offsets|), Fetcher(details));
    AcceptedKnownNature(IdsBetween(pages, 0, |c.offsets|), details);
    TakeElements(a, cap);
  }

  /**
    The requests start at offset 0 and are chained by the sizes of full 200
    pages; there is none when `cap <= 0` and at most one more than there are
    pages; the last one is where a stop signal fired or the cap was reached,
    and before it the cap had not been reached.
   */
  lemma CrawlPagination(pages: seq<Page>, details: string -> DetailPage, cap: int)
    ensures Crawl(pages, details, cap).offsets == [] <==> cap <= 0
    ensures |Crawl(pages, details, cap).offsets| <= |pages| + 1
    ensures Crawl(pages, details, cap).offsets != [] ==> Crawl(pages, details, cap).offsets[0] == 0
    ensures Chained(pages, 0, Crawl(pages, details, cap).offsets)
    ensures Crawl(pages, details, cap).offsets != [] ==>
              || StopsAt(pages, |Crawl(pages, details, cap).offsets| - 1)
              || |Crawl(pages, details, cap).jobs| >= cap
    ensures BelowCapBefore(pages, Fetcher(details), cap, 0, |Crawl(pages, details, cap).offsets| - 1, [])
  {
    CrawlFromOffsets(pages, Fetcher(details), cap, 0, 0, []);
    CrawlFromStops(pages, Fetcher(details), cap, 0, 0, []);
  }

  /** Entry `j` has a truthy urn whose id is `x`. */
  /** The positions of the entries whose id is `x`. */
  ghost function IdIndices(entries: seq<Entry>, x: string): set<int>
  {
    set j | 0 <= j < |entries| && IdAt(entries, j, x)
  }

  /** Each id is collected once per entry that carries it. */
  lemma {:induction false} PageIdsCounts(entries: seq<Entry>)
    ensures forall x :: multiset(PageIds(entries))[x] == |IdIndices(entries, x)|
    decreases |entries|
  {
    if entries != [] {
      var n := |entries| - 1;
      var p := entries[..n];
      PageIdsCounts(p);
      assert entries == p + [entries[n]];
      PageIdsAppend(p, [entries[n]]);
      forall x ensures multiset(PageIds(entries))[x] == |IdIndices(entries, x)|
      {
        IdIndicesSnoc(entries, x);
        assert [entries[n]][1..] == [];
      }
    }
  }

  /** The positions carrying `x` are those of all but the last entry, and the last one if it does. */
  lemma IdIndicesSnoc(entries: seq<Entry>, x: string)
    requires entries != []
    ensures var n := |entries| - 1;
            |IdIndices(entries, x)| == |IdIndices(entries[..n], x)| + (if IdAt(entries, n, x) then 1 else 0)
  {
    var n := |entries| - 1;
    var p := entries[..n];
    var all := IdIndices(entries, x);
    var before := IdIndices(p, x);
    forall j ensures j in all <==> j in before || (j == n && IdAt(entries, n, x)) {
      if 0 <= j < n {
        assert p[j] == entries[j];
      }
    }
    if IdAt(entries, n, x) {
      assert n !in before;
      assert all == before + {n};
    } else {
      assert all == before;
    }
  }

  /** The ids of two runs of entries are those of the first followed by those of the second. */
  lemma {:induction false} PageIdsAppend(a: seq<Entry>, b: seq<Entry>)
    ensures PageIds(a + b) == PageIds(a) + PageIds(b)
    decreases |a|
  {
    if a != [] {
      assert (a + b)[1..] == a[1..] + b;
      PageIdsAppend(a[1..], b);
    } else {
      assert a + b == b;
    }
  }

  predicate IdAt(entries: seq<Entry>, j: int, x: string)
    requires 0 <= j < |entries|
  {
    Truthy(entries[j].entityUrn) && x == JobId(entries[j].entityUrn.value)
  }

  /** Some entry has a truthy urn whose id is `x`. */
  predicate IdOfSomeEntry(entries: seq<Entry>, x: string)
  {
    exists j :: 0 <= j < |entries| && IdAt(entries, j, x)
  }

  /** An entry counts only with a truthy urn, and its id is the urn's text after the last colon. */
  lemma {:induction false} PageIdsSpec(entries: seq<Entry>)
    ensures |PageIds(entries)| <= |entries|
    ensures forall x :: x in PageIds(entries) <==> IdOfSomeEntry(entries, x)
    ensures forall x :: multiset(PageIds(entries))[x] == |IdIndices(entries, x)|
    decreases |entries|
  {
    PageIdsCounts(entries);
    if entries != [] {
      var tail := entries[1..];
      PageIdsSpec(tail);
      var head := if Truthy(entries[0].entityUrn) then [JobId(entries[0].entityUrn.value)] else [];
      assert PageIds(entries) == head + PageIds(tail);
      forall x ensures x in PageIds(entries) <==> IdOfSomeEntry(entries, x)
      {
        if x in head {
          assert IdAt(entries, 0, x);
        }
        if IdOfSomeEntry(tail, x) {
          var j :| 0 <= j < |tail| && IdAt(tail, j, x);
          assert tail[j] == entries[j + 1];
          assert IdAt(entries, j + 1, x);
        }
        if IdOfSomeEntry(entries, x) {
          var j :| 0 <= j < |entries| && IdAt(entries, j, x);
          if j > 0 {
            assert tail[j - 1] == entries[j];
            assert IdAt(tail, j - 1, x);
          } else {
            assert x in head;
          }
        }
      }
    }
  }

  /** Ids are not deduplicated: an urn listed twice yields its record twice. */
  lemma NoDeduplication(urn: string, fetch: string -> Option<JobRecord>)
    requires urn != ""
    requires Complete(fetch(JobId(urn)))
    ensures Accepted(PageIds([Entry(Some(urn)), Entry(Some(urn))]), fetch) ==
            [fetch(JobId(urn)).value, fetch(JobId(urn)).value]
  {
    var e := Entry(Some(urn));
    var id := JobId(urn);
    assert [e, e][1..] == [e] && [e][1..] == [];
    assert PageIds([e]) == [id] + [];
    assert PageIds([e, e]) == [id] + [id];
    assert [id, id][1..] == [id] && [id][1..] == [];
    assert Accepted([id], fetch) == [fetch(id).value] + [];
  }

  /** A full 200 page none of whose entries carries an urn. */
  predicate BlankFullPage(p: Page)
  {
    p.PageResponse? && p.status == 200 && |p.entries| >= PageSize
    && forall j :: 0 <= j < |p.entries| ==> p.entries[j].entityUrn.None?
  }

  lemma BlankPageIds(entries: seq<Entry>)
    requires forall j :: 0 <= j < |entries| ==> entries[j].entityUrn.None?
    ensures PageIds(entries) == []
  {
    PageIdsSpec(entries);
    assert forall x :: x !in PageIds(entries);
  }

  lemma {:induction false} BlankPagesFrom(pages: seq<Page>, fetch: string -> Option<JobRecord>, cap: int, t: nat, start: nat)
    requires t <= |pages| && cap > 0
    requires forall u :: t <= u < |pages| ==> BlankFullPage(pages[u])
    ensures CrawlFrom(pages, fetch, cap, t, start, []).jobs == []
    ensures |CrawlFrom(pages, fetch, cap, t, start, []).offsets| == |pages| - t + 1
    decreases |pages| - t
  {
    if t < |pages| {
      var entries := pages[t].entries;
      BlankPageIds(entries);
      assert Harvest(PageIds(entries), fetch, [], cap) == [];
      BlankPagesFrom(pages, fetch, cap, t + 1, start + |entries|);
    }
  }

  /**
    The number of page requests is not bounded by the cap: full pages whose
    entries carry no urn add no record, so the loop requests every page and
    one more.
   */
  lemma RequestsNotBoundedByCap(pages: seq<Page>, details: string -> DetailPage, cap: int)
    requires cap > 0
    requires forall u :: 0 <= u < |pages| ==> BlankFullPage(pages[u])
    ensures Crawl(pages, details, cap).jobs == []
    ensures |Crawl(pages, details, cap).offsets| == |pages| + 1
  {
    BlankPagesFrom(pages, Fetcher(details), cap, 0, 0);
  }
}
