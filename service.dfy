/**
  The `POST /api/job-search` endpoint: crawl with the default cap of ten
  records, filter the records by the request, and answer with the filtered
  records, or with status 500 and the raised error's message when filtering
  raised.
 */
module Service {
  import opened Wrappers
  import opened Text
  import opened Extract
  import opened Crawler
  import opened Filter

  /** `fetch_linkedin_jobs` is called with its default `max_jobs`. */
  const MaxJobs := 10

  const ErrorPrefix: string := "Error processing request: "

  /** The endpoint's answer: the `JobSearchResponse` body, or the `HTTPException` raised. */
  datatype Response = JobSearchResponse(relevantJobs: seq<JobRecord>) | HttpError(statusCode: int, detail: string)

  /** The `try`/`except Exception` around crawling and filtering. */
  function Respond(r: Result<seq<JobRecord>, string>): Response
  {
    match r
    case Ok(jobs) => JobSearchResponse(jobs)
    case Err(e) => HttpError(500, ErrorPrefix + e)
  }

  /** What `search_jobs(req)` answers when the search pages and detail pages are `pages` and `details`. */
  function Outcome(req: SearchRequest, pages: seq<Page>, details: string -> DetailPage): Response
  {
    Respond(FilterResult(Crawl(pages, details, MaxJobs).jobs, req))
  }

  /** `search_jobs`. */
  method SearchJobs(req: SearchRequest, pages: seq<Page>, details: string -> DetailPage) returns (response: Response)
    ensures response == Outcome(req, pages, details)
  {
    var jobListings, _ := FetchLinkedinJobs(pages, details, MaxJobs);
    var filtered := FilterJobs(jobListings, req);
    match filtered {
      case Ok(jobs) =>
        response := JobSearchResponse(jobs);
      case Err(e) =>
        response := HttpError(500, ErrorPrefix + e);
    }
  }

  /**
    A successful answer holds at most ten records, each of them one the crawl
    returned, with a title and a company, so each fits `JobListing`.
   */
  lemma ResponseRecords(req: SearchRequest, pages: seq<Page>, details: string -> DetailPage)
    ensures Outcome(req, pages, details).JobSearchResponse? ==>
              |Outcome(req, pages, details).relevantJobs| <= MaxJobs
    ensures Outcome(req, pages, details).JobSearchResponse? ==>
              forall x :: x in Outcome(req, pages, details).relevantJobs ==>
                x in Crawl(pages, details, MaxJobs).jobs && Truthy(x.jobTitle) && Truthy(x.company)
  {
    var jobs := Crawl(pages, details, MaxJobs).jobs;
    CrawlBoundedAndComplete(pages, details, MaxJobs);
    FilterResultSpec(jobs, req);
    var r := FilterResult(jobs, req);
    if r.Ok? && r.value != jobs {
      KeptSpec(jobs, req);
      SubsequenceInside(r.value, jobs);
    }
    forall x | x in jobs ensures Truthy(x.jobTitle) && Truthy(x.company) {
      var j :| 0 <= j < |jobs| && jobs[j] == x;
    }
  }

  /**
    The endpoint answers 500 exactly when skills are requested and some
    crawled record that passes the hard filters has no description; the
    detail is then the `TypeError` message for `None + " "`.
   */
  lemma ErrorIff(req: SearchRequest, pages: seq<Page>, details: string -> DetailPage)
    ensures Outcome(req, pages, details).HttpError? <==>
              && Truthy(req.skills)
              && exists i :: 0 <= i < |Crawl(pages, details, MaxJobs).jobs|
                             && PassesHardFilters(Crawl(pages, details, MaxJobs).jobs[i], req)
                             && Crawl(pages, details, MaxJobs).jobs[i].description.None?
    ensures Outcome(req, pages, details).HttpError? ==>
              Outcome(req, pages, details) == HttpError(500, ErrorPrefix + NoneLeftOperand)
  {
    var jobs := Crawl(pages, details, MaxJobs).jobs;
    CrawlBoundedAndComplete(pages, details, MaxJobs);
    FilterResultSpec(jobs, req);
    KeptSpec(jobs, req);
    forall i | 0 <= i < |jobs|
      ensures Raises(jobs[i], req) <==>
                Truthy(req.skills) && PassesHardFilters(jobs[i], req) && jobs[i].description.None?
    {
      RaisesIff(jobs[i], req);
    }
    if Kept(jobs, req).Err? {
      var i :| FirstRaise(jobs, req, i) && Kept(jobs, req).error == Assess(jobs[i], req).error;
      RaisesIff(jobs[i], req);
    }
  }
}
