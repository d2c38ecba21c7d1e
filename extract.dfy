/**
  `fetch_job_details`: one job posting's page turned into a record. The page
  is given by the text of the elements the extractor looks up (the HTML parser
  and the HTTP request are not modelled); what is modelled is which element
  feeds which field, the first-match scans over the criteria items, the
  remote > hybrid > onsite classification, the job id and the apply link.
 */
module Extract {
  import opened Wrappers
  import opened Text

  /**
    One `div.job-criteria-item`: the stripped text of its
    `h3.job-criteria-subheader` and of its `span.job-criteria-text`, each
    `None` when the element is missing.
   */
  datatype CriteriaItem = CriteriaItem(header: Option<string>, value: Option<string>)

  /**
    What the extractor reads from a posting page: the stripped text of the
    title heading, the company link or flavour span, the location bullet, the
    salary block and the description block (each `None` when the element is
    missing), and the criteria items in document order.
   */
  datatype PostingDoc = PostingDoc(
    title: Option<string>,
    company: Option<string>,
    criteria: seq<CriteriaItem>,
    location: Option<string>,
    salary: Option<string>,
    description: Option<string>)

  /** The answer to one detail request: the request raised, or a response with a status. */
  datatype DetailPage = DetailFailure | DetailResponse(status: int, doc: PostingDoc)

  /** The `job_post` dictionary; every key is always present, `None` values included. */
  datatype JobRecord = JobRecord(
    jobTitle: Option<string>,
    company: Option<string>,
    experience: Option<string>,
    jobNature: Option<string>,
    location: Option<string>,
    salary: Option<string>,
    applyLink: string,
    description: Option<string>)

  const ExperienceKeywords: seq<string> := ["experience", "seniority", "level"]
  const WorkplaceKeywords: seq<string> := ["workplace", "work", "type", "location"]
  const ApplyLinkPrefix: string := "https://www.linkedin.com/jobs/view/"

  /** Some keyword is a substring of `text`. */
  predicate MentionsAny(text: string, keywords: seq<string>)
  {
    exists k :: 0 <= k < |keywords| && Contains(text, keywords[k])
  }

  /** A criteria item the scan stops at: a header that mentions a keyword once lowercased, and a value. */
  predicate Selects(item: CriteriaItem, keywords: seq<string>)
  {
    item.header.Some? && MentionsAny(Lower(item.header.value), keywords) && item.value.Some?
  }

  /**
    The value of the first item that `Selects`; `None` exactly when no item
    does. Items with a matching header but no value are passed over.
   */
  function FirstSelected(items: seq<CriteriaItem>, keywords: seq<string>): (r: Option<string>)
    ensures r.None? <==> forall i :: 0 <= i < |items| ==> !Selects(items[i], keywords)
    ensures r.Some? ==> exists i :: 0 <= i < |items| && Selects(items[i], keywords) && r == items[i].value
                                   && forall j :: 0 <= j < i ==> !Selects(items[j], keywords)
    decreases |items|
  {
    if items == [] then None
    else if Selects(items[0], keywords) then items[0].value
    else
      var r := FirstSelected(items[1..], keywords);
      assert forall i :: 1 <= i < |items| ==> items[i] == items[1..][i - 1];
      r
  }

  /** The work mode named by a criteria value: "remote" if it says so, else "hybrid" if it says so, else "onsite". */
  function Classify(valueText: string): (nature: string)
    ensures nature == "remote" || nature == "hybrid" || nature == "onsite"
    ensures nature == "remote" <==> Contains(Lower(valueText), "remote")
    ensures nature == "hybrid" <==> !Contains(Lower(valueText), "remote") && Contains(Lower(valueText), "hybrid")
  {
    var t := Lower(valueText);
    if Contains(t, "remote") then "remote"
    else if Contains(t, "hybrid") then "hybrid"
    else "onsite"
  }

  /** The `jobNature` field: the classified first workplace value, `None` when no item is selected. */
  function WorkMode(items: seq<CriteriaItem>): Option<string>
  {
    match FirstSelected(items, WorkplaceKeywords)
    case None => None
    case Some(v) => Some(Classify(v))
  }

  /** `urn.split(":")[-1]`: the text after the last colon, or all of `urn` when it has none. */
  function JobId(urn: string): (id: string)
    ensures ':' !in id
    ensures |id| <= |urn| && id == urn[|urn| - |id|..]
    ensures |id| == |urn| || urn[|urn| - |id| - 1] == ':'
  {
    var parts := Split(urn, ':');
    JoinSplit(urn, ':');
    if |parts| >= 2 then
      JoinLast(parts, ':');
      parts[|parts| - 1]
    else
      parts[0]
  }

  /** The apply link built from the job id. */
  function ApplyLink(jobId: string): string
  {
    ApplyLinkPrefix + jobId
  }

  /**
    What `fetch_job_details(job_id)` returns for the page its request got:
    `None` when the request raised or the status is not 200, otherwise the
    record with every field looked up independently.
   */
  function Details(jobId: string, page: DetailPage): Option<JobRecord>
  {
    match page
    case DetailFailure => None
    case DetailResponse(status, doc) =>
      if status != 200 then None
      else Some(JobRecord(
        doc.title,
        doc.company,
        FirstSelected(doc.criteria, ExperienceKeywords),
        WorkMode(doc.criteria),
        doc.location,
        doc.salary,
        ApplyLink(jobId),
        doc.description))
  }

  // ---------------------------------------------------------------------------
  // The imperative extractor.

  /** The `for item in criteria_items: ... break` scan. */
  method ScanCriteria(items: seq<CriteriaItem>, keywords: seq<string>) returns (value: Option<string>)
    ensures value == FirstSelected(items, keywords)
  {
    value := None;
    var i := 0;
    while i < |items|
      invariant 0 <= i <= |items|
      invariant FirstSelected(items[i..], keywords) == FirstSelected(items, keywords)
    {
      var item := items[i];
      FirstSelectedFrom(items, keywords, i);
      if item.header.Some? && MentionsAny(Lower(item.header.value), keywords) {
        if item.value.Some? {
          value := item.value;
          break;
        }
      }
      i := i + 1;
    }
  }

  /** The scan from item `i` stops there if the item qualifies and goes on to the next one otherwise. */
  lemma FirstSelectedFrom(items: seq<CriteriaItem>, keywords: seq<string>, i: int)
    requires 0 <= i < |items|
    ensures FirstSelected(items[i..], keywords) ==
            if Selects(items[i], keywords) then items[i].value else FirstSelected(items[i + 1..], keywords)
  {
    assert items[i..][0] == items[i];
    assert items[i..][1..] == items[i + 1..];
  }

  /** `fetch_job_details`: fills the record field by field. */
  method FetchJobDetails(jobId: string, page: DetailPage) returns (r: Option<JobRecord>)
    ensures r == Details(jobId, page)
  {
    if page.DetailFailure? || page.status != 200 {
      return None;
    }
    var doc := page.doc;
    var experience := ScanCriteria(doc.criteria, ExperienceKeywords);
    var natureText := ScanCriteria(doc.criteria, WorkplaceKeywords);
    var jobNature: Option<string> := None;
    if natureText.Some? {
      var t := Lower(natureText.value);
      if Contains(t, "remote") {
        jobNature := Some("remote");
      } else if Contains(t, "hybrid") {
        jobNature := Some("hybrid");
      } else {
        jobNature := Some("onsite");
      }
    }
    r := Some(JobRecord(doc.title, doc.company, experience, jobNature, doc.location,
                        doc.salary, ApplyLinkPrefix + jobId, doc.description));
  }

  // ---------------------------------------------------------------------------
  // Properties of the extracted record.

  /** The work mode is absent or one of the three classes. */
  predicate KnownNature(r: JobRecord)
  {
    r.jobNature.None? || r.jobNature.value in {"remote", "hybrid", "onsite"}
  }

  /**
    A record, when there is one, takes title, company, location, salary and
    description from their own elements, has a known work mode, and links to
    the job id it was fetched for.
   */
  lemma DetailsFields(jobId: string, page: DetailPage)
    ensures Details(jobId, page).Some? <==> page.DetailResponse? && page.status == 200
    ensures Details(jobId, page).Some? ==>
              var r := Details(jobId, page).value;
              && KnownNature(r)
              && r.applyLink == ApplyLinkPrefix + jobId
              && r.jobTitle == page.doc.title && r.company == page.doc.company
              && r.location == page.doc.location && r.salary == page.doc.salary
              && r.description == page.doc.description
              && r.experience == FirstSelected(page.doc.criteria, ExperienceKeywords)
              && r.jobNature == WorkMode(page.doc.criteria)
              && (r.experience.None? <==> forall i :: 0 <= i < |page.doc.criteria| ==>
                                             !Selects(page.doc.criteria[i], ExperienceKeywords))
              && (r.jobNature.None? <==> forall i :: 0 <= i < |page.doc.criteria| ==>
                                            !Selects(page.doc.criteria[i], WorkplaceKeywords))
  {
  }

  /** The apply link gives back the job id it was built from. */
  lemma ApplyLinkInjective(a: string, b: string)
    ensures ApplyLink(a)[|ApplyLinkPrefix|..] == a
    ensures ApplyLink(a) == ApplyLink(b) ==> a == b
  {
    assert ApplyLink(a)[|ApplyLinkPrefix|..] == a;
    assert ApplyLink(b)[|ApplyLinkPrefix|..] == b;
  }

  /** The id of an urn `p:id` is `id` whenever `id` has no colon, whatever `p` holds. */
  lemma {:induction false} JobIdOfUrn(p: string, id: string)
    requires ':' !in id
    ensures JobId(p + ":" + id) == id
  {
    var parts := Split(p, ':');
    JoinSplit(p, ':');
    var all := parts + [id];
    assert all[..|all| - 1] == parts;
    JoinLast(all, ':');
    assert Join(all, ':') == p + ":" + id;
    SplitJoin(all, ':');
  }

  /** A LinkedIn job urn gives its numeric tail. */
  lemma JobIdExample()
    ensures JobId("urn:li:jobPosting:3712345678") == "3712345678"
  {
    assert "urn:li:jobPosting:3712345678" == "urn:li:jobPosting" + ":" + "3712345678";
    JobIdOfUrn("urn:li:jobPosting", "3712345678");
  }

  /** "remote" wins over "hybrid". */
  lemma ClassifyRemoteFirst()
    ensures Classify("Hybrid or Remote") == "remote"
  {
    assert Lower("Hybrid or Remote") == "hybrid or remote";
    assert OccursAt("hybrid or remote", "remote", 10);
    ContainsIff("hybrid or remote", "remote");
  }

  /** Without "remote" or "hybrid" the mode is "onsite". */
  lemma ClassifyDefault()
    ensures Classify("On-site") == "onsite"
  {
    var t := "on-site";
    assert Lower("On-site") == t;
    ContainsIff(t, "remote");
    ContainsIff(t, "hybrid");
    forall i | OccursAt(t, "remote", i) || OccursAt(t, "hybrid", i) ensures i <= 1 { }
    assert t[0..6][0] == 'o' && t[1..7][0] == 'n';
  }
}
