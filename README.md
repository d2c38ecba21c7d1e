# Job Finder API — a Dafny model of its search pipeline

The Job Finder API is a small FastAPI service. It answers `POST /api/job-search`
with LinkedIn postings that fit a search request. The request holds a position,
an experience, a salary, a work mode, a location and a comma-separated skills
list. The pipeline has three stages:

1. **Crawl** (`fetch_linkedin_jobs`). The crawler requests search pages at
   offset 0, then each time at the offset advanced by the number of entries
   on the page just read. From each page it collects the job ids of the
   entries, calls `fetch_job_details` per id, and keeps the records that have a
   title and a company. It stops at ten records, at a failed request, at a
   non-200 status, or at an empty or short page.
2. **Extract** (`fetch_job_details`). Each field of a posting is looked up
   independently. Experience and work mode come from the first criteria item
   whose header mentions a keyword and that has a value. The work mode is classified as remote,
   hybrid or onsite.
3. **Filter** (`filter_jobs`, `extract_years`). A record is skipped when it
   fails the work-mode or the experience test. A record that is not skipped is
   scored on experience proximity and skill overlap. Records with a positive
   score are kept. When none is kept, the unfiltered input is returned.

The model has one module per concern:

- `Wrappers`: the `Option` and `Result` datatypes.
- `Text`: ASCII models of Python's `lower`, `in`, `strip` and `split`.
- `Years`: `extract_years`, with the regular expression `(\d+)[\+]?\s*(?:year|yr)`
  written as a predicate on match positions and a scanner proved to find the
  leftmost match.
- `Extract`: `fetch_job_details`, over a document given by the text of the
  elements it looks up.
- `Crawler`: `fetch_linkedin_jobs`, over a finite sequence of answers to the
  page requests and a function from job id to the answer of the detail request.
- `Filter`: `filter_jobs`.
- `Service`: the endpoint, which turns a raised error into HTTP 500.

Each loop of the source is a Dafny `method` with a `while` loop. Each method
is proved equal to a specification function: `Crawler.Crawl`,
`Filter.FilterResult` and `Extract.Details`. The lemmas are stated about those
functions.

Three behaviours of the code are worth knowing, each proved as a lemma:

- The code does not deduplicate ids: an id listed twice is fetched twice and,
  when its record is complete, returned twice (`Crawler.NoDeduplication`).
- When no record is kept, the fallback returns the original list, including
  records the work-mode test skipped (`Filter.RemoteRequestFallback`).
- The number of page requests is not bounded by the cap: pages whose entries
  yield no record keep the loop going until a stop signal
  (`Crawler.RequestsNotBoundedByCap`).

## Model

| member | source | states |
|---|---|---|
| Text.Strip | main.py:209 | `s.strip()` removes only whitespace, only from the two ends, and leaves no whitespace at either end |
| Text.Split | main.py:209 | `s.split(sep)` returns at least one piece, and no piece contains the separator |
| Text.JoinSplit | main.py:89 | joining the pieces of a split with the separator gives back the string |
| Text.SplitJoin | main.py:89 | splitting a join of separator-free pieces gives back the pieces |
| Text.ContainsIff | main.py:143 | the `in` operator on strings holds exactly when the needle occurs at some index |
| Text.LowerIsLowercase | main.py:222 | `lower()` keeps the length, leaves no ASCII capital, and is idempotent |
| Years.ExtractYears | main.py:219-232 | a falsy experience gives 0; otherwise the result is the integer value of the digits of the pattern's leftmost match in the lowercased text, or, when the pattern matches nowhere, the keyword value of that text |
| Years.FindYears | main.py:223 | a found match lies at or after the start position and spans only digits |
| Years.FindYearsLeftmost | main.py:223-225 | the scanner returns the leftmost match of the pattern when there is one, and none exactly when the pattern matches nowhere |
| Years.FirstMatchUnique | main.py:223-225 | the leftmost match of the pattern is unique, so `years[0]` is well defined |
| Years.MatchesAtIff | main.py:223 | a match starts at a digit, its digits run to the end of the digit run, and the run is followed by an optional `+`, spaces and `year` or `yr` |
| Years.ExtractYearsFromMatch | main.py:222-225 | with a match in the lowercased text, the result is the integer value of the first match's digits |
| Years.ExtractYearsWithoutMatch | main.py:226-232 | without a match, the result is the keyword value of the lowercased text |
| Years.KeywordPrecedence | main.py:226-232 | "entry" or "junior" gives 0, else "mid" gives 3, else "senior" gives 5, else 0 |
| Years.ExtractYearsOfNothing | main.py:220-221 | a `None` or empty experience gives 0 |
| Years.NoDigitNoMatch | main.py:223 | text without digits has no match |
| Years.ExamplePlusYears | main.py:223-225 | "5+ years" gives 5 |
| Years.ExampleDigitsBeforeKeyword | main.py:222-229 | "Mid-level, 3 years" gives 3: a digit match wins over the "mid" keyword |
| Years.ExampleEntryLevel | main.py:226-227 | "Entry level" gives 0 |
| Years.ExampleSenior | main.py:226-231 | "Senior" gives 5: it mentions none of the earlier keywords |
| Extract.FirstSelected | main.py:141-147 | the criteria scan yields the value of the first item whose header mentions a keyword and that has a value, and nothing exactly when no item qualifies |
| Extract.Classify | main.py:157-163 | the work mode is "remote" exactly when the lowercased text contains "remote", else "hybrid" exactly when it contains "hybrid", else "onsite" |
| Extract.JobId | main.py:89 | the id has no colon, is a suffix of the urn, and is either the whole urn or preceded by a colon |
| Extract.JobIdOfUrn | main.py:89 | the id of `p:id` is `id` whatever `p` holds |
| Extract.JobIdExample | main.py:89 | "urn:li:jobPosting:3712345678" gives "3712345678" |
| Extract.ScanCriteria | main.py:141-147 | the loop with `break` returns the first qualifying item's value |
| Extract.FetchJobDetails | main.py:114-186 | the method builds the record its specification function describes |
| Extract.DetailsFields | main.py:124-180 | a record exists exactly for a 200 response; it takes each field from its own element, has a known work mode, and links to its job id |
| Extract.ApplyLinkInjective | main.py:176 | the apply link gives back its job id, so distinct ids get distinct links |
| Extract.ClassifyRemoteFirst | main.py:158-161 | "Hybrid or Remote" is classified as remote |
| Extract.ClassifyDefault | main.py:162-163 | "On-site" is classified as onsite |
| Crawler.CollectIds | main.py:83-91 | the id loop collects, in order, the id of every entry with a truthy urn |
| Crawler.FetchPageJobs | main.py:93-100 | the detail loop appends complete records and stops at the cap |
| Crawler.CrawlPage | main.py:71-105 | one pass of the page loop advances the crawl as its specification function does |
| Crawler.FetchLinkedinJobs | main.py:60-112 | the method returns the records and makes the page requests of its specification function |
| Crawler.HarvestTakes | main.py:93-100 | the detail loop appends the page's complete records, in id order, cut at the cap |
| Crawler.AcceptedKnownNature | main.py:95-98 | every record the crawl accepts came from `fetch_job_details`, so its work mode is absent or one of remote, hybrid and onsite |
| Crawler.AcceptedComplete | main.py:95-96 | every accepted record has a truthy title and company |
| Crawler.CrawlFromJobs | main.py:70-110 | from any point of the loop below the cap, the records returned are those it had plus the complete records of the pages it goes on to request, cut at the cap |
| Crawler.CrawlFromOffsets | main.py:70-105 | no request once the cap is reached; the first request is at the current start; every request but the last got a full 200 page, and the next offset adds that page's entry count |
| Crawler.CrawlFromStops | main.py:70-110 | the last request is one where a stop signal fired or the cap was reached, and before it the cap had not been reached |
| Crawler.CrawlJobsInOrder | main.py:60-112 | the result is the complete records of the requested pages, in page order and then id order, cut at the cap |
| Crawler.CrawlBoundedAndComplete | main.py:70-99 | at most `max_jobs` records are returned, each with a truthy title and company and a work mode that is absent or one of remote, hybrid and onsite |
| Crawler.CrawlPagination | main.py:65-105 | requests start at offset 0 and are chained by the sizes of full pages; none is made when the cap is not positive, and at most one more than there are pages |
| Crawler.PageIdsSpec | main.py:83-91 | an id is collected exactly for an entry with a truthy urn, as the urn's text after its last colon, and is collected once for every entry that carries it |
| Crawler.PageIdsCounts | main.py:83-91 | each id occurs in the collected list as many times as there are entries whose urn gives that id |
| Crawler.NoDeduplication | main.py:83-97 | an urn listed twice whose record is complete yields that record twice |
| Crawler.RequestsNotBoundedByCap | main.py:70-105 | full pages whose entries carry no urn make the loop request every page and one more |
| Filter.SkillTokens | main.py:209 | there is one token per comma-separated part of the skills text |
| Filter.SkillTokensParts | main.py:209 | each token is its part, stripped and lowercased |
| Filter.SearchText | main.py:210 | building the search text raises exactly when the description or the title is `None`, with CPython's message for the first `None` operand |
| Filter.CountMatched | main.py:211 | the count is at most the number of tokens, and positive exactly when some token occurs in the text |
| Filter.SkillScore | main.py:212 | the skill score lies in [0, 2] and is positive exactly when some token matched |
| Filter.Score | main.py:192-212 | scoring raises exactly when skills are set and the search text raises; otherwise the score lies in [0, 3] and is positive exactly when the experience point or a skill match is earned |
| Filter.AssessJob | main.py:192-215 | one pass of the loop body keeps, skips or raises as its specification function does |
| Filter.FilterJobs | main.py:188-217 | the method returns its specification function's result, or the error raised |
| Filter.RaisesIff | main.py:208-210 | a record raises exactly when it passes the hard filters, skills are set and it lacks a description or a title |
| Filter.KeepsIff | main.py:192-215 | a record is kept exactly when it passes both hard filters, does not raise, and earns the experience point or matches a skill |
| Filter.KeptSpec | main.py:189-215 | the loop raises exactly when some record raises, with the first such record's error; otherwise it keeps a subsequence of the input that holds every copy of each qualifying record and nothing else |
| Filter.KeptRaises | main.py:191-210 | the loop raises exactly when some record raises, and then with the first such record's error |
| Filter.KeptSubsequence | main.py:191-215 | the kept records are a subsequence of the input: records are only appended, in input order |
| Filter.KeptCounts | main.py:191-215 | a qualifying record is kept as many times as it occurs in the input; any other record is not kept |
| Filter.KeptErrPersists | main.py:191-210 | once a record has raised, the whole loop has raised that error |
| Filter.FilterResultSpec | main.py:188-217 | the result is an error exactly when some record raises; with no record kept it is the input; otherwise it is a nonempty subsequence of the input holding every copy of each qualifying record and nothing else, all passing the hard filters |
| Filter.FallbackReturnsInput | main.py:217 | when no record is kept and none raises, the input comes back |
| Filter.NoCriteriaReturnsInput | main.py:194-217 | a request with no experience and no skills returns every record, whatever its work mode |
| Filter.DefaultRequestReturnsInput | main.py:26-32 | a request that sets only its position (no experience, no skills, work mode "any") returns every record |
| Filter.AnyModeIsNoFilter | main.py:194-196 | a work mode of "any" in any case, an empty one or none excludes no record: the result equals that of a request without a work mode |
| Filter.UnknownModeReturnsInput | main.py:194-217 | a work mode other than any, remote, hybrid and onsite skips every extracted record, so the fallback returns them all |
| Filter.EmptyTokenKeepsAll | main.py:209-215 | an empty skill token matches every text, so every record that passes the hard filters and has a description and a title is kept |
| Filter.EmptyTokenSkillMatch | main.py:209-211 | an empty skill token counts as a skill match for every record with a description and a title |
| Filter.TrailingCommaToken | main.py:209 | a trailing comma yields an empty last token |
| Filter.RemoteRequestFallback | main.py:194-217 | for a remote request with skills, an onsite record and a remote record without skill overlap, the fallback returns both records |
| Filter.OnsiteSkipped | main.py:194-196 | an onsite record fails the work-mode test of a remote request and is skipped |
| Filter.UnmatchedRemoteScoresZero | main.py:194-215 | a remote record without skill overlap passes a remote request without experience and is not appended |
| Filter.SubsequenceInside | main.py:215 | the kept records are never more than the input and are all taken from it |
| Service.SearchJobs | main.py:48-58 | the endpoint crawls with a cap of ten, filters, and answers with the result, or with HTTP 500 on an error |
| Service.ResponseRecords | main.py:36-58 | a successful answer holds at most ten crawled records, each with a title and a company |
| Service.ErrorIff | main.py:48-58 | the answer is HTTP 500 exactly when skills are set and some crawled record that passes the hard filters has no description; the detail is then the `TypeError` message |

## Left out

- HTTP: the requests, headers, status codes on the wire, URLs and query strings are replaced by the given answers. The page answers do not depend on the request's position or location.
- HTML parsing: BeautifulSoup and its CSS selectors are not modelled. A posting is given by the stripped text of each element the extractor looks up, each `None` when the element is missing. A found tag is always truthy, so found-or-missing is all that matters.
- The company lookup's two selectors are not modelled separately; the company is the text of whichever element matches first.
- `get_text(strip=True)` is taken as already applied to the document's texts.
- An exception inside `fetch_job_details` (a parser error, a network error) is folded into `DetailFailure`. An exception inside the page loop (including a request past the last given page) is folded into `PageFailure` and ends the crawl, as the source's `except` does.
- Pacing: `time.sleep(random.uniform(1, 2))` and all `print` calls are left out; they do not affect the result.
- FastAPI, CORS, uvicorn and pydantic validation are left out. The request's defaults are `Filter.DefaultRequest`. The response model's checks are reflected only through `Service.ResponseRecords`.
- Python floating point: the score is a real number. Its sign is what decides, and the sign is exact in both.
- Years.ExtractYears: does not model the integer-size limit of recent CPython releases (3.11 on, and security releases of 3.7-3.10), under which `int()` raises `ValueError` on a digit string longer than 4300 digits. The model gives the value of any digit run. `Filter.RaisesIff`, `Filter.KeptRaises`, `Filter.FilterResultSpec` and `Service.ErrorIff` therefore hold only for experience texts whose leftmost match has at most 4300 digits; on a longer one the source also raises inside `filter_jobs` and answers HTTP 500.
- Unicode: `lower`, `strip`, `\d` and `\s` are modelled on ASCII only. Whitespace is the ASCII set that `str.isspace` accepts.
- Filter.FilterJobs: it takes the records as a sequence of values, so it does not capture that the fallback returns the very same list object.
- Crawler.FetchLinkedinJobs: it also returns the offsets of the requests it made, which the source only uses internally.
