/**
  `filter_jobs`: the records the crawl returned, narrowed down by the
  request. A record is skipped when the requested work mode is set (and is not
  "any") and the record's mode differs, or when an experience is requested and
  the record asks for more than two years above it. A record that is not
  skipped gets a score: one point for an experience within a year of the
  requested one, plus twice the fraction of the requested skills that occur in
  its description and title. Records with a positive score are kept, in order;
  when none is kept, the whole input comes back. Building the skills text
  raises a `TypeError` for a record without a description; the error ends the
  call.
 */
module Filter {
  import opened Wrappers
  import opened Text
  import opened Years
  import opened Extract

  /** `JobSearchRequest`: `None` for a field the client sent as `null` or that has no default. */
  datatype SearchRequest = SearchRequest(
    position: string,
    experience: Option<string>,
    salary: Option<string>,
    jobNature: Option<string>,
    location: Option<string>,
    skills: Option<string>)

  /** The request model's defaults for the optional fields the client leaves out. */
  function DefaultRequest(position: string): SearchRequest
  {
    SearchRequest(position, None, None, Some("any"), Some("Pakistan"), None)
  }

  /** A request that sets only its position filters out nothing. */
  lemma DefaultRequestReturnsInput(position: string, jobs: seq<JobRecord>)
    ensures FilterResult(jobs, DefaultRequest(position)) == Ok(jobs)
  {
    NoCriteriaReturnsInput(jobs, DefaultRequest(position));
  }

  /** CPython's message for `None + " "`. */
  const NoneLeftOperand: string := "unsupported operand type(s) for +: 'NoneType' and 'str'"
  /** CPython's message for `"..." + None`. */
  const NoneRightOperand: string := "can only concatenate str (not \"NoneType\") to str"

  // ---------------------------------------------------------------------------
  // The per-record tests.

  /** The work-mode test is on: a truthy mode other than "any", in any case. */
  predicate WorkModeFilterOn(req: SearchRequest)
  {
    Truthy(req.jobNature) && Lower(req.jobNature.value) != "any"
  }

  /** The record is not skipped by the work-mode test. */
  predicate PassesWorkMode(job: JobRecord, req: SearchRequest)
  {
    !WorkModeFilterOn(req) || (Truthy(job.jobNature) && job.jobNature.value == Lower(req.jobNature.value))
  }

  /** The record is not skipped by the experience test. */
  predicate PassesExperience(job: JobRecord, req: SearchRequest)
  {
    !Truthy(req.experience) || ExtractYears(job.experience) <= ExtractYears(req.experience) + 2
  }

  /** The record reaches the scoring step. */
  predicate PassesHardFilters(job: JobRecord, req: SearchRequest)
  {
    PassesWorkMode(job, req) && PassesExperience(job, req)
  }

  /** The experience point: an experience is requested and the record's is within one year of it. */
  predicate ExperienceBonus(job: JobRecord, req: SearchRequest)
  {
    Truthy(req.experience) && -1 <= ExtractYears(job.experience) - ExtractYears(req.experience) <= 1
  }

  /** `[s.strip().lower() for s in skills.split(',')]`: one token per comma-separated part. */
  function SkillTokens(skills: string): (tokens: seq<string>)
    ensures |tokens| == |Split(skills, ',')| >= 1
  {
    var parts := Split(skills, ',');
    seq(|parts|, i requires 0 <= i < |parts| => Lower(Strip(parts[i])))
  }

  /**
    `(description + " " + job_title).lower()`, or the `TypeError` the first
    `None` operand raises.
   */
  function SearchText(job: JobRecord): (r: Result<string, string>)
    ensures r.Err? <==> job.description.None? || job.jobTitle.None?
    ensures r.Err? ==> r.error == (if job.description.None? then NoneLeftOperand else NoneRightOperand)
    ensures r.Ok? ==> r.value == Lower(job.description.value + " " + job.jobTitle.value)
  {
    match job.description
    case None => Err(NoneLeftOperand)
    case Some(d) =>
      match job.jobTitle
      case None => Err(NoneRightOperand)
      case Some(t) => Ok(Lower(d + " " + t))
  }

  /** The number of tokens that are substrings of `text`. */
  function CountMatched(tokens: seq<string>, text: string): (n: nat)
    ensures n <= |tokens|
    ensures n > 0 <==> exists i :: 0 <= i < |tokens| && Contains(text, tokens[i])
    decreases |tokens|
  {
    if tokens == [] then 0
    else
      var n := (if Contains(text, tokens[0]) then 1 else 0) + CountMatched(tokens[1..], text);
      assert forall i :: 1 <= i < |tokens| ==> tokens[i] == tokens[1..][i - 1];
      n
  }

  /** `matched / len(skills_list) * 2`: in [0, 2], and positive exactly when some token matched. */
  function SkillScore(tokens: seq<string>, text: string): (s: real)
    requires |tokens| >= 1
    ensures 0.0 <= s <= 2.0
    ensures s > 0.0 <==> CountMatched(tokens, text) > 0
  {
    var m := CountMatched(tokens, text);
    RatioBounds(m as real, |tokens| as real);
    m as real / |tokens| as real * 2.0
  }

  /** A share `m / d` of a positive whole lies in [0, 1] and is positive exactly when `m` is. */
  lemma RatioBounds(m: real, d: real)
    requires 0.0 <= m <= d && d > 0.0
    ensures 0.0 <= m / d <= 1.0
    ensures m / d > 0.0 <==> m > 0.0
  {
    var q := m / d;
    assert q * d == m;
  }

  /** The match score of a record that passed the hard filters, or the error that scoring raised. */
  function Score(job: JobRecord, req: SearchRequest): (r: Result<real, string>)
    ensures r.Err? <==> Truthy(req.skills) && SearchText(job).Err?
    ensures r.Err? ==> r.error == SearchText(job).error
    ensures r.Ok? ==> 0.0 <= r.value <= 3.0
    ensures r.Ok? ==> (r.value > 0.0 <==>
                         || ExperienceBonus(job, req)
                         || (Truthy(req.skills) && CountMatched(SkillTokens(req.skills.value), SearchText(job).value) > 0))
  {
    var base := if ExperienceBonus(job, req) then 1.0 else 0.0;
    if !Truthy(req.skills) then Ok(base)
    else
      match SearchText(job)
      case Err(e) => Err(e)
      case Ok(text) => Ok(base + SkillScore(SkillTokens(req.skills.value), text))
  }

  /** One pass of the loop body: keep the record, skip it, or raise. */
  function Assess(job: JobRecord, req: SearchRequest): Result<bool, string>
  {
    if !PassesHardFilters(job, req) then Ok(false)
    else
      match Score(job, req)
      case Err(e) => Err(e)
      case Ok(s) => Ok(s > 0.0)
  }

  /** The `filtered_jobs` list after the loop over `jobs`, or the first error raised. */
  function Kept(jobs: seq<JobRecord>, req: SearchRequest): Result<seq<JobRecord>, string>
    decreases |jobs|
  {
    if jobs == [] then Ok([])
    else
      match Kept(jobs[..|jobs| - 1], req)
      case Err(e) => Err(e)
      case Ok(k) =>
        match Assess(jobs[|jobs| - 1], req)
        case Err(e) => Err(e)
        case Ok(keep) => Ok(if keep then k + [jobs[|jobs| - 1]] else k)
  }

  /** What `filter_jobs(jobs, req)` returns: the kept records, or `jobs` itself when none is kept. */
  function FilterResult(jobs: seq<JobRecord>, req: SearchRequest): Result<seq<JobRecord>, string>
  {
    match Kept(jobs, req)
    case Err(e) => Err(e)
    case Ok(k) => Ok(if k == [] then jobs else k)
  }

  // ---------------------------------------------------------------------------
  // The imperative filter.

  /**
    The body of `for job in job_listings`: `Ok(false)` where the source
    continues without appending, `Ok(true)` where it appends, `Err` where it
    raises.
   */
  method AssessJob(job: JobRecord, req: SearchRequest) returns (r: Result<bool, string>)
    ensures r == Assess(job, req)
  {
    var matchScore: real := 0.0;
    if req.jobNature.Some? && req.jobNature.value != "" && Lower(req.jobNature.value) != "any" {
      if job.jobNature.None? || job.jobNature.value == "" || job.jobNature.value != Lower(req.jobNature.value) {
        return Ok(false);
      }
    }
    if req.experience.Some? && req.experience.value != "" {
      var reqExp: int := ExtractYears(req.experience);
      var jobExp: int := ExtractYears(job.experience);
      if jobExp > reqExp + 2 {
        return Ok(false);
      }
      if -1 <= jobExp - reqExp <= 1 {
        matchScore := matchScore + 1.0;
      }
    }
    assert matchScore == if ExperienceBonus(job, req) then 1.0 else 0.0;
    if req.skills.Some? && req.skills.value != "" {
      var skillsList := SkillTokens(req.skills.value);
      if job.description.None? {
        return Err(NoneLeftOperand);
      }
      if job.jobTitle.None? {
        return Err(NoneRightOperand);
      }
      var desc := Lower(job.description.value + " " + job.jobTitle.value);
      var matched := CountMatched(skillsList, desc);
      matchScore := matchScore + matched as real / |skillsList| as real * 2.0;
    }
    r := Ok(matchScore > 0.0);
  }

  /** `filter_jobs`; an `Err` is the `TypeError` the loop raised. */
  method FilterJobs(jobListings: seq<JobRecord>, req: SearchRequest) returns (r: Result<seq<JobRecord>, string>)
    ensures r == FilterResult(jobListings, req)
  {
    var filtered: seq<JobRecord> := [];
    var i := 0;
    while i < |jobListings|
      invariant 0 <= i <= |jobListings|
      invariant Kept(jobListings[..i], req) == Ok(filtered)
    {
      var job := jobListings[i];
      assert jobListings[..i + 1][..i] == jobListings[..i];
      assert jobListings[..i + 1][i] == job;
      var keep := AssessJob(job, req);
      if keep.Err? {
        KeptErrPersists(jobListings, i + 1, keep.error, req);
        return Err(keep.error);
      }
      if keep.value {
        filtered := filtered + [job];
      }
      i := i + 1;
    }
    assert jobListings[..i] == jobListings;
    r := Ok(if filtered == [] then jobListings else filtered);
  }

  // ---------------------------------------------------------------------------
  // Properties of the filter.

  /** Once a prefix has raised, the whole loop has raised the same error. */
  lemma {:induction false} KeptErrPersists(jobs: seq<JobRecord>, j: nat, e: string, req: SearchRequest)
    requires j <= |jobs|
    requires Kept(jobs[..j], req) == Err(e)
    ensures Kept(jobs, req) == Err(e)
    decreases |jobs| - j
  {
    if j < |jobs| {
      assert jobs[..j + 1][..j] == jobs[..j];
      KeptErrPersists(jobs, j + 1, e, req);
    } else {
      assert jobs[..j] == jobs;
    }
  }

  /** The record is appended to `filtered_jobs`. */
  predicate Keeps(job: JobRecord, req: SearchRequest)
  {
    Assess(job, req) == Ok(true)
  }

  /** Scoring the record raises. */
  predicate Raises(job: JobRecord, req: SearchRequest)
  {
    Assess(job, req).Err?
  }

  /** Some requested skill occurs in the record's description and title, ignoring ASCII case. */
  predicate SkillMatched(job: JobRecord, req: SearchRequest)
  {
    && Truthy(req.skills) && SearchText(job).Ok?
    && exists i :: 0 <= i < |SkillTokens(req.skills.value)|
                   && Contains(SearchText(job).value, SkillTokens(req.skills.value)[i])
  }

  /** `a` is `b` with some elements left out and the order kept. */
  predicate Subsequence<T(==)>(a: seq<T>, b: seq<T>)
    decreases |b|
  {
    if b == [] then a == []
    else (a != [] && a[|a| - 1] == b[|b| - 1] && Subsequence(a[..|a| - 1], b[..|b| - 1]))
         || Subsequence(a, b[..|b| - 1])
  }

  /** A subsequence is no longer than the sequence and holds only its elements. */
  lemma {:induction false} SubsequenceInside<T>(a: seq<T>, b: seq<T>)
    requires Subsequence(a, b)
    ensures |a| <= |b|
    ensures forall x :: x in a ==> x in b
    decreases |b|
  {
    if b != [] {
      var b' := b[..|b| - 1];
      assert b == b' + [b[|b| - 1]];
      if a != [] && a[|a| - 1] == b[|b| - 1] && Subsequence(a[..|a| - 1], b') {
        SubsequenceInside(a[..|a| - 1], b');
        assert a == a[..|a| - 1] + [a[|a| - 1]];
      } else {
        SubsequenceInside(a, b');
      }
    }
  }

  /** Record `i` is the first one whose scoring raises. */
  predicate FirstRaise(jobs: seq<JobRecord>, req: SearchRequest, i: int)
  {
    0 <= i < |jobs| && Raises(jobs[i], req) && forall j :: 0 <= j < i ==> !Raises(jobs[j], req)
  }

  /**
    A record raises exactly when it passes the hard filters, skills are
    requested and it has no description (or no title); the message is the one
    for the first missing operand.
   */
  lemma RaisesIff(job: JobRecord, req: SearchRequest)
    ensures Raises(job, req) <==>
              PassesHardFilters(job, req) && Truthy(req.skills) && (job.description.None? || job.jobTitle.None?)
    ensures Raises(job, req) ==>
              Assess(job, req).error == if job.description.None? then NoneLeftOperand else NoneRightOperand
  {
  }

  /**
    A record is kept exactly when it passes both hard filters, does not raise,
    and earns the experience point or matches a requested skill.
   */
  lemma KeepsIff(job: JobRecord, req: SearchRequest)
    ensures Keeps(job, req) <==>
              && PassesHardFilters(job, req)
              && (Truthy(req.skills) ==> SearchText(job).Ok?)
              && (ExperienceBonus(job, req) || SkillMatched(job, req))
  {
    if PassesHardFilters(job, req) && Truthy(req.skills) && SearchText(job).Ok? {
      var tokens := SkillTokens(req.skills.value);
      assert Score(job, req).Ok?;
      assert CountMatched(tokens, SearchText(job).value) > 0 <==> SkillMatched(job, req);
    }
  }

  /**
    The loop raises exactly when some record raises, and then with the first
    such record's error; otherwise it keeps, in order, exactly the records
    that `Keeps`.
   */
  lemma KeptSpec(jobs: seq<JobRecord>, req: SearchRequest)
    ensures Kept(jobs, req).Ok? <==> forall i :: 0 <= i < |jobs| ==> !Raises(jobs[i], req)
    ensures Kept(jobs, req).Ok? ==> Subsequence(Kept(jobs, req).value, jobs)
    ensures Kept(jobs, req).Ok? ==> forall x :: x in Kept(jobs, req).value <==> x in jobs && Keeps(x, req)
    ensures Kept(jobs, req).Ok? ==> KeepsEveryCopy(Kept(jobs, req).value, jobs, req)
    ensures Kept(jobs, req).Err? ==> exists i :: FirstRaise(jobs, req, i) && Kept(jobs, req).error == Assess(jobs[i], req).error
  {
    KeptRaises(jobs, req);
    KeptSubsequence(jobs, req);
    KeptCounts(jobs, req);
    if Kept(jobs, req).Ok? {
      var k := Kept(jobs, req).value;
      forall x ensures x in k <==> x in jobs && Keeps(x, req) {
        assert multiset(k)[x] == if Keeps(x, req) then multiset(jobs)[x] else 0;
      }
    }
  }

  /** The loop raises exactly when some record raises, and then with the first such record's error. */
  lemma {:induction false} KeptRaises(jobs: seq<JobRecord>, req: SearchRequest)
    ensures Kept(jobs, req).Ok? <==> forall i :: 0 <= i < |jobs| ==> !Raises(jobs[i], req)
    ensures Kept(jobs, req).Err? ==> exists i :: FirstRaise(jobs, req, i) && Kept(jobs, req).error == Assess(jobs[i], req).error
    decreases |jobs|
  {
    if jobs != [] {
      var n := |jobs| - 1;
      var p := jobs[..n];
      KeptRaises(p, req);
      assert forall i :: 0 <= i < n ==> jobs[i] == p[i];
      match Kept(p, req)
      case Err(e) =>
        var i :| FirstRaise(p, req, i) && e == Assess(p[i], req).error;
        assert FirstRaise(jobs, req, i);
      case Ok(k) =>
        if Raises(jobs[n], req) {
          assert FirstRaise(jobs, req, n);
        }
    }
  }

  /** What the loop keeps is a subsequence of its input. */
  lemma {:induction false} KeptSubsequence(jobs: seq<JobRecord>, req: SearchRequest)
    ensures Kept(jobs, req).Ok? ==> Subsequence(Kept(jobs, req).value, jobs)
    decreases |jobs|
  {
    if jobs != [] && Kept(jobs, req).Ok? {
      var n := |jobs| - 1;
      var p := jobs[..n];
      KeptSubsequence(p, req);
      var k := Kept(p, req).value;
      var k' := Kept(jobs, req).value;
      if Keeps(jobs[n], req) {
        assert k' == k + [jobs[n]];
        assert k'[..|k'| - 1] == k;
      } else {
        assert k' == k;
      }
    }
  }

  /** `k` holds every copy in `jobs` of each record that `Keeps`, and no other record. */
  ghost predicate KeepsEveryCopy(k: seq<JobRecord>, jobs: seq<JobRecord>, req: SearchRequest)
  {
    forall x :: multiset(k)[x] == if Keeps(x, req) then multiset(jobs)[x] else 0
  }

  /** A record that `Keeps` is kept as many times as it occurs; any other record is not kept. */
  lemma {:induction false} KeptCounts(jobs: seq<JobRecord>, req: SearchRequest)
    ensures Kept(jobs, req).Ok? ==> KeepsEveryCopy(Kept(jobs, req).value, jobs, req)
    decreases |jobs|
  {
    if jobs != [] && Kept(jobs, req).Ok? {
      var n := |jobs| - 1;
      var p := jobs[..n];
      var y := jobs[n];
      KeptCounts(p, req);
      assert jobs == p + [y];
      assert multiset(jobs) == multiset(p) + multiset{y};
      var k := Kept(p, req).value;
      if Keeps(y, req) {
        assert Kept(jobs, req).value == k + [y];
        assert multiset(k + [y]) == multiset(k) + multiset{y};
      } else {
        assert Kept(jobs, req).value == k;
      }
    }
  }

  /**
    `filter_jobs` raises exactly when some record raises. Otherwise, when no
    record is kept it returns its input unchanged; when some record is kept
    it returns, in order, exactly the kept records, all of which passed the
    hard filters.
   */
  lemma FilterResultSpec(jobs: seq<JobRecord>, req: SearchRequest)
    ensures FilterResult(jobs, req).Err? <==> exists i :: 0 <= i < |jobs| && Raises(jobs[i], req)
    ensures FilterResult(jobs, req).Ok? && (forall i :: 0 <= i < |jobs| ==> !Keeps(jobs[i], req)) ==>
              FilterResult(jobs, req).value == jobs
    ensures FilterResult(jobs, req).Ok? && (exists i :: 0 <= i < |jobs| && Keeps(jobs[i], req)) ==>
              && FilterResult(jobs, req).value != []
              && Subsequence(FilterResult(jobs, req).value, jobs)
              && (forall x :: x in FilterResult(jobs, req).value <==> x in jobs && Keeps(x, req))
              && KeepsEveryCopy(FilterResult(jobs, req).value, jobs, req)
    ensures FilterResult(jobs, req).Ok? && (exists i :: 0 <= i < |jobs| && Keeps(jobs[i], req)) ==>
              forall x :: x in FilterResult(jobs, req).value ==> PassesHardFilters(x, req)
  {
    KeptSpec(jobs, req);
    if Kept(jobs, req).Ok? {
      var k := Kept(jobs, req).value;
      if k != [] {
        assert k[0] in k;
      }
      if exists i :: 0 <= i < |jobs| && Keeps(jobs[i], req) {
        var i :| 0 <= i < |jobs| && Keeps(jobs[i], req);
        assert jobs[i] in k;
      }
    }
  }

  /** When no record is kept and none raises, `filter_jobs` returns its input. */
  lemma FallbackReturnsInput(jobs: seq<JobRecord>, req: SearchRequest)
    requires forall i :: 0 <= i < |jobs| ==> Assess(jobs[i], req) == Ok(false)
    ensures FilterResult(jobs, req) == Ok(jobs)
  {
    FilterResultSpec(jobs, req);
  }

  /**
    A request with no experience and no skills gives back every record, whatever
    its work mode: nothing is scored, so the fallback returns the input.
   */
  lemma NoCriteriaReturnsInput(jobs: seq<JobRecord>, req: SearchRequest)
    requires !Truthy(req.experience) && !Truthy(req.skills)
    ensures FilterResult(jobs, req) == Ok(jobs)
  {
    FallbackReturnsInput(jobs, req);
  }

  /** The loop depends on the request only through what `Assess` makes of each record. */
  lemma {:induction false} KeptCongruent(jobs: seq<JobRecord>, req1: SearchRequest, req2: SearchRequest)
    requires forall i :: 0 <= i < |jobs| ==> Assess(jobs[i], req1) == Assess(jobs[i], req2)
    ensures Kept(jobs, req1) == Kept(jobs, req2)
    decreases |jobs|
  {
    if jobs != [] {
      var p := jobs[..|jobs| - 1];
      assert forall i :: 0 <= i < |p| ==> p[i] == jobs[i];
      KeptCongruent(p, req1, req2);
    }
  }

  /**
    A work mode of "any" (in any case), an empty one or none at all excludes
    no record: the result is the one for a request without a work mode.
   */
  lemma AnyModeIsNoFilter(jobs: seq<JobRecord>, req: SearchRequest)
    requires !WorkModeFilterOn(req)
    ensures forall job :: PassesWorkMode(job, req)
    ensures FilterResult(jobs, req) == FilterResult(jobs, req.(jobNature := None))
  {
    KeptCongruent(jobs, req, req.(jobNature := None));
  }

  /**
    A work mode other than "any", "remote", "hybrid" and "onsite" matches no
    extracted record, so every record is skipped and the fallback returns
    them all.
   */
  lemma UnknownModeReturnsInput(jobs: seq<JobRecord>, req: SearchRequest)
    requires WorkModeFilterOn(req)
    requires Lower(req.jobNature.value) != "remote" && Lower(req.jobNature.value) != "hybrid"
    requires Lower(req.jobNature.value) != "onsite"
    requires forall i :: 0 <= i < |jobs| ==> KnownNature(jobs[i])
    ensures FilterResult(jobs, req) == Ok(jobs)
  {
    FallbackReturnsInput(jobs, req);
  }

  /**
    An empty skill token, as a trailing comma or a blank part produces, is a
    substring of every text, so every record that passes the hard filters and
    has a description and a title is kept.
   */
  lemma EmptyTokenKeepsAll(job: JobRecord, req: SearchRequest)
    requires Truthy(req.skills) && "" in SkillTokens(req.skills.value)
    requires PassesHardFilters(job, req) && job.description.Some? && job.jobTitle.Some?
    ensures Keeps(job, req)
  {
    EmptyTokenSkillMatch(job, req);
    KeepsIff(job, req);
  }

  /** An empty skill token occurs in every search text. */
  lemma EmptyTokenSkillMatch(job: JobRecord, req: SearchRequest)
    requires Truthy(req.skills) && "" in SkillTokens(req.skills.value)
    requires job.description.Some? && job.jobTitle.Some?
    ensures SkillMatched(job, req)
  {
    var tokens := SkillTokens(req.skills.value);
    var text := SearchText(job).value;
    var i :| 0 <= i < |tokens| && tokens[i] == "";
    EmptyContained(text);
    assert Contains(text, tokens[i]);
  }

  /** Each token is its comma-separated part with the whitespace around it removed, in lower case. */
  lemma SkillTokensParts(skills: string)
    ensures forall i :: 0 <= i < |SkillTokens(skills)| ==>
              SkillTokens(skills)[i] == Lower(Strip(Split(skills, ',')[i]))
  {
  }

  /**
    A remote-only request with skills, over an onsite record and a remote
    record that matches no skill: the onsite record is skipped, the remote one
    scores zero, and the fallback returns both records, the skipped onsite
    one included.
   */
  lemma RemoteRequestFallback(onsite: JobRecord, remote: JobRecord, req: SearchRequest)
    requires req.jobNature == Some("remote") && !Truthy(req.experience) && Truthy(req.skills)
    requires onsite.jobNature == Some("onsite")
    requires remote.jobNature == Some("remote") && remote.description.Some? && remote.jobTitle.Some?
    requires !SkillMatched(remote, req)
    ensures !PassesWorkMode(onsite, req)
    ensures FilterResult([onsite, remote], req) == Ok([onsite, remote])
  {
    OnsiteSkipped(onsite, req);
    UnmatchedRemoteScoresZero(remote, req);
    var jobs := [onsite, remote];
    assert jobs[0] == onsite && jobs[1] == remote;
    FallbackReturnsInput(jobs, req);
  }

  /** An onsite record is skipped by a remote request. */
  lemma OnsiteSkipped(onsite: JobRecord, req: SearchRequest)
    requires req.jobNature == Some("remote") && onsite.jobNature == Some("onsite")
    ensures !PassesWorkMode(onsite, req) && Assess(onsite, req) == Ok(false)
  {
    LowerLowercase("remote");
    assert "remote" != "any" && "onsite" != "remote";
  }

  /** A remote record without skill overlap passes a remote request without experience, and scores 0. */
  lemma UnmatchedRemoteScoresZero(remote: JobRecord, req: SearchRequest)
    requires req.jobNature == Some("remote") && !Truthy(req.experience) && Truthy(req.skills)
    requires remote.jobNature == Some("remote") && remote.description.Some? && remote.jobTitle.Some?
    requires !SkillMatched(remote, req)
    ensures Assess(remote, req) == Ok(false)
  {
    LowerLowercase("remote");
    assert PassesHardFilters(remote, req);
    KeepsIff(remote, req);
    RaisesIff(remote, req);
  }

  /** A trailing comma yields an empty last token. */
  lemma TrailingCommaToken(skill: string)
    requires ',' !in skill
    requires skill != [] && !IsSpace(skill[0]) && !IsSpace(skill[|skill| - 1])
    requires forall i :: 0 <= i < |skill| ==> !IsUpper(skill[i])
    ensures SkillTokens(skill + ",") == [skill, ""]
  {
    var parts: seq<string> := [skill, ""];
    assert Join(parts[1..], ',') == "";
    assert Join(parts, ',') == skill + ",";
    SplitJoin(parts, ',');
    StripUnspaced(skill);
    LowerLowercase(skill);
    var tokens := SkillTokens(skill + ",");
    assert tokens[0] == Lower(Strip(skill)) == skill;
    assert tokens[1] == Lower(Strip("")) == "";
  }
}
