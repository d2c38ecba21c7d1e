/**
  `extract_years`: the number of years of experience named by a free-text
  experience string. The regular expression `(\d+)[\+]?\s*(?:year|yr)` is
  given its meaning by `MatchesAt`, and `FindYears` is the left-to-right scan
  that finds its first match.
 */
module Years {
  import opened Wrappers
  import opened Text

  /** Every character of `s[i..k]` is a digit. */
  predicate DigitsBetween(s: string, i: int, k: int)
  {
    0 <= i <= k <= |s| && forall p :: i <= p < k ==> IsDigit(s[p])
  }

  /** Every character of `s[m..w]` is whitespace. */
  predicate SpacesBetween(s: string, m: int, w: int)
  {
    0 <= m <= w <= |s| && forall p :: m <= p < w ==> IsSpace(s[p])
  }

  /** `(?:year|yr)` matches at index `w`. */
  predicate UnitAt(s: string, w: int)
  {
    0 <= w <= |s| && ("year" <= s[w..] || "yr" <= s[w..])
  }

  /** `\s*(?:year|yr)` matches at index `m`. */
  ghost predicate SpacesThenUnit(s: string, m: int)
  {
    exists w :: SpacesBetween(s, m, w) && UnitAt(s, w)
  }

  /** The whole pattern matches at `i` with `s[i..k]` as the captured `(\d+)`. */
  ghost predicate MatchesAt(s: string, i: int, k: int)
  {
    i < k && DigitsBetween(s, i, k)
    && (SpacesThenUnit(s, k) || (k < |s| && s[k] == '+' && SpacesThenUnit(s, k + 1)))
  }

  /** The first element `re.findall` returns is the group `s[i..k]`: no match starts further left. */
  ghost predicate FirstMatch(s: string, i: int, k: int)
  {
    MatchesAt(s, i, k) && forall i', k' :: 0 <= i' < i ==> !MatchesAt(s, i', k')
  }

  /** The decimal value of a string of digits, as `int()` reads it. */
  function DigitsValue(d: string): nat
    requires forall p :: 0 <= p < |d| ==> IsDigit(d[p])
    decreases |d|
  {
    if d == [] then 0
    else
      var last := d[|d| - 1];
      assert IsDigit(last);
      DigitsValue(d[..|d| - 1]) * 10 + (last as int - '0' as int)
  }

  /** The end of the run of digits that starts at `i`. */
  function RunEnd(s: string, i: int): (k: int)
    requires 0 <= i <= |s|
    ensures DigitsBetween(s, i, k) && (k == |s| || !IsDigit(s[k]))
    decreases |s| - i
  {
    if i < |s| && IsDigit(s[i]) then RunEnd(s, i + 1) else i
  }

  /** The first index at or after `m` that is not whitespace. */
  function SkipSpaces(s: string, m: int): (w: int)
    requires 0 <= m <= |s|
    ensures SpacesBetween(s, m, w) && (w == |s| || !IsSpace(s[w]))
    decreases |s| - m
  {
    if m < |s| && IsSpace(s[m]) then SkipSpaces(s, m + 1) else m
  }

  /** `[\+]?\s*(?:year|yr)` matches right after a digit run that ends at `k`. */
  predicate TailMatches(s: string, k: int)
    requires 0 <= k <= |s|
  {
    var m := if k < |s| && s[k] == '+' then k + 1 else k;
    UnitAt(s, SkipSpaces(s, m))
  }

  /**
    Scan `s` from `from` for the first digit run followed by the pattern's
    tail; a run that fails is skipped as a whole.
   */
  function FindYears(s: string, from: int): (r: Option<(int, int)>)
    requires 0 <= from <= |s|
    ensures r.Some? ==> from <= r.value.0 < r.value.1 && DigitsBetween(s, r.value.0, r.value.1)
    decreases |s| - from
  {
    if from == |s| then None
    else if IsDigit(s[from]) then
      var k := RunEnd(s, from);
      if TailMatches(s, k) then Some((from, k)) else FindYears(s, k)
    else FindYears(s, from + 1)
  }

  /** The keyword fallback: entry/junior, then mid, then senior. */
  function KeywordYears(s: string): nat
  {
    if Contains(s, "entry") || Contains(s, "junior") then 0
    else if Contains(s, "mid") then 3
    else if Contains(s, "senior") then 5
    else 0
  }

  /**
    `years` is what the pattern gives for the lowercased text `s`: the value of
    the digits of its leftmost match, or the keyword value when it matches
    nowhere.
   */
  ghost predicate YearsOfText(s: string, years: nat)
  {
    || (exists i, k :: FirstMatch(s, i, k) && years == DigitsValue(s[i..k]))
    || ((forall i, k :: !MatchesAt(s, i, k)) && years == KeywordYears(s))
  }

  /** `extract_years(exp_str)`; `None` stands for Python's `None`. */
  function ExtractYears(exp: Option<string>): (years: nat)
    ensures !Truthy(exp) ==> years == 0
    ensures Truthy(exp) ==> YearsOfText(Lower(exp.value), years)
  {
    if !Truthy(exp) then 0
    else
      var s := Lower(exp.value);
      FindYearsLeftmost(s, 0);
      match FindYears(s, 0)
      case Some((i, k)) => assert FirstMatch(s, i, k); DigitsValue(s[i..k])
      case None => KeywordYears(s)
  }

  // ---------------------------------------------------------------------------
  // The scan finds exactly what the regular expression finds.

  lemma SpacesThenUnitIff(s: string, m: int)
    requires 0 <= m <= |s|
    ensures SpacesThenUnit(s, m) <==> UnitAt(s, SkipSpaces(s, m))
  {
    var w0 := SkipSpaces(s, m);
    if SpacesThenUnit(s, m) {
      var w :| SpacesBetween(s, m, w) && UnitAt(s, w);
      assert w < |s| && !IsSpace(s[w]);
      assert w0 == w;
    }
  }

  /** The tail of the pattern starts with neither a digit nor a second `+`. */
  lemma TailStart(s: string, m: int)
    requires 0 <= m <= |s|
    ensures SpacesThenUnit(s, m) ==> m < |s| && !IsDigit(s[m]) && s[m] != '+'
  {
    SpacesThenUnitIff(s, m);
    var w := SkipSpaces(s, m);
    assert UnitAt(s, w) ==> w < |s| && s[w] == 'y';
    assert m < w ==> IsSpace(s[m]);
  }

  /** A run of digits that is not followed by a digit ends where `RunEnd` says. */
  lemma RunEndIs(s: string, i: int, k: int)
    requires 0 <= i <= |s|
    ensures DigitsBetween(s, i, k) && (k == |s| || !IsDigit(s[k])) ==> k == RunEnd(s, i)
  {
    var e := RunEnd(s, i);
    assert e < |s| ==> !IsDigit(s[e]);
  }

  /** Inside a run, every position has the same run end. */
  lemma RunEndInside(s: string, i: int, p: int)
    requires 0 <= i <= |s| && i <= p <= RunEnd(s, i)
    ensures RunEnd(s, p) == RunEnd(s, i)
  {
    RunEndIs(s, p, RunEnd(s, i));
  }

  /** `TailMatches` is the tail `[\+]?\s*(?:year|yr)` of the pattern. */
  lemma TailMatchesIff(s: string, k: int)
    requires 0 <= k <= |s|
    ensures TailMatches(s, k) <==>
              SpacesThenUnit(s, k) || (k < |s| && s[k] == '+' && SpacesThenUnit(s, k + 1))
  {
    TailStart(s, k);
    SpacesThenUnitIff(s, k);
    if k < |s| {
      SpacesThenUnitIff(s, k + 1);
    }
  }

  /** A digit run can be followed by the tail only where it ends, so the group is a whole run. */
  lemma MatchesAtIff(s: string, i: int, k: int)
    requires 0 <= i < |s|
    ensures MatchesAt(s, i, k) <==> IsDigit(s[i]) && k == RunEnd(s, i) && TailMatches(s, k)
  {
    if 0 <= k <= |s| {
      TailStart(s, k);
      TailMatchesIff(s, k);
      RunEndIs(s, i, k);
    }
  }

  /**
    What `FindYears` returns is the leftmost match at or after `from`, and it
    returns nothing exactly when no match starts there.
   */
  lemma {:induction false} FindYearsLeftmost(s: string, from: int)
    requires 0 <= from <= |s|
    ensures FindYears(s, from).Some? ==>
              var (i, k) := FindYears(s, from).value;
              MatchesAt(s, i, k) && forall i', k' :: from <= i' < i ==> !MatchesAt(s, i', k')
    ensures FindYears(s, from).None? ==> forall i', k' :: from <= i' ==> !MatchesAt(s, i', k')
    decreases |s| - from
  {
    if from == |s| {
    } else if IsDigit(s[from]) {
      var k := RunEnd(s, from);
      forall p, k' | from <= p < k ensures !MatchesAt(s, p, k') || TailMatches(s, k) {
        RunEndInside(s, from, p);
        MatchesAtIff(s, p, k');
      }
      if TailMatches(s, k) {
        MatchesAtIff(s, from, k);
      } else {
        FindYearsLeftmost(s, k);
      }
    } else {
      forall k' ensures !MatchesAt(s, from, k') {
        MatchesAtIff(s, from, k');
      }
      FindYearsLeftmost(s, from + 1);
    }
  }

  /** Two leftmost matches are the same match. */
  lemma FirstMatchUnique(s: string, i: int, k: int, i2: int, k2: int)
    requires FirstMatch(s, i, k) && FirstMatch(s, i2, k2)
    ensures i == i2 && k == k2
  {
    assert !(i < i2) && !(i2 < i);
    MatchesAtIff(s, i, k);
    MatchesAtIff(s, i, k2);
  }

  // ---------------------------------------------------------------------------
  // What `extract_years` returns.

  /** With a match, the result is the value of the leftmost match's digit run. */
  lemma ExtractYearsFromMatch(exp: string, i: int, k: int)
    requires FirstMatch(Lower(exp), i, k)
    ensures ExtractYears(Some(exp)) == DigitsValue(Lower(exp)[i..k])
  {
    var s := Lower(exp);
    FindYearsLeftmost(s, 0);
    match FindYears(s, 0)
    case Some((i2, k2)) =>
      FirstMatchUnique(s, i, k, i2, k2);
    case None =>
  }

  /** Without a match, the keywords decide. */
  lemma ExtractYearsWithoutMatch(exp: string)
    requires forall i, k :: !MatchesAt(Lower(exp), i, k)
    ensures ExtractYears(Some(exp)) == KeywordYears(Lower(exp))
  {
    var s := Lower(exp);
    FindYearsLeftmost(s, 0);
    assert FindYears(s, 0).None?;
  }

  /** `None` and the empty string give 0. */
  lemma ExtractYearsOfNothing()
    ensures ExtractYears(None) == 0 && ExtractYears(Some("")) == 0
  {
  }

  /** The keyword precedence: entry/junior before mid before senior. */
  lemma KeywordPrecedence(s: string)
    ensures (Contains(s, "entry") || Contains(s, "junior")) ==> KeywordYears(s) == 0
    ensures !Contains(s, "entry") && !Contains(s, "junior") && Contains(s, "mid") ==> KeywordYears(s) == 3
    ensures (!Contains(s, "entry") && !Contains(s, "junior") && !Contains(s, "mid") && Contains(s, "senior"))
              ==> KeywordYears(s) == 5
    ensures KeywordYears(s) in {0, 3, 5}
  {
  }

  /** A string without digits has no match. */
  lemma NoDigitNoMatch(s: string)
    requires forall p :: 0 <= p < |s| ==> !IsDigit(s[p])
    ensures forall i, k :: !MatchesAt(s, i, k)
  {
    forall i, k ensures !MatchesAt(s, i, k) {
      if 0 <= i < |s| {
        assert !IsDigit(s[i]);
      }
    }
  }

  /** "5+ years" gives 5. */
  lemma ExamplePlusYears()
    ensures ExtractYears(Some("5+ years")) == 5
  {
    var s := "5+ years";
    assert Lower(s) == s;
    assert RunEnd(s, 1) == 1;
    assert SkipSpaces(s, 3) == 3;
    assert SkipSpaces(s, 2) == 3;
    assert "year" <= s[3..];
    assert FindYears(s, 0) == Some((0, 1));
    assert s[0..1] == "5";
  }

  /** "Mid-level, 3 years" gives 3: the digit match wins over the keyword "mid". */
  lemma ExampleDigitsBeforeKeyword()
    ensures ExtractYears(Some("Mid-level, 3 years")) == 3
  {
    var s := "mid-level, 3 years";
    assert Lower("Mid-level, 3 years") == s by {
      LowerMidLevel();
    }
    MidLevelScan();
    assert s[11..12] == ['3'];
    assert DigitsValue(['3']) == 3;
  }

  lemma LowerMidLevel()
    ensures Lower("Mid-level, 3 years") == "mid-level, 3 years"
  {
  }

  /** The scan over "mid-level, 3 years" passes the eleven leading non-digits and matches "3 years". */
  lemma MidLevelScan()
    ensures FindYears("mid-level, 3 years", 0) == Some((11, 12))
  {
    var s := "mid-level, 3 years";
    MidLevelTail();
    var j := 10;
    while j >= 0
      invariant -1 <= j <= 10
      invariant FindYears(s, j + 1) == Some((11, 12))
      decreases j
    {
      assert !IsDigit(s[j]);
      j := j - 1;
    }
  }

  /** At the digit, the scan matches "3 years". */
  lemma MidLevelTail()
    ensures FindYears("mid-level, 3 years", 11) == Some((11, 12))
  {
    var s := "mid-level, 3 years";
    assert RunEnd(s, 12) == 12;
    assert SkipSpaces(s, 13) == 13;
    assert SkipSpaces(s, 12) == 13;
    assert "year" <= s[13..];
  }

  /** "Entry level" gives 0. */
  lemma ExampleEntryLevel()
    ensures ExtractYears(Some("Entry level")) == 0
  {
    var e := "entry level";
    assert Lower("Entry level") == e;
    NoDigitNoMatch(e);
    ExtractYearsWithoutMatch("Entry level");
    assert "entry" <= e;
  }

  /** "Senior" gives 5. */
  lemma ExampleSenior()
    ensures ExtractYears(Some("Senior")) == 5
  {
    var t := "senior";
    assert Lower("Senior") == t;
    NoDigitNoMatch(t);
    ExtractYearsWithoutMatch("Senior");
    SeniorOnly();
    assert "senior" <= t;
  }

  /** "senior" holds none of the keywords checked before it. */
  lemma SeniorOnly()
    ensures !Contains("senior", "entry") && !Contains("senior", "junior") && !Contains("senior", "mid")
  {
    MissingChar("senior", "entry", 't');
    MissingChar("senior", "junior", 'j');
    MissingChar("senior", "mid", 'm');
  }
}
