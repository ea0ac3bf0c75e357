/**
 The per-site extractors of the content script: each runs three independent
 passes (title, company, location) that try a fixed list of selectors in
 their authored order and keep the first non-empty cleaned text. The generic
 extractor falls back to the `og:title` and site-name `<meta>` values.
 */
module Extractors {
  import opened Text
  import opened Dom
  import opened Location

  /** The detector's result; every field defaults to the empty string. */
  datatype JobInfo = JobInfo(jobTitle: string, company: string, location: string)

  const EmptyInfo := JobInfo("", "", "")

  /** The field invariant every extractor keeps: no white space at either end
      of any field, and the location is clean and free of the middle dot. */
  predicate WellFormed(info: JobInfo) {
    Trimmed(info.jobTitle) && Trimmed(info.company) && IsClean(info.location) && Middot !in info.location
  }

  /** getCleanText of the element `root.querySelector(selector)` finds: the
      empty string when there is none or the selector throws. */
  function SelectorText(root: Scope, selector: string): (r: string)
    ensures IsClean(r)
    ensures !QuerySelector(root, selector).Match? ==> r == ""
    ensures QuerySelector(root, selector).Match? ==>
              NonSpace(r) == NonSpace(RawText(QuerySelector(root, selector).element))
  {
    match QuerySelector(root, selector)
    case Match(e) => Clean(RawText(e))
    case _ => ""
  }

  /** The cleaned text each selector yields, in list order. */
  function Texts(selectors: seq<string>, root: Scope): seq<string> {
    seq(|selectors|, i requires 0 <= i < |selectors| => SelectorText(root, selectors[i]))
  }

  /** `r` is '' exactly when every text is empty, and otherwise the first
      non-empty one. */
  ghost predicate FirstNonEmpty(texts: seq<string>, r: string) {
    && (r == "" <==> forall i :: 0 <= i < |texts| ==> texts[i] == "")
    && (r != "" ==> exists i :: 0 <= i < |texts| && r == texts[i] && forall j :: 0 <= j < i ==> texts[j] == "")
  }

  /** What trySelectors promises of its result `r`: '' exactly when no
      selector yields text, and otherwise the text of the first selector that
      does. */
  ghost predicate IsFirstText(selectors: seq<string>, root: Scope, r: string) {
    FirstNonEmpty(Texts(selectors, root), r)
  }

  /** The promise pins the result down: at most one text meets it. */
  lemma FirstNonEmptyUnique(texts: seq<string>, r1: string, r2: string)
    requires FirstNonEmpty(texts, r1) && FirstNonEmpty(texts, r2)
    ensures r1 == r2
  {
    if r1 != "" {
      var i1 :| 0 <= i1 < |texts| && r1 == texts[i1] && forall j :: 0 <= j < i1 ==> texts[j] == "";
      var i2 :| 0 <= i2 < |texts| && r2 == texts[i2] && forall j :: 0 <= j < i2 ==> texts[j] == "";
      assert !(i1 < i2) && !(i2 < i1);
    }
  }

  /** An empty first text passes the choice on to the rest of the list. */
  lemma FirstNonEmptyStep(texts: seq<string>, r: string)
    requires |texts| > 0 && texts[0] == ""
    requires FirstNonEmpty(texts[1..], r)
    ensures FirstNonEmpty(texts, r)
  {
    var tail := texts[1..];
    if r == "" {
      forall i | 0 <= i < |texts|
        ensures texts[i] == ""
      {
        if i > 0 {
          assert texts[i] == tail[i - 1];
        }
      }
    } else {
      var i :| 0 <= i < |tail| && r == tail[i] && forall j :: 0 <= j < i ==> tail[j] == "";
      assert texts[i + 1] == tail[i];
      forall j | 0 <= j < i + 1
        ensures texts[j] == ""
      {
        if j > 0 {
          assert texts[j] == tail[j - 1];
        }
      }
    }
  }

  /** trySelectors: the cleaned text of the first selector, in list order,
      whose element exists and has non-empty cleaned text; '' when none does.
      A selector that throws is passed over like one that finds nothing. */
  function TrySelectors(selectors: seq<string>, root: Scope): (r: string)
    ensures IsClean(r)
    ensures IsFirstText(selectors, root, r)
  {
    TextsStep(selectors, root);
    if |selectors| == 0 then ""
    else
      var t := SelectorText(root, selectors[0]);
      if t != "" then t
      else
        var r := TrySelectors(selectors[1..], root);
        FirstNonEmptyStep(Texts(selectors, root), r);
        r
  }

  /** The first selector's text heads the texts; the rest are the texts of
      the remaining selectors. */
  lemma TextsStep(selectors: seq<string>, root: Scope)
    ensures |Texts(selectors, root)| == |selectors|
    ensures |selectors| > 0 ==> Texts(selectors, root)[0] == SelectorText(root, selectors[0])
    ensures |selectors| > 0 ==> Texts(selectors[1..], root) == Texts(selectors, root)[1..]
  {
  }

  /** Trying a list that is the concatenation of two lists tries the second
      only when the first yields nothing. */
  lemma {:induction false} TrySelectorsAppend(a: seq<string>, b: seq<string>, root: Scope)
    ensures TrySelectors(a + b, root) ==
            (if TrySelectors(a, root) != "" then TrySelectors(a, root) else TrySelectors(b, root))
  {
    if |a| > 0 {
      assert (a + b)[1..] == a[1..] + b;
      TrySelectorsAppend(a[1..], b, root);
    } else {
      assert a + b == b;
    }
  }

  // ----- LinkedIn -----

  const LinkedInTitleSelectors := [
    "h1.job-details-jobs-unified-top-card__job-title",
    "h1.jobs-unified-top-card__job-title",
    "h1[data-test-id=\"job-details-jobs-unified-top-card__job-title\"]",
    "main h1",
    "div.jobs-unified-top-card h1",
    "div.jobs-details-top-card__job-title--container h1",
    "h1[class*=\"job-title\"]"
  ]

  const LinkedInCompanySelectors := [
    "a.job-details-jobs-unified-top-card__company-name",
    ".job-details-jobs-unified-top-card__company-name a",
    ".jobs-unified-top-card__company-name a",
    "[data-test-id=\"job-details-jobs-unified-top-card__company-name\"]",
    "a[href*=\"/company/\"] span",
    "a[href*=\"/company/\"]",
    "span.jobs-unified-top-card__company-name",
    "div[class*=\"company-name\"]"
  ]

  const LinkedInLocationSelectors := [
    "[data-test-id=\"job-details-jobs-unified-top-card__primary-description\"]",
    ".jobs-unified-top-card__primary-description",
    ".jobs-unified-top-card__bullet",
    "span.jobs-unified-top-card__workplace-type",
    "span.jobs-unified-top-card__location",
    "li.jobs-unified-top-card__job-insight span",
    "span[class*=\"job-location\"]",
    "div[class*=\"job-location\"]"
  ]

  /** detectLinkedInJob: the three selector passes over the document, the
      location normalised. */
  function DetectLinkedIn(p: Page): (info: JobInfo)
    ensures WellFormed(info)
    ensures IsFirstText(LinkedInTitleSelectors, p.document, info.jobTitle)
    ensures IsFirstText(LinkedInCompanySelectors, p.document, info.company)
    ensures info.location == ExtractLocation(TrySelectors(LinkedInLocationSelectors, p.document))
  {
    JobInfo(
      TrySelectors(LinkedInTitleSelectors, p.document),
      TrySelectors(LinkedInCompanySelectors, p.document),
      ExtractLocation(TrySelectors(LinkedInLocationSelectors, p.document)))
  }

  // ----- Indeed -----

  const IndeedTitleSelectors := [
    "h1[data-testid=\"jobTitle\"]",
    "h1[data-testid=\"job-title\"]",
    "h1.jobsearch-JobInfoHeader-title",
    "h1.jobTitle",
    "h1[class*=\"jobTitle\"]",
    "h1"
  ]

  const IndeedCompanySelectors := [
    "[data-testid=\"inlineHeader-companyName\"]",
    ".jobsearch-CompanyInfoWithoutHeaderImage div[data-company-name]",
    ".jobsearch-CompanyInfoWithoutHeaderImage .jobsearch-InlineCompanyRating div:first-child",
    ".jobsearch-InlineCompanyRating div:first-child",
    ".jobsearch-CompanyInfoContainer a",
    ".companyName"
  ]

  const IndeedLocationSelectors := [
    "[data-testid=\"inlineHeader-companyLocation\"]",
    "[data-testid=\"jobLocation\"]",
    ".jobsearch-CompanyInfoWithoutHeaderImage div:nth-child(2)",
    ".jobsearch-JobInfoHeader-subtitle > div:last-child",
    ".jobsearch-CompanyInfoWithReview div:nth-child(2)"
  ]

  /** detectIndeedJob: the three selector passes over the document, the
      location normalised. */
  function DetectIndeed(p: Page): (info: JobInfo)
    ensures WellFormed(info)
    ensures IsFirstText(IndeedTitleSelectors, p.document, info.jobTitle)
    ensures IsFirstText(IndeedCompanySelectors, p.document, info.company)
    ensures info.location == ExtractLocation(TrySelectors(IndeedLocationSelectors, p.document))
  {
    JobInfo(
      TrySelectors(IndeedTitleSelectors, p.document),
      TrySelectors(IndeedCompanySelectors, p.document),
      ExtractLocation(TrySelectors(IndeedLocationSelectors, p.document)))
  }

  // ----- Generic -----

  const GenericTitleSelectors := [
    "main h1",
    "h1[data-automation-id=\"jobPostingHeader\"]",
    "h1[data-testid=\"jobTitle\"]",
    "h1[itemprop=\"title\"]",
    "h1[class*=\"job-title\"]",
    "h1[class*=\"jobTitle\"]",
    "h1"
  ]

  const GenericCompanySelectors := [
    "[data-automation-id=\"company\"]",
    "[itemprop=\"hiringOrganization\"] [itemprop=\"name\"]",
    "[itemprop=\"hiringOrganization\"]",
    ".company span",
    ".company",
    "a.company",
    "header [class*=\"company\"]",
    "header [class*=\"employer\"]"
  ]

  const GenericLocationSelectors := [
    "[data-automation-id=\"jobLocation\"]",
    "[data-testid=\"job-location\"]",
    "[itemprop=\"jobLocation\"] [itemprop=\"addressLocality\"]",
    "[itemprop=\"jobLocation\"]",
    ".job-location",
    ".location",
    ".jobLocation",
    "li[class*=\"location\"]"
  ]

  /** The separator class `[-–|•·]` of the `og:title` split. */
  const TitleSeparators: set<char> := {'-', '\U{2013}', '|', '\U{2022}', '\U{00B7}'}

  /** The alternatives of the case-insensitive job keyword pattern. */
  const JobKeywords: seq<string> := [
    "engineer", "developer", "manager", "designer", "analyst", "intern",
    "scientist", "lead", "architect", "consultant", "specialist"
  ]

  /** `jobKeywords.test(part)`: some keyword occurs, ignoring ASCII case. */
  predicate HasJobKeyword(part: string) {
    exists k :: 0 <= k < |JobKeywords| && Contains(LowerAsciiString(part), JobKeywords[k])
  }

  /** `.map((p) => p.trim())`. */
  function TrimEach(pieces: seq<string>): seq<string> {
    seq(|pieces|, i requires 0 <= i < |pieces| => Trim(pieces[i]))
  }

  /** `.filter(Boolean)` on strings: the non-empty ones, in order. */
  function NonEmptyOnly(xs: seq<string>): (r: seq<string>)
    ensures |r| <= |xs|
    ensures forall x :: x in r <==> x in xs && x != ""
  {
    if |xs| == 0 then []
    else (if xs[0] == "" then [] else [xs[0]]) + NonEmptyOnly(xs[1..])
  }

  lemma {:induction false} NonEmptyOnlyKeepsOrder(xs: seq<string>, i: nat)
    requires i <= |xs|
    ensures NonEmptyOnly(xs) == NonEmptyOnly(xs[..i]) + NonEmptyOnly(xs[i..])
    decreases i
  {
    if i > 0 {
      assert xs[1..][..i - 1] == xs[1..i];
      assert xs[1..][i - 1..] == xs[i..];
      NonEmptyOnlyKeepsOrder(xs[1..], i - 1);
      assert xs[..i][1..] == xs[1..i];
    } else {
      assert xs[..0] == [] && xs[0..] == xs;
    }
  }

  /** The positions of the non-empty entries of `xs` from `i` on, in
      increasing order (NonEmptyPositionsExact). */
  function NonEmptyPositions(xs: seq<string>, i: nat): (idx: seq<nat>)
    requires i <= |xs|
    ensures forall k :: 0 <= k < |idx| ==> i <= idx[k] < |xs|
    decreases |xs| - i
  {
    if i == |xs| then []
    else (if xs[i] == "" then [] else [i]) + NonEmptyPositions(xs, i + 1)
  }

  /** Every listed position holds a non-empty entry, every non-empty entry
      is listed, and the list increases. */
  lemma {:induction false} NonEmptyPositionsExact(xs: seq<string>, i: nat)
    requires i <= |xs|
    ensures var idx := NonEmptyPositions(xs, i);
            && (forall k :: 0 <= k < |idx| ==> xs[idx[k]] != "")
            && (forall j :: i <= j < |xs| && xs[j] != "" ==> j in idx)
            && (forall k, l :: 0 <= k < l < |idx| ==> idx[k] < idx[l])
  {
    PositionsHoldNonEmpty(xs, i);
    PositionsComplete(xs, i);
    PositionsIncrease(xs, i);
  }

  lemma {:induction false} PositionsHoldNonEmpty(xs: seq<string>, i: nat)
    requires i <= |xs|
    ensures forall k :: 0 <= k < |NonEmptyPositions(xs, i)| ==> xs[NonEmptyPositions(xs, i)[k]] != ""
    decreases |xs| - i
  {
    if i < |xs| {
      PositionsHoldNonEmpty(xs, i + 1);
      var idx, pos := NonEmptyPositions(xs, i), NonEmptyPositions(xs, i + 1);
      if xs[i] != "" {
        assert idx == [i] + pos;
        forall k | 0 < k < |idx|
          ensures xs[idx[k]] != ""
        {
          assert idx[k] == pos[k - 1];
        }
      }
    }
  }

  lemma {:induction false} PositionsComplete(xs: seq<string>, i: nat)
    requires i <= |xs|
    ensures forall j :: i <= j < |xs| && xs[j] != "" ==> j in NonEmptyPositions(xs, i)
    decreases |xs| - i
  {
    if i < |xs| {
      PositionsComplete(xs, i + 1);
      var idx, pos := NonEmptyPositions(xs, i), NonEmptyPositions(xs, i + 1);
      assert idx == (if xs[i] == "" then [] else [i]) + pos;
      forall j | i <= j < |xs| && xs[j] != ""
        ensures j in idx
      {
        if j == i {
          assert idx[0] == i;
        } else {
          assert j in pos;
        }
      }
    }
  }

  lemma {:induction false} PositionsIncrease(xs: seq<string>, i: nat)
    requires i <= |xs|
    ensures forall k, l :: 0 <= k < l < |NonEmptyPositions(xs, i)| ==>
              NonEmptyPositions(xs, i)[k] < NonEmptyPositions(xs, i)[l]
    decreases |xs| - i
  {
    if i < |xs| {
      PositionsIncrease(xs, i + 1);
      var idx, pos := NonEmptyPositions(xs, i), NonEmptyPositions(xs, i + 1);
      if xs[i] != "" {
        assert idx == [i] + pos;
        forall k, l | 0 <= k < l < |idx|
          ensures idx[k] < idx[l]
        {
          assert idx[l] == pos[l - 1];
          if k > 0 {
            assert idx[k] == pos[k - 1];
          }
        }
      }
    }
  }

  /** `filter(Boolean)` keeps exactly the non-empty entries, in their order
      and with their repetitions: it reads `xs` at the positions of the
      non-empty entries. */
  lemma {:induction false} NonEmptyOnlyPositions(xs: seq<string>, i: nat)
    requires i <= |xs|
    ensures |NonEmptyOnly(xs[i..])| == |NonEmptyPositions(xs, i)|
    ensures forall k :: 0 <= k < |NonEmptyPositions(xs, i)| ==>
              NonEmptyOnly(xs[i..])[k] == xs[NonEmptyPositions(xs, i)[k]]
    decreases |xs| - i
  {
    NonEmptyOnlyLength(xs, i);
    forall k | 0 <= k < |NonEmptyPositions(xs, i)|
      ensures NonEmptyOnly(xs[i..])[k] == xs[NonEmptyPositions(xs, i)[k]]
    {
      NonEmptyOnlyAt(xs, i, k);
    }
  }

  lemma {:induction false} NonEmptyOnlyLength(xs: seq<string>, i: nat)
    requires i <= |xs|
    ensures |NonEmptyOnly(xs[i..])| == |NonEmptyPositions(xs, i)|
    decreases |xs| - i
  {
    if i < |xs| {
      NonEmptyOnlyLength(xs, i + 1);
      NonEmptyStep(xs, i);
    }
  }

  lemma {:induction false} NonEmptyOnlyAt(xs: seq<string>, i: nat, k: nat)
    requires i <= |xs| && k < |NonEmptyPositions(xs, i)|
    ensures k < |NonEmptyOnly(xs[i..])|
    ensures NonEmptyOnly(xs[i..])[k] == xs[NonEmptyPositions(xs, i)[k]]
    decreases |xs| - i
  {
    NonEmptyOnlyLength(xs, i);
    NonEmptyStep(xs, i);
    if xs[i] == "" {
      NonEmptyOnlyAt(xs, i + 1, k);
    } else if k > 0 {
      NonEmptyOnlyAt(xs, i + 1, k - 1);
    }
  }

  /** One entry further: both sides lose the entry at `i`, or both keep it. */
  lemma NonEmptyStep(xs: seq<string>, i: nat)
    requires i < |xs|
    ensures xs[i] == "" ==>
              NonEmptyOnly(xs[i..]) == NonEmptyOnly(xs[i + 1..])
              && NonEmptyPositions(xs, i) == NonEmptyPositions(xs, i + 1)
    ensures xs[i] != "" ==>
              NonEmptyOnly(xs[i..]) == [xs[i]] + NonEmptyOnly(xs[i + 1..])
              && NonEmptyPositions(xs, i) == [i] + NonEmptyPositions(xs, i + 1)
  {
    assert xs[i..][1..] == xs[i + 1..];
  }

  /** The segments of an `og:title` value: split on `[-–|•·]`, trimmed, the
      empty ones dropped. Exactly the non-empty trimmed pieces occur; none has
      white space at an end or holds a separator. */
  function TitleSegments(content: string): (parts: seq<string>)
    ensures forall x :: x in parts <==> x in TrimEach(Split(content, TitleSeparators)) && x != ""
    ensures forall x :: x in parts ==> x != "" && Trimmed(x)
    ensures forall x, c :: x in parts && c in x ==> c !in TitleSeparators
  {
    var pieces := Split(content, TitleSeparators);
    TrimEachFacts(pieces, TitleSeparators);
    NonEmptyOnly(TrimEach(pieces))
  }

  /** The segments keep the order and the repetitions of the trimmed
      pieces: they are the pieces at the positions of the non-empty ones. */
  lemma TitleSegmentsInOrder(content: string)
    ensures var pieces := TrimEach(Split(content, TitleSeparators));
            var idx := NonEmptyPositions(pieces, 0);
            && (forall j :: 0 <= j < |pieces| ==> (pieces[j] != "" <==> j in idx))
            && (forall k, l :: 0 <= k < l < |idx| ==> idx[k] < idx[l])
            && |TitleSegments(content)| == |idx|
            && forall k :: 0 <= k < |idx| ==> TitleSegments(content)[k] == pieces[idx[k]]
  {
    var pieces := TrimEach(Split(content, TitleSeparators));
    NonEmptyPositionsExact(pieces, 0);
    NonEmptyOnlyPositions(pieces, 0);
    assert pieces[0..] == pieces;
  }

  /** Trimming keeps every piece free of the characters no piece holds. */
  lemma TrimEachFacts(pieces: seq<string>, seps: set<char>)
    requires forall j, c :: 0 <= j < |pieces| && c in pieces[j] ==> c !in seps
    ensures forall x, c :: x in TrimEach(pieces) && c in x ==> c !in seps
    ensures forall x :: x in TrimEach(pieces) ==> Trimmed(x)
  {
    TrimEachAvoids(pieces, seps);
    TrimEachTrimmed(pieces);
  }

  /** Trimming adds no character, so none of `seps` appears. */
  lemma TrimEachAvoids(pieces: seq<string>, seps: set<char>)
    requires forall j, c :: 0 <= j < |pieces| && c in pieces[j] ==> c !in seps
    ensures forall x, c :: x in TrimEach(pieces) && c in x ==> c !in seps
  {
    var trimmed := TrimEach(pieces);
    forall j | 0 <= j < |trimmed|
      ensures forall c :: c in trimmed[j] ==> c !in seps
    {
      TrimAvoids(pieces[j], seps);
    }
    forall x | x in trimmed
      ensures forall c :: c in x ==> c !in seps
    {
      var j :| 0 <= j < |trimmed| && trimmed[j] == x;
    }
  }

  lemma TrimAvoids(piece: string, seps: set<char>)
    requires forall c :: c in piece ==> c !in seps
    ensures forall c :: c in Trim(piece) ==> c !in seps
  {
  }

  lemma TrimEachTrimmed(pieces: seq<string>)
    ensures forall x :: x in TrimEach(pieces) ==> Trimmed(x)
  {
    var trimmed := TrimEach(pieces);
    forall x | x in trimmed
      ensures Trimmed(x)
    {
      var j :| 0 <= j < |trimmed| && trimmed[j] == x;
    }
  }

  /** The index of the first segment with a job keyword, from `k` on. */
  function FirstKeyword(parts: seq<string>, k: nat): (r: Option<nat>)
    requires k <= |parts|
    ensures r.Some? ==> k <= r.value < |parts| && HasJobKeyword(parts[r.value])
    ensures r.Some? ==> forall j :: k <= j < r.value ==> !HasJobKeyword(parts[j])
    ensures r.None? ==> forall j :: k <= j < |parts| ==> !HasJobKeyword(parts[j])
    decreases |parts| - k
  {
    if k == |parts| then None
    else if HasJobKeyword(parts[k]) then Some(k)
    else FirstKeyword(parts, k + 1)
  }

  /** The `og:title` choice: nothing from no segment, the only segment whole,
      and otherwise the first segment with a job keyword, else the first. */
  function PickTitle(parts: seq<string>): (r: string)
    ensures |parts| == 0 ==> r == ""
    ensures |parts| == 1 ==> r == parts[0]
    ensures |parts| >= 2 ==>
              exists k :: 0 <= k < |parts| && r == parts[k]
                          && (forall j :: 0 <= j < k ==> !HasJobKeyword(parts[j]))
                          && (HasJobKeyword(parts[k]) || (k == 0 && forall j :: 0 <= j < |parts| ==> !HasJobKeyword(parts[j])))
  {
    if |parts| == 0 then ""
    else if |parts| == 1 then parts[0]
    else
      match FirstKeyword(parts, 0)
      case Some(k) => parts[k]
      case None => parts[0]
  }

  /** The title taken from an `og:title` value. */
  function OgTitle(content: string): (r: string)
    ensures Trimmed(r)
    ensures forall c :: c in r ==> c !in TitleSeparators
    ensures r == "" <==> |TitleSegments(content)| == 0
    ensures r != "" ==> r in TitleSegments(content)
  {
    var parts := TitleSegments(content);
    var r := PickTitle(parts);
    assert r == "" || r in parts;
    r
  }

  /** A value of the usual "role - company" shape gives the role and the
      company as its two segments, in that order. */
  lemma {:induction false} TitleSegmentsOfPair(role: string, sep: char, company: string)
    requires sep in TitleSeparators
    requires |role| > 0 && Trimmed(role) && |company| > 0 && Trimmed(company)
    requires forall i :: 0 <= i < |role| ==> role[i] !in TitleSeparators
    requires forall i :: 0 <= i < |company| ==> company[i] !in TitleSeparators
    ensures TitleSegments(role + " " + [sep] + " " + company) == [role, company]
  {
    SplitOfPair(role, sep, company);
    TrimPaddedRight(role, true);
    TrimPaddedBoth(company, false);
    assert role + Pad(true) == role + " ";
    assert " " + company + Pad(false) == " " + company;
    var trimmed := TrimEach([role + " ", " " + company]);
    assert trimmed == [role, company];
    assert NonEmptyOnly(trimmed) == [role] + NonEmptyOnly([company]);
  }

  lemma {:induction false} SplitOfPair(role: string, sep: char, company: string)
    requires sep in TitleSeparators
    requires forall i :: 0 <= i < |role| ==> role[i] !in TitleSeparators
    requires forall i :: 0 <= i < |company| ==> company[i] !in TitleSeparators
    ensures Split(role + " " + [sep] + " " + company, TitleSeparators) == [role + " ", " " + company]
  {
    var a := role + " ";
    var b := " " + company;
    assert role + " " + [sep] + " " + company == a + [sep] + b;
    forall i | 0 <= i < |a|
      ensures a[i] !in TitleSeparators
    {
      if i < |role| {
        assert a[i] == role[i];
      }
    }
    forall i | 0 <= i < |b|
      ensures b[i] !in TitleSeparators
    {
      if 0 < i {
        assert b[i] == company[i - 1];
      }
    }
    SplitAtFirst(a, sep, b, TitleSeparators);
    SplitWithout(b, TitleSeparators);
  }

  /** An `og:title` value as job boards write it. */
  const ExampleRole := "Senior Backend Engineer"
  const ExampleCompany := "Acme Corp"

  lemma ExampleParts()
    ensures forall i :: 0 <= i < |ExampleRole| ==> ExampleRole[i] !in TitleSeparators
    ensures forall i :: 0 <= i < |ExampleCompany| ==> ExampleCompany[i] !in TitleSeparators
    ensures Trimmed(ExampleRole) && Trimmed(ExampleCompany)
  {
  }

  /** "Senior Backend Engineer - Acme Corp" has the role and the company as
      its segments. */
  lemma TitleSegmentsExample()
    ensures TitleSegments(ExampleRole + " - " + ExampleCompany) == [ExampleRole, ExampleCompany]
  {
    ExampleParts();
    assert ExampleRole + " - " + ExampleCompany == ExampleRole + " " + ['-'] + " " + ExampleCompany;
    TitleSegmentsOfPair(ExampleRole, '-', ExampleCompany);
  }

  /** The role names a job keyword, so it is the title. */
  lemma OgTitleExample()
    ensures OgTitle(ExampleRole + " - " + ExampleCompany) == ExampleRole
  {
    TitleSegmentsExample();
    RoleHasKeyword();
  }

  lemma RoleHasKeyword()
    ensures HasJobKeyword(ExampleRole)
  {
    var head, word := "Senior Backend ", "Engineer";
    assert ExampleRole == head + word;
    LowerAsciiAppend(head, word);
    LowerEngineer();
    var lower := LowerAsciiString(head) + JobKeywords[0];
    assert lower[|head|..|head| + |JobKeywords[0]|] == JobKeywords[0];
    ContainsAt(lower, JobKeywords[0], |head|);
  }

  lemma LowerEngineer()
    ensures LowerAsciiString("Engineer") == JobKeywords[0]
  {
    assert JobKeywords[0] == "engineer";
  }

  /** `content.replace(/^@/, '').trim()`: at most one leading '@' goes. */
  function SiteName(content: string): (r: string)
    ensures Trimmed(r)
    ensures |content| > 0 && content[0] == '@' ==> NonSpace(r) == NonSpace(content[1..])
    ensures (|content| == 0 || content[0] != '@') ==> NonSpace(r) == NonSpace(content)
  {
    if |content| > 0 && content[0] == '@' then Trim(content[1..]) else Trim(content)
  }

  /** The company is the value after its optional '@', with the white space
      at both ends cut off and nothing else. */
  lemma SiteNameSlice(content: string) returns (a: nat, b: nat)
    ensures HandleEnd(content) <= a <= b <= |content| && SiteName(content) == content[a..b]
    ensures forall i :: HandleEnd(content) <= i < a ==> IsSpace(content[i])
    ensures forall i :: b <= i < |content| ==> IsSpace(content[i])
  {
    var start := HandleEnd(content);
    assert SiteName(content) == Trim(content[start..]) by {
      if start == 0 {
        assert content[0..] == content;
      }
    }
    a, b := TrimSliceFrom(content, start);
  }

  /** Where the value starts once its optional leading '@' is skipped. */
  function HandleEnd(content: string): nat {
    if |content| > 0 && content[0] == '@' then 1 else 0
  }

  /** A value that names the site as a handle and one that does not give the
      same company. */
  lemma SiteNameDropsHandle(name: string)
    requires |name| == 0 || name[0] != '@'
    ensures SiteName("@" + name) == SiteName(name)
  {
    assert ("@" + name)[1..] == name;
  }

  /** The site-name `<meta>` the generic extractor reads: `og:site_name` when
      that tag exists, else `twitter:site`. */
  function SiteNameMeta(p: Page): Option<string> {
    if p.ogSiteName.Some? then p.ogSiteName else p.twitterSite
  }

  /** The title pass of detectGenericJob. */
  function GenericTitle(p: Page): (r: string)
    ensures Trimmed(r)
    ensures TrySelectors(GenericTitleSelectors, p.container) != "" ==>
              r == TrySelectors(GenericTitleSelectors, p.container)
    ensures TrySelectors(GenericTitleSelectors, p.container) == "" ==>
              r == (if p.ogTitle.Some? && p.ogTitle.value != "" then OgTitle(p.ogTitle.value) else "")
  {
    var fromSelectors := TrySelectors(GenericTitleSelectors, p.container);
    if fromSelectors != "" then fromSelectors
    else if p.ogTitle.Some? && p.ogTitle.value != "" then OgTitle(p.ogTitle.value)
    else ""
  }

  /** The company pass of detectGenericJob. */
  function GenericCompany(p: Page): (r: string)
    ensures Trimmed(r)
    ensures TrySelectors(GenericCompanySelectors, p.container) != "" ==>
              r == TrySelectors(GenericCompanySelectors, p.container)
    ensures TrySelectors(GenericCompanySelectors, p.container) == "" ==>
              r == (if SiteNameMeta(p).Some? && SiteNameMeta(p).value != "" then SiteName(SiteNameMeta(p).value) else "")
  {
    var fromSelectors := TrySelectors(GenericCompanySelectors, p.container);
    if fromSelectors != "" then fromSelectors
    else
      match SiteNameMeta(p)
      case Some(content) => if content != "" then SiteName(content) else ""
      case None => ""
  }

  /** detectGenericJob: selectors inside the main container first, the
      `<meta>` values only for a field the selectors leave empty. */
  function DetectGeneric(p: Page): (info: JobInfo)
    ensures WellFormed(info)
    ensures info.jobTitle == GenericTitle(p)
    ensures info.company == GenericCompany(p)
    ensures info.location == ExtractLocation(TrySelectors(GenericLocationSelectors, p.container))
  {
    JobInfo(GenericTitle(p), GenericCompany(p), ExtractLocation(TrySelectors(GenericLocationSelectors, p.container)))
  }
}
