/**
 isJobDetailPage: decides from the host name and path, and failing that from
 the page's markup, whether a page shows one job posting rather than a list.
 Nine site rules are tried in their written order; when none fires the page
 qualifies only if it has both a prominent heading and an "apply" control.
 */
module Classifier {
  import opened Text
  import opened Dom

  datatype Site =
    | LinkedIn | Indeed | Greenhouse | Lever | Workday
    | Ashby | SmartRecruiters | Icims | Taleo

  /** The character class that must follow a literal in a path pattern. */
  datatype Follow = Digit | Word

  predicate InFollow(c: char, f: Follow) {
    match f
    case Digit => IsDigit(c)
    case Word => IsWordChar(c)
  }

  /** `sub` starts `s` and is followed by a character of class `f`. */
  predicate FollowedAtStart(s: string, sub: string, f: Follow) {
    sub <= s && |sub| < |s| && InFollow(s[|sub|], f)
  }

  /** `/sub\d+/.test(s)` or `/sub\w+/.test(s)`: `sub` occurs followed by at
      least one character of the class. */
  predicate ContainsThen(s: string, sub: string, f: Follow)
    decreases |s|
  {
    FollowedAtStart(s, sub, f) || (|s| > 0 && ContainsThen(s[1..], sub, f))
  }

  lemma {:induction false} ContainsThenAt(s: string, sub: string, f: Follow, i: nat)
    requires i + |sub| < |s| && s[i..i + |sub|] == sub && InFollow(s[i + |sub|], f)
    ensures ContainsThen(s, sub, f)
    decreases i
  {
    if i == 0 {
      assert s[..|sub|] == sub;
    } else {
      assert s[1..][i - 1..i - 1 + |sub|] == s[i..i + |sub|];
      ContainsThenAt(s[1..], sub, f, i - 1);
    }
  }

  /** The site rules as written in isJobDetailPage. The Workday line reads
      `A || B && C`, and `&&` binds tighter than `||`. */
  predicate SiteRule(site: Site, host: string, path: string) {
    match site
    case LinkedIn => Contains(host, "linkedin.com") && Contains(path, "/jobs/view/")
    case Indeed => Contains(host, "indeed.") && (Contains(path, "/viewjob") || Contains(path, "/rc/clk"))
    case Greenhouse => Contains(host, "greenhouse.io") && ContainsThen(path, "/jobs/", Digit)
    case Lever => Contains(host, "lever.co") && Contains(path, "/jobs/")
    case Workday => Contains(host, "myworkdayjobs.com") || (Contains(host, "wd") && Contains(path, "job"))
    case Ashby => Contains(host, "ashbyhq.com") && ContainsThen(path, "/job/", Word)
    case SmartRecruiters => Contains(host, "smartrecruiters.com") && Contains(path, "/job/")
    case Icims => Contains(host, "icims.com") && ContainsThen(path, "jobs/", Digit)
    case Taleo => Contains(host, "taleo.net") && Contains(path, "jobdetail.")
  }

  /** The order in which the rules are tried. */
  const SiteOrder: seq<Site> :=
    [LinkedIn, Indeed, Greenhouse, Lever, Workday, Ashby, SmartRecruiters, Icims, Taleo]

  /** The first rule, from position `k` of `SiteOrder` on, that fires. */
  function FirstRule(host: string, path: string, k: nat): (r: Option<nat>)
    requires k <= |SiteOrder|
    ensures r.Some? ==> k <= r.value < |SiteOrder| && SiteRule(SiteOrder[r.value], host, path)
    ensures r.Some? ==> forall j :: k <= j < r.value ==> !SiteRule(SiteOrder[j], host, path)
    ensures r.None? ==> forall j :: k <= j < |SiteOrder| ==> !SiteRule(SiteOrder[j], host, path)
    decreases |SiteOrder| - k
  {
    if k == |SiteOrder| then None
    else if SiteRule(SiteOrder[k], host, path) then Some(k)
    else FirstRule(host, path, k + 1)
  }

  const HeadingSelector := "main h1, h1.job-title, h1[class*=\"title\"]"
  const ApplySelector :=
    "button[type=\"submit\"][id*=\"apply\"], button[id*=\"apply\"], a[id*=\"apply\"], a[href*=\"apply\"]"

  /** The markup fallback: a heading and an apply control both exist. These
      two selectors are well formed, so `Throws` never arises for them; it is
      read as no element. */
  predicate Fallback(doc: Scope) {
    QuerySelector(doc, HeadingSelector).Match? && QuerySelector(doc, ApplySelector).Match?
  }

  /** isJobDetailPage: true exactly when some site rule fires or the markup
      fallback holds. */
  function IsJobDetailPage(host: string, path: string, doc: Scope): (r: bool)
    ensures r <==> (exists k :: 0 <= k < |SiteOrder| && SiteRule(SiteOrder[k], host, path)) || Fallback(doc)
  {
    FirstRule(host, path, 0).Some? || Fallback(doc)
  }

  lemma RuleFires(site: Site, host: string, path: string, doc: Scope)
    requires SiteRule(site, host, path)
    ensures IsJobDetailPage(host, path, doc)
  {
    assert site in SiteOrder;
    var k :| 0 <= k < |SiteOrder| && SiteOrder[k] == site;
  }

  /** A LinkedIn job view is a detail page. */
  lemma LinkedInJobView(host: string, path: string, doc: Scope)
    requires Contains(host, "linkedin.com") && Contains(path, "/jobs/view/")
    ensures IsJobDetailPage(host, path, doc)
  {
    RuleFires(LinkedIn, host, path, doc);
  }

  /** A Greenhouse path with `/jobs/` and a numeric id is a detail page. */
  lemma GreenhouseNumericJob(host: string, path: string, doc: Scope)
    requires Contains(host, "greenhouse.io") && ContainsThen(path, "/jobs/", Digit)
    ensures IsJobDetailPage(host, path, doc)
  {
    RuleFires(Greenhouse, host, path, doc);
  }

  /** A Lever path with `/jobs/` is a detail page. */
  lemma LeverJob(host: string, path: string, doc: Scope)
    requires Contains(host, "lever.co") && Contains(path, "/jobs/")
    ensures IsJobDetailPage(host, path, doc)
  {
    RuleFires(Lever, host, path, doc);
  }

  /** Any page on a `myworkdayjobs.com` host is a detail page whatever its
      path, listing pages included. */
  lemma WorkdayAnyPath(host: string, path: string, doc: Scope)
    requires Contains(host, "myworkdayjobs.com")
    ensures IsJobDetailPage(host, path, doc)
  {
    RuleFires(Workday, host, path, doc);
  }

  /** When no site rule fires, the markup decides: a detail page exactly when
      both the heading and the apply control exist. */
  lemma NoRuleMeansFallback(host: string, path: string, doc: Scope)
    requires forall site :: !SiteRule(site, host, path)
    ensures IsJobDetailPage(host, path, doc) == Fallback(doc)
  {
  }

  /** Every character of an occurring `sub` is a character of `s`. */
  lemma {:induction false} ContainsKeepsChars(s: string, sub: string)
    requires Contains(s, sub)
    ensures forall c :: c in sub ==> c in s
    decreases |s|
  {
    if !(sub <= s) {
      ContainsKeepsChars(s[1..], sub);
    }
  }

  lemma {:induction false} ContainsThenKeepsChars(s: string, sub: string, f: Follow)
    requires ContainsThen(s, sub, f)
    ensures forall c :: c in sub ==> c in s
    decreases |s|
  {
    if !FollowedAtStart(s, sub, f) {
      ContainsThenKeepsChars(s[1..], sub, f);
    }
  }

  lemma MissingCharNotContained(s: string, sub: string, c: char)
    requires c in sub && c !in s
    ensures !Contains(s, sub)
  {
    if Contains(s, sub) {
      ContainsKeepsChars(s, sub);
    }
  }

  lemma MissingCharNoFollow(s: string, sub: string, f: Follow, c: char)
    requires c in sub && c !in s
    ensures !ContainsThen(s, sub, f)
  {
    if ContainsThen(s, sub, f) {
      ContainsThenKeepsChars(s, sub, f);
    }
  }

  /** The LinkedIn job view from the examples is a detail page. */
  lemma LinkedInViewExample(doc: Scope)
    ensures IsJobDetailPage("www.linkedin.com", "/jobs/view/12345", doc)
  {
    assert "www.linkedin.com" == "www." + "linkedin.com" + "";
    ContainsMiddle("www.", "linkedin.com", "");
    assert "/jobs/view/12345" == "" + "/jobs/view/" + "12345";
    ContainsMiddle("", "/jobs/view/", "12345");
    LinkedInJobView("www.linkedin.com", "/jobs/view/12345", doc);
  }

  /** The Greenhouse job from the examples is a detail page. */
  lemma GreenhouseExample(doc: Scope)
    ensures IsJobDetailPage("boards.greenhouse.io", "/jobs/987654", doc)
  {
    assert "boards.greenhouse.io" == "boards." + "greenhouse.io" + "";
    ContainsMiddle("boards.", "greenhouse.io", "");
    ContainsThenAt("/jobs/987654", "/jobs/", Digit, 0);
    GreenhouseNumericJob("boards.greenhouse.io", "/jobs/987654", doc);
  }

  const SearchHost := "www.linkedin.com"
  const SearchPath := "/jobs/search"

  lemma SearchPageLacks()
    ensures 'g' !in SearchHost && 'v' !in SearchHost && 'y' !in SearchHost
    ensures 'r' !in SearchHost && 's' !in SearchHost && 't' !in SearchHost
    ensures 'v' !in SearchPath && 'k' !in SearchPath
  {
    SearchHostLacks();
    SearchHostLacksMore();
    SearchPathLacks();
  }

  lemma SearchHostLacks()
    ensures 'g' !in SearchHost && 'v' !in SearchHost && 'y' !in SearchHost
  {
  }

  lemma SearchHostLacksMore()
    ensures 'r' !in SearchHost && 's' !in SearchHost && 't' !in SearchHost
  {
  }

  lemma SearchPathLacks()
    ensures 'v' !in SearchPath && 'k' !in SearchPath
  {
  }

  lemma SearchPageFiresNoRule(site: Site)
    ensures !SiteRule(site, SearchHost, SearchPath)
  {
    SearchPageLacks();
    match site
    case LinkedIn => MissingCharNotContained(SearchPath, "/jobs/view/", 'v');
    case Indeed =>
      MissingCharNotContained(SearchPath, "/viewjob", 'v');
      MissingCharNotContained(SearchPath, "/rc/clk", 'k');
    case Greenhouse => MissingCharNotContained(SearchHost, "greenhouse.io", 'g');
    case Lever => MissingCharNotContained(SearchHost, "lever.co", 'v');
    case Workday =>
      MissingCharNotContained(SearchHost, "myworkdayjobs.com", 'y');
      NoWdInSearchHost();
    case Ashby => MissingCharNotContained(SearchHost, "ashbyhq.com", 'y');
    case SmartRecruiters => MissingCharNotContained(SearchHost, "smartrecruiters.com", 'r');
    case Icims => MissingCharNotContained(SearchHost, "icims.com", 's');
    case Taleo => MissingCharNotContained(SearchHost, "taleo.net", 't');
  }

  lemma NoWdInSearchHost()
    ensures !Contains(SearchHost, "wd")
  {
    var s := SearchHost;
    assert s[1] == 'w' && !("wd" <= s);
    assert s[1..] == "ww.linkedin.com" && !("wd" <= s[1..]);
    assert s[2..] == "w.linkedin.com" && !("wd" <= s[2..]);
    MissingCharNotContained(s[3..], "wd", 'w');
  }

  /** A LinkedIn search page fires no site rule, so it is a detail page only
      when the heading-and-apply pair is present. */
  lemma LinkedInSearchExample(doc: Scope)
    ensures IsJobDetailPage(SearchHost, SearchPath, doc) == Fallback(doc)
  {
    forall site: Site
      ensures !SiteRule(site, SearchHost, SearchPath)
    {
      SearchPageFiresNoRule(site);
    }
    NoRuleMeansFallback(SearchHost, SearchPath, doc);
  }
}
