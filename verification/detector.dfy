/**
 The content script's driver: detectJobInfoOnce classifies the page and
 dispatches to one extractor, scheduleDetect debounces detection behind a
 single pending timer, and waitForJobInfo polls the cached result until it
 names a title or a company or the wait runs out. Time is a natural-number
 clock in milliseconds.
 */
module Detector {
  import opened Text
  import opened Dom
  import opened Classifier
  import opened Extractors

  /** detectJobInfoOnce: the all-empty result off a detail page; otherwise
      LinkedIn's extractor on a `linkedin.com` host, Indeed's on an `indeed.`
      host, and the generic one anywhere else. Every field is a string. */
  function DetectJobInfoOnce(p: Page): (info: JobInfo)
    ensures WellFormed(info)
    ensures !IsJobDetailPage(p.hostname, p.pathname, p.document) ==> info == EmptyInfo
    ensures IsJobDetailPage(p.hostname, p.pathname, p.document) ==>
              info == (if Contains(p.hostname, "linkedin.com") then DetectLinkedIn(p)
                       else if Contains(p.hostname, "indeed.") then DetectIndeed(p)
                       else DetectGeneric(p))
  {
    if !IsJobDetailPage(p.hostname, p.pathname, p.document) then EmptyInfo
    else if Contains(p.hostname, "linkedin.com") then DetectLinkedIn(p)
    else if Contains(p.hostname, "indeed.") then DetectIndeed(p)
    else DetectGeneric(p)
  }

  /** What waitForJobInfo waits for: a non-empty title or company. */
  predicate HasTitleOrCompany(info: JobInfo) {
    info.jobTitle != "" || info.company != ""
  }

  /** A host naming both LinkedIn and Indeed gets LinkedIn's extractor. */
  lemma LinkedInBeforeIndeed(p: Page)
    requires IsJobDetailPage(p.hostname, p.pathname, p.document)
    requires Contains(p.hostname, "linkedin.com") && Contains(p.hostname, "indeed.")
    ensures DetectJobInfoOnce(p) == DetectLinkedIn(p)
  {
  }

  /** On a LinkedIn job view the LinkedIn extractor runs, whatever the markup. */
  lemma LinkedInViewUsesLinkedIn(p: Page)
    requires Contains(p.hostname, "linkedin.com") && Contains(p.pathname, "/jobs/view/")
    ensures DetectJobInfoOnce(p) == DetectLinkedIn(p)
  {
    LinkedInJobView(p.hostname, p.pathname, p.document);
  }

  // ----- scheduleDetect -----

  /** The debounce state: the clock, the one pending timer's due time, the
      number of detections run so far and the cached result of the last one. */
  datatype Debounce = Debounce(now: nat, pending: Option<nat>, runs: nat, latest: JobInfo)

  /** A pending timer is never due in the past. */
  predicate Valid(d: Debounce) {
    d.pending.Some? ==> d.pending.value >= d.now
  }

  /** scheduleDetect(delay): the pending timer, if any, is cleared and a new
      one armed `delay` from now; nothing else changes. */
  function Schedule(d: Debounce, delay: nat): (r: Debounce)
    ensures Valid(r)
    ensures r.pending == Some(d.now + delay)
    ensures r.now == d.now && r.runs == d.runs && r.latest == d.latest
  {
    d.(pending := Some(d.now + delay))
  }

  /** One millisecond passes; a timer that has come due fires, clearing
      itself and caching `detect(t)`, what detectJobInfoOnce finds at that
      moment `t`. */
  function Tick(d: Debounce, detect: nat -> JobInfo): (r: Debounce)
    requires Valid(d)
    ensures Valid(r)
    ensures r.now == d.now + 1
    ensures d.pending.Some? && d.pending.value <= d.now + 1 ==>
              r.pending.None? && r.runs == d.runs + 1 && r.latest == detect(d.now + 1)
    ensures !(d.pending.Some? && d.pending.value <= d.now + 1) ==>
              r == d.(now := d.now + 1)
  {
    var t := d.now + 1;
    if d.pending.Some? && d.pending.value <= t then
      Debounce(t, None, d.runs + 1, detect(t))
    else d.(now := t)
  }

  /** `dt` milliseconds pass. */
  function Advance(d: Debounce, dt: nat, detect: nat -> JobInfo): (r: Debounce)
    requires Valid(d)
    ensures Valid(r)
    ensures r.now == d.now + dt
    ensures d.runs <= r.runs <= d.runs + 1
    ensures d.pending.None? ==> r.runs == d.runs
    decreases dt
  {
    if dt == 0 then d else Advance(Tick(d, detect), dt - 1, detect)
  }

  /** With no timer pending, time passes and nothing runs. */
  lemma {:induction false} AdvanceIdle(d: Debounce, dt: nat, detect: nat -> JobInfo)
    requires d.pending.None?
    ensures Advance(d, dt, detect) == d.(now := d.now + dt)
    decreases dt
  {
    if dt > 0 {
      AdvanceIdle(Tick(d, detect), dt - 1, detect);
    }
  }

  /** Before its due time a pending timer stays pending and nothing runs. */
  lemma {:induction false} AdvanceQuiet(d: Debounce, dt: nat, detect: nat -> JobInfo)
    requires d.pending.Some? && d.now + dt < d.pending.value
    ensures Advance(d, dt, detect) == d.(now := d.now + dt)
    decreases dt
  {
    if dt > 0 {
      AdvanceQuiet(Tick(d, detect), dt - 1, detect);
    }
  }

  /** A timer due within the next `dt` milliseconds fires exactly once, at its
      due time, on the page of that moment. */
  lemma {:induction false} AdvanceFires(d: Debounce, dt: nat, detect: nat -> JobInfo)
    requires d.pending.Some? && d.now < d.pending.value <= d.now + dt
    ensures Advance(d, dt, detect) ==
            Debounce(d.now + dt, None, d.runs + 1, detect(d.pending.value))
    decreases dt
  {
    var t := Tick(d, detect);
    if d.pending.value == d.now + 1 {
      AdvanceIdle(t, dt - 1, detect);
    } else {
      AdvanceFires(t, dt - 1, detect);
    }
  }

  /** A burst of scheduleDetect(delay) calls with the given gaps between
      consecutive calls: call, wait `gaps[0]`, call, ..., call. */
  function Burst(d: Debounce, delay: nat, gaps: seq<nat>, detect: nat -> JobInfo): (r: Debounce)
    requires Valid(d)
    ensures Valid(r)
    decreases |gaps|
  {
    if |gaps| == 0 then Schedule(d, delay)
    else Burst(Advance(Schedule(d, delay), gaps[0], detect), delay, gaps[1..], detect)
  }

  function Sum(xs: seq<nat>): nat {
    if |xs| == 0 then 0 else xs[0] + Sum(xs[1..])
  }

  /** Calls closer together than the delay never let a timer fire: after the
      burst no detection has run and one timer is pending, due `delay` after
      the last call. */
  lemma {:induction false} CloseCallsDefer(d: Debounce, delay: nat, gaps: seq<nat>, detect: nat -> JobInfo)
    requires Valid(d)
    requires forall i :: 0 <= i < |gaps| ==> gaps[i] < delay
    ensures Burst(d, delay, gaps, detect) ==
            d.(now := d.now + Sum(gaps), pending := Some(d.now + Sum(gaps) + delay))
    decreases |gaps|
  {
    if |gaps| > 0 {
      var s := Schedule(d, delay);
      AdvanceQuiet(s, gaps[0], detect);
      CloseCallsDefer(Advance(s, gaps[0], detect), delay, gaps[1..], detect);
    }
  }

  /** The debounce promise: a burst of calls closer together than the delay,
      followed by a quiet spell of at least the delay, runs detection exactly
      once, `delay` after the last call, on the page of that moment. */
  lemma BurstRunsOnce(d: Debounce, delay: nat, gaps: seq<nat>, quiet: nat, detect: nat -> JobInfo)
    requires Valid(d) && 0 < delay <= quiet
    requires forall i :: 0 <= i < |gaps| ==> gaps[i] < delay
    ensures var r := Advance(Burst(d, delay, gaps, detect), quiet, detect);
            r.runs == d.runs + 1 && r.pending.None?
            && r.latest == detect(d.now + Sum(gaps) + delay)
  {
    CloseCallsDefer(d, delay, gaps, detect);
    AdvanceFires(Burst(d, delay, gaps, detect), quiet, detect);
  }

  /** The same on pages that change over time: the cached result is what
      detectJobInfoOnce finds on the page as it stands when the single run
      happens, `delay` after the last call. */
  lemma BurstSeesLastPage(d: Debounce, delay: nat, gaps: seq<nat>, quiet: nat, pages: nat -> Page)
    requires Valid(d) && 0 < delay <= quiet
    requires forall i :: 0 <= i < |gaps| ==> gaps[i] < delay
    ensures var r := Advance(Burst(d, delay, gaps, (t: nat) => DetectJobInfoOnce(pages(t))), quiet,
                             (t: nat) => DetectJobInfoOnce(pages(t)));
            r.runs == d.runs + 1 && r.latest == DetectJobInfoOnce(pages(d.now + Sum(gaps) + delay))
  {
    BurstRunsOnce(d, delay, gaps, quiet, (t: nat) => DetectJobInfoOnce(pages(t)));
  }

  /** The dual: calls at least the delay apart each get their own run, so a
      burst of `n + 1` such calls has run detection `n` times by the last call. */
  lemma {:induction false} SpacedCallsEachRun(d: Debounce, delay: nat, gaps: seq<nat>, detect: nat -> JobInfo)
    requires Valid(d) && delay > 0
    requires forall i :: 0 <= i < |gaps| ==> gaps[i] >= delay
    ensures Burst(d, delay, gaps, detect).runs == d.runs + |gaps|
    ensures Burst(d, delay, gaps, detect).pending == Some(d.now + Sum(gaps) + delay)
    decreases |gaps|
  {
    if |gaps| > 0 {
      var s := Schedule(d, delay);
      AdvanceFires(s, gaps[0], detect);
      SpacedCallsEachRun(Advance(s, gaps[0], detect), delay, gaps[1..], detect);
    }
  }

  // ----- waitForJobInfo -----

  const DefaultMaxWait := 1500
  const DefaultInterval := 250

  /** waitForJobInfo(maxWait, interval): check `k` happens `k * interval`
      after the start and sees `observe(k * interval)`, the cached result at
      that moment. The poll resolves at the first check that sees a title or
      a company or finds the wait used up, and returns what that check saw. */
  method WaitForJobInfo(observe: nat -> JobInfo, maxWait: nat, interval: nat) returns (info: JobInfo, checks: nat)
    requires interval > 0
    ensures checks >= 1
    ensures info == observe((checks - 1) * interval)
    ensures HasTitleOrCompany(info) || (checks - 1) * interval >= maxWait
    ensures forall k :: 0 <= k < checks - 1 ==>
              !HasTitleOrCompany(observe(k * interval)) && k * interval < maxWait
    ensures (checks - 1) * interval < maxWait + interval
    ensures checks <= (maxWait + interval - 1) / interval + 1
  {
    var elapsed := 0;
    checks := 1;
    info := observe(0);
    while !(HasTitleOrCompany(info) || elapsed >= maxWait)
      invariant checks >= 1 && elapsed == (checks - 1) * interval
      invariant info == observe(elapsed)
      invariant elapsed < maxWait + interval
      invariant forall k :: 0 <= k < checks - 1 ==>
                  !HasTitleOrCompany(observe(k * interval)) && k * interval < maxWait
      decreases maxWait - elapsed
    {
      elapsed := elapsed + interval;
      checks := checks + 1;
      info := observe(elapsed);
    }
    CheckBound(checks - 1, maxWait, interval);
  }

  /** The last check comes within one interval after the wait is used up,
      so at most `ceil(maxWait / interval) + 1` checks happen. */
  lemma CheckBound(n: nat, maxWait: nat, interval: nat)
    requires interval > 0 && n * interval < maxWait + interval
    ensures n <= (maxWait + interval - 1) / interval
  {
    var q := (maxWait + interval - 1) / interval;
    var rem := (maxWait + interval - 1) % interval;
    assert maxWait + interval - 1 == q * interval + rem;
    assert (q + 1) * interval == q * interval + interval;
    assert n * interval < (q + 1) * interval;
    ProductLess(n, q + 1, interval);
  }

  lemma ProductLess(a: nat, b: nat, c: nat)
    requires c > 0 && a * c < b * c
    ensures a < b
  {
  }

  lemma PositiveProduct(a: nat, b: nat)
    requires a > 0 && b > 0
    ensures a * b > 0
  {
  }

  /** waitForJobInfo with its default arguments (1500 ms, every 250 ms):
      at most seven checks, and a poll that finds nothing ends at the
      seventh, 1500 ms in. */
  method WaitForJobInfoDefaults(observe: nat -> JobInfo) returns (info: JobInfo, checks: nat)
    ensures 1 <= checks <= 7
    ensures info == observe((checks - 1) * DefaultInterval)
    ensures HasTitleOrCompany(info) || checks == 7
    ensures forall k :: 0 <= k < checks - 1 ==> !HasTitleOrCompany(observe(k * DefaultInterval))
  {
    info, checks := WaitForJobInfo(observe, DefaultMaxWait, DefaultInterval);
  }

  /** The cache as the poll sees it: the fresh detection at the start, the
      debounced runs' results after that. */
  function Cache(first: JobInfo, later: nat -> JobInfo): nat -> JobInfo {
    (t: nat) => if t == 0 then first else later(t)
  }

  /** What the poll promises when the cache already holds `first`: a title
      or company there ends it after one check, as does a zero wait; a later
      reply is the cache at the time of its check, and every check between
      saw neither a title nor a company within the wait, so the reply comes
      at the first check that finds one; an empty reply means the wait ran
      out; at most `ceil(maxWait / interval) + 1` checks happen. */
  predicate PollOutcome(first: JobInfo, later: nat -> JobInfo, maxWait: nat, interval: nat,
                        info: JobInfo, checks: nat)
  {
    && interval > 0
    && checks >= 1
    && (checks == 1 ==> info == first)
    && (HasTitleOrCompany(first) ==> checks == 1 && info == first)
    && (maxWait == 0 ==> checks == 1 && info == first)
    && (checks > 1 ==> info == later((checks - 1) * interval))
    && (HasTitleOrCompany(info) || (checks - 1) * interval >= maxWait)
    && (forall k :: 0 < k < checks - 1 ==>
          !HasTitleOrCompany(later(k * interval)) && k * interval < maxWait)
    && checks <= (maxWait + interval - 1) / interval + 1
  }

  /** The poll started on a cache that already holds `first`. */
  method PollFrom(first: JobInfo, later: nat -> JobInfo, maxWait: nat, interval: nat) returns (info: JobInfo, checks: nat)
    requires interval > 0
    ensures PollOutcome(first, later, maxWait, interval, info, checks)
  {
    var observe := Cache(first, later);
    info, checks := WaitForJobInfo(observe, maxWait, interval);
    assert 0 * interval == 0;
    assert checks > 1 ==> !HasTitleOrCompany(observe(0 * interval));
    if checks > 1 {
      PositiveProduct(checks - 1, interval);
    }
    forall k | 0 < k < checks - 1
      ensures !HasTitleOrCompany(later(k * interval)) && k * interval < maxWait
    {
      PositiveProduct(k, interval);
      assert observe(k * interval) == later(k * interval);
    }
  }

  /** The poll answers at the first check that finds something: when the
      cache starts empty and the check one interval later sees a title or a
      company, that check's value is the reply. */
  lemma PollAnswersFirstFind(first: JobInfo, later: nat -> JobInfo, maxWait: nat, interval: nat,
                             info: JobInfo, checks: nat)
    requires PollOutcome(first, later, maxWait, interval, info, checks)
    requires !HasTitleOrCompany(first) && maxWait > 0 && HasTitleOrCompany(later(interval))
    ensures checks == 2 && info == later(interval)
  {
    assert 1 * interval == interval;
  }

  /** The getJobInfo handler: detection runs once right away and refreshes
      the cache, then the poll starts on it; later checks see whatever the
      debounced runs have cached by then. */
  method RespondToPopup(p: Page, later: nat -> JobInfo, maxWait: nat, interval: nat) returns (info: JobInfo, checks: nat)
    requires interval > 0
    ensures PollOutcome(DetectJobInfoOnce(p), later, maxWait, interval, info, checks)
  {
    info, checks := PollFrom(DetectJobInfoOnce(p), later, maxWait, interval);
  }
}
