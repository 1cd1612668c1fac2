/**
  backend/autonomy/cloud_brain.py: the hourly limit on cloud reviews.

  A review first looks at the limit and the cache, then awaits the cloud call, and records its
  time when that call succeeds.  `Limiter` keeps the pruned list of the program beside the full
  `history` of recorded times and the number of calls in flight.
 */
module CloudBrain {
  import opened Wrappers

  const HOUR := 3600

  datatype Review = Review(approved: bool, confidence: real, reasoning: string)

  datatype Limiter = Limiter(recent: seq<int>, history: seq<int>, inFlight: nat)

  /** The entries later than the cutoff, in order. */
  function After(times: seq<int>, cutoff: int): seq<int> {
    if times == [] then []
    else After(times[..|times| - 1], cutoff) + if times[|times| - 1] > cutoff then [times[|times| - 1]] else []
  }

  function Prune(s: Limiter, now: int): Limiter {
    s.(recent := After(s.recent, now - HOUR))
  }

  predicate IsLimited(s: Limiter, maxPerHour: int, now: int) {
    |Prune(s, now).recent| >= maxPerHour
  }

  /** The synchronous start of a review; a limited one, or a cached one, makes no call. */
  function Start(s: Limiter, maxPerHour: int, cached: bool, now: int): Limiter {
    var pruned := Prune(s, now);
    if IsLimited(s, maxPerHour, now) || cached then pruned else pruned.(inFlight := pruned.inFlight + 1)
  }

  /** The end of the cloud call. */
  function Finish(s: Limiter, succeeded: bool, now: int): Limiter
    requires s.inFlight > 0
  {
    if succeeded then Limiter(s.recent + [now], s.history + [now], s.inFlight - 1)
    else s.(inFlight := s.inFlight - 1)
  }

  // ---------------------------------------------------------------- the class

  class CloudBrainSupervisor {
    const enabled: bool
    const maxReviewsPerHour: int
    var reviewTimestamps: seq<int>
    var cache: map<string, Review>
    ghost var history: seq<int>

    constructor (apiKey: string, maxReviewsPerHour: int, enabled: bool)
      ensures this.enabled == (enabled && apiKey != "") && this.maxReviewsPerHour == maxReviewsPerHour
      ensures reviewTimestamps == [] && cache == map[] && history == []
    {
      this.enabled, this.maxReviewsPerHour := enabled && apiKey != "", maxReviewsPerHour;
      reviewTimestamps, cache, history := [], map[], [];
    }

    ghost function State(): Limiter
      reads this
    {
      Limiter(reviewTimestamps, history, 0)
    }

    method RateLimited(now: int) returns (limited: bool)
      modifies this`reviewTimestamps
      ensures State() == Prune(old(State()), now)
      ensures limited == IsLimited(old(State()), maxReviewsPerHour, now)
    {
      var kept: seq<int> := [];
      for i := 0 to |reviewTimestamps|
        invariant kept == After(reviewTimestamps[..i], now - HOUR)
      {
        assert reviewTimestamps[..i + 1][..i] == reviewTimestamps[..i];
        if reviewTimestamps[i] > now - HOUR {
          kept := kept + [reviewTimestamps[i]];
        }
      }
      assert reviewTimestamps[..|reviewTimestamps|] == reviewTimestamps;
      reviewTimestamps := kept;
      limited := |reviewTimestamps| >= maxReviewsPerHour;
    }

    /** One review from start to end; `answer` is what the cloud call yields, if it succeeds. */
    method DoReview(hash: string, answer: Option<Review>, now: int, doneAt: int) returns (review: Review)
      modifies this
      ensures !enabled ==> review.approved && review.confidence == 0.0 && State() == old(State()) && cache == old(cache)
      ensures enabled && IsLimited(old(State()), maxReviewsPerHour, now) ==>
                review.approved && review.confidence == 0.1 && cache == old(cache)
      ensures enabled && !IsLimited(old(State()), maxReviewsPerHour, now) ==>
                if hash in old(cache) then review == old(cache)[hash] && cache == old(cache)
                else if answer.Some? then review == answer.value && cache == old(cache)[hash := answer.value]
                else review.approved && review.confidence == 0.05 && cache == old(cache)
      ensures enabled ==>
                var started := Start(old(State()), maxReviewsPerHour, hash in old(cache), now);
                State() == if started.inFlight > 0 then Finish(started, answer.Some?, doneAt) else started
    {
      if !enabled {
        return Review(true, 0.0, "Cloud brain unavailable (no API key or disabled). Auto-approved.");
      }
      var limited := RateLimited(now);
      if limited {
        return Review(true, 0.1, "Cloud brain rate-limited. Auto-approved to avoid blocking.");
      }
      if hash in cache {
        return cache[hash];
      }
      match answer {
        case Some(r) =>
          reviewTimestamps, history := reviewTimestamps + [doneAt], history + [doneAt];
          cache := cache[hash := r];
          review := r;
        case None =>
          review := Review(true, 0.05, "Cloud brain API error. Auto-approved.");
      }
    }
  }

  // -------------------------------------------------------------------- runs

  datatype Event = Starts(cached: bool, now: int) | Ends(succeeded: bool, now: int)

  function Step(s: Limiter, maxPerHour: int, e: Event): Limiter {
    match e
    case Starts(cached, now) => Start(s, maxPerHour, cached, now)
    case Ends(succeeded, now) => if s.inFlight > 0 then Finish(s, succeeded, now) else s
  }

  function Run(s: Limiter, maxPerHour: int, events: seq<Event>): Limiter
    decreases events
  {
    if events == [] then s else Run(Step(s, maxPerHour, events[0]), maxPerHour, events[1..])
  }

  /** The clock does not run backwards and at most `k` calls are in flight at any time. */
  predicate WellRun(s: Limiter, maxPerHour: int, events: seq<Event>, k: nat, now: int)
    decreases events
  {
    && s.inFlight <= k
    && (events != [] ==>
          && now <= events[0].now
          && WellRun(Step(s, maxPerHour, events[0]), maxPerHour, events[1..], k, events[0].now))
  }

  function EndOf(events: seq<Event>, now: int): int
    decreases events
  {
    if events == [] then now else EndOf(events[1..], events[0].now)
  }

  /** The most that one hour can hold with `k` calls in flight. */
  function Bound(maxPerHour: int, k: nat): nat {
    if maxPerHour <= 0 || k == 0 then 0 else maxPerHour + k - 1
  }

  /** The recorded times in the window `(t - 3600, t]`. */
  function InWindow(times: seq<int>, t: int): nat {
    if times == [] then 0
    else InWindow(times[..|times| - 1], t) + if t - HOUR < times[|times| - 1] <= t then 1 else 0
  }

  ghost predicate Past(times: seq<int>, now: int) {
    forall i :: 0 <= i < |times| ==> times[i] <= now
  }

  ghost predicate EveryHourWithin(times: seq<int>, bound: nat) {
    forall t :: InWindow(times, t) <= bound
  }

  ghost predicate Inv(s: Limiter, maxPerHour: int, k: nat, now: int) {
    && Past(s.history, now)
    && After(s.recent, now - HOUR) == After(s.history, now - HOUR)
    && |After(s.history, now - HOUR)| + s.inFlight <= Bound(maxPerHour, k)
    && EveryHourWithin(s.history, Bound(maxPerHour, k))
    && s.inFlight <= k
  }

  lemma {:induction false} AfterAfter(times: seq<int>, c: int, d: int)
    requires c <= d
    ensures After(After(times, c), d) == After(times, d)
    ensures |After(times, d)| <= |After(times, c)|
  {
    if times != [] {
      var n := |times| - 1;
      AfterAfter(times[..n], c, d);
      var kept := After(times[..n], c);
      if times[n] > c {
        assert After(times, c) == kept + [times[n]];
        assert (kept + [times[n]])[..|kept|] == kept;
      } else {
        assert After(times, c) == kept;
      }
    }
  }

  /** While no time lies in the future, a window that ends now holds what is after its cutoff. */
  lemma {:induction false} WindowIsAfter(times: seq<int>, now: int, t: int)
    requires Past(times, now)
    ensures t >= now ==> InWindow(times, t) == |After(times, t - HOUR)|
  {
    if times != [] {
      WindowIsAfter(times[..|times| - 1], now, t);
    }
  }

  lemma Appended(times: seq<int>, x: int)
    ensures forall c :: After(times + [x], c) == After(times, c) + if x > c then [x] else []
    ensures forall t :: InWindow(times + [x], t) == InWindow(times, t) + if t - HOUR < x <= t then 1 else 0
  {
    assert (times + [x])[..|times|] == times;
  }

  lemma LaterAgree(s: Limiter, c: int, d: int)
    requires After(s.recent, c) == After(s.history, c) && c <= d
    ensures After(s.recent, d) == After(s.history, d)
    ensures |After(s.history, d)| <= |After(s.history, c)|
  {
    AfterAfter(s.recent, c, d);
    AfterAfter(s.history, c, d);
  }

  /** The pruned list answers like the full history, at every later time. */
  lemma PrunedListSuffices(s: Limiter, maxPerHour: int, k: nat, before: int, now: int)
    requires Inv(s, maxPerHour, k, before) && before <= now
    ensures Prune(s, now).recent == After(s.history, now - HOUR)
    ensures IsLimited(s, maxPerHour, now) <==> InWindow(s.history, now) >= maxPerHour
  {
    LaterAgree(s, before - HOUR, now - HOUR);
    WindowIsAfter(s.history, before, now);
  }

  /** A call starts only below the limit, so counting it stays within the bound. */
  lemma StartCounts(s: Limiter, maxPerHour: int, k: nat, before: int, now: int, cached: bool)
    requires Inv(s, maxPerHour, k, before) && before <= now
    requires Start(s, maxPerHour, cached, now).inFlight <= k
    ensures var t := Start(s, maxPerHour, cached, now);
            && t.history == s.history && t.recent == After(s.history, now - HOUR)
            && |t.recent| + t.inFlight <= Bound(maxPerHour, k)
  {
    LaterAgree(s, before - HOUR, now - HOUR);
  }

  lemma StartKeepsInv(s: Limiter, maxPerHour: int, k: nat, before: int, now: int, cached: bool)
    requires Inv(s, maxPerHour, k, before) && before <= now
    requires Start(s, maxPerHour, cached, now).inFlight <= k
    ensures Inv(Start(s, maxPerHour, cached, now), maxPerHour, k, now)
  {
    StartCounts(s, maxPerHour, k, before, now, cached);
    AfterAfter(s.history, now - HOUR, now - HOUR);
  }

  lemma WindowsAfterFinish(history: seq<int>, bound: nat, before: int, now: int)
    requires Past(history, before) && before <= now && EveryHourWithin(history, bound)
    requires |After(history, before - HOUR)| < bound
    ensures EveryHourWithin(history + [now], bound)
  {
    Appended(history, now);
    forall t ensures InWindow(history + [now], t) <= bound {
      if now <= t {
        WindowIsAfter(history, before, t);
        AfterAfter(history, before - HOUR, t - HOUR);
      } else {
        assert InWindow(history, t) <= bound;
      }
    }
  }

  lemma FinishKeepsInv(s: Limiter, maxPerHour: int, k: nat, before: int, now: int, succeeded: bool)
    requires Inv(s, maxPerHour, k, before) && before <= now && s.inFlight > 0
    ensures Inv(Finish(s, succeeded, now), maxPerHour, k, now)
  {
    LaterAgree(s, before - HOUR, now - HOUR);
    if succeeded {
      Appended(s.recent, now);
      Appended(s.history, now);
      WindowsAfterFinish(s.history, Bound(maxPerHour, k), before, now);
    }
  }

  lemma {:induction false} RunKeepsInv(s: Limiter, maxPerHour: int, k: nat, events: seq<Event>, now: int)
    requires Inv(s, maxPerHour, k, now) && WellRun(s, maxPerHour, events, k, now)
    ensures Inv(Run(s, maxPerHour, events), maxPerHour, k, EndOf(events, now))
    decreases events
  {
    if events != [] {
      var e := events[0];
      match e {
        case Starts(cached, at) => StartKeepsInv(s, maxPerHour, k, now, at, cached);
        case Ends(succeeded, at) =>
          if s.inFlight > 0 {
            FinishKeepsInv(s, maxPerHour, k, now, at, succeeded);
          } else {
            LaterAgree(s, now - HOUR, at - HOUR);
          }
      }
      RunKeepsInv(Step(s, maxPerHour, e), maxPerHour, k, events[1..], e.now);
    }
  }

  /** With at most `k` reviews in flight no hour ever holds more than the maximum plus `k - 1`. */
  lemma NoHourExceedsBound(maxPerHour: int, k: nat, events: seq<Event>, start: int, t: int)
    requires WellRun(Limiter([], [], 0), maxPerHour, events, k, start)
    ensures InWindow(Run(Limiter([], [], 0), maxPerHour, events).history, t) <= Bound(maxPerHour, k)
  {
    RunKeepsInv(Limiter([], [], 0), maxPerHour, k, events, start);
  }

  /** One review at a time: the hourly maximum holds in every window of every run. */
  lemma SequentialReviewsRespectMaximum(maxPerHour: int, events: seq<Event>, start: int, t: int)
    requires WellRun(Limiter([], [], 0), maxPerHour, events, 1, start)
    ensures InWindow(Run(Limiter([], [], 0), maxPerHour, events).history, t) <= if maxPerHour < 0 then 0 else maxPerHour
  {
    NoHourExceedsBound(maxPerHour, 1, events, start, t);
  }

  // ----------------------------------------------------- the bound is reached

  function Repeated(n: nat, at: int): seq<int> {
    if n == 0 then [] else Repeated(n - 1, at) + [at]
  }

  /** `n` reviews recorded at one instant and `f` calls still in flight. */
  function Held(n: nat, f: nat, at: int): Limiter {
    Limiter(Repeated(n, at), Repeated(n, at), f)
  }

  function StartMany(n: nat, at: int, rest: seq<Event>): seq<Event> {
    if n == 0 then rest else [Starts(false, at)] + StartMany(n - 1, at, rest)
  }

  function EndMany(n: nat, at: int, rest: seq<Event>): seq<Event> {
    if n == 0 then rest else [Ends(true, at)] + EndMany(n - 1, at, rest)
  }

  function ReviewMany(n: nat, at: int, rest: seq<Event>): seq<Event> {
    if n == 0 then rest else [Starts(false, at)] + ([Ends(true, at)] + ReviewMany(n - 1, at, rest))
  }

  /** One review less than the maximum in sequence, then `k` that all start before the first one ends. */
  function Burst(maxPerHour: nat, k: nat, at: int): seq<Event>
    requires maxPerHour > 0
  {
    ReviewMany(maxPerHour - 1, at, StartMany(k, at, EndMany(k, at, [])))
  }

  lemma {:induction false} RepeatedIsRecent(n: nat, at: int)
    ensures |Repeated(n, at)| == n && After(Repeated(n, at), at - HOUR) == Repeated(n, at)
    ensures InWindow(Repeated(n, at), at) == n
  {
    if n > 0 {
      RepeatedIsRecent(n - 1, at);
      assert Repeated(n, at)[..n - 1] == Repeated(n - 1, at);
    }
  }

  /** Whatever follows, the first state goes through `before` to where the second goes through `rest`. */
  ghost predicate Leads(maxPerHour: int, k: nat, at: int, s: Limiter, before: seq<Event>,
                        t: Limiter, rest: seq<Event>)
  {
    && Run(s, maxPerHour, before) == Run(t, maxPerHour, rest)
    && (WellRun(t, maxPerHour, rest, k, at) ==> WellRun(s, maxPerHour, before, k, at))
  }

  lemma OneEventLeads(maxPerHour: int, k: nat, s: Limiter, e: Event, rest: seq<Event>)
    requires s.inFlight <= k
    ensures Leads(maxPerHour, k, e.now, s, [e] + rest, Step(s, maxPerHour, e), rest)
  {
    assert ([e] + rest)[1..] == rest;
  }

  lemma HeldSteps(maxPerHour: int, n: nat, f: nat, at: int)
    ensures n < maxPerHour ==> Step(Held(n, f, at), maxPerHour, Starts(false, at)) == Held(n, f + 1, at)
    ensures Step(Held(n, f + 1, at), maxPerHour, Ends(true, at)) == Held(n + 1, f, at)
  {
    RepeatedIsRecent(n, at);
  }

  lemma StartLeads(maxPerHour: int, k: nat, n: nat, f: nat, at: int, rest: seq<Event>)
    requires n < maxPerHour && f <= k
    ensures Leads(maxPerHour, k, at, Held(n, f, at), [Starts(false, at)] + rest, Held(n, f + 1, at), rest)
  {
    HeldSteps(maxPerHour, n, f, at);
    OneEventLeads(maxPerHour, k, Held(n, f, at), Starts(false, at), rest);
  }

  lemma EndLeads(maxPerHour: int, k: nat, n: nat, f: nat, at: int, rest: seq<Event>)
    requires f < k
    ensures Leads(maxPerHour, k, at, Held(n, f + 1, at), [Ends(true, at)] + rest, Held(n + 1, f, at), rest)
  {
    HeldSteps(maxPerHour, n, f, at);
    OneEventLeads(maxPerHour, k, Held(n, f + 1, at), Ends(true, at), rest);
  }

  lemma {:induction false} Starting(maxPerHour: int, k: nat, n: nat, f: nat, total: nat, at: int, rest: seq<Event>)
    requires n < maxPerHour && f <= total <= k
    ensures Leads(maxPerHour, k, at, Held(n, f, at), StartMany(total - f, at, rest), Held(n, total, at), rest)
    decreases total - f
  {
    if f < total {
      StartLeads(maxPerHour, k, n, f, at, StartMany(total - f - 1, at, rest));
      Starting(maxPerHour, k, n, f + 1, total, at, rest);
    }
  }

  lemma {:induction false} Ending(maxPerHour: int, k: nat, n: nat, j: nat, total: nat, at: int, rest: seq<Event>)
    requires j <= k && n + j == total
    ensures Leads(maxPerHour, k, at, Held(n, j, at), EndMany(j, at, rest), Held(total, 0, at), rest)
    decreases j
  {
    if j > 0 {
      EndLeads(maxPerHour, k, n, j - 1, at, EndMany(j - 1, at, rest));
      Ending(maxPerHour, k, n + 1, j - 1, total, at, rest);
    }
  }

  lemma ReviewLeads(maxPerHour: int, k: nat, n: nat, at: int, rest: seq<Event>)
    requires n < maxPerHour && k > 0
    ensures Leads(maxPerHour, k, at, Held(n, 0, at), [Starts(false, at)] + ([Ends(true, at)] + rest),
                  Held(n + 1, 0, at), rest)
  {
    StartLeads(maxPerHour, k, n, 0, at, [Ends(true, at)] + rest);
    EndLeads(maxPerHour, k, n, 0, at, rest);
  }

  lemma {:induction false} Reviewing(maxPerHour: int, k: nat, n: nat, total: nat, at: int, rest: seq<Event>)
    requires n <= total <= maxPerHour && k > 0
    ensures Leads(maxPerHour, k, at, Held(n, 0, at), ReviewMany(total - n, at, rest), Held(total, 0, at), rest)
    decreases total - n
  {
    if n < total {
      ReviewLeads(maxPerHour, k, n, at, ReviewMany(total - n - 1, at, rest));
      Reviewing(maxPerHour, k, n + 1, total, at, rest);
    }
  }

  lemma Concurrent(maxPerHour: int, k: nat, n: nat, total: nat, at: int)
    requires n < maxPerHour && n + k == total
    ensures Leads(maxPerHour, k, at, Held(n, 0, at), StartMany(k, at, EndMany(k, at, [])), Held(total, 0, at), [])
  {
    Ending(maxPerHour, k, n, k, total, at, []);
    Starting(maxPerHour, k, n, 0, k, at, EndMany(k, at, []));
  }

  lemma BurstLeads(maxPerHour: nat, k: nat, total: nat, at: int)
    requires maxPerHour > 0 && k > 0 && total == maxPerHour + k - 1
    ensures Leads(maxPerHour, k, at, Held(0, 0, at), Burst(maxPerHour, k, at), Held(total, 0, at), [])
  {
    Concurrent(maxPerHour, k, maxPerHour - 1, total, at);
    Reviewing(maxPerHour, k, 0, maxPerHour - 1, at, StartMany(k, at, EndMany(k, at, [])));
  }

  lemma LeadsToEnd(maxPerHour: int, k: nat, at: int, s: Limiter, events: seq<Event>, t: Limiter)
    requires Leads(maxPerHour, k, at, s, events, t, []) && t.inFlight <= k
    ensures Run(s, maxPerHour, events) == t && WellRun(s, maxPerHour, events, k, at)
  {
    assert Run(t, maxPerHour, []) == t && WellRun(t, maxPerHour, [], k, at);
  }

  /** Whatever the maximum and the number of concurrent reviews, some hour holds the whole bound. */
  lemma BoundIsReached(maxPerHour: nat, k: nat, at: int)
    requires maxPerHour > 0 && k > 0
    ensures WellRun(Limiter([], [], 0), maxPerHour, Burst(maxPerHour, k, at), k, at)
    ensures InWindow(Run(Limiter([], [], 0), maxPerHour, Burst(maxPerHour, k, at)).history, at) == Bound(maxPerHour, k)
  {
    var total := maxPerHour + k - 1;
    BurstLeads(maxPerHour, k, total, at);
    LeadsToEnd(maxPerHour, k, at, Held(0, 0, at), Burst(maxPerHour, k, at), Held(total, 0, at));
    RepeatedIsRecent(total, at);
  }

  /** No run with at most `k` reviews in flight has an hour above the maximum. */
  ghost predicate MaximumHolds(maxPerHour: int, k: nat) {
    forall events, start, t :: WellRun(Limiter([], [], 0), maxPerHour, events, k, start) ==>
      InWindow(Run(Limiter([], [], 0), maxPerHour, events).history, t) <= if maxPerHour < 0 then 0 else maxPerHour
  }

  /** The hourly maximum is a promise exactly for one review at a time, or when nothing may run. */
  lemma MaximumHoldsIff(maxPerHour: int, k: nat)
    ensures MaximumHolds(maxPerHour, k) <==> k <= 1 || maxPerHour <= 0
  {
    if k <= 1 || maxPerHour <= 0 {
      forall events, start, t | WellRun(Limiter([], [], 0), maxPerHour, events, k, start)
        ensures InWindow(Run(Limiter([], [], 0), maxPerHour, events).history, t)
                <= if maxPerHour < 0 then 0 else maxPerHour
      {
        NoHourExceedsBound(maxPerHour, k, events, start, t);
      }
    } else {
      BoundIsReached(maxPerHour, k, 0);
    }
  }

  // ------------------------------------------------------------ what is recorded

  /** The times at which calls succeeded. */
  function Successes(events: seq<Event>): seq<int>
    decreases events
  {
    if events == [] then []
    else (if events[0].Ends? && events[0].succeeded then [events[0].now] else []) + Successes(events[1..])
  }

  /** Every call that ends was in flight. */
  predicate EndsMatch(s: Limiter, maxPerHour: int, events: seq<Event>)
    decreases events
  {
    events != [] ==>
      (events[0].Ends? ==> s.inFlight > 0) && EndsMatch(Step(s, maxPerHour, events[0]), maxPerHour, events[1..])
  }

  lemma HistoryAssociative(a: seq<int>, b: seq<int>, c: seq<int>)
    ensures (a + b) + c == a + (b + c)
  {
  }

  /** Over any run exactly the successful calls are recorded, in order; failed and cached ones leave no trace. */
  lemma {:induction false} HistoryIsSuccesses(s: Limiter, maxPerHour: int, events: seq<Event>)
    requires EndsMatch(s, maxPerHour, events)
    ensures Run(s, maxPerHour, events).history == s.history + Successes(events)
    decreases events
  {
    if events == [] {
      assert s.history + [] == s.history;
    } else {
      var e := events[0];
      var recorded := if e.Ends? && e.succeeded then [e.now] else [];
      HistoryIsSuccesses(Step(s, maxPerHour, e), maxPerHour, events[1..]);
      HistoryAssociative(s.history, recorded, Successes(events[1..]));
      assert s.history + [] == s.history;
    }
  }

  /** A call starts exactly when the hour still has room and nothing is cached. */
  lemma StartsIff(s: Limiter, maxPerHour: int, k: nat, before: int, now: int, cached: bool)
    requires Inv(s, maxPerHour, k, before) && before <= now
    ensures Start(s, maxPerHour, cached, now).inFlight == s.inFlight + 1 <==>
              !cached && InWindow(s.history, now) < maxPerHour
    ensures Start(s, maxPerHour, cached, now).inFlight in {s.inFlight, s.inFlight + 1}
  {
    PrunedListSuffices(s, maxPerHour, k, before, now);
  }
}
