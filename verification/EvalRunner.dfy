/**
  backend/core/eval_runner.py: suite aggregation, comparison of two configurations and the
  change gate.  Model calls are outside the model; their scores are inputs.
 */
module EvalRunner {
  import opened Wrappers

  const PASS_THRESHOLD := 0.8
  const PARTIAL_THRESHOLD := 0.4

  datatype Status = Passed | Partial | Failed

  datatype CaseResult = CaseResult(caseId: string, status: Status, score: real)

  datatype Suite = Suite(passRate: real, avgScore: real, total: nat, passed: nat, failed: nat, partial: nat,
                         results: seq<CaseResult>)

  datatype Recommendation = AutoPromote | HumanReview | Reject

  datatype Comparison = Comparison(regressions: seq<string>, improvements: seq<string>, recommendation: Recommendation)

  /** A failed model call is a failed case with score zero. */
  function Judge(caseId: string, score: Option<real>): CaseResult {
    match score
    case None => CaseResult(caseId, Failed, 0.0)
    case Some(x) =>
      CaseResult(caseId, if x >= PASS_THRESHOLD then Passed else if x >= PARTIAL_THRESHOLD then Partial else Failed, x)
  }

  function CountStatus(results: seq<CaseResult>, status: Status): nat {
    if results == [] then 0
    else CountStatus(results[..|results| - 1], status) + if results[|results| - 1].status == status then 1 else 0
  }

  function Total(results: seq<CaseResult>): real {
    if results == [] then 0.0 else Total(results[..|results| - 1]) + results[|results| - 1].score
  }

  function Summarise(results: seq<CaseResult>): Suite {
    var n, passed := |results|, CountStatus(results, Passed);
    if n == 0 then Suite(0.0, 0.0, 0, 0, 0, 0, [])
    else Suite(passed as real / n as real, Total(results) / n as real, n, passed,
               CountStatus(results, Failed), CountStatus(results, Partial), results)
  }

  /** One suite run; an outcome is the score of a case, if its model call succeeds. */
  function JudgeAll(caseIds: seq<string>, outcomes: seq<Option<real>>): (results: seq<CaseResult>)
    requires |caseIds| == |outcomes|
    ensures |results| == |caseIds|
    ensures forall i :: 0 <= i < |caseIds| ==> results[i] == Judge(caseIds[i], outcomes[i])
  {
    seq(|caseIds|, i requires 0 <= i < |caseIds| => Judge(caseIds[i], outcomes[i]))
  }

  function Ids(results: seq<CaseResult>): set<string> {
    set r | r in results :: r.caseId
  }

  function IdsWith(results: seq<CaseResult>, status: Status): set<string> {
    set r | r in results && r.status == status :: r.caseId
  }

  /** Case ids are primary keys, so a suite runs each case once. */
  ghost predicate DistinctIds(results: seq<CaseResult>) {
    forall i, j :: 0 <= i < j < |results| ==> results[i].caseId != results[j].caseId
  }

  ghost predicate NoRepeats(ids: seq<string>) {
    forall i, j :: 0 <= i < j < |ids| ==> ids[i] != ids[j]
  }

  function Recommend(regressed: bool, baselineRate: real, candidateRate: real): Recommendation {
    if regressed then Reject else if candidateRate >= baselineRate then AutoPromote else HumanReview
  }

  /** `{r.case_id: r.status for r in results}` */
  method StatusMap(results: seq<CaseResult>) returns (statuses: map<string, Status>)
    requires DistinctIds(results)
    ensures statuses.Keys == Ids(results)
    ensures forall id :: id in statuses ==> (statuses[id] == Passed <==> id in IdsWith(results, Passed))
  {
    statuses := map[];
    for i := 0 to |results|
      invariant statuses.Keys == Ids(results[..i])
      invariant forall k :: 0 <= k < i ==>
                  results[k].caseId in statuses && statuses[results[k].caseId] == results[k].status
    {
      assert results[..i + 1] == results[..i] + [results[i]];
      statuses := statuses[results[i].caseId := results[i].status];
    }
    assert results[..|results|] == results;
    forall id | id in statuses ensures statuses[id] == Passed <==> id in IdsWith(results, Passed) {
      var r :| r in results && r.caseId == id;
      var k :| 0 <= k < |results| && results[k] == r;
      if id in IdsWith(results, Passed) {
        var p :| p in results && p.status == Passed && p.caseId == id;
        var l :| 0 <= l < |results| && results[l] == p;
        assert k == l;
      }
    }
  }

  /** The comparison of two runs, each reported as a list of case results. */
  ghost predicate Compares(c: Comparison, baseline: seq<CaseResult>, candidate: seq<CaseResult>) {
    && NoRepeats(c.regressions) && NoRepeats(c.improvements)
    && (forall id :: id in c.regressions <==> id in IdsWith(baseline, Passed) && id !in IdsWith(candidate, Passed))
    && (forall id :: id in c.improvements <==>
          id in Ids(baseline) && id !in IdsWith(baseline, Passed) && id in IdsWith(candidate, Passed))
    && c.recommendation == Recommend(c.regressions != [], Summarise(baseline).passRate, Summarise(candidate).passRate)
  }

  /** A case absent from the candidate counts as failed there. */
  method CompareConfigs(baseline: seq<CaseResult>, candidate: seq<CaseResult>) returns (c: Comparison)
    requires DistinctIds(baseline) && DistinctIds(candidate)
    ensures Compares(c, baseline, candidate)
  {
    var before := StatusMap(baseline);
    var after := StatusMap(candidate);
    var regressions: seq<string> := [];
    var improvements: seq<string> := [];
    for i := 0 to |baseline|
      invariant NoRepeats(regressions) && NoRepeats(improvements)
      invariant forall id :: id in regressions <==>
                  id in Ids(baseline[..i]) && before[id] == Passed && !(id in after && after[id] == Passed)
      invariant forall id :: id in improvements <==>
                  id in Ids(baseline[..i]) && before[id] != Passed && id in after && after[id] == Passed
    {
      var id := baseline[i].caseId;
      IdsOfPrefix(baseline, i);
      assert id in Ids(baseline);
      var candidateStatus := if id in after then after[id] else Failed;
      if before[id] == Passed && candidateStatus != Passed {
        regressions := regressions + [id];
      } else if before[id] != Passed && candidateStatus == Passed {
        improvements := improvements + [id];
      }
    }
    assert baseline[..|baseline|] == baseline;
    IdsWithAreIds(candidate, Passed);
    IdsWithAreIds(baseline, Passed);
    c := Comparison(
      regressions, improvements,
      Recommend(regressions != [], Summarise(baseline).passRate, Summarise(candidate).passRate));
  }

  lemma IdsOfPrefix(results: seq<CaseResult>, i: nat)
    requires i < |results| && DistinctIds(results)
    ensures results[i].caseId !in Ids(results[..i])
    ensures Ids(results[..i + 1]) == Ids(results[..i]) + {results[i].caseId}
  {
    forall r | r in results[..i] ensures r.caseId != results[i].caseId {
      var k :| 0 <= k < i && results[k] == r;
    }
    assert results[..i + 1] == results[..i] + [results[i]];
  }

  lemma IdsWithAreIds(results: seq<CaseResult>, status: Status)
    ensures IdsWith(results, status) <= Ids(results)
  {
  }

  /** The change gate passes everything that is not rejected. */
  predicate GatePasses(c: Comparison) { c.recommendation != Reject }

  // -------------------------------------------------------------- properties

  lemma {:induction false} StatusesPartition(results: seq<CaseResult>)
    ensures CountStatus(results, Passed) + CountStatus(results, Failed) + CountStatus(results, Partial) == |results|
  {
    if results != [] {
      StatusesPartition(results[..|results| - 1]);
    }
  }

  /** A case passes from 0.8 on and fails below 0.4; a failed model call is a failure that scores nothing. */
  lemma JudgedByThresholds(caseId: string, x: real)
    ensures Judge(caseId, Some(x)).status == Passed <==> x >= 0.8
    ensures Judge(caseId, Some(x)).status == Failed <==> x < 0.4
    ensures Judge(caseId, Some(x)).score == x && Judge(caseId, Some(x)).caseId == caseId
    ensures Judge(caseId, None) == CaseResult(caseId, Failed, 0.0)
  {
  }

  /** The counts of a suite are those of its results, and they add up. */
  lemma SummaryCounts(results: seq<CaseResult>)
    ensures var s := Summarise(results);
            && s.total == |results| && s.results == results && s.passed + s.failed + s.partial == |results|
            && s.passed == CountStatus(results, Passed) && s.failed == CountStatus(results, Failed)
            && s.partial == CountStatus(results, Partial)
  {
    StatusesPartition(results);
  }

  /** Its rates, times the number of cases, give back passes and points; without cases they are zero. */
  lemma SummaryRates(results: seq<CaseResult>)
    ensures var s := Summarise(results);
            && s.passRate * |results| as real == CountStatus(results, Passed) as real
            && s.avgScore * |results| as real == Total(results)
            && (results == [] ==> s.passRate == 0.0 && s.avgScore == 0.0)
  {
    if results != [] {
      DividedBack(CountStatus(results, Passed) as real, |results|);
      DividedBack(Total(results), |results|);
    }
  }

  lemma DividedBack(x: real, n: nat)
    requires n > 0
    ensures x / n as real * n as real == x
  {
  }

  /** The thresholds pin the total score between two combinations of the counts. */
  lemma {:induction false} TotalBracketed(results: seq<CaseResult>)
    requires forall r :: r in results ==> 0.0 <= r.score <= 1.0 && r == Judge(r.caseId, Some(r.score))
    ensures var passed, partial, failed :=
              CountStatus(results, Passed) as real, CountStatus(results, Partial) as real,
              CountStatus(results, Failed) as real;
            0.8 * passed + 0.4 * partial <= Total(results) <= passed + 0.8 * partial + 0.4 * failed
  {
    if results != [] {
      var n := |results| - 1;
      TotalBracketed(results[..n]);
      assert results[n] in results;
    }
  }

  lemma NonNegativeFactor(x: real, n: real)
    requires n > 0.0
    ensures x >= 0.0 <==> x * n >= 0.0
  {
  }

  lemma Quotients(total: real, passed: real, n: real)
    requires n > 0.0 && 0.8 * passed <= total <= 0.8 * n + 0.2 * passed
    ensures 0.8 * (passed / n) <= total / n <= 0.8 + 0.2 * (passed / n)
  {
    var p, q := passed / n, total / n;
    assert p * n == passed && q * n == total;
    var low, high := q - 0.8 * p, 0.8 + 0.2 * p - q;
    assert low * n == total - 0.8 * passed && high * n == 0.8 * n + 0.2 * passed - total;
    NonNegativeFactor(low, n);
    NonNegativeFactor(high, n);
  }

  /** Average score and pass rate of a run bound each other, model failures included. */
  lemma AverageBracketsPassRate(caseIds: seq<string>, outcomes: seq<Option<real>>)
    requires |caseIds| == |outcomes| > 0
    requires forall i :: 0 <= i < |outcomes| && outcomes[i].Some? ==> 0.0 <= outcomes[i].value <= 1.0
    ensures var s := Summarise(JudgeAll(caseIds, outcomes));
            0.8 * s.passRate <= s.avgScore <= 0.8 + 0.2 * s.passRate
  {
    var results := JudgeAll(caseIds, outcomes);
    TotalBracketed(results);
    StatusesPartition(results);
    Quotients(Total(results), CountStatus(results, Passed) as real, |results| as real);
  }

  lemma {:induction false} CountIsCardinality(results: seq<CaseResult>, status: Status)
    requires DistinctIds(results)
    ensures CountStatus(results, status) == |IdsWith(results, status)|
  {
    if results != [] {
      var n := |results| - 1;
      CountIsCardinality(results[..n], status);
      IdsOfPrefix(results, n);
      IdsWithAreIds(results[..n], status);
      IdsWithLast(results, status);
      AddedCardinality(IdsWith(results[..n], status), results[n].caseId);
    }
  }

  lemma AddedCardinality(ids: set<string>, id: string)
    requires id !in ids
    ensures |ids + {id}| == |ids| + 1
  {
  }

  lemma IdsWithLast(results: seq<CaseResult>, status: Status)
    requires results != []
    ensures var n := |results| - 1;
            IdsWith(results, status)
            == if results[n].status == status then IdsWith(results[..n], status) + {results[n].caseId}
               else IdsWith(results[..n], status)
  {
    var n := |results| - 1;
    assert results == results[..n] + [results[n]];
    forall r ensures r in results <==> r in results[..n] || r == results[n] {}
  }

  lemma {:induction false} LengthIsIds(results: seq<CaseResult>)
    requires DistinctIds(results)
    ensures |results| == |Ids(results)|
  {
    if results != [] {
      var n := |results| - 1;
      LengthIsIds(results[..n]);
      IdsOfPrefix(results, n);
      assert results[..n + 1] == results;
    }
  }

  lemma {:induction false} LengthIsCardinality(ids: seq<string>)
    requires NoRepeats(ids)
    ensures |ids| == |set id | id in ids|
  {
    if ids != [] {
      var n := |ids| - 1;
      LengthIsCardinality(ids[..n]);
      assert ids == ids[..n] + [ids[n]];
      assert (set id | id in ids) == (set id | id in ids[..n]) + {ids[n]};
    }
  }

  lemma SplitCardinality<T>(a: set<T>, b: set<T>)
    ensures |a| == |a * b| + |a - b|
  {
    assert a == a * b + (a - b);
  }

  lemma ExchangedCardinality<T>(a: set<T>, b: set<T>)
    ensures |b| == |a| - |a - b| + |b - a|
  {
    SplitCardinality(a, b);
    SplitCardinality(b, a);
    assert a * b == b * a;
  }

  lemma LengthOfListing(ids: seq<string>, members: set<string>)
    requires NoRepeats(ids) && forall id :: id in ids <==> id in members
    ensures |ids| == |members|
  {
    LengthIsCardinality(ids);
    assert (set id | id in ids) == members;
  }

  /** Passes are conserved: the candidate gains the improvements and loses the regressions. */
  lemma PassesBalance(c: Comparison, baseline: seq<CaseResult>, candidate: seq<CaseResult>)
    requires DistinctIds(baseline) && DistinctIds(candidate) && Ids(baseline) == Ids(candidate)
    requires Compares(c, baseline, candidate)
    ensures CountStatus(candidate, Passed) == CountStatus(baseline, Passed) - |c.regressions| + |c.improvements|
  {
    var b, d := IdsWith(baseline, Passed), IdsWith(candidate, Passed);
    CountIsCardinality(baseline, Passed);
    CountIsCardinality(candidate, Passed);
    IdsWithAreIds(candidate, Passed);
    LengthOfListing(c.regressions, b - d);
    LengthOfListing(c.improvements, d - b);
    ExchangedCardinality(b, d);
  }

  lemma RateIsMonotone(p: nat, q: nat, n: nat)
    requires n > 0
    ensures p as real / n as real >= q as real / n as real <==> p >= q
  {
    var x, y := p as real / n as real, q as real / n as real;
    assert x * n as real == p as real && y * n as real == q as real;
    if x >= y {
      assert (x - y) * n as real >= 0.0;
    } else {
      assert (y - x) * n as real > 0.0;
    }
  }

  /**
    On the same cases a comparison promotes exactly when nothing regressed and otherwise
    rejects: human review is never recommended, and the gate is the absence of regressions.
   */
  lemma HumanReviewUnreachable(c: Comparison, baseline: seq<CaseResult>, candidate: seq<CaseResult>)
    requires DistinctIds(baseline) && DistinctIds(candidate) && Ids(baseline) == Ids(candidate)
    requires Compares(c, baseline, candidate)
    ensures c.recommendation != HumanReview
    ensures c.recommendation == AutoPromote <==> c.regressions == []
    ensures GatePasses(c) <==> c.regressions == []
    ensures GatePasses(c) ==> Summarise(candidate).passRate >= Summarise(baseline).passRate
  {
    PassesBalance(c, baseline, candidate);
    LengthIsIds(baseline);
    LengthIsIds(candidate);
    EmptyWhenNoMember(c.regressions);
    if |baseline| > 0 {
      RateIsMonotone(CountStatus(candidate, Passed), CountStatus(baseline, Passed), |baseline|);
    }
  }

  /** Some outcomes of the two runs, over these case lists, lead to human review. */
  ghost predicate ReviewReachable(baseIds: seq<string>, candidateIds: seq<string>) {
    exists x: seq<Option<real>>, y: seq<Option<real>>, c: Comparison ::
      |x| == |baseIds| && |y| == |candidateIds|
      && Compares(c, JudgeAll(baseIds, x), JudgeAll(candidateIds, y)) && c.recommendation == HumanReview
  }

  lemma JudgedIds(ids: seq<string>, outcomes: seq<Option<real>>)
    requires |ids| == |outcomes| && NoRepeats(ids)
    ensures DistinctIds(JudgeAll(ids, outcomes))
    ensures forall id :: id in Ids(JudgeAll(ids, outcomes)) <==> id in ids
  {
    var results := JudgeAll(ids, outcomes);
    forall id | id in ids ensures id in Ids(results) {
      var i :| 0 <= i < |ids| && ids[i] == id;
      assert results[i] in results;
    }
  }

  lemma RatesCompare(p: nat, m: nat, q: nat, n: nat)
    requires m > 0 && n > 0
    ensures q as real / n as real < p as real / m as real <==> q * m < p * n
  {
    var x, y := p as real / m as real, q as real / n as real;
    var both := m as real * n as real;
    assert x * m as real == p as real && y * n as real == q as real;
    assert x * both == p as real * n as real && y * both == q as real * m as real;
    assert (y - x) * both == y * both - x * both;
    NonNegativeFactor(y - x, both);
    ProductAsReal(p, n);
    ProductAsReal(q, m);
  }

  lemma ProductAsReal(a: nat, b: nat)
    ensures (a * b) as real == a as real * b as real
  {
  }

  lemma Product(a: nat, b: nat, c: nat, d: nat)
    requires a <= b && c <= d
    ensures a * c <= b * d
  {
    assert a * c <= b * c <= b * d;
  }

  /** A rate falls while the passes do not only if the second run is longer and the first passed something. */
  lemma FallingRate(p: nat, m: nat, q: nat, n: nat)
    requires p <= q && m > 0 && n > 0
    ensures q as real / n as real < p as real / m as real ==> p > 0 && n > m
  {
    RatesCompare(p, m, q, n);
    if n <= m {
      Product(p, q, n, m);
    }
  }

  /** What human review tells about the two runs. */
  lemma ReviewNeedsLongerRun(c: Comparison, baseline: seq<CaseResult>, candidate: seq<CaseResult>)
    requires DistinctIds(baseline) && DistinctIds(candidate) && Compares(c, baseline, candidate)
    requires c.recommendation == HumanReview
    ensures |candidate| > |baseline| && exists id :: id in IdsWith(baseline, Passed) && id in IdsWith(candidate, Passed)
  {
    var b, d := IdsWith(baseline, Passed), IdsWith(candidate, Passed);
    EmptyWhenNoMember(c.regressions);
    assert b <= d;
    CountIsCardinality(baseline, Passed);
    CountIsCardinality(candidate, Passed);
    Contained(b, d);
    StatusesPartition(baseline);
    StatusesPartition(candidate);
    PassRateNonNegative(candidate);
    FallingRate(|b|, |baseline|, |d|, |candidate|);
    var id :| id in b;
    assert id in d;
  }

  lemma PassRateNonNegative(results: seq<CaseResult>)
    ensures Summarise(results).passRate >= 0.0
    ensures results == [] || CountStatus(results, Passed) == 0 ==> Summarise(results).passRate == 0.0
  {
  }

  lemma Contained<T>(a: set<T>, b: set<T>)
    requires a <= b
    ensures |a| <= |b|
  {
    assert b == a + (b - a);
  }

  /** One case passes and all others fail. */
  function OnlyPass(ids: seq<string>, id: string): (outcomes: seq<Option<real>>)
    ensures |outcomes| == |ids|
    ensures forall i :: 0 <= i < |ids| ==> outcomes[i] == if ids[i] == id then Some(1.0) else None
  {
    seq(|ids|, i requires 0 <= i < |ids| => if ids[i] == id then Some(1.0) else None)
  }

  lemma OnePasses(ids: seq<string>, id: string)
    requires NoRepeats(ids) && id in ids
    ensures var results := JudgeAll(ids, OnlyPass(ids, id));
            IdsWith(results, Passed) == {id} && CountStatus(results, Passed) == 1
  {
    var results := JudgeAll(ids, OnlyPass(ids, id));
    var i :| 0 <= i < |ids| && ids[i] == id;
    assert results[i] in results;
    JudgedIds(ids, OnlyPass(ids, id));
    CountIsCardinality(results, Passed);
  }

  /**
    Human review can be recommended exactly when the candidate run has more cases than the baseline
    and shares at least one with it; otherwise no outcome of the two runs leads there.
   */
  lemma ReviewReachableIff(baseIds: seq<string>, candidateIds: seq<string>)
    requires NoRepeats(baseIds) && NoRepeats(candidateIds)
    ensures ReviewReachable(baseIds, candidateIds) <==>
              |candidateIds| > |baseIds| && exists id :: id in baseIds && id in candidateIds
  {
    if ReviewReachable(baseIds, candidateIds) {
      var x: seq<Option<real>>, y: seq<Option<real>>, c: Comparison :|
        |x| == |baseIds| && |y| == |candidateIds|
        && Compares(c, JudgeAll(baseIds, x), JudgeAll(candidateIds, y)) && c.recommendation == HumanReview;
      var baseline, candidate := JudgeAll(baseIds, x), JudgeAll(candidateIds, y);
      JudgedIds(baseIds, x);
      JudgedIds(candidateIds, y);
      ReviewNeedsLongerRun(c, baseline, candidate);
      var id :| id in IdsWith(baseline, Passed) && id in IdsWith(candidate, Passed);
      assert id in Ids(baseline) && id in Ids(candidate);
    }
    if |candidateIds| > |baseIds| && exists id :: id in baseIds && id in candidateIds {
      var id :| id in baseIds && id in candidateIds;
      SharedCaseReachesReview(baseIds, candidateIds, id);
    }
  }

  lemma SharedCaseReachesReview(baseIds: seq<string>, candidateIds: seq<string>, id: string)
    requires NoRepeats(baseIds) && NoRepeats(candidateIds) && |candidateIds| > |baseIds|
    requires id in baseIds && id in candidateIds
    ensures ReviewReachable(baseIds, candidateIds)
  {
    var x, y := OnlyPass(baseIds, id), OnlyPass(candidateIds, id);
    OnePasses(baseIds, id);
    OnePasses(candidateIds, id);
    RatesCompare(1, |baseIds|, 1, |candidateIds|);
    assert Compares(Comparison([], [], HumanReview), JudgeAll(baseIds, x), JudgeAll(candidateIds, y));
  }

  /** Any case added to any non-empty suite makes human review reachable. */
  lemma AddedCaseReachesReview(ids: seq<string>, added: string)
    requires NoRepeats(ids) && ids != [] && added !in ids
    ensures ReviewReachable(ids, ids + [added])
  {
    assert ids[0] in ids && ids[0] in ids + [added];
    ReviewReachableIff(ids, ids + [added]);
  }

  function Listed(results: seq<CaseResult>, status: Status): (ids: seq<string>)
    ensures forall id :: id in ids <==> id in IdsWith(results, status)
    ensures DistinctIds(results) ==> NoRepeats(ids)
  {
    if results == [] then []
    else
      var n := |results| - 1;
      IdsWithLast(results, status);
      IdsWithAreIds(results[..n], status);
      assert DistinctIds(results) ==> results[n].caseId !in Ids(results[..n]);
      Listed(results[..n], status) + if results[n].status == status then [results[n].caseId] else []
  }

  /** Whatever the candidate does, it is promoted. */
  ghost predicate AlwaysPromoted(baseline: seq<CaseResult>) {
    forall c, candidate ::
      DistinctIds(candidate) && Compares(c, baseline, candidate) ==> c.recommendation == AutoPromote
  }

  /** Against a baseline every candidate is promoted exactly when that baseline passes nothing. */
  lemma AlwaysPromotedIff(baseline: seq<CaseResult>)
    requires DistinctIds(baseline)
    ensures AlwaysPromoted(baseline) <==> CountStatus(baseline, Passed) == 0
  {
    var passed := IdsWith(baseline, Passed);
    CountIsCardinality(baseline, Passed);
    if CountStatus(baseline, Passed) == 0 {
      forall c, candidate | DistinctIds(candidate) && Compares(c, baseline, candidate)
        ensures c.recommendation == AutoPromote
      {
        EmptyWhenNoMember(c.regressions);
        PassRateNonNegative(baseline);
        PassRateNonNegative(candidate);
      }
    } else {
      var c := Comparison(Listed(baseline, Passed), [], Reject);
      var id :| id in passed;
      EmptyWhenNoMember(c.regressions);
      assert IdsWith([], Passed) == {};
      assert Compares(c, baseline, []);
    }
  }

  /** In particular a comparison over no cases at all. */
  lemma EmptySuitePromotes(c: Comparison)
    requires Compares(c, [], [])
    ensures c == Comparison([], [], AutoPromote) && GatePasses(c)
  {
    AlwaysPromotedIff([]);
    EmptyWhenNoMember(c.regressions);
    EmptyWhenNoMember(c.improvements);
  }

  lemma EmptyWhenNoMember(ids: seq<string>)
    ensures ids == [] <==> forall id :: id !in ids
  {
    if ids != [] {
      assert ids[0] in ids;
    }
  }
}
