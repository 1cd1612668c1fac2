/**
  backend/core/policy.py: first-match evaluation of policies and the life of an approval.

  Each public operation is atomic and reads the clock once.  Ids and instants are inputs.
 */
module Policy {
  import opened Wrappers

  type Id = string

  datatype Status = Pending | Approved | Denied | Expired

  datatype Approval = Approval(
    policyId: Option<Id>, jobId: string, nodeId: string, toolCall: string, status: Status,
    requestedAt: int, expiresAt: int, decidedBy: string, decidedAt: Option<int>, reason: string)

  type Approvals = map<Id, Approval>

  const MINUTE := 60

  datatype Error = NotFound | NotPending(status: Status) | IntegrityError

  function CreateApproval(s: Approvals, id: Id, policyId: Option<Id>, jobId: string, nodeId: string,
                          toolCall: string, minutes: int, now: int): Result<Approvals, Error>
  {
    if id in s then Err(IntegrityError)
    else Ok(s[id := Approval(policyId, jobId, nodeId, toolCall, Pending, now, now + minutes * MINUTE, "", None, "")])
  }

  function MarkExpired(s: Approvals, id: Id): Approvals
    requires id in s
  {
    s[id := s[id].(status := Expired)]
  }

  /** The status, expiring a pending approval that is past its time. */
  function Check(s: Approvals, id: Id, now: int): (Approvals, Result<Status, Error>) {
    if id !in s then (s, Err(NotFound))
    else if s[id].status == Pending && now >= s[id].expiresAt then (MarkExpired(s, id), Ok(Expired))
    else (s, Ok(s[id].status))
  }

  function Decide(s: Approvals, id: Id, decidedBy: string, approved: bool, reason: string, now: int)
    : (Approvals, Result<Status, Error>)
  {
    var (t, current) := Check(s, id, now);
    if current.Err? then (t, current)
    else if current.value != Pending then (t, Err(NotPending(current.value)))
    else
      var status := if approved then Approved else Denied;
      (t[id := t[id].(status := status, decidedBy := decidedBy, decidedAt := Some(now), reason := reason)], Ok(status))
  }

  predicate Stale(a: Approval, now: int) { a.status == Pending && a.expiresAt <= now }

  function ExpireStale(s: Approvals, now: int): Approvals {
    map id | id in s :: if Stale(s[id], now) then s[id].(status := Expired) else s[id]
  }

  // --------------------------------------------------------------- evaluation

  datatype Action = Allow | Deny | RequireApproval(minutes: int) | DryRun

  /** A workspace policy in evaluation order; `valid` says that its JSON parses. */
  datatype Rule = Rule(id: Id, valid: bool, conditions: string, action: Action, reason: string)

  datatype Verdict = Allowed | Refused | NeedsApproval | Simulated

  datatype Decision = Decision(verdict: Verdict, policyId: Option<Id>, reason: string, approvalId: Option<Id>)

  predicate Applies(rule: Rule, holds: string -> bool) {
    rule.valid && holds(rule.conditions)
  }

  ghost predicate FirstApplicable(rules: seq<Rule>, holds: string -> bool, i: int) {
    && 0 <= i < |rules| && rules[i].valid && holds(rules[i].conditions)
    && forall j :: 0 <= j < i ==> !(rules[j].valid && holds(rules[j].conditions))
  }

  /** The decision carries the rule's id, reason and action. */
  ghost predicate Follows(d: Decision, rule: Rule, newId: Id) {
    && d.policyId == Some(rule.id) && d.reason == rule.reason
    && (d.verdict == Refused <==> rule.action == Deny)
    && (d.verdict == Simulated <==> rule.action == DryRun)
    && (d.verdict == NeedsApproval <==> rule.action.RequireApproval?)
    && d.approvalId == if rule.action.RequireApproval? then Some(newId) else None
  }

  // ---------------------------------------------------------------- the class

  class PolicyEngine {
    var approvals: Approvals

    constructor ()
      ensures approvals == map[]
    {
      approvals := map[];
    }

    /**
      `builtin` is what the hardcoded policies say, `loaded` the enabled workspace policies unless
      reading them fails, and `holds` evaluates conditions on this call.
     */
    method Evaluate(builtin: Option<Decision>, loaded: Option<seq<Rule>>, holds: string -> bool, jobId: string,
                    nodeId: string, toolCall: string, newId: Id, now: int) returns (d: Decision)
      requires newId !in approvals
      modifies this
      ensures builtin.Some? ==> d == builtin.value && approvals == old(approvals)
      ensures builtin.None? && (loaded.None? || forall r :: r in loaded.value ==> !Applies(r, holds)) ==>
                d.verdict == Allowed && d.policyId == None && d.approvalId == None && approvals == old(approvals)
      ensures builtin.None? && loaded.Some? && (exists r :: r in loaded.value && Applies(r, holds)) ==>
                exists i :: FirstApplicable(loaded.value, holds, i) && Follows(d, loaded.value[i], newId)
                  && if loaded.value[i].action.RequireApproval? then
                       Ok(approvals) == CreateApproval(old(approvals), newId, Some(loaded.value[i].id), jobId, nodeId,
                                                       toolCall, loaded.value[i].action.minutes, now)
                     else approvals == old(approvals)
    {
      if builtin.Some? {
        return builtin.value;
      }
      if loaded.None? {
        return Decision(Allowed, None, "DB error; defaulting to allow.", None);
      }
      var rules := loaded.value;
      for i := 0 to |rules|
        invariant approvals == old(approvals)
        invariant forall j :: 0 <= j < i ==> !Applies(rules[j], holds)
      {
        var rule := rules[i];
        if !rule.valid || !holds(rule.conditions) {
          continue;
        }
        assert FirstApplicable(rules, holds, i) && rules[i] in rules;
        match rule.action
        case Deny =>
          return Decision(Refused, Some(rule.id), rule.reason, None);
        case RequireApproval(minutes) =>
          var r := Create(newId, Some(rule.id), jobId, nodeId, toolCall, minutes, now);
          return Decision(NeedsApproval, Some(rule.id), rule.reason, Some(newId));
        case DryRun =>
          return Decision(Simulated, Some(rule.id), rule.reason, None);
        case Allow =>
          return Decision(Allowed, Some(rule.id), rule.reason, None);
      }
      d := Decision(Allowed, None, "No policy matched; default allow.", None);
    }

    method Create(id: Id, policyId: Option<Id>, jobId: string, nodeId: string, toolCall: string,
                  minutes: int, now: int) returns (r: Result<Id, Error>)
      modifies this
      ensures match CreateApproval(old(approvals), id, policyId, jobId, nodeId, toolCall, minutes, now)
              case Ok(s) => approvals == s && r == Ok(id)
              case Err(e) => approvals == old(approvals) && r == Err(e)
    {
      if id in approvals {
        return Err(IntegrityError);
      }
      approvals := approvals[id :=
        Approval(policyId, jobId, nodeId, toolCall, Pending, now, now + minutes * MINUTE, "", None, "")];
      r := Ok(id);
    }

    method CheckApproval(id: Id, now: int) returns (r: Result<Status, Error>)
      modifies this
      ensures (approvals, r) == Check(old(approvals), id, now)
    {
      if id !in approvals {
        return Err(NotFound);
      }
      if approvals[id].status == Pending && now >= approvals[id].expiresAt {
        approvals := MarkExpired(approvals, id);
        return Ok(Expired);
      }
      r := Ok(approvals[id].status);
    }

    method DecideApproval(id: Id, decidedBy: string, approved: bool, reason: string, now: int)
      returns (r: Result<Status, Error>)
      modifies this
      ensures (approvals, r) == Decide(old(approvals), id, decidedBy, approved, reason, now)
    {
      var current := CheckApproval(id, now);
      if current.Err? {
        return current;
      }
      if current.value != Pending {
        return Err(NotPending(current.value));
      }
      var status := if approved then Approved else Denied;
      approvals := approvals[id := approvals[id].(
        status := status, decidedBy := decidedBy, decidedAt := Some(now), reason := reason)];
      r := Ok(status);
    }

    method ExpireStaleApprovals(now: int) returns (count: nat)
      modifies this
      ensures approvals == ExpireStale(old(approvals), now)
      ensures count == |set id | id in old(approvals) && Stale(old(approvals)[id], now)|
    {
      count := |set id | id in approvals && Stale(approvals[id], now)|;
      approvals := map id | id in approvals ::
        if Stale(approvals[id], now) then approvals[id].(status := Expired) else approvals[id];
    }
  }

  // -------------------------------------------------------------------- runs

  datatype Op =
    | DoCreate(id: Id, policyId: Option<Id>, jobId: string, nodeId: string, toolCall: string, minutes: int, now: int)
    | DoCheck(id: Id, now: int)
    | DoDecide(id: Id, decidedBy: string, approved: bool, reason: string, now: int)
    | DoSweep(now: int)

  datatype Answer = Created(ok: bool) | Reported(result: Result<Status, Error>)

  function Step(s: Approvals, op: Op): Approvals {
    match op
    case DoCreate(id, policyId, jobId, nodeId, toolCall, minutes, now) =>
      var r := CreateApproval(s, id, policyId, jobId, nodeId, toolCall, minutes, now);
      if r.Ok? then r.value else s
    case DoCheck(id, now) => Check(s, id, now).0
    case DoDecide(id, decidedBy, approved, reason, now) => Decide(s, id, decidedBy, approved, reason, now).0
    case DoSweep(now) => ExpireStale(s, now)
  }

  /** What the caller of an operation sees; a sweep shows nothing. */
  function Answers(s: Approvals, op: Op): seq<Answer> {
    match op
    case DoCreate(id, _, _, _, _, _, _) => [Created(id !in s)]
    case DoCheck(id, now) => [Reported(Check(s, id, now).1)]
    case DoDecide(id, decidedBy, approved, reason, now) => [Reported(Decide(s, id, decidedBy, approved, reason, now).1)]
    case DoSweep(_) => []
  }

  function Run(s: Approvals, ops: seq<Op>): Approvals
    decreases ops
  {
    if ops == [] then s else Run(Step(s, ops[0]), ops[1..])
  }

  function Observe(s: Approvals, ops: seq<Op>): seq<Answer>
    decreases ops
  {
    if ops == [] then [] else Answers(s, ops[0]) + Observe(Step(s, ops[0]), ops[1..])
  }

  function WithoutSweeps(ops: seq<Op>): seq<Op> {
    if ops == [] then [] else (if ops[0].DoSweep? then [] else [ops[0]]) + WithoutSweeps(ops[1..])
  }

  /** The clock never runs backwards, from `start` on. */
  predicate Timed(ops: seq<Op>, start: int) {
    ops != [] ==> start <= ops[0].now && Timed(ops[1..], ops[0].now)
  }

  /** Equal, except that the swept table may have expired what a check would expire now. */
  ghost predicate SameUpToSweep(swept: Approvals, plain: Approvals, now: int) {
    && swept.Keys == plain.Keys
    && forall id :: id in plain ==>
         swept[id] == plain[id] || (Stale(plain[id], now) && swept[id] == plain[id].(status := Expired))
  }

  lemma CheckKeepsSame(swept: Approvals, plain: Approvals, id: Id, now: int)
    requires SameUpToSweep(swept, plain, now)
    ensures Check(swept, id, now).1 == Check(plain, id, now).1
    ensures SameUpToSweep(Check(swept, id, now).0, Check(plain, id, now).0, now)
    ensures id in plain ==> Check(swept, id, now).0[id] == Check(plain, id, now).0[id]
  {
  }

  lemma StepKeepsSame(swept: Approvals, plain: Approvals, op: Op, now: int)
    requires SameUpToSweep(swept, plain, now) && now <= op.now && !op.DoSweep?
    ensures Answers(swept, op) == Answers(plain, op)
    ensures SameUpToSweep(Step(swept, op), Step(plain, op), op.now)
  {
    assert SameUpToSweep(swept, plain, op.now);
    if op.DoCheck? || op.DoDecide? {
      CheckKeepsSame(swept, plain, op.id, op.now);
    }
  }

  lemma {:induction false} SweepsMakeNoDifference(swept: Approvals, plain: Approvals, ops: seq<Op>, now: int)
    requires SameUpToSweep(swept, plain, now) && Timed(ops, now)
    ensures Observe(swept, ops) == Observe(plain, WithoutSweeps(ops))
    decreases ops
  {
    if ops != [] {
      var op := ops[0];
      if op.DoSweep? {
        SweepsMakeNoDifference(ExpireStale(swept, op.now), plain, ops[1..], op.now);
        assert WithoutSweeps(ops) == WithoutSweeps(ops[1..]);
      } else {
        StepKeepsSame(swept, plain, op, now);
        SweepsMakeNoDifference(Step(swept, op), Step(plain, op), ops[1..], op.now);
        assert WithoutSweeps(ops)[1..] == WithoutSweeps(ops[1..]);
      }
    }
  }

  /** Sweeps inserted anywhere into two copies of one run never change what any call returns. */
  lemma SweepsAreInvisible(s: Approvals, a: seq<Op>, b: seq<Op>, start: int)
    requires Timed(a, start) && Timed(b, start) && WithoutSweeps(a) == WithoutSweeps(b)
    ensures Observe(s, a) == Observe(s, b)
  {
    SweepsMakeNoDifference(s, s, a, start);
    SweepsMakeNoDifference(s, s, b, start);
  }

  /** An approval that has left pending never changes again. */
  lemma {:induction false} SettledIsFinal(s: Approvals, ops: seq<Op>, id: Id)
    requires id in s && s[id].status != Pending
    ensures var t := Run(s, ops); id in t && t[id] == s[id]
    decreases ops
  {
    if ops != [] {
      SettledIsFinal(Step(s, ops[0]), ops[1..], id);
    }
  }

  ghost predicate DecidedInTime(s: Approvals) {
    forall id :: id in s ==>
      && (s[id].status in {Approved, Denied} <==> s[id].decidedAt.Some?)
      && (s[id].decidedAt.Some? ==> s[id].decidedAt.value < s[id].expiresAt)
  }

  /** A decision is only ever recorded before the approval expires. */
  lemma {:induction false} DecisionsPrecedeExpiry(s: Approvals, ops: seq<Op>)
    requires DecidedInTime(s)
    ensures DecidedInTime(Run(s, ops))
    decreases ops
  {
    if ops != [] {
      DecisionsPrecedeExpiry(Step(s, ops[0]), ops[1..]);
    }
  }

  /** A decision is accepted exactly while the approval exists, is pending and has not expired. */
  lemma DecisionAcceptedIff(s: Approvals, id: Id, decidedBy: string, approved: bool, reason: string, now: int)
    ensures Decide(s, id, decidedBy, approved, reason, now).1.Ok? <==>
              id in s && s[id].status == Pending && now < s[id].expiresAt
    ensures Decide(s, id, decidedBy, approved, reason, now).1.Ok? ==>
              Check(Decide(s, id, decidedBy, approved, reason, now).0, id, now).1
              == Ok(if approved then Approved else Denied)
  {
  }

  // ------------------------------------------------------- lifetime and sweeps

  /** Waiting for a decision, with what the clock may have done to it up to `t`. */
  ghost predicate Undecided(s: Approvals, id: Id, expiresAt: int, t: int) {
    && id in s && s[id].expiresAt == expiresAt
    && (s[id].status == Pending || (s[id].status == Expired && expiresAt <= t))
  }

  predicate LeavesUndecided(ops: seq<Op>, id: Id, t: int) {
    forall op :: op in ops ==> op.now <= t && !(op.DoDecide? && op.id == id)
  }

  lemma {:induction false} StaysUndecided(s: Approvals, ops: seq<Op>, id: Id, expiresAt: int, t: int)
    requires Undecided(s, id, expiresAt, t) && LeavesUndecided(ops, id, t)
    ensures Undecided(Run(s, ops), id, expiresAt, t)
    decreases ops
  {
    if ops != [] {
      assert ops[0] in ops && forall op :: op in ops[1..] ==> op in ops;
      StaysUndecided(Step(s, ops[0]), ops[1..], id, expiresAt, t);
    }
  }

  /**
    A created approval on which nobody decides is pending for exactly its minutes and expired
    after that, whatever is created, checked, decided or swept in between.
   */
  lemma PendingForItsMinutes(s: Approvals, create: Op, ops: seq<Op>, t: int)
    requires create.DoCreate? && create.id !in s && LeavesUndecided(ops, create.id, t)
    ensures Check(Run(Step(s, create), ops), create.id, t).1
            == Ok(if t < create.now + create.minutes * MINUTE then Pending else Expired)
  {
    StaysUndecided(Step(s, create), ops, create.id, create.now + create.minutes * MINUTE, t);
  }

  function CheckEach(s: Approvals, ids: seq<Id>, now: int): Approvals
    decreases ids
  {
    if ids == [] then s else CheckEach(Check(s, ids[0], now).0, ids[1..], now)
  }

  lemma {:induction false} CheckEachExpires(s: Approvals, ids: seq<Id>, now: int, id: Id)
    ensures CheckEach(s, ids, now).Keys == s.Keys
    ensures id in s ==> CheckEach(s, ids, now)[id] ==
                          if id in ids && Stale(s[id], now) then s[id].(status := Expired) else s[id]
    decreases ids
  {
    if ids != [] {
      assert ids == [ids[0]] + ids[1..];
      CheckEachExpires(Check(s, ids[0], now).0, ids[1..], now, id);
    }
  }

  /** Sweeping is checking every approval, in any order and as often as one likes. */
  lemma SweepIsCheckingAll(s: Approvals, ids: seq<Id>, now: int)
    requires forall id :: id in s ==> id in ids
    ensures CheckEach(s, ids, now) == ExpireStale(s, now)
    ensures forall id :: id in s ==> Check(s, id, now).1 == Ok(ExpireStale(s, now)[id].status)
  {
    forall id ensures CheckEach(s, ids, now).Keys == s.Keys
                      && (id in s ==> CheckEach(s, ids, now)[id] == ExpireStale(s, now)[id]) {
      CheckEachExpires(s, ids, now, id);
    }
  }

  // ----------------------------------------------------------- what is recorded

  /** What was asked for, apart from its fate. */
  ghost predicate SameRequest(a: Approval, b: Approval) {
    && a.policyId == b.policyId && a.jobId == b.jobId && a.nodeId == b.nodeId && a.toolCall == b.toolCall
    && a.requestedAt == b.requestedAt && a.expiresAt == b.expiresAt
  }

  lemma {:induction false} RequestStays(s: Approvals, ops: seq<Op>, id: Id)
    requires id in s
    ensures var t := Run(s, ops); id in t && SameRequest(t[id], s[id])
    decreases ops
  {
    if ops != [] {
      RequestStays(Step(s, ops[0]), ops[1..], id);
    }
  }

  /** An approval keeps, over any run, what its creation asked for. */
  lemma CreationIsRecorded(s: Approvals, create: Op, ops: seq<Op>)
    requires create.DoCreate? && create.id !in s
    ensures var t := Run(Step(s, create), ops);
            && create.id in t && t[create.id].policyId == create.policyId
            && t[create.id].jobId == create.jobId && t[create.id].nodeId == create.nodeId
            && t[create.id].toolCall == create.toolCall && t[create.id].requestedAt == create.now
            && t[create.id].expiresAt == create.now + create.minutes * 60
    ensures forall id :: id in s ==> id in Step(s, create) && Step(s, create)[id] == s[id]
  {
    RequestStays(Step(s, create), ops, create.id);
  }

  /** Unknown ids are reported as such and change nothing; a taken id is refused and not overwritten. */
  lemma WrongIdsRefused(s: Approvals, id: Id, now: int, create: Op)
    requires create.DoCreate? && create.id in s
    ensures Check(s, id, now).1 == Err(NotFound) <==> id !in s
    ensures id !in s ==> Check(s, id, now).0 == s
    ensures Step(s, create) == s && Answers(s, create) == [Created(false)]
    ensures CreateApproval(s, create.id, create.policyId, create.jobId, create.nodeId, create.toolCall,
                           create.minutes, create.now) == Err(IntegrityError)
  {
  }

  /** An accepted decision is recorded with who, when and why, for ever, and touches no other approval. */
  lemma DecisionIsRecorded(s: Approvals, decide: Op, ops: seq<Op>)
    requires decide.DoDecide? && decide.id in s && s[decide.id].status == Pending && decide.now < s[decide.id].expiresAt
    ensures var t := Run(Step(s, decide), ops);
            && decide.id in t && t[decide.id].status == (if decide.approved then Approved else Denied)
            && t[decide.id].decidedBy == decide.decidedBy && t[decide.id].decidedAt == Some(decide.now)
            && t[decide.id].reason == decide.reason && SameRequest(t[decide.id], s[decide.id])
    ensures forall id :: id in s && id != decide.id ==> id in Step(s, decide) && Step(s, decide)[id] == s[id]
  {
    SettledIsFinal(Step(s, decide), ops, decide.id);
  }

  /** A check, a creation or a decision concerns the approval it names and no other. */
  lemma StepConcernsItsId(s: Approvals, op: Op, id: Id)
    requires !op.DoSweep? && id != op.id
    ensures id in Step(s, op) <==> id in s
    ensures id in s ==> Step(s, op)[id] == s[id]
  {
  }
}
