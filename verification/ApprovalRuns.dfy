/** Runs of one approval: any sequence of requests, and of changes to executions, from its creation. */
module ApprovalRuns {
  import opened Wrappers
  import opened ApprovalModel

  function Exec(a: Approval, steps: seq<Step>): Approval {
    if steps == [] then a else Apply(Exec(a, steps[..|steps| - 1]), steps[|steps| - 1])
  }

  lemma ExecSnoc(a: Approval, steps: seq<Step>, step: Step)
    ensures Exec(a, steps + [step]) == Apply(Exec(a, steps), step)
  {
    assert (steps + [step])[..|steps|] == steps;
  }

  /** An approval as it is created: pending, nothing recorded, any candidates and any linked execution. */
  ghost predicate Fresh(a: Approval) {
    a.status == Pending && a.records == []
  }

  // ---------- what every step keeps ----------

  ghost predicate IsReject(records: seq<Record>, i: int) {
    0 <= i < |records| && records[i].action == Rejects
  }

  /**
   No two approve records of one user; a reject record is the last record and is there exactly
   when the approval is rejected; the status "approved" is never stored; an execution that the
   approval started is linked.
   */
  ghost predicate Sound(a: Approval) {
    && OneApprovalEach(a.records)
    && (forall i :: IsReject(a.records, i) ==> a.status == Rejected && i == |a.records| - 1)
    && (a.status == Rejected ==> IsReject(a.records, |a.records| - 1))
    && a.status != Approved
    && (a.status in {Executing, Completed} ==> a.execution.Some? && a.execution.value in a.executions)
  }

  ghost predicate OneApprovalEach(records: seq<Record>) {
    forall i, j :: 0 <= i < j < |records| && records[i].action == Approves && records[j].action == Approves ==>
      records[i].userId != records[j].userId
  }

  /** The moves between stored statuses that are allowed; a stored status "approved" would be a move to nowhere. */
  predicate Moves(s: Status, t: Status) {
    || s == t
    || (s == Pending && t in {Rejected, Cancelled, Executing, Failed})
    || (s == Executing && t in {Completed, Failed})
  }

  lemma AppendRecord(records: seq<Record>, r: Record)
    requires OneApprovalEach(records)
    requires r.action == Approves ==> !HasProcessed(records, r.userId)
    ensures OneApprovalEach(records + [r])
    ensures forall i :: IsReject(records + [r], i) <==> IsReject(records, i) || (i == |records| && r.action == Rejects)
  {
    if r.action == Approves
       && exists i :: 0 <= i < |records| && records[i].action == Approves && records[i].userId == r.userId
    {
      assert HasProcessed(records, r.userId);
      assert false;
    }
  }

  lemma SoundRequest(a: Approval, step: Step)
    requires Sound(a) && a.status == Pending
    requires step.Approving? || step.Rejecting? || step.Delegating? || step.AddingSigners?
    ensures Sound(Apply(a, step)) && Moves(a.status, Apply(a, step).status)
  {
    match step
    case Approving(user, _, _) =>
      if !HasProcessed(a.records, user.id) {
        AppendRecord(a.records, Record(user.id, Approves));
      }
    case Rejecting(user, _) => AppendRecord(a.records, Record(user.id, Rejects));
    case Delegating(user, _, _) => AppendRecord(a.records, Record(user.id, Delegates));
    case AddingSigners(user, _, _) => AppendRecord(a.records, Record(user.id, AddsSigners));
    case _ =>
  }

  lemma SoundStep(a: Approval, step: Step)
    requires Sound(a)
    ensures Sound(Apply(a, step))
    ensures Moves(a.status, Apply(a, step).status)
  {
    if a.status == Pending && (step.Approving? || step.Rejecting? || step.Delegating? || step.AddingSigners?) {
      SoundRequest(a, step);
    }
  }

  lemma StepGrows(a: Approval, step: Step)
    ensures a.records <= Apply(a, step).records && a.candidates <= Apply(a, step).candidates
    ensures a.status != Pending ==> Apply(a, step).records == a.records && Apply(a, step).candidates == a.candidates
  {
  }

  /** Every approval reached from a fresh one is sound, whatever the steps. */
  lemma {:induction false} SoundThroughout(a: Approval, steps: seq<Step>)
    requires Fresh(a)
    ensures Sound(Exec(a, steps))
  {
    if steps != [] {
      SoundThroughout(a, steps[..|steps| - 1]);
      SoundStep(Exec(a, steps[..|steps| - 1]), steps[|steps| - 1]);
    }
  }

  /** Records are append-only and candidates only grow, over any stretch of a run. */
  lemma {:induction false} OnlyGrows(a: Approval, steps: seq<Step>, i: nat)
    requires i <= |steps|
    ensures Exec(a, steps[..i]).records <= Exec(a, steps).records
    ensures Exec(a, steps[..i]).candidates <= Exec(a, steps).candidates
    decreases |steps|
  {
    if i < |steps| {
      var init := steps[..|steps| - 1];
      OnlyGrows(a, init, i);
      assert init[..i] == steps[..i];
      StepGrows(Exec(a, init), steps[|steps| - 1]);
    } else {
      assert steps[..i] == steps;
    }
  }

  // ---------- the trigger ----------

  /** The step starts an execution for the approval. */
  predicate Triggers(a: Approval, step: Step) {
    step.Approving? && a.status == Pending && Apply(a, step).status == Executing
  }

  function TriggerCount(a: Approval, steps: seq<Step>): nat {
    if steps == [] then 0
    else
      var init := steps[..|steps| - 1];
      TriggerCount(a, init) + if Triggers(Exec(a, init), steps[|steps| - 1]) then 1 else 0
  }

  /** A trigger creates one execution, links it, and leaves all other executions alone. */
  lemma TriggerCreatesExecution(a: Approval, step: Step)
    requires Triggers(a, step)
    ensures var b := Apply(a, step);
      && step.newId !in a.executions && b.execution == Some(step.newId)
      && b.executions == a.executions[step.newId := Execution(ExecutionKind(a.kind), CREATED)]
      && AllNamed(a.candidates) && Satisfied(b.mode, b.candidates, b.records)
  {
  }

  /** Nothing but a trigger creates an execution. */
  lemma OnlyTriggersCreate(a: Approval, step: Step)
    requires !Triggers(a, step)
    ensures Apply(a, step).executions.Keys == a.executions.Keys
  {
  }

  /** At most one execution is ever started, and none once the approval was rejected or cancelled. */
  lemma {:induction false} TriggersAtMostOnce(a: Approval, steps: seq<Step>)
    requires Fresh(a)
    ensures Exec(a, steps).status in {Executing, Completed} ==> TriggerCount(a, steps) == 1
    ensures TriggerCount(a, steps) <= 1
    ensures Exec(a, steps).status in {Pending, Rejected, Cancelled} ==> TriggerCount(a, steps) == 0
    ensures |Exec(a, steps).executions| == |a.executions| + TriggerCount(a, steps)
  {
    if steps != [] {
      var init, step := steps[..|steps| - 1], steps[|steps| - 1];
      TriggersAtMostOnce(a, init);
      SoundThroughout(a, init);
      var b := Exec(a, init);
      SoundStep(b, step);
      if Triggers(b, step) {
        TriggerCreatesExecution(b, step);
      } else {
        OnlyTriggersCreate(b, step);
        assert |Apply(b, step).executions| == |Apply(b, step).executions.Keys|;
        assert |b.executions| == |b.executions.Keys|;
      }
    }
  }

  predicate ApprovedBy(records: seq<Record>, userId: nat) {
    exists i :: 0 <= i < |records| && records[i].userId == userId && records[i].action == Approves
  }

  /**
   AND-sign: when an execution is started, everyone who was a candidate at any moment of the
   run up to then is named and has an approve record.
   */
  lemma AllCandidatesApproved(a: Approval, steps: seq<Step>, k: nat, i: nat, c: Candidate)
    requires Fresh(a) && a.mode == AllSign && i <= k < |steps|
    requires Triggers(Exec(a, steps[..k]), steps[k])
    requires c in Exec(a, steps[..i]).candidates
    ensures c.userId.Some? && ApprovedBy(Exec(a, steps[..k + 1]).records, c.userId.value)
  {
    var before, after := Exec(a, steps[..k]), Exec(a, steps[..k + 1]);
    assert steps[..k + 1][..k] == steps[..k];
    assert after == Apply(before, steps[k]);
    TriggerCreatesExecution(before, steps[k]);
    ModeFixed(a, steps[..k]);
    assert steps[..k][..i] == steps[..i];
    OnlyGrows(a, steps[..k], i);
    var n :| 0 <= n < |before.candidates| && before.candidates[n] == c;
    assert c.userId.value in CandidateIds(before.candidates);
    assert c.userId.value in Signers(after.records);
  }

  /** OR-sign: when an execution is started, some candidate, or the named approver, has an approve record. */
  lemma SomeoneEntitledApproved(a: Approval, steps: seq<Step>, k: nat)
    requires Fresh(a) && k < |steps| && Triggers(Exec(a, steps[..k]), steps[k])
    ensures var before := Exec(a, steps[..k]);
      exists u: nat :: ApprovedBy(Exec(a, steps[..k + 1]).records, u) &&
        (u in CandidateIds(before.candidates) || (before.candidates == [] && before.approver == Some(u)))
  {
    var before, after := Exec(a, steps[..k]), Exec(a, steps[..k + 1]);
    assert steps[..k + 1][..k] == steps[..k];
    assert after == Apply(before, steps[k]);
    TriggerCreatesExecution(before, steps[k]);
    var ids, signed := CandidateIds(before.candidates), Signers(after.records);
    if before.candidates == [] {
      var u := steps[k].user.id;
      assert after.records[|after.records| - 1] == Record(u, Approves);
      assert ApprovedBy(after.records, u);
    } else {
      assert before.candidates[0].userId.value in ids;
      var u :| u in ids && u in signed;
      assert ApprovedBy(after.records, u);
    }
  }

  lemma {:induction false} ModeFixed(a: Approval, steps: seq<Step>)
    ensures Exec(a, steps).mode == a.mode && Exec(a, steps).kind == a.kind
  {
    if steps != [] {
      ModeFixed(a, steps[..|steps| - 1]);
    }
  }
}
