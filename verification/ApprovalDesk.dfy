/** The handlers of an approval, as an object that each request updates in place. */
module ApprovalDesk {
  import opened Finite
  import opened Wrappers
  import opened ApprovalMeaning
  import opened ApprovalModel

  class Desk {
    var status: Status
    const mode: Mode
    var candidates: seq<Candidate>
    var records: seq<Record>
    var approver: Option<nat>
    const submitter: nat
    const kind: string
    var execution: Option<string>
    var executions: map<string, Execution>

    ghost function Value(): Approval
      reads this
    {
      Approval(status, mode, candidates, records, approver, submitter, kind, execution, executions)
    }

    constructor (mode: Mode, candidates: seq<Candidate>, approver: Option<nat>, submitter: nat, kind: string,
                 execution: Option<string>, executions: map<string, Execution>)
      ensures Value() == Approval(Pending, mode, candidates, [], approver, submitter, kind, execution, executions)
    {
      this.status, this.mode, this.candidates, this.records := Pending, mode, candidates, [];
      this.approver, this.submitter, this.kind := approver, submitter, kind;
      this.execution, this.executions := execution, executions;
    }

    method AlreadyProcessed(userId: nat) returns (b: bool)
      ensures b == HasProcessed(records, userId)
    {
      for i := 0 to |records|
        invariant !HasProcessed(records[..i], userId)
      {
        if records[i].userId == userId && records[i].action in {Approves, Rejects} {
          return true;
        }
      }
      assert records[..|records|] == records;
      return false;
    }

    /** Distinct users with an approve record. */
    method CollectSigners() returns (signed: set<nat>)
      ensures signed == Signers(records)
    {
      signed := {};
      for i := 0 to |records|
        invariant signed ==
          set j | 0 <= j < i && records[j].action == Approves && records[j].userId != 0 :: records[j].userId
      {
        if records[i].action == Approves && records[i].userId != 0 {
          signed := signed + {records[i].userId};
        }
      }
    }

    method ApprovedByMode() returns (b: bool)
      requires AllNamed(candidates)
      ensures b == Satisfied(mode, candidates, records) && (b <==> RuleMet(Value(), records))
    {
      RuleMeans(Value(), records);
      var signed := CollectSigners();
      var ids := CandidateIds(candidates);
      if ids == {} {
        b := |signed| >= 1;
      } else if mode == AllSign {
        b := ids <= signed;
      } else {
        b := |signed * ids| >= 1;
      }
    }

    method Approve(user: User, ready: bool, newId: string) returns (reply: Reply)
      modifies this
      ensures (Value(), reply) == old(ApproveStep(Value(), user, ready, newId))
      ensures ApproveMeans(old(Value()), user, ready, newId, Value(), reply)
    {
      ApproveIsMeant(Value(), user, ready, newId);
      if status != Pending || !MaySign(candidates, approver, user) {
        return Refused;
      }
      var processed := AlreadyProcessed(user.id);
      if processed || !AllNamed(candidates) {
        return Refused;
      }
      records := records + [Record(user.id, Approves)];
      var enough := ApprovedByMode();
      if !enough {
        return Accepted;
      }
      approver := Some(user.id);
      if ready && newId !in executions {
        executions := executions[newId := Execution(ExecutionKind(kind), CREATED)];
        execution := Some(newId);
        status := Executing;
        reply := Accepted;
      } else {
        status := Failed;
        reply := Refused;
      }
    }

    method Reject(user: User, hasReason: bool) returns (reply: Reply)
      modifies this
      ensures (Value(), reply) == old(RejectStep(Value(), user, hasReason))
      ensures RejectMeans(old(Value()), user, hasReason, Value(), reply)
      ensures reply == Accepted ==> Final(Value()) && Signers(records) == old(Signers(records))
    {
      RejectIsMeant(Value(), user, hasReason);
      if status != Pending || !MaySign(candidates, approver, user) || !hasReason {
        return Refused;
      }
      SignersAppend(records, Record(user.id, Rejects));
      records := records + [Record(user.id, Rejects)];
      status := Rejected;
      approver := Some(user.id);
      if execution.Some? && execution.value in executions {
        executions := executions[execution.value := executions[execution.value].(status := APPROVAL_REJECTED)];
      }
      reply := Accepted;
    }

    method Delegate(user: User, to: nat, known: bool) returns (reply: Reply)
      modifies this`candidates, this`records
      ensures (Value(), reply) == old(DelegateStep(Value(), user, to, known))
      ensures DelegateMeans(old(Value()), user, to, known, Value(), reply)
      ensures reply == Accepted ==>
        && CandidateIds(candidates) == old(CandidateIds(candidates)) + {to} && old(candidates) <= candidates
        && Signers(records) == old(Signers(records))
    {
      DelegateIsMeant(Value(), user, to, known);
      if status != Pending || !MaySign(candidates, approver, user) || to == 0 || !known || !AllNamed(candidates) {
        return Refused;
      }
      IdsAppend(candidates, [Candidate(Some(to), None)]);
      assert [Candidate(Some(to), None)][0].userId == Some(to);
      SignersAppend(records, Record(user.id, Delegates));
      if to !in CandidateIds(candidates) {
        candidates := candidates + [Candidate(Some(to), None)];
      }
      records := records + [Record(user.id, Delegates)];
      reply := Accepted;
    }

    method AddSign(user: User, asked: bool, found: seq<nat>) returns (reply: Reply)
      modifies this`candidates, this`records
      ensures (Value(), reply) == old(AddSignStep(Value(), user, asked, found))
      ensures AddSignMeans(old(Value()), user, asked, found, Value(), reply)
      ensures reply == Accepted ==>
        && CandidateIds(candidates) == old(CandidateIds(candidates)) + Elements(found)
        && old(candidates) <= candidates && Signers(records) == old(Signers(records))
    {
      AddSignIsMeant(Value(), user, asked, found);
      AddSignKeeps(Value(), user, asked, found);
      if status != Pending || !MaySign(candidates, approver, user) || !asked || !AllNamed(candidates) {
        return Refused;
      }
      var ids := CandidateIds(candidates);
      var all := candidates;
      for i := 0 to |found|
        invariant all == candidates + NewSigners(ids, found[..i])
      {
        assert found[..i + 1][..i] == found[..i];
        if found[i] !in ids {
          all := all + [Candidate(Some(found[i]), None)];
        }
      }
      assert found[..|found|] == found;
      candidates := all;
      records := records + [Record(user.id, AddsSigners)];
      reply := Accepted;
    }

    method Cancel(user: User) returns (reply: Reply)
      modifies this`status
      ensures (Value(), reply) == old(CancelStep(Value(), user))
      ensures reply == Accepted <==> old(status) == Pending && (user.id == submitter || user.superuser)
      ensures reply == Accepted ==> Final(Value())
      ensures Value() == old(Value()).(status := if reply == Accepted then Cancelled else old(status))
    {
      if status != Pending || (submitter != user.id && !user.superuser) {
        return Refused;
      }
      status := Cancelled;
      reply := Accepted;
    }

    method ExecutionSaved(id: string, newStatus: int)
      modifies this`status, this`executions
      ensures Value() == old(SaveStep(Value(), id, newStatus))
      ensures SaveMeans(old(Value()), id, newStatus, Value())
      ensures status != old(status) ==>
        && old(status) == Executing && Terminal(newStatus) && status == Outcome(newStatus) && execution == Some(id)
      ensures Stale(Value()) && !old(Stale(Value())) ==> id in executions && executions[id].kind != SCRIPT
      ensures forall x :: x in executions && x != id ==> x in old(executions) && executions[x] == old(executions)[x]
    {
      SaveIsMeant(Value(), id, newStatus);
      if id !in executions {
        return;
      }
      executions := executions[id := executions[id].(status := newStatus)];
      if executions[id].kind == SCRIPT && Terminal(newStatus) {
        if execution == Some(id) && status == Executing {
          status := if newStatus == COMPLETED then Completed else Failed;
        }
      }
    }

    method SyncStale()
      modifies this`status
      ensures Value() == old(ReconcileStep(Value()))
      ensures ReconcileMeans(old(Value()), Value())
      ensures !Stale(Value())
      ensures status != old(status) <==> old(Stale(Value()))
      ensures Value() == old(Value()).(status := status)
    {
      ReconcileIsMeant(Value());
      if status == Executing && execution.Some? && execution.value in executions {
        var st := executions[execution.value].status;
        if st == COMPLETED || st == FAILED {
          status := if st == COMPLETED then Completed else Failed;
        }
      }
    }
  }
}
