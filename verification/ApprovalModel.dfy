/**
 An approval of an ops execution: who may sign, when the signatures suffice, and what each
 request does to the approval and to the executions it is linked to.
 */
module ApprovalModel {
  import opened Finite
  import opened Wrappers

  type Role = string

  datatype User = User(id: nat, roles: set<Role>, superuser: bool)

  /** An entry of the candidate list names a user, a role, or both. */
  datatype Candidate = Candidate(userId: Option<nat>, role: Option<Role>)

  datatype Action = Approves | Rejects | Delegates | AddsSigners
  datatype Record = Record(userId: nat, action: Action)
  datatype Mode = AnySigns | AllSign
  datatype Status = Pending | Approved | Rejected | Cancelled | Executing | Completed | Failed

  /** Execution states 2 and 3 are terminal; a rejected approval puts its execution in state 6. */
  datatype Execution = Execution(kind: string, status: int)

  const CREATED := 0
  const COMPLETED := 2
  const FAILED := 3
  const APPROVAL_REJECTED := 6
  const SCRIPT := "script"
  const COMMAND := "command"

  datatype Approval = Approval(status: Status, mode: Mode, candidates: seq<Candidate>, records: seq<Record>,
                               approver: Option<nat>, submitter: nat, kind: string,
                               execution: Option<string>, executions: map<string, Execution>)

  datatype Reply = Refused | Accepted

  /** One request, or one change to an execution made elsewhere. */
  datatype Step =
    /** `ready`: the quota allows another execution and the host is there and online. */
    | Approving(user: User, ready: bool, newId: string)
    | Rejecting(user: User, hasReason: bool)
    | Delegating(user: User, to: nat, known: bool)
    | AddingSigners(user: User, asked: bool, found: seq<nat>)
    | Cancelling(user: User)
    /** An execution row is saved, which runs the signal handler. */
    | SavingExecution(id: string, status: int)
    /** An execution row is changed by a bulk update, which does not. */
    | UpdatingExecution(id: string, status: int)
    | Reconciling

  // ---------- who may sign ----------

  function CandidateIds(candidates: seq<Candidate>): set<nat> {
    set i | 0 <= i < |candidates| && candidates[i].userId.Some? :: candidates[i].userId.value
  }

  predicate HoldsRole(user: User, candidates: seq<Candidate>) {
    exists i :: 0 <= i < |candidates| && candidates[i].role.Some? && candidates[i].role.value in user.roles
  }

  predicate MaySign(candidates: seq<Candidate>, approver: Option<nat>, user: User) {
    || user.id in CandidateIds(candidates)
    || HoldsRole(user, candidates)
    || (CandidateIds(candidates) == {} && approver == Some(user.id) && user.id != 0)
  }

  // ---------- when signatures suffice ----------

  /** Counting signatures fails with an error if some candidate names no user. */
  predicate AllNamed(candidates: seq<Candidate>) {
    forall i :: 0 <= i < |candidates| ==> candidates[i].userId.Some?
  }

  function Signers(records: seq<Record>): set<nat> {
    set i | 0 <= i < |records| && records[i].action == Approves && records[i].userId != 0 :: records[i].userId
  }

  predicate Satisfied(mode: Mode, candidates: seq<Candidate>, records: seq<Record>) {
    var ids, signed := CandidateIds(candidates), Signers(records);
    if ids == {} then signed != {}
    else if mode == AllSign then ids <= signed
    else signed * ids != {}
  }

  predicate HasProcessed(records: seq<Record>, userId: nat) {
    exists i :: 0 <= i < |records| && records[i].userId == userId && records[i].action in {Approves, Rejects}
  }

  // ---------- requests ----------

  function ExecutionKind(kind: string): string {
    if kind == COMMAND then COMMAND else SCRIPT
  }

  /** The single place where an approval starts an execution. */
  function Trigger(a: Approval, ready: bool, newId: string): Approval {
    if ready && newId !in a.executions then
      a.(status := Executing, execution := Some(newId),
         executions := a.executions[newId := Execution(ExecutionKind(a.kind), CREATED)])
    else a.(status := Failed)
  }

  function ApproveStep(a: Approval, user: User, ready: bool, newId: string): (Approval, Reply) {
    if a.status != Pending || !MaySign(a.candidates, a.approver, user) || HasProcessed(a.records, user.id)
       || !AllNamed(a.candidates)
    then (a, Refused)
    else
      var signed := a.(records := a.records + [Record(user.id, Approves)]);
      if Satisfied(a.mode, a.candidates, signed.records)
      then
        var t := Trigger(signed.(approver := Some(user.id)), ready, newId);
        (t, if t.status == Executing then Accepted else Refused)
      else (signed, Accepted)
  }

  function RejectStep(a: Approval, user: User, hasReason: bool): (Approval, Reply) {
    if a.status != Pending || !MaySign(a.candidates, a.approver, user) || !hasReason then (a, Refused)
    else
      (a.(status := Rejected, approver := Some(user.id), records := a.records + [Record(user.id, Rejects)],
          executions :=
            if a.execution.Some? && a.execution.value in a.executions
            then a.executions[a.execution.value := a.executions[a.execution.value].(status := APPROVAL_REJECTED)]
            else a.executions),
       Accepted)
  }

  function DelegateStep(a: Approval, user: User, to: nat, known: bool): (Approval, Reply) {
    if a.status != Pending || !MaySign(a.candidates, a.approver, user) || to == 0 || !known || !AllNamed(a.candidates)
    then (a, Refused)
    else
      (a.(candidates := if to in CandidateIds(a.candidates) then a.candidates
                        else a.candidates + [Candidate(Some(to), None)],
          records := a.records + [Record(user.id, Delegates)]),
       Accepted)
  }

  /** The users found that were not candidates yet, in the order found. */
  function NewSigners(ids: set<nat>, found: seq<nat>): seq<Candidate> {
    if found == [] then []
    else
      var last := found[|found| - 1];
      NewSigners(ids, found[..|found| - 1]) + if last in ids then [] else [Candidate(Some(last), None)]
  }

  function AddSignStep(a: Approval, user: User, asked: bool, found: seq<nat>): (Approval, Reply) {
    if a.status != Pending || !MaySign(a.candidates, a.approver, user) || !asked || !AllNamed(a.candidates)
    then (a, Refused)
    else
      (a.(candidates := a.candidates + NewSigners(CandidateIds(a.candidates), found),
          records := a.records + [Record(user.id, AddsSigners)]),
       Accepted)
  }

  function CancelStep(a: Approval, user: User): (Approval, Reply) {
    if a.status != Pending || (a.submitter != user.id && !user.superuser) then (a, Refused)
    else (a.(status := Cancelled), Accepted)
  }

  function SetExecution(a: Approval, id: string, status: int): Approval {
    if id in a.executions then a.(executions := a.executions[id := a.executions[id].(status := status)]) else a
  }

  predicate Terminal(status: int) {
    status == COMPLETED || status == FAILED
  }

  function Outcome(status: int): Status {
    if status == COMPLETED then Completed else Failed
  }

  /** The signal handler runs for script executions only. */
  function SaveStep(a: Approval, id: string, status: int): Approval {
    var b := SetExecution(a, id, status);
    if id in b.executions && b.executions[id].kind == SCRIPT && Terminal(status)
       && b.execution == Some(id) && b.status == Executing
    then b.(status := Outcome(status))
    else b
  }

  predicate Stale(a: Approval) {
    && a.status == Executing && a.execution.Some? && a.execution.value in a.executions
    && Terminal(a.executions[a.execution.value].status)
  }

  function ReconcileStep(a: Approval): Approval {
    if Stale(a) then a.(status := Outcome(a.executions[a.execution.value].status)) else a
  }

  function Apply(a: Approval, step: Step): Approval {
    match step
    case Approving(user, ready, newId) => ApproveStep(a, user, ready, newId).0
    case Rejecting(user, hasReason) => RejectStep(a, user, hasReason).0
    case Delegating(user, to, known) => DelegateStep(a, user, to, known).0
    case AddingSigners(user, asked, found) => AddSignStep(a, user, asked, found).0
    case Cancelling(user) => CancelStep(a, user).0
    case SavingExecution(id, status) => SaveStep(a, id, status)
    case UpdatingExecution(id, status) => SetExecution(a, id, status)
    case Reconciling => ReconcileStep(a)
  }

  // ---------- appending candidates and records ----------

  lemma IdsAppend(candidates: seq<Candidate>, more: seq<Candidate>)
    ensures CandidateIds(candidates + more) == CandidateIds(candidates) + CandidateIds(more)
  {
    var all := candidates + more;
    assert forall i :: 0 <= i < |candidates| ==> all[i] == candidates[i];
    assert forall i :: 0 <= i < |more| ==> all[|candidates| + i] == more[i];
    forall x | x in CandidateIds(candidates) + CandidateIds(more) ensures x in CandidateIds(all) {
      if x in CandidateIds(candidates) {
        var i :| 0 <= i < |candidates| && candidates[i].userId == Some(x);
        assert all[i].userId == Some(x);
      } else {
        var i :| 0 <= i < |more| && more[i].userId == Some(x);
        assert all[|candidates| + i].userId == Some(x);
      }
    }
  }

  lemma SignersAppend(records: seq<Record>, r: Record)
    ensures Signers(records + [r]) ==
            Signers(records) + if r.action == Approves && r.userId != 0 then {r.userId} else {}
  {
    var all := records + [r];
    assert forall i :: 0 <= i < |records| ==> all[i] == records[i];
    assert all[|records|] == r;
    forall x | x in Signers(records) ensures x in Signers(all) {
      var i :| 0 <= i < |records| && records[i].action == Approves && records[i].userId == x;
      assert all[i].userId == x;
    }
  }

  lemma {:induction false} NewSignersIds(ids: set<nat>, found: seq<nat>)
    ensures ids + CandidateIds(NewSigners(ids, found)) == ids + Elements(found)
  {
    if found != [] {
      var init, last := found[..|found| - 1], found[|found| - 1];
      NewSignersIds(ids, init);
      assert found == init + [last] && Elements(found) == Elements(init) + {last};
      var c := Candidate(Some(last), None);
      assert [c][0].userId == Some(last) && CandidateIds([c]) == {last};
      IdsAppend(NewSigners(ids, init), if last in ids then [] else [c]);
      assert last in ids ==> NewSigners(ids, found) == NewSigners(ids, init);
    }
  }

  // ---------- final outcomes ----------

  predicate IsRequest(step: Step) {
    step.Approving? || step.Rejecting? || step.Delegating? || step.AddingSigners? || step.Cancelling?
  }

  /** No request of anyone changes anything any more. */
  ghost predicate Final(a: Approval) {
    forall step :: IsRequest(step) ==> Apply(a, step) == a
  }
}
