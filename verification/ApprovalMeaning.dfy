/**
 What the requests about an approval mean, stated on its fields and with the values they hold;
 the functions of which `ApprovalModel` composes a request are not mentioned.
 */
module ApprovalMeaning {
  import opened Finite
  import opened Wrappers
  import opened ApprovalModel

  // ---------- who, and when ----------

  /** On the candidate list by id, on it by a role, or named as approver of an approval that lists nobody by id. */
  ghost predicate Entitled(a: Approval, user: User) {
    || (exists c :: c in a.candidates && c.userId == Some(user.id))
    || (exists c :: c in a.candidates && c.role.Some? && c.role.value in user.roles)
    || ((forall c :: c in a.candidates ==> c.userId == None) && a.approver == Some(user.id) && user.id != 0)
  }

  ghost predicate Decided(a: Approval, userId: nat) {
    Record(userId, Approves) in a.records || Record(userId, Rejects) in a.records
  }

  ghost predicate AllById(a: Approval) {
    forall c :: c in a.candidates ==> c.userId.Some?
  }

  ghost predicate Signed(records: seq<Record>, userId: nat) {
    userId != 0 && Record(userId, Approves) in records
  }

  /** AND-sign: every candidate; OR-sign: some candidate; without candidates: anybody. */
  ghost predicate RuleMet(a: Approval, records: seq<Record>) {
    if a.candidates == [] then exists u: nat :: Signed(records, u)
    else if a.mode == AllSign then forall c :: c in a.candidates ==> c.userId.Some? && Signed(records, c.userId.value)
    else exists c :: c in a.candidates && c.userId.Some? && Signed(records, c.userId.value)
  }

  // ---------- requests ----------

  ghost predicate ApproveAdmitted(a: Approval, user: User) {
    a.status == Pending && Entitled(a, user) && !Decided(a, user.id) && AllById(a)
  }

  ghost predicate ApproveMeans(a: Approval, user: User, ready: bool, newId: string, b: Approval, reply: Reply) {
    if !ApproveAdmitted(a, user) then b == a && reply == Refused
    else
      && b.records == a.records + [Record(user.id, Approves)] && b.candidates == a.candidates
      && b.mode == a.mode && b.submitter == a.submitter && b.kind == a.kind
      && (if !RuleMet(a, b.records) then
            && b.status == Pending && reply == Accepted
            && b.approver == a.approver && b.execution == a.execution && b.executions == a.executions
          else if ready && newId !in a.executions then
            && b.status == Executing && reply == Accepted && b.approver == Some(user.id) && b.execution == Some(newId)
            && b.executions == a.executions[newId := Execution(if a.kind == "command" then "command" else "script", 0)]
          else
            && b.status == Failed && reply == Refused && b.approver == Some(user.id)
            && b.execution == a.execution && b.executions == a.executions)
  }

  ghost predicate RejectMeans(a: Approval, user: User, hasReason: bool, b: Approval, reply: Reply) {
    && (reply == Accepted <==> a.status == Pending && Entitled(a, user) && hasReason)
    && (reply == Refused ==> b == a)
    && (reply == Accepted ==>
          && b.status == Rejected && b.approver == Some(user.id) && b.records == a.records + [Record(user.id, Rejects)]
          && b.candidates == a.candidates && b.execution == a.execution && b.executions.Keys == a.executions.Keys
          && forall id :: id in a.executions ==>
               b.executions[id] == Execution(a.executions[id].kind,
                                             if a.execution == Some(id) then 6 else a.executions[id].status))
  }

  ghost predicate DelegateMeans(a: Approval, user: User, to: nat, known: bool, b: Approval, reply: Reply) {
    && (reply == Accepted <==> a.status == Pending && Entitled(a, user) && to != 0 && known && AllById(a))
    && (reply == Refused ==> b == a)
    && (reply == Accepted ==>
          && b == a.(candidates := b.candidates, records := a.records + [Record(user.id, Delegates)])
          && b.candidates == if exists c :: c in a.candidates && c.userId == Some(to) then a.candidates
                             else a.candidates + [Candidate(Some(to), None)])
  }

  /** The candidates added: plain entries, for exactly the users found that were not listed by id. */
  ghost predicate Adds(a: Approval, found: seq<nat>, more: seq<Candidate>) {
    && (forall u: nat :: Candidate(Some(u), None) in more <==>
          u in found && !exists c :: c in a.candidates && c.userId == Some(u))
    && (forall c :: c in more ==> c.userId.Some? && c.role == None)
    && (Distinct(found) ==> Distinct(more))
  }

  ghost predicate AddSignMeans(a: Approval, user: User, asked: bool, found: seq<nat>, b: Approval, reply: Reply) {
    && (reply == Accepted <==> a.status == Pending && Entitled(a, user) && asked && AllById(a))
    && (reply == Refused ==> b == a)
    && (reply == Accepted ==>
          && b == a.(candidates := b.candidates, records := a.records + [Record(user.id, AddsSigners)])
          && a.candidates <= b.candidates && Adds(a, found, b.candidates[|a.candidates|..]))
  }

  function Ended(before: Status, status: int): Status {
    if status == 2 then Completed else if status == 3 then Failed else before
  }

  ghost predicate SaveMeans(a: Approval, id: string, status: int, b: Approval) {
    if id !in a.executions then b == a
    else
      && b == a.(status := b.status, executions := a.executions[id := Execution(a.executions[id].kind, status)])
      && b.status == if a.status == Executing && a.execution == Some(id) && a.executions[id].kind == "script"
                     then Ended(a.status, status) else a.status
  }

  ghost predicate ReconcileMeans(a: Approval, b: Approval) {
    && b == a.(status := b.status)
    && b.status == if a.status == Executing && a.execution.Some? && a.execution.value in a.executions
                   then Ended(a.status, a.executions[a.execution.value].status) else a.status
  }

  // ---------- the predicates of the model ----------

  lemma IdsMean(candidates: seq<Candidate>, u: nat)
    ensures u in CandidateIds(candidates) <==> exists c :: c in candidates && c.userId == Some(u)
  {
    if c :| c in candidates && c.userId == Some(u) {
      var i :| 0 <= i < |candidates| && candidates[i] == c;
    }
  }

  lemma EntitledMeans(a: Approval, user: User)
    ensures MaySign(a.candidates, a.approver, user) <==> Entitled(a, user)
  {
    IdsMean(a.candidates, user.id);
    NobodyById(a.candidates);
    if c :| c in a.candidates && c.role.Some? && c.role.value in user.roles {
      var i :| 0 <= i < |a.candidates| && a.candidates[i] == c;
    }
  }

  lemma NobodyById(candidates: seq<Candidate>)
    ensures CandidateIds(candidates) == {} <==> forall c :: c in candidates ==> c.userId == None
  {
    assert forall i :: 0 <= i < |candidates| && candidates[i].userId.Some? ==>
      candidates[i].userId.value in CandidateIds(candidates);
  }

  lemma DecidedMeans(a: Approval, userId: nat)
    ensures HasProcessed(a.records, userId) <==> Decided(a, userId)
  {
    if HasProcessed(a.records, userId) {
      var i :| 0 <= i < |a.records| && a.records[i].userId == userId && a.records[i].action in {Approves, Rejects};
      assert a.records[i] in a.records;
    }
  }

  lemma SignedMeans(records: seq<Record>, u: nat)
    ensures u in Signers(records) <==> Signed(records, u)
  {
    if Signed(records, u) {
      var i :| 0 <= i < |records| && records[i] == Record(u, Approves);
    }
  }

  lemma RuleMeans(a: Approval, records: seq<Record>)
    requires AllNamed(a.candidates)
    ensures Satisfied(a.mode, a.candidates, records) <==> RuleMet(a, records)
  {
    NobodyById(a.candidates);
    assert a.candidates != [] ==> a.candidates[0] in a.candidates;
    forall u: nat ensures u in Signers(records) <==> Signed(records, u) {
      SignedMeans(records, u);
    }
    forall u: nat ensures u in CandidateIds(a.candidates) <==> exists c :: c in a.candidates && c.userId == Some(u) {
      IdsMean(a.candidates, u);
    }
    RuleBySets(a, records);
  }

  lemma RuleBySets(a: Approval, records: seq<Record>)
    requires AllNamed(a.candidates)
    requires a.candidates == [] <==> CandidateIds(a.candidates) == {}
    requires forall u: nat :: u in Signers(records) <==> Signed(records, u)
    requires forall u: nat :: u in CandidateIds(a.candidates) <==> exists c :: c in a.candidates && c.userId == Some(u)
    ensures Satisfied(a.mode, a.candidates, records) <==> RuleMet(a, records)
  {
    var ids, signed := CandidateIds(a.candidates), Signers(records);
    assert forall c :: c in a.candidates ==> c.userId.Some? && c.userId.value in ids;
    if signed != {} {
      var u :| u in signed;
      assert Signed(records, u);
    }
    if signed * ids != {} {
      var u :| u in signed * ids;
      assert Signed(records, u);
    }
    if c :| c in a.candidates && c.userId.Some? && Signed(records, c.userId.value) {
      assert c.userId.value in signed * ids;
    }
  }

  // ---------- the requests of the model ----------

  lemma ApproveIsMeant(a: Approval, user: User, ready: bool, newId: string)
    ensures var (b, reply) := ApproveStep(a, user, ready, newId); ApproveMeans(a, user, ready, newId, b, reply)
  {
    EntitledMeans(a, user);
    DecidedMeans(a, user.id);
    if AllNamed(a.candidates) {
      RuleMeans(a, a.records + [Record(user.id, Approves)]);
    }
  }

  lemma RejectIsMeant(a: Approval, user: User, hasReason: bool)
    ensures var (b, reply) := RejectStep(a, user, hasReason); RejectMeans(a, user, hasReason, b, reply)
  {
    EntitledMeans(a, user);
  }

  lemma DelegateIsMeant(a: Approval, user: User, to: nat, known: bool)
    ensures var (b, reply) := DelegateStep(a, user, to, known); DelegateMeans(a, user, to, known, b, reply)
  {
    EntitledMeans(a, user);
    IdsMean(a.candidates, to);
  }

  lemma {:induction false} NewSignersAre(ids: set<nat>, found: seq<nat>)
    ensures forall u: nat :: Candidate(Some(u), None) in NewSigners(ids, found) <==> u in found && u !in ids
    ensures forall c :: c in NewSigners(ids, found) ==> c.userId.Some? && c.role == None
    ensures Distinct(found) ==> Distinct(NewSigners(ids, found))
  {
    if found != [] {
      var init, last := found[..|found| - 1], found[|found| - 1];
      NewSignersAre(ids, init);
      assert found == init + [last];
      assert Distinct(found) ==> last !in init;
      var more := if last in ids then [] else [Candidate(Some(last), None)];
      assert NewSigners(ids, found) == NewSigners(ids, init) + more;
    }
  }

  lemma AddSignIsMeant(a: Approval, user: User, asked: bool, found: seq<nat>)
    ensures var (b, reply) := AddSignStep(a, user, asked, found); AddSignMeans(a, user, asked, found, b, reply)
  {
    EntitledMeans(a, user);
    var ids := CandidateIds(a.candidates);
    var more := NewSigners(ids, found);
    NewSignersAre(ids, found);
    forall u: nat ensures u in ids <==> exists c :: c in a.candidates && c.userId == Some(u) {
      IdsMean(a.candidates, u);
    }
    assert (a.candidates + more)[|a.candidates|..] == more;
  }

  /** Users found become candidates; nobody stops being one, and nobody gains a signature. */
  lemma AddSignKeeps(a: Approval, user: User, asked: bool, found: seq<nat>)
    ensures var (b, reply) := AddSignStep(a, user, asked, found);
      reply == Accepted ==>
        && CandidateIds(b.candidates) == CandidateIds(a.candidates) + Elements(found)
        && a.candidates <= b.candidates && Signers(b.records) == Signers(a.records)
  {
    var ids := CandidateIds(a.candidates);
    NewSignersIds(ids, found);
    IdsAppend(a.candidates, NewSigners(ids, found));
    SignersAppend(a.records, Record(user.id, AddsSigners));
  }

  lemma SaveIsMeant(a: Approval, id: string, status: int)
    ensures SaveMeans(a, id, status, SaveStep(a, id, status))
  {
  }

  lemma ReconcileIsMeant(a: Approval)
    ensures ReconcileMeans(a, ReconcileStep(a))
  {
  }
}
