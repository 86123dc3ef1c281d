/**
 Does a pending approval ever already meet its own rule?  It should not: the rule is evaluated
 at every approve request.  It can, when somebody who may sign only through a role approves
 under OR-sign and is added to the candidates afterwards.  This module gives the run, and shows
 that this is the only way: the exact condition is on the approval as it was created.
 */
module ApprovalPending {
  import opened Wrappers
  import opened ApprovalModel
  import opened ApprovalRuns

  /** Pending although the signatures recorded already suffice. */
  predicate Overlooked(a: Approval) {
    a.status == Pending && AllNamed(a.candidates) && Satisfied(a.mode, a.candidates, a.records)
  }

  predicate ActsAs(step: Step, users: set<User>) {
    match step
    case Approving(u, _, _) => u in users
    case Rejecting(u, _) => u in users
    case Delegating(u, _, _) => u in users
    case AddingSigners(u, _, _) => u in users
    case Cancelling(u) => u in users
    case _ => true
  }

  predicate ActedBy(steps: seq<Step>, users: set<User>) {
    forall i :: 0 <= i < |steps| ==> ActsAs(steps[i], users)
  }

  /** May sign through a role without being on the candidate list. */
  predicate Outsider(a: Approval, u: User) {
    u.id != 0 && u.id !in CandidateIds(a.candidates) && HoldsRole(u, a.candidates)
  }

  ghost predicate Exposed(a: Approval, users: set<User>) {
    a.mode == AnySigns && AllNamed(a.candidates) && exists u :: u in users && Outsider(a, u)
  }

  // ---------- one step ----------

  lemma {:induction false} NewSignersPlain(ids: set<nat>, found: seq<nat>)
    ensures AllNamed(NewSigners(ids, found))
    ensures forall i :: 0 <= i < |NewSigners(ids, found)| ==> NewSigners(ids, found)[i].role.None?
  {
    if found != [] {
      NewSignersPlain(ids, found[..|found| - 1]);
    }
  }

  /** A delegation makes the rule hold exactly under OR-sign, towards someone who has already signed. */
  lemma DelegationOverlooks(a: Approval, user: User, to: nat)
    requires a.status == Pending && !Overlooked(a)
    requires MaySign(a.candidates, a.approver, user) && to != 0 && AllNamed(a.candidates)
    ensures Overlooked(DelegateStep(a, user, to, true).0) <==>
            a.mode == AnySigns && a.candidates != [] && to in Signers(a.records)
  {
    var b := DelegateStep(a, user, to, true).0;
    var ids, signed := CandidateIds(a.candidates), Signers(a.records);
    SignersAppend(a.records, Record(user.id, Delegates));
    assert a.candidates != [] ==> a.candidates[0].userId.value in ids;
    if to !in ids {
      var c := [Candidate(Some(to), None)];
      IdsAppend(a.candidates, c);
      assert c[0].userId == Some(to);
      assert CandidateIds(c) == {to};
    }
    assert b.candidates != [] && to in CandidateIds(b.candidates);
    if to in signed && to !in ids {
      assert a.mode == AnySigns ==> to in signed * CandidateIds(b.candidates);
    }
  }

  // ---------- the invariant ----------

  /** Nobody outside the candidate list can have signed under OR-sign; nobody at all without candidates. */
  ghost predicate Watched(a: Approval, users: set<User>) {
    && (a.status == Pending ==>
          if a.mode == AnySigns || a.candidates == [] then Signers(a.records) == {}
          else !(CandidateIds(a.candidates) <= Signers(a.records)) || !AllNamed(a.candidates))
    && (a.mode == AnySigns && AllNamed(a.candidates) ==> forall u :: u in users ==> !Outsider(a, u))
  }

  lemma NamedHasId(candidates: seq<Candidate>)
    requires AllNamed(candidates) && candidates != []
    ensures CandidateIds(candidates) != {}
  {
    assert candidates[0].userId.value in CandidateIds(candidates);
  }

  lemma WatchedNotOverlooked(a: Approval, users: set<User>)
    requires Watched(a, users)
    ensures !Overlooked(a)
  {
    if a.candidates != [] && AllNamed(a.candidates) {
      NamedHasId(a.candidates);
    }
  }

  lemma GrowKeepsWatched(a: Approval, more: seq<Candidate>, r: Record, users: set<User>)
    requires Watched(a, users) && a.status == Pending && AllNamed(a.candidates)
    requires AllNamed(more) && forall i :: 0 <= i < |more| ==> more[i].role.None?
    requires r.action != Approves
    ensures Watched(a.(candidates := a.candidates + more, records := a.records + [r]), users)
  {
    var b := a.(candidates := a.candidates + more, records := a.records + [r]);
    SignersAppend(a.records, r);
    IdsAppend(a.candidates, more);
    if a.candidates == [] && b.candidates != [] {
      NamedHasId(b.candidates);
      var x :| x in CandidateIds(b.candidates);
    }
    forall u | u in users && HoldsRole(u, b.candidates)
      ensures HoldsRole(u, a.candidates)
    {
      var i :| 0 <= i < |b.candidates| && b.candidates[i].role.Some? && b.candidates[i].role.value in u.roles;
      assert i < |a.candidates|;
      assert a.candidates[i] == b.candidates[i];
    }
    assert AllNamed(b.candidates) <==> AllNamed(a.candidates);
  }

  /** Without candidates any signature suffices; under OR-sign that of any candidate does. */
  lemma SignatureSuffices(a: Approval, user: nat)
    requires user != 0 && AllNamed(a.candidates)
    requires a.candidates == [] || (a.mode == AnySigns && user in CandidateIds(a.candidates))
    ensures Satisfied(a.mode, a.candidates, a.records + [Record(user, Approves)])
  {
    SignersAppend(a.records, Record(user, Approves));
    assert user in Signers(a.records + [Record(user, Approves)]);
    if a.candidates != [] {
      assert user in Signers(a.records + [Record(user, Approves)]) * CandidateIds(a.candidates);
    }
  }

  lemma ApproveKeepsWatched(a: Approval, user: User, ready: bool, newId: string, users: set<User>)
    requires Watched(a, users) && user in users
    ensures Watched(ApproveStep(a, user, ready, newId).0, users)
  {
    SignersAppend(a.records, Record(user.id, Approves));
    if a.candidates != [] && AllNamed(a.candidates) {
      NamedHasId(a.candidates);
    }
    if user.id != 0 && AllNamed(a.candidates) {
      if a.candidates == [] || (a.mode == AnySigns && user.id in CandidateIds(a.candidates)) {
        SignatureSuffices(a, user.id);
      }
    }
  }

  lemma WatchedStep(a: Approval, step: Step, users: set<User>)
    requires Watched(a, users) && ActsAs(step, users)
    ensures Watched(Apply(a, step), users)
  {
    match step
    case Approving(user, ready, newId) => ApproveKeepsWatched(a, user, ready, newId, users);
    case Delegating(user, to, known) =>
      if a.status == Pending && AllNamed(a.candidates) {
        GrowKeepsWatched(a, if to in CandidateIds(a.candidates) then [] else [Candidate(Some(to), None)],
                         Record(user.id, Delegates), users);
        assert a.candidates + [] == a.candidates;
      }
    case AddingSigners(user, asked, found) =>
      if a.status == Pending && AllNamed(a.candidates) {
        NewSignersPlain(CandidateIds(a.candidates), found);
        GrowKeepsWatched(a, NewSigners(CandidateIds(a.candidates), found), Record(user.id, AddsSigners), users);
      }
    case _ =>
  }

  lemma {:induction false} WatchedThroughout(a: Approval, users: set<User>, steps: seq<Step>)
    requires Watched(a, users) && ActedBy(steps, users)
    ensures Watched(Exec(a, steps), users)
  {
    if steps != [] {
      WatchedThroughout(a, users, steps[..|steps| - 1]);
      WatchedStep(Exec(a, steps[..|steps| - 1]), steps[|steps| - 1], users);
    }
  }

  /**
   The run that leaves an exposed approval pending with its rule met: approve through a role, then
   delegate to oneself.
   */
  lemma OutsiderOverlooked(a: Approval, u: User)
    requires Fresh(a) && a.mode == AnySigns && AllNamed(a.candidates) && Outsider(a, u)
    ensures Overlooked(Exec(a, [Approving(u, true, ""), Delegating(u, u.id, true)]))
  {
    var first, second := Approving(u, true, ""), Delegating(u, u.id, true);
    ExecSnoc(a, [], first);
    ExecSnoc(a, [first], second);
    assert [] + [first] == [first] && [first] + [second] == [first, second];
    var i :| 0 <= i < |a.candidates| && a.candidates[i].role.Some? && a.candidates[i].role.value in u.roles;
    SignersAppend(a.records, Record(u.id, Approves));
    NamedHasId(a.candidates);
    var b := Exec(a, [first]);
    assert b == Apply(a, first);
    assert a.records + [Record(u.id, Approves)] == [Record(u.id, Approves)];
    assert Signers(a.records) == {} && CandidateIds(a.candidates) * {u.id} == {};
    assert b == a.(records := [Record(u.id, Approves)]);
    assert Signers(b.records) == {u.id};
    assert !Overlooked(b);
    DelegationOverlooks(b, u, u.id);
  }

  /**
   No run by these users ever leaves the approval pending with its rule met, if and only if the
   approval was not exposed to one of them when it was created.
   */
  lemma NeverOverlookedIffNotExposed(a: Approval, users: set<User>)
    requires Fresh(a)
    ensures (forall steps :: ActedBy(steps, users) ==> !Overlooked(Exec(a, steps))) <==> !Exposed(a, users)
  {
    if Exposed(a, users) {
      var u :| u in users && Outsider(a, u);
      OutsiderOverlooked(a, u);
      assert ActedBy([Approving(u, true, ""), Delegating(u, u.id, true)], users);
    } else {
      assert Signers(a.records) == {};
      if a.candidates != [] && AllNamed(a.candidates) {
        NamedHasId(a.candidates);
      }
      assert Watched(a, users);
      forall steps | ActedBy(steps, users) ensures !Overlooked(Exec(a, steps)) {
        WatchedThroughout(a, users, steps);
        WatchedNotOverlooked(Exec(a, steps), users);
      }
    }
  }
}
