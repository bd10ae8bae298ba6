/**
Account deletion and ownership: `findSoleOwnedOrganizations`
(`packages/auth/src/owned-organizations.ts`) and the `beforeDelete` hook of
`packages/auth/src/server.ts`, which deletes what it finds before the user goes.
*/
module OwnedOrganizations {
  import opened Wrappers
  import opened Roles
  import opened OrgDeletionStore
  import opened OrgDeletionProtocol
  import OrgDeletionRuns

  ghost predicate HasOwner(d: Rows, org: OrgId) {
    exists user: UserId :: ActiveOwner(d, org, user)
  }

  /** The whole account deletion with the set found at its start. */
  function DeleteAccount(d: Rows, user: UserId, found: set<OrgId>): Rows {
    DeleteUser(HardDelete(d, found), user)
  }

  lemma OwnersAfter(d: Rows, user: UserId, found: set<OrgId>, org: OrgId, other: UserId)
    ensures ActiveOwner(DeleteAccount(d, user, found), org, other)
       <==> ActiveOwner(d, org, other) && org !in found && other != user
  {
    hide MemberHasOwnerRoleSql;
  }

  /**
  With nothing in between: exactly the organizations whose only active owner is the user go, none
  of them has another owner, and each one left that had an owner still has one.
  */
  lemma AccountDeletionKeepsOwners(d: Rows, user: UserId)
    ensures var d' := DeleteAccount(d, user, SoleOwned(d, user));
            && d'.orgs.Keys == d.orgs.Keys - SoleOwned(d, user)
            && (forall org <- d.orgs.Keys - d'.orgs.Keys :: !OtherOwner(d, org, user))
            && (forall org <- d'.orgs.Keys | HasOwner(d, org) :: HasOwner(d', org))
            && (forall key <- d'.activeRoles :: key.1 != user)
  {
    hide ActiveOwner;
    var found := SoleOwned(d, user);
    var d' := DeleteAccount(d, user, found);
    forall org <- d'.orgs.Keys | HasOwner(d, org) ensures HasOwner(d', org) {
      var u: UserId :| ActiveOwner(d, org, u);
      if u == user {
        assert OtherOwner(d, org, user);
        var other: UserId :| other != user && ActiveOwner(d, org, other);
        OwnersAfter(d, user, found, org, other);
      } else {
        OwnersAfter(d, user, found, org, u);
      }
    }
  }

  /**
  When rows change between the query and the deletes, what matters is how the found set compares
  with the sole-owned set at that later time: every survivor keeps an owner if and only if no
  sole-owned organization was missed, and no co-owned organization is deleted if and only if
  none was found.
  */
  lemma StaleSoleOwnedSet(d: Rows, user: UserId, found: set<OrgId>)
    ensures var d' := DeleteAccount(d, user, found);
            && ((forall org <- d'.orgs.Keys | HasOwner(d, org) :: HasOwner(d', org)) <==> SoleOwned(d, user) <= found)
            && ((forall org <- d.orgs.Keys - d'.orgs.Keys :: !OtherOwner(d, org, user))
                <==> forall org <- found | org in d.orgs :: !OtherOwner(d, org, user))
  {
    hide ActiveOwner;
    var d' := DeleteAccount(d, user, found);
    assert d'.orgs.Keys == d.orgs.Keys - found;
    forall org <- d'.orgs.Keys | HasOwner(d, org)
      ensures HasOwner(d', org) <==> org !in SoleOwned(d, user)
    {
      forall other: UserId ensures ActiveOwner(d', org, other) <==> ActiveOwner(d, org, other) && other != user {
        OwnersAfter(d, user, found, org, other);
      }
      var u: UserId :| ActiveOwner(d, org, u);
      if org !in SoleOwned(d, user) {
        if u == user {
          assert OtherOwner(d, org, user);
          var other: UserId :| other != user && ActiveOwner(d, org, other);
          assert ActiveOwner(d', org, other);
        } else {
          assert ActiveOwner(d', org, u);
        }
      }
    }
    assert forall org <- SoleOwned(d, user) :: HasOwner(d, org);
  }

  /** The query of an account deletion. */
  lemma AccountSelects(w: World, id: CallId, user: UserId)
    requires id in w.calls && w.calls[id] == Account(user, None, false)
    ensures Enabled(w, Progress(id, "", {}))
    ensures Next(w, Progress(id, "", {}))
         == w.(calls := w.calls[id := Account(user, Some(SoleOwned(w.rows, user)), false)])
  {
    hide SoleOwned;
    assert w.log + [] == w.log;
  }

  /** Its two deletes. */
  lemma AccountDeletes(w: World, id: CallId, user: UserId, found: set<OrgId>)
    requires id in w.calls && w.calls[id] == Account(user, Some(found), false)
    ensures var step := Progress(id, "", {});
            && Enabled(w, step) && Enabled(Next(w, step), step)
            && Next(Next(w, step), step).rows == DeleteAccount(w.rows, user, found)
            && Next(Next(w, step), step).calls == w.calls[id := Returned(None)]
  {
    hide HardDelete, DeleteUser;
  }

  /**
  Two co-owners deleting their accounts at the same time: each query finds the other owner, so
  neither deletes the organization, and it is left without an owner.
  */
  lemma TwoLeavingOwners(w: World, org: OrgId, u: UserId, v: UserId, a: CallId, b: CallId)
    requires org in w.rows.orgs && u != v && ActiveOwner(w.rows, org, u) && ActiveOwner(w.rows, org, v)
    requires forall other: UserId | ActiveOwner(w.rows, org, other) :: other == u || other == v
    requires a !in w.calls && b !in w.calls && a != b
    ensures var stepA, stepB := Progress(a, "", {}), Progress(b, "", {});
            var end := After(w, [Begin(a, Account(u, None, false)), Begin(b, Account(v, None, false)),
                                 stepA, stepB, stepA, stepA, stepB, stepB]);
            && a in end.calls && end.calls[a] == Returned(None)
            && b in end.calls && end.calls[b] == Returned(None)
            && org in end.rows.orgs && !HasOwner(end.rows, org)
  {
    hide ActiveOwner, After, Next, Enabled, HardDelete, DeleteUser, SoleOwned, DeleteAccount;
    var x, y := SoleOwned(w.rows, u), SoleOwned(w.rows, v);
    var stepA, stepB := Progress(a, "", {}), Progress(b, "", {});
    var beginA, beginB := Begin(a, Account(u, None, false)), Begin(b, Account(v, None, false));
    var w1 := w.(calls := w.calls[a := beginA.call]);
    OrgDeletionRuns.Begins(w, a, beginA.call);
    var w2 := w1.(calls := w1.calls[b := beginB.call]);
    BeginsNow(w1, b, beginB.call);
    var r2 := [beginA] + [beginB];
    OrgDeletionRuns.StepTo(w, [beginA], beginB, w1, w2);
    AccountSelects(w2, a, u);
    var w3 := Next(w2, stepA);
    var r3 := r2 + [stepA];
    OrgDeletionRuns.StepTo(w, r2, stepA, w2, w3);
    AccountSelects(w3, b, v);
    var w4 := Next(w3, stepB);
    var r4 := r3 + [stepB];
    OrgDeletionRuns.StepTo(w, r3, stepB, w3, w4);
    AccountDeletes(w4, a, u, x);
    var w6 := Next(Next(w4, stepA), stepA);
    var r6 := r4 + [stepA] + [stepA];
    OrgDeletionRuns.StepTo(w, r4, stepA, w4, Next(w4, stepA));
    OrgDeletionRuns.StepTo(w, r4 + [stepA], stepA, Next(w4, stepA), w6);
    AccountDeletes(w6, b, v, y);
    var w8 := Next(Next(w6, stepB), stepB);
    OrgDeletionRuns.StepTo(w, r6, stepB, w6, Next(w6, stepB));
    OrgDeletionRuns.StepTo(w, r6 + [stepB], stepB, Next(w6, stepB), w8);
    assert r6 + [stepB] + [stepB] == [beginA, beginB, stepA, stepB, stepA, stepA, stepB, stepB];
    LeftWithoutOwner(w.rows, org, u, v);
  }

  lemma BeginsNow(w: World, id: CallId, call: Call)
    requires id !in w.calls && IsStart(call, w.clock)
    ensures Enabled(w, Begin(id, call)) && Next(w, Begin(id, call)) == w.(calls := w.calls[id := call])
  {
  }

  /** Both deletions with the sets found before either. */
  lemma LeftWithoutOwner(d: Rows, org: OrgId, u: UserId, v: UserId)
    requires org in d.orgs && u != v && ActiveOwner(d, org, u) && ActiveOwner(d, org, v)
    requires forall other: UserId | ActiveOwner(d, org, other) :: other == u || other == v
    ensures var end := DeleteAccount(DeleteAccount(d, u, SoleOwned(d, u)), v, SoleOwned(d, v));
            org in end.orgs && !HasOwner(end, org)
  {
    hide ActiveOwner;
    assert OtherOwner(d, org, u) && OtherOwner(d, org, v);
    var d1 := DeleteAccount(d, u, SoleOwned(d, u));
    forall other: UserId ensures !ActiveOwner(DeleteAccount(d1, v, SoleOwned(d, v)), org, other) {
      OwnersAfter(d, u, SoleOwned(d, u), org, other);
      OwnersAfter(d1, v, SoleOwned(d, v), org, other);
    }
  }
}
