/** What every step of the deletion protocol keeps, and what therefore holds in every run. */
module OrgDeletionSafety {
  import opened Wrappers
  import opened Roles
  import opened OrgDeletionStore
  import opened OrgDeletionProtocol

  // ---- Reading the log ----

  lemma LatestAfter(log: seq<Entry>, e: Entry, org: OrgId)
    ensures Latest(log + [e], org) == if Concerns(e.mark, org) then Some(e.mark) else Latest(log, org)
  {
    var l := log + [e];
    assert l[..|l| - 1] == log;
  }

  lemma LatestCodeAfter(log: seq<Entry>, e: Entry, org: OrgId, user: UserId)
    ensures LatestCode(log + [e], org, user)
         == if ConcernsCode(e.mark, org, user) then Some(e.mark) else LatestCode(log, org, user)
  {
    var l := log + [e];
    assert l[..|l| - 1] == log;
  }

  lemma {:induction false} NoMarkNoLatest(log: seq<Entry>, org: OrgId)
    requires NoMark(log, org)
    ensures Latest(log, org).None?
  {
    if log != [] {
      assert log[|log| - 1] in log;
      NoMarkNoLatest(log[..|log| - 1], org);
    }
  }

  lemma JustifiedAfter(log: seq<Entry>, e: Entry)
    requires LogJustified(log) && Justified(log, e)
    ensures LogJustified(log + [e])
  {
    var l := log + [e];
    assert l[..|l| - 1] == log;
  }

  // ---- Steps that commit nothing ----

  lemma PlainStep(w: World, e: Event)
    requires Invariant(w) && Enabled(w, e) && !e.Progress?
    ensures Invariant(Next(w, e))
  {
    var w' := Next(w, e);
    if e.CreateOrg? {
      assert NoMark(w.log, e.org);
      NoMarkNoLatest(w.log, e.org);
    }
    assert RowsMatch(w') by {
      forall org <- w'.rows.orgs ensures org in w'.everOrgs && RowMatches(w', org, w'.rows.orgs[org]) {
        if !(e.CreateOrg? && org == e.org) {
          assert RowMatches(w, org, w.rows.orgs[org]);
        }
      }
      forall key: MemberKey ensures CodeMatches(w', key) {
        assert CodeMatches(w, key);
      }
    }
    assert CallsMatch(w') by {
      forall id <- w'.calls ensures CallMatches(w', w'.calls[id]) {
        assert id in w.calls ==> CallMatches(w, w.calls[id]);
      }
    }
  }

  // ---- Steps of calls ----

  /** The invariant about calls after a call's step: logs only grow, and the call's own part holds. */
  lemma CallsAfter(w: World, id: CallId, c: Call, rows: Rows, entries: seq<Entry>)
    requires CallsMatch(w)
    requires var w' := w.(rows := rows, calls := w.calls[id := c], log := w.log + entries); CallMatches(w', c)
    ensures CallsMatch(w.(rows := rows, calls := w.calls[id := c], log := w.log + entries))
  {
    var w' := w.(rows := rows, calls := w.calls[id := c], log := w.log + entries);
    forall i <- w'.calls ensures CallMatches(w', w'.calls[i]) {
      if i != id {
        assert CallMatches(w, w.calls[i]);
      }
    }
  }

  lemma LogAfter(w: World, e: Entry, w': World)
    requires LogMatches(w) && Justified(w.log, e) && e.clock == w.clock
    requires w'.log == w.log + [e] && w'.clock == w.clock && w'.everOrgs == w.everOrgs
    requires forall org: OrgId :: Concerns(e.mark, org) ==> org in w.everOrgs
    ensures LogMatches(w')
  {
    JustifiedAfter(w.log, e);
    forall org: OrgId | org !in w'.everOrgs ensures NoMark(w'.log, org) {
      assert NoMark(w.log, org);
    }
  }

  lemma UnchangedRows(w: World, e: Entry, w': World)
    requires RowsMatch(w) && !e.mark.Issued? && !e.mark.Confirmed? && !e.mark.Canceled?
    requires w'.rows == w.rows && w'.log == w.log + [e] && w'.everOrgs == w.everOrgs && w'.everUsers == w.everUsers
    requires forall org <- w.rows.orgs :: !Concerns(e.mark, org)
    ensures RowsMatch(w')
  {
    forall org <- w'.rows.orgs ensures RowMatches(w', org, w'.rows.orgs[org]) {
      LatestAfter(w.log, e, org);
      assert RowMatches(w, org, w.rows.orgs[org]);
    }
    forall key: MemberKey ensures CodeMatches(w', key) {
      LatestCodeAfter(w.log, e, key.0, key.1);
      assert CodeMatches(w, key);
    }
  }

  lemma IssueRows(w: World, org: OrgId, user: UserId, code: string, now: Time, w': World)
    requires RowsMatch(w)
    requires w'.rows == IssueCode(w.rows, org, user, code, now)
    requires w'.log == w.log + [Entry(Issued(org, user, code, now), w.clock)]
    requires w'.everOrgs == w.everOrgs && w'.everUsers == w.everUsers
    ensures RowsMatch(w')
  {
    var e := Entry(Issued(org, user, code, now), w.clock);
    forall o <- w'.rows.orgs ensures RowMatches(w', o, w'.rows.orgs[o]) {
      LatestAfter(w.log, e, o);
      assert RowMatches(w, o, w.rows.orgs[o]);
    }
    forall key: MemberKey ensures CodeMatches(w', key) {
      LatestCodeAfter(w.log, e, key.0, key.1);
      assert CodeMatches(w, key);
    }
  }

  lemma ConfirmRows(w: World, org: OrgId, user: UserId, code: string, now: Time, w': World)
    requires RowsMatch(w) && ConfirmCommit(w.rows, org, user, code, now) == (None, w'.rows)
    requires w'.log == w.log + [Entry(Confirmed(org, user, code, now), w.clock)]
    requires w'.everOrgs == w.everOrgs && w'.everUsers == w.everUsers
    ensures RowsMatch(w')
  {
    hide MemberHasOwnerRoleSql;
    var e := Entry(Confirmed(org, user, code, now), w.clock);
    assert (org, user) in w.rows.activeRoles;
    forall o <- w'.rows.orgs ensures o in w'.everOrgs && RowMatches(w', o, w'.rows.orgs[o]) {
      LatestAfter(w.log, e, o);
      assert RowMatches(w, o, w.rows.orgs[o]);
    }
    forall key: MemberKey ensures CodeMatches(w', key) {
      LatestCodeAfter(w.log, e, key.0, key.1);
      assert CodeMatches(w, key);
    }
  }

  /** A confirmation that goes through is justified by what is in the log. */
  lemma ConfirmJustified(w: World, org: OrgId, user: UserId, code: string, now: Time)
    requires Invariant(w) && now <= w.clock
    requires ConfirmCommit(w.rows, org, user, code, now).0.None?
    ensures Justified(w.log, Entry(Confirmed(org, user, code, now), w.clock))
  {
    hide MemberHasOwnerRoleSql;
    assert RowMatches(w, org, w.rows.orgs[org]);
    assert CodeMatches(w, (org, user));
  }

  lemma CancelRows(w: World, org: OrgId, user: UserId, w': World)
    requires RowsMatch(w) && CancelCommit(w.rows, org, user) == (None, w'.rows)
    requires w'.log == w.log + [Entry(Canceled(org, user), w.clock)]
    requires w'.everOrgs == w.everOrgs && w'.everUsers == w.everUsers
    ensures RowsMatch(w')
  {
    hide MemberHasAdminOrOwnerRoleSql;
    var e := Entry(Canceled(org, user), w.clock);
    forall o <- w'.rows.orgs ensures o in w'.everOrgs && RowMatches(w', o, w'.rows.orgs[o]) {
      LatestAfter(w.log, e, o);
      assert RowMatches(w, o, w.rows.orgs[o]);
    }
    forall key: MemberKey ensures CodeMatches(w', key) {
      LatestCodeAfter(w.log, e, key.0, key.1);
      assert CodeMatches(w, key);
    }
  }

  lemma CancelJustified(w: World, org: OrgId, user: UserId)
    requires Invariant(w) && CancelCommit(w.rows, org, user).0.None?
    ensures Justified(w.log, Entry(Canceled(org, user), w.clock))
  {
    assert RowMatches(w, org, w.rows.orgs[org]);
  }

  lemma SelectJustified(w: World, now: Time, limit: nat, chosen: set<OrgId>)
    requires Invariant(w) && now <= w.clock && MaySelect(w.rows, now, limit, chosen)
    ensures Justified(w.log, Entry(Selected(chosen, now), w.clock))
  {
    forall id <- chosen
      ensures var last := Latest(w.log, id);
              last.Some? && last.value.Confirmed? && last.value.now + GRACE_WINDOW_MS <= now
    {
      assert id in Due(w.rows, now);
      assert RowMatches(w, id, w.rows.orgs[id]);
    }
  }

  lemma RemoveRows(w: World, ids: set<OrgId>, w': World)
    requires RowsMatch(w) && w'.rows == HardDelete(w.rows, ids)
    requires w'.log == w.log + [Entry(Removed(ids), w.clock)]
    requires w'.everOrgs == w.everOrgs && w'.everUsers == w.everUsers
    ensures RowsMatch(w')
  {
    var e := Entry(Removed(ids), w.clock);
    forall o <- w'.rows.orgs ensures o in w'.everOrgs && RowMatches(w', o, w'.rows.orgs[o]) {
      LatestAfter(w.log, e, o);
      assert RowMatches(w, o, w.rows.orgs[o]);
    }
    forall key: MemberKey ensures CodeMatches(w', key) {
      LatestCodeAfter(w.log, e, key.0, key.1);
      assert CodeMatches(w, key);
    }
  }

  lemma DeleteUserRows(w: World, user: UserId, w': World)
    requires RowsMatch(w) && w'.rows == DeleteUser(w.rows, user)
    requires w'.log == w.log && w'.everOrgs == w.everOrgs && w'.everUsers == w.everUsers
    ensures RowsMatch(w')
  {
    forall o <- w'.rows.orgs ensures o in w'.everOrgs && RowMatches(w', o, w'.rows.orgs[o]) {
      assert RowMatches(w, o, w.rows.orgs[o]);
    }
    forall key: MemberKey ensures CodeMatches(w', key) {
      assert CodeMatches(w, key);
    }
  }

  /** A step of a call that changes no row and commits nothing. */
  lemma SilentStep(w: World, id: CallId, c: Call, w': World)
    requires Invariant(w) && w' == w.(calls := w.calls[id := c]) && CallMatches(w', c)
    ensures Invariant(w')
  {
    assert w.log + [] == w.log;
    CallsAfter(w, id, c, w.rows, []);
    forall org <- w'.rows.orgs ensures RowMatches(w', org, w'.rows.orgs[org]) {
      assert RowMatches(w, org, w.rows.orgs[org]);
    }
    forall key: MemberKey ensures CodeMatches(w', key) {
      assert CodeMatches(w, key);
    }
  }

  /** The invariant after a step that commits an entry, from its three parts. */
  lemma CommitStep(w: World, id: CallId, c: Call, rows: Rows, e: Entry)
    requires Invariant(w) && e.clock == w.clock && Justified(w.log, e)
    requires forall org: OrgId :: Concerns(e.mark, org) ==> org in w.everOrgs
    requires var w' := w.(rows := rows, calls := w.calls[id := c], log := w.log + [e]);
             RowsMatch(w') && CallMatches(w', c)
    ensures Invariant(w.(rows := rows, calls := w.calls[id := c], log := w.log + [e]))
  {
    hide RowsMatch, Justified;
    CallsAfter(w, id, c, rows, [e]);
    LogAfter(w, e, w.(rows := rows, calls := w.calls[id := c], log := w.log + [e]));
  }

  lemma RequestKeeps(w: World, id: CallId, random: string)
    requires Invariant(w) && id in w.calls && w.calls[id].Request?
    ensures Invariant(Committed(w, id, RequestStep(w.rows, w.calls[id], random)))
  {
    hide HasOrgRole, Invariant, RowsMatch;
    var c := w.calls[id];
    var effect := RequestStep(w.rows, c, random);
    var w' := Committed(w, id, effect);
    if effect.mark.None? {
      assert w.log + [] == w.log;
      SilentStep(w, id, effect.call, w');
    } else {
      var e := Entry(effect.mark.value, w.clock);
      InvariantParts(w);
      IssueRows(w, c.org, c.user, random, c.now, w');
      LastClock(w);
      CommitStep(w, id, effect.call, effect.rows, e);
    }
  }

  lemma InvariantParts(w: World)
    requires Invariant(w)
    ensures RowsMatch(w) && CallsMatch(w) && LogMatches(w)
  {
  }

  lemma LastClock(w: World)
    requires Invariant(w)
    ensures w.log != [] ==> w.log[|w.log| - 1].clock <= w.clock
  {
  }

  lemma OrgWasCreated(w: World, org: OrgId)
    requires Invariant(w) && org in w.rows.orgs
    ensures org in w.everOrgs
  {
  }

  lemma CallHolds(w: World, id: CallId)
    requires Invariant(w) && id in w.calls
    ensures CallMatches(w, w.calls[id])
  {
  }

  lemma ConfirmKeeps(w: World, id: CallId)
    requires Invariant(w) && id in w.calls && w.calls[id].Confirm?
    ensures Invariant(Committed(w, id, ConfirmStep(w.rows, w.calls[id])))
  {
    hide HasOrgRole, Invariant, RowsMatch, MemberHasOwnerRoleSql;
    var c := w.calls[id];
    CallHolds(w, id);
    var effect := ConfirmStep(w.rows, c);
    var w' := Committed(w, id, effect);
    if effect.mark.None? {
      assert w.log + [] == w.log;
      SilentStep(w, id, effect.call, w');
    } else {
      var e := Entry(effect.mark.value, w.clock);
      InvariantParts(w);
      OrgWasCreated(w, c.org);
      ConfirmRows(w, c.org, c.user, c.code, c.now, w');
      ConfirmJustified(w, c.org, c.user, c.code, c.now);
      CommitStep(w, id, effect.call, effect.rows, e);
    }
  }

  lemma CancelKeeps(w: World, id: CallId)
    requires Invariant(w) && id in w.calls && w.calls[id].Cancel?
    ensures Invariant(Committed(w, id, CancelStep(w.rows, w.calls[id])))
  {
    hide HasOrgRole, Invariant, RowsMatch, MemberHasAdminOrOwnerRoleSql;
    var c := w.calls[id];
    var effect := CancelStep(w.rows, c);
    var w' := Committed(w, id, effect);
    if effect.mark.None? {
      assert w.log + [] == w.log;
      SilentStep(w, id, effect.call, w');
    } else {
      var e := Entry(effect.mark.value, w.clock);
      InvariantParts(w);
      OrgWasCreated(w, c.org);
      CancelRows(w, c.org, c.user, w');
      CancelJustified(w, c.org, c.user);
      CommitStep(w, id, effect.call, effect.rows, e);
    }
  }

  lemma CronKeeps(w: World, id: CallId, chosen: set<OrgId>)
    requires Invariant(w) && id in w.calls && w.calls[id].Cron?
    requires w.calls[id].selection.None? ==> MaySelect(w.rows, w.calls[id].now, w.calls[id].limit, chosen)
    ensures Invariant(Committed(w, id, CronStep(w.rows, w.calls[id], chosen, |w.log|)))
  {
    hide Invariant, RowsMatch, HardDelete;
    var c := w.calls[id];
    CallHolds(w, id);
    InvariantParts(w);
    var effect := CronStep(w.rows, c, chosen, |w.log|);
    var w' := Committed(w, id, effect);
    var e := Entry(effect.mark.value, w.clock);
    if c.selection.None? {
      SelectJustified(w, c.now, c.limit, chosen);
      UnchangedRows(w, e, w');
      forall org <- chosen ensures org in w.everOrgs {
        assert org in Due(w.rows, c.now);
        OrgWasCreated(w, org);
      }
      assert w'.log[|w.log|] == e;
      CommitStep(w, id, effect.call, effect.rows, e);
    } else {
      RemoveRows(w, c.selection.value.ids, w');
      LastClock(w);
      CommitStep(w, id, effect.call, effect.rows, e);
    }
  }

  lemma AccountKeeps(w: World, id: CallId)
    requires Invariant(w) && id in w.calls && w.calls[id].Account?
    ensures Invariant(Committed(w, id, AccountStep(w.rows, w.calls[id])))
  {
    hide Invariant, RowsMatch, HardDelete, DeleteUser, ActiveOwner, OtherOwner;
    var c := w.calls[id];
    CallHolds(w, id);
    InvariantParts(w);
    var effect := AccountStep(w.rows, c);
    var w' := Committed(w, id, effect);
    assert w.log + [] == w.log;
    if c.soleOwned.None? {
      forall org <- SoleOwned(w.rows, c.user) ensures org in w.everOrgs {
        OrgWasCreated(w, org);
      }
      SilentStep(w, id, effect.call, w');
    } else if !c.cleaned {
      RemoveRows(w, c.soleOwned.value, w');
      LastClock(w);
      CommitStep(w, id, effect.call, effect.rows, Entry(effect.mark.value, w.clock));
    } else {
      DeleteUserRows(w, c.user, w');
      CallsAfter(w, id, effect.call, effect.rows, []);
      RowsAndCalls(w, w');
    }
  }

  lemma RowsAndCalls(w: World, w': World)
    requires Invariant(w) && RowsMatch(w') && CallsMatch(w')
    requires w'.log == w.log && w'.clock == w.clock && w'.everOrgs == w.everOrgs
    ensures Invariant(w')
  {
  }

  lemma CallKeeps(w: World, id: CallId, random: string, chosen: set<OrgId>)
    requires Invariant(w) && Enabled(w, Progress(id, random, chosen))
    ensures Invariant(Next(w, Progress(id, random, chosen)))
  {
    hide Invariant, RequestStep, ConfirmStep, CancelStep, CronStep, AccountStep, MaySelect, Committed;
    match w.calls[id]
    case Request(_, _, _, _) => RequestKeeps(w, id, random);
    case Confirm(_, _, _, _, _) => ConfirmKeeps(w, id);
    case Cancel(_, _, _) => CancelKeeps(w, id);
    case Cron(_, _, _) => CronKeeps(w, id, chosen);
    case Account(_, _, _) => AccountKeeps(w, id);
  }

  lemma EveryStepKeeps(w: World, e: Event)
    requires Invariant(w) && Enabled(w, e)
    ensures Invariant(Next(w, e))
  {
    hide Invariant, Next, Enabled;
    if e.Progress? {
      CallKeeps(w, e.id, e.random, e.chosen);
    } else {
      PlainStep(w, e);
    }
  }

  /** Every world of every run satisfies the invariant. */
  lemma {:induction false} EveryRunKeeps(run: seq<Event>)
    ensures Invariant(After(START, run))
  {
    if run == [] {
      StartHolds();
    } else {
      hide Invariant, Next, Enabled;
      EveryRunKeeps(run[..|run| - 1]);
      var w, e := After(START, run[..|run| - 1]), run[|run| - 1];
      if Enabled(w, e) {
        EveryStepKeeps(w, e);
      }
    }
  }

  lemma StartHolds()
    ensures Invariant(START)
  {
    assert forall key: MemberKey :: CodeMatches(START, key);
  }
}
