/** What holds in every run of the organization deletion protocol, and what does not. */
module OrgDeletionRuns {
  import opened Wrappers
  import opened Roles
  import opened OrgDeletionStore
  import opened OrgDeletionProtocol
  import opened OrgDeletionSafety

  // ---- Positions in the log ----

  lemma {:induction false} EntryJustified(log: seq<Entry>, i: nat)
    requires LogJustified(log) && i < |log|
    ensures Justified(log[..i], log[i])
  {
    if i < |log| - 1 {
      EntryJustified(log[..|log| - 1], i);
      assert log[..|log| - 1][..i] == log[..i];
    }
  }

  /** Where the latest mark about an organization is. */
  lemma {:induction false} LatestAt(log: seq<Entry>, org: OrgId) returns (k: nat)
    requires Latest(log, org).Some?
    ensures k < |log| && log[k].mark == Latest(log, org).value && Concerns(log[k].mark, org)
    ensures forall m | k < m < |log| :: !Concerns(log[m].mark, org)
  {
    k := |log| - 1;
    if !Concerns(log[k].mark, org) {
      k := LatestAt(log[..|log| - 1], org);
    }
  }

  lemma {:induction false} LatestExists(log: seq<Entry>, org: OrgId, i: nat)
    requires i < |log| && Concerns(log[i].mark, org)
    ensures Latest(log, org).Some?
  {
    if !Concerns(log[|log| - 1].mark, org) {
      LatestExists(log[..|log| - 1], org, i);
    }
  }

  lemma {:induction false} LatestCodeAt(log: seq<Entry>, org: OrgId, user: UserId) returns (k: nat)
    requires LatestCode(log, org, user).Some?
    ensures k < |log| && log[k].mark == LatestCode(log, org, user).value && ConcernsCode(log[k].mark, org, user)
    ensures forall m | k < m < |log| :: !ConcernsCode(log[m].mark, org, user)
  {
    k := |log| - 1;
    if !ConcernsCode(log[k].mark, org, user) {
      k := LatestCodeAt(log[..|log| - 1], org, user);
    }
  }

  ghost predicate IsConfirmOf(m: Mark, org: OrgId) {
    m.Confirmed? && m.org == org
  }

  ghost predicate IsCancelOf(m: Mark, org: OrgId) {
    m.Canceled? && m.org == org
  }

  lemma LogOfRun(run: seq<Event>)
    ensures LogJustified(After(START, run).log)
  {
    EveryRunKeeps(run);
  }

  // ---- Safety over whole runs ----

  /** Between two successful confirmations for an organization there is a successful cancellation. */
  lemma OneConfirmationPerPeriod(run: seq<Event>, org: OrgId, i: nat, j: nat)
    requires var log := After(START, run).log;
             i < j < |log| && IsConfirmOf(log[i].mark, org) && IsConfirmOf(log[j].mark, org)
    ensures var log := After(START, run).log;
            exists k | i < k < j :: IsCancelOf(log[k].mark, org)
  {
    LogOfRun(run);
    hide After, LogJustified;
    var log := After(START, run).log;
    EntryJustified(log, j);
    LatestExists(log[..j], org, i);
    var k := LatestAt(log[..j], org);
    assert i <= k && IsCancelOf(log[k].mark, org);
  }

  /** Between two successful cancellations there is a successful confirmation. */
  lemma OneCancellationPerPeriod(run: seq<Event>, org: OrgId, i: nat, j: nat)
    requires var log := After(START, run).log;
             i < j < |log| && IsCancelOf(log[i].mark, org) && IsCancelOf(log[j].mark, org)
    ensures var log := After(START, run).log;
            exists k | i < k < j :: IsConfirmOf(log[k].mark, org)
  {
    LogOfRun(run);
    hide After, LogJustified;
    var log := After(START, run).log;
    EntryJustified(log, j);
    var k := LatestAt(log[..j], org);
    assert IsConfirmOf(log[k].mark, org);
    assert i <= k;
  }

  /** A code confirms at most once: between two confirmations of a requester a new code was issued. */
  lemma CodeConfirmsOnce(run: seq<Event>, org: OrgId, user: UserId, i: nat, j: nat)
    requires var log := After(START, run).log;
             && i < j < |log|
             && IsConfirmOf(log[i].mark, org) && log[i].mark.user == user
             && IsConfirmOf(log[j].mark, org) && log[j].mark.user == user
    ensures var log := After(START, run).log;
            exists k | i < k < j ::
              && log[k].mark.Issued? && ConcernsCode(log[k].mark, org, user)
              && log[k].mark.code == log[j].mark.code
              && log[j].mark.now <= log[k].mark.now + CONFIRMATION_CODE_TTL_MS
  {
    LogOfRun(run);
    hide After, LogJustified;
    var log := After(START, run).log;
    EntryJustified(log, j);
    var k := LatestCodeAt(log[..j], org, user);
    assert log[..j][k] == log[k] && log[..j][i] == log[i];
    assert ConcernsCode(log[i].mark, org, user);
    assert i <= k;
  }

  /**
  Every organization the cron selects was confirmed, by a call that began at least 48 hours before
  the cron's time, and not canceled since.  Counted from the commit of the confirmation, the grace
  period can be shorter, by as long as that call took.
  */
  lemma SelectedWasConfirmed(run: seq<Event>, j: nat, id: OrgId) returns (i: nat)
    requires var log := After(START, run).log;
             j < |log| && log[j].mark.Selected? && id in log[j].mark.ids
    ensures var log := After(START, run).log;
            && i < j && IsConfirmOf(log[i].mark, id)
            && log[i].mark.now + GRACE_WINDOW_MS <= log[j].mark.now <= log[j].clock
            && log[j].clock - log[i].clock >= GRACE_WINDOW_MS - (log[i].clock - log[i].mark.now)
            && forall k | i < k < j :: !IsCancelOf(log[k].mark, id)
  {
    LogOfRun(run);
    hide After, LogJustified;
    var log := After(START, run).log;
    EntryJustified(log, j);
    i := LatestAt(log[..j], id);
    forall k | i < k < j ensures !IsCancelOf(log[k].mark, id) {
      assert !Concerns(log[..j][k].mark, id);
    }
  }

  /** Whether an organization was confirmed last, at time `since`, and not canceled or removed after that. */
  ghost predicate ConfirmedLast(log: seq<Entry>, org: OrgId, since: Time) {
    exists i | 0 <= i < |log| ::
      && IsConfirmOf(log[i].mark, org) && log[i].mark.now == since
      && forall k | i < k < |log| :: !IsConfirmOf(log[k].mark, org) && !IsCancelOf(log[k].mark, org)
                                     && (log[k].mark.Removed? ==> org !in log[k].mark.ids)
  }

  lemma {:induction false} ConfirmedIsLatest(log: seq<Entry>, org: OrgId, since: Time)
    requires ConfirmedLast(log, org, since)
    ensures Latest(log, org).Some? && Latest(log, org).value.Confirmed? && Latest(log, org).value.now == since
  {
    var i :| 0 <= i < |log| && IsConfirmOf(log[i].mark, org) && log[i].mark.now == since
      && forall k | i < k < |log| :: !IsConfirmOf(log[k].mark, org) && !IsCancelOf(log[k].mark, org)
                                     && (log[k].mark.Removed? ==> org !in log[k].mark.ids);
    LatestExists(log, org, i);
    var k := LatestAt(log, org);
    assert k == i;
  }

  /**
  And the converse: an organization that still exists and was confirmed last, by a call that began at
  least 48 hours before the cron's time, is among what the cron selects, unless it selects as many as
  it may.
  */
  lemma DueIsSelected(run: seq<Event>, id: CallId, random: string, chosen: set<OrgId>, org: OrgId, since: Time)
    requires var w := After(START, run);
             && Enabled(w, Progress(id, random, chosen)) && w.calls[id].Cron? && w.calls[id].selection.None?
             && org in w.rows.orgs && ConfirmedLast(w.log, org, since)
             && since + 48 * 60 * 60 * 1000 <= w.calls[id].now
    ensures org in chosen || |chosen| == After(START, run).calls[id].limit
  {
    EveryRunKeeps(run);
    hide After;
    var w := After(START, run);
    ConfirmedIsLatest(w.log, org, since);
    assert RowMatches(w, org, w.rows.orgs[org]);
  }

  /**
  In every world of every run the deadline and the request time are null together, or 48 hours
  apart.  The requester column is null with them, and otherwise null exactly when the account that
  confirmed has been deleted since.
  */
  lemma PendingColumns(run: seq<Event>, org: OrgId)
    requires org in After(START, run).rows.orgs
    ensures var w := After(START, run);
            var row := w.rows.orgs[org];
            && (row.pendingDeletionAt.None? <==> row.pendingDeletionRequestedAt.None?)
            && (row.pendingDeletionAt.Some? ==>
                  row.pendingDeletionAt.value == row.pendingDeletionRequestedAt.value + GRACE_WINDOW_MS)
            && (row.pendingDeletionAt.None? ==> row.pendingDeletionRequestedBy.None?)
            && (row.pendingDeletionAt.Some? ==>
                  && Latest(w.log, org).Some? && Latest(w.log, org).value.Confirmed?
                  && var user := Latest(w.log, org).value.user;
                     row.pendingDeletionRequestedBy == if user in w.rows.users then Some(user) else None)
  {
    EveryRunKeeps(run);
    hide After;
    var w := After(START, run);
    assert RowMatches(w, org, w.rows.orgs[org]);
  }

  /** A call about to commit its confirmation, with everything the commit asks for in place. */
  ghost predicate ReadyToConfirm(d: Rows, c: Call, org: OrgId) {
    && c.Confirm? && c.org == org && c.stage >= 2
    && CodeCheck(d, org, c.user, c.code, c.now).None?
    && org in d.orgs && ActiveOwner(d, org, c.user)
  }

  /**
  A step makes an organization pending exactly when it is the last step of a confirmation by a user
  who is an active owner at that very step and presents the matching unexpired code; the same step
  uses the code up.
  */
  lemma OnlyOwnersWithCodesSchedule(w: World, e: Event, org: OrgId)
    requires Enabled(w, e) && !Pending(w.rows, org)
    ensures Pending(Next(w, e).rows, org) <==>
              e.Progress? && ReadyToConfirm(w.rows, w.calls[e.id], org)
    ensures Pending(Next(w, e).rows, org) ==>
              var c := w.calls[e.id];
              && Next(w, e).rows.orgs[org] == Scheduled(c.user, c.now)
              && (org, c.user) !in Next(w, e).rows.codes
  {
    hide MemberHasOwnerRoleSql, MemberHasAdminOrOwnerRoleSql, HasOrgRole, RoleCheck, MaySelect, SoleOwned;
  }

  // ---- Selection and deletion are two steps ----

  /**
  What the cron's delete step removes.  An organization it selected and that still exists is no
  longer pending exactly when it was canceled after the selection and not confirmed again: then a
  cancellation that reported success does not keep the organization.
  */
  lemma RemovalAfterSelection(run: seq<Event>, id: CallId, org: OrgId)
    requires var w := After(START, run);
             && id in w.calls && w.calls[id].Cron? && w.calls[id].selection.Some?
             && org in w.calls[id].selection.value.ids && org in w.rows.orgs
    ensures var w := After(START, run);
            var at := w.calls[id].selection.value.at;
            && (Pending(w.rows, org) <==>
                  !exists k | at < k < |w.log| ::
                     IsCancelOf(w.log[k].mark, org) && forall m | k < m < |w.log| :: !Concerns(w.log[m].mark, org))
            && ((forall k | at < k < |w.log| :: !IsCancelOf(w.log[k].mark, org)) ==>
                  w.rows.orgs[org].pendingDeletionAt.Some?
                  && w.rows.orgs[org].pendingDeletionAt.value <= w.calls[id].now)
  {
    EveryRunKeeps(run);
    hide After;
    var w := After(START, run);
    assert CallMatches(w, w.calls[id]) && RowMatches(w, org, w.rows.orgs[org]);
    var at := w.calls[id].selection.value.at;
    EntryJustified(w.log, at);
    var i := LatestAt(w.log[..at], org);
    assert w.log[i] == w.log[..at][i];
    LatestExists(w.log, org, i);
    var k := LatestAt(w.log, org);
    assert k >= i;
    if k > i {
      assert k >= at by {
        assert forall m | i < m < at :: !Concerns(w.log[..at][m].mark, org);
      }
      assert k != at;
    }
    if IsConfirmOf(w.log[k].mark, org) && k > i {
      EntryJustified(w.log, k);
      LatestExists(w.log[..k], org, i);
      var m := LatestAt(w.log[..k], org);
      assert IsCancelOf(w.log[m].mark, org) && m >= i;
      assert at < m by {
        assert forall n | i < n < at :: !Concerns(w.log[..at][n].mark, org);
      }
    }
  }

  lemma OneMore(w: World, run: seq<Event>, e: Event)
    ensures var before := After(w, run);
            After(w, run + [e]) == if Enabled(before, e) then Next(before, e) else before
  {
    var r := run + [e];
    assert r[..|r| - 1] == run;
  }

  /** A run may be cut in two. */
  lemma {:induction false} AfterSplit(w: World, first: seq<Event>, second: seq<Event>)
    ensures After(w, first + second) == After(After(w, first), second)
  {
    if second == [] {
      assert first + second == first;
    } else {
      var rest, e := second[..|second| - 1], second[|second| - 1];
      AfterSplit(w, first, rest);
      assert first + second == first + rest + [e] && second == rest + [e];
      OneMore(w, first + rest, e);
      OneMore(After(w, first), rest, e);
    }
  }

  function CancelEvents(id: CallId, org: OrgId, user: UserId): seq<Event> {
    [Begin(id, Cancel(org, user, 0)), Progress(id, "", {}), Progress(id, "", {}), Progress(id, "", {})]
  }

  lemma StepTo(w: World, run: seq<Event>, e: Event, w1: World, w2: World)
    requires After(w, run) == w1 && Enabled(w1, e) && Next(w1, e) == w2
    ensures After(w, run + [e]) == w2
  {
    OneMore(w, run, e);
  }

  lemma Begins(w: World, id: CallId, call: Call)
    requires id !in w.calls && IsStart(call, w.clock)
    ensures After(w, [Begin(id, call)]) == w.(calls := w.calls[id := call])
  {
    OneMore(w, [], Begin(id, call));
    assert [] + [Begin(id, call)] == [Begin(id, call)];
  }

  /** The two checks of a cancellation, and its commit, when nothing stands in the way. */
  lemma CancelAdvances(w: World, id: CallId, org: OrgId, user: UserId, stage: nat)
    requires Pending(w.rows, org) && (org, user) in w.rows.activeRoles && id in w.calls
    requires HasOrgRole(w.rows.activeRoles[(org, user)], Admin)
    requires w.calls[id] == Cancel(org, user, stage) && stage <= 2
    ensures Enabled(w, Progress(id, "", {}))
    ensures Next(w, Progress(id, "", {})) ==
              if stage < 2 then w.(calls := w.calls[id := Cancel(org, user, stage + 1)])
              else w.(rows := w.rows.(orgs := w.rows.orgs[org := NOT_PENDING]), calls := w.calls[id := Returned(None)],
                      log := w.log + [Entry(Canceled(org, user), w.clock)])
  {
    hide HasOrgRole, MemberHasAdminOrOwnerRoleSql, MemberHasOwnerRoleSql;
    ReadersCompared(w.rows.activeRoles[(org, user)]);
    assert w.log + [] == w.log;
  }

  /** An undisturbed cancellation by an admin or owner of a pending organization. */
  lemma CancelRuns(w: World, org: OrgId, user: UserId, id: CallId)
    requires Pending(w.rows, org) && (org, user) in w.rows.activeRoles
    requires HasOrgRole(w.rows.activeRoles[(org, user)], Admin) && id !in w.calls
    ensures After(w, CancelEvents(id, org, user))
         == w.(rows := w.rows.(orgs := w.rows.orgs[org := NOT_PENDING]), calls := w.calls[id := Returned(None)],
               log := w.log + [Entry(Canceled(org, user), w.clock)])
  {
    hide HasOrgRole, After, Next, Enabled;
    var begin, step := Begin(id, Cancel(org, user, 0)), Progress(id, "", {});
    var w1 := w.(calls := w.calls[id := Cancel(org, user, 0)]);
    Begins(w, id, begin.call);
    var w2 := w1.(calls := w1.calls[id := Cancel(org, user, 1)]);
    CancelAdvances(w1, id, org, user, 0);
    StepTo(w, [begin], step, w1, w2);
    assert [begin] + [step] == [begin, step];
    var w3 := w2.(calls := w2.calls[id := Cancel(org, user, 2)]);
    CancelAdvances(w2, id, org, user, 1);
    StepTo(w, [begin, step], step, w2, w3);
    assert [begin, step] + [step] == [begin, step, step];
    CancelAdvances(w3, id, org, user, 2);
    StepTo(w, [begin, step, step], step, w3, Next(w3, step));
    assert [begin, step, step] + [step] == CancelEvents(id, org, user);
  }

  function SelectEvents(w: World, id: CallId): seq<Event> {
    var due := Due(w.rows, w.clock);
    [Begin(id, Cron(w.clock, |due|, None)), Progress(id, "", due)]
  }

  lemma SelectAdvances(w: World, id: CallId, due: set<OrgId>)
    requires id in w.calls && w.calls[id] == Cron(w.clock, |due|, None) && due == Due(w.rows, w.clock)
    ensures Enabled(w, Progress(id, "", due))
    ensures Next(w, Progress(id, "", due)) ==
              w.(calls := w.calls[id := Cron(w.clock, |due|, Some(Selection(due, |w.log|)))],
                 log := w.log + [Entry(Selected(due, w.clock), w.clock)])
  {
    hide Due;
  }

  lemma SelectRuns(w: World, id: CallId)
    requires id !in w.calls
    ensures After(w, SelectEvents(w, id)) ==
              var due := Due(w.rows, w.clock);
              w.(calls := w.calls[id := Cron(w.clock, |due|, Some(Selection(due, |w.log|)))],
                 log := w.log + [Entry(Selected(due, w.clock), w.clock)])
  {
    hide Due, After, Next, Enabled;
    var due := Due(w.rows, w.clock);
    var begin, step := Begin(id, Cron(w.clock, |due|, None)), Progress(id, "", due);
    var w1 := w.(calls := w.calls[id := begin.call]);
    Begins(w, id, begin.call);
    SelectAdvances(w1, id, due);
    StepTo(w, [begin], step, w1, Next(w1, step));
    assert [begin] + [step] == SelectEvents(w, id);
  }

  /**
  From every world where a deletion is due and someone may cancel it: the cron selects, the
  cancellation then goes through all its checks and commits, and the cron's next step deletes the
  organization all the same.
  */
  lemma CancellationCanBeOverrun(w: World, org: OrgId, user: UserId, cron: CallId, cancel: CallId)
    requires org in Due(w.rows, w.clock) && (org, user) in w.rows.activeRoles
    requires HasOrgRole(w.rows.activeRoles[(org, user)], Admin)
    requires cron !in w.calls && cancel !in w.calls && cron != cancel
    ensures var canceled := After(w, SelectEvents(w, cron) + CancelEvents(cancel, org, user));
            var end := After(w, SelectEvents(w, cron) + CancelEvents(cancel, org, user) + [Progress(cron, "", {})]);
            && cancel in canceled.calls && canceled.calls[cancel] == Returned(None)
            && org in canceled.rows.orgs && canceled.rows.orgs[org] == NOT_PENDING
            && org !in end.rows.orgs
  {
    SelectRuns(w, cron);
    var selected := After(w, SelectEvents(w, cron));
    CancelRuns(selected, org, user, cancel);
    AfterSplit(w, SelectEvents(w, cron), CancelEvents(cancel, org, user));
    hide HasOrgRole, After, CancelEvents, SelectEvents, RequestStep, ConfirmStep, CancelStep, AccountStep;
    var canceled := After(w, SelectEvents(w, cron) + CancelEvents(cancel, org, user));
    assert canceled.calls[cron] == selected.calls[cron];
    OneMore(w, SelectEvents(w, cron) + CancelEvents(cancel, org, user), Progress(cron, "", {}));
  }
}
