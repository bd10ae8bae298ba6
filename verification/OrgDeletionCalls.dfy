/**
The calls of the protocol when nothing comes in between their steps: each ends as the call of
`OrgDeletionStore.Database` does.
*/
module OrgDeletionCalls {
  import opened Wrappers
  import opened Roles
  import opened OrgDeletionStore
  import opened OrgDeletionProtocol
  import opened OrgDeletionRuns

  /** A call's start and its next `n` steps. */
  function Alone(id: CallId, call: Call, random: string, n: nat): (run: seq<Event>)
    ensures run != []
  {
    if n == 0 then [Begin(id, call)] else Alone(id, call, random, n - 1) + [Progress(id, random, {})]
  }

  lemma AloneStep(w: World, id: CallId, call: Call, random: string, n: nat)
    ensures var before := After(w, Alone(id, call, random, n));
            var step := Progress(id, random, {});
            After(w, Alone(id, call, random, n + 1)) == if Enabled(before, step) then Next(before, step) else before
  {
    hide Enabled, Next, After;
    OneMore(w, Alone(id, call, random, n), Progress(id, random, {}));
  }

  lemma AloneBegins(w: World, id: CallId, call: Call, random: string)
    requires id !in w.calls && IsStart(call, w.clock)
    ensures After(w, Alone(id, call, random, 0)) == w.(calls := w.calls[id := call])
  {
    hide After, IsStart;
    Begins(w, id, call);
  }

  lemma ConfirmAlone(w: World, id: CallId, org: OrgId, user: UserId, code: string, now: Time)
    requires id !in w.calls && now <= w.clock
    ensures var end := After(w, Alone(id, Confirm(org, user, code, now, 0), "", 3));
            var error := ConfirmError(w.rows, org, user, code, now);
            && id in end.calls && end.calls[id] == Returned(error)
            && end.rows == if error.None? then ConfirmCommit(w.rows, org, user, code, now).1 else w.rows
  {
    hide After, Alone, RoleCheck, ConfirmCommit, RequestStep, CancelStep, CronStep, AccountStep, MaySelect;
    hide Pending;
    var call := Confirm(org, user, code, now, 0);
    AloneBegins(w, id, call, "");
    AloneStep(w, id, call, "", 0);
    AloneStep(w, id, call, "", 1);
    AloneStep(w, id, call, "", 2);
    ConfirmErrorKeeps(w.rows, org, user, code, now);
  }

  lemma ConfirmErrorKeeps(d: Rows, org: OrgId, user: UserId, code: string, now: Time)
    ensures ConfirmCommit(d, org, user, code, now).0.Some? ==> ConfirmCommit(d, org, user, code, now).1 == d
  {
    hide ActiveOwner;
  }

  lemma CancelAlone(w: World, id: CallId, org: OrgId, user: UserId)
    requires id !in w.calls
    ensures var end := After(w, Alone(id, Cancel(org, user, 0), "", 3));
            var error := CancelError(w.rows, org, user);
            && id in end.calls && end.calls[id] == Returned(error)
            && end.rows == if error.None? then CancelCommit(w.rows, org, user).1 else w.rows
  {
    hide After, Alone, RoleCheck, ActiveAdminOrOwner, RequestStep, ConfirmStep, CronStep, AccountStep;
    hide MaySelect;
    var call := Cancel(org, user, 0);
    AloneBegins(w, id, call, "");
    AloneStep(w, id, call, "", 0);
    AloneStep(w, id, call, "", 1);
    AloneStep(w, id, call, "", 2);
  }

  lemma RequestAlone(w: World, id: CallId, org: OrgId, user: UserId, code: string, now: Time)
    requires id !in w.calls && now <= w.clock
    ensures var end := After(w, Alone(id, Request(org, user, now, 0), code, 4));
            var error := RequestError(w.rows, org, user);
            && id in end.calls && end.calls[id] == Returned(error)
            && end.rows == if error.None? then IssueCode(w.rows, org, user, code, now) else w.rows
  {
    hide After, Alone, RoleCheck, IssueCode, ConfirmStep, CancelStep, CronStep, AccountStep, MaySelect, Pending;
    var call := Request(org, user, now, 0);
    AloneBegins(w, id, call, code);
    AloneStep(w, id, call, code, 0);
    AloneStep(w, id, call, code, 1);
    AloneStep(w, id, call, code, 2);
    AloneStep(w, id, call, code, 3);
  }
}
