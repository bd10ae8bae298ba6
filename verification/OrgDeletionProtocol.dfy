/**
All calls of the organization deletion protocol running at once.  Each read, statement and
transaction of a call is one step; between the steps of one call anything else may happen: steps of
other calls, role changes, suspensions, new organizations and users, time passing.
*/
module OrgDeletionProtocol {
  import opened Wrappers
  import opened Roles
  import opened OrgDeletionStore

  type CallId = nat

  // A call in progress.  `stage` counts the steps it has made; `now` is the time it took at its start.
  datatype Call =
    | Request(org: OrgId, user: UserId, now: Time, stage: nat)
    | Confirm(org: OrgId, user: UserId, code: string, now: Time, stage: nat)
    | Cancel(org: OrgId, user: UserId, stage: nat)
    | Cron(now: Time, limit: nat, selection: Option<Selection>)
    | Account(user: UserId, soleOwned: Option<set<OrgId>>, cleaned: bool)
    | Returned(error: Option<Error>)

  // What a cron call selected, and where in the log it did.
  datatype Selection = Selection(ids: set<OrgId>, at: nat)

  // What has been committed, in order.
  datatype Mark =
    | Issued(org: OrgId, user: UserId, code: string, now: Time)
    | Confirmed(org: OrgId, user: UserId, code: string, now: Time)
    | Canceled(org: OrgId, user: UserId)
    | Selected(ids: set<OrgId>, now: Time)
    | Removed(ids: set<OrgId>)

  datatype Entry = Entry(mark: Mark, clock: Time)

  datatype World = World(
    rows: Rows, clock: Time, calls: map<CallId, Call>, log: seq<Entry>,
    everOrgs: set<OrgId>, everUsers: set<UserId>)

  datatype Event =
    | Begin(id: CallId, call: Call)
    | Progress(id: CallId, random: string, chosen: set<OrgId>)  // next step; a random code, a choice of rows
    | CreateOrg(org: OrgId)
    | CreateUser(user: UserId)
    | SetRole(org: OrgId, user: UserId, role: string)
    | Suspend(org: OrgId, user: UserId)
    | Tick(elapsed: nat)

  const START := World(Rows(map[], map[], {}, map[]), 0, map[], [], {}, {})

  // ---- Steps ----

  predicate IsStart(call: Call, clock: Time) {
    match call
    case Request(_, _, now, stage) => stage == 0 && now <= clock
    case Confirm(_, _, _, now, stage) => stage == 0 && now <= clock
    case Cancel(_, _, stage) => stage == 0
    case Cron(now, _, selection) => selection.None? && now <= clock
    case Account(_, soleOwned, cleaned) => soleOwned.None? && !cleaned
    case Returned(_) => false
  }

  ghost predicate Enabled(w: World, e: Event) {
    match e
    case Begin(id, call) => id !in w.calls && IsStart(call, w.clock)
    case Progress(id, _, chosen) =>
      && id in w.calls && !w.calls[id].Returned?
      && (w.calls[id].Cron? && w.calls[id].selection.None? ==>
            MaySelect(w.rows, w.calls[id].now, w.calls[id].limit, chosen))
    // Identifiers are never used twice.
    case CreateOrg(org) => org !in w.everOrgs
    case CreateUser(user) => user !in w.everUsers
    case SetRole(org, user, _) => org in w.rows.orgs && user in w.rows.users
    case Suspend(_, _) => true
    case Tick(_) => true
  }

  // What one step of a call does: the call after it, the rows after it, and what it commits.
  datatype Effect = Effect(call: Call, rows: Rows, mark: Option<Mark>)

  function Fail(d: Rows, error: Error): Effect {
    Effect(Returned(Some(error)), d, None)
  }

  /** The call with one more step behind it. */
  function Onward(c: Call): Call {
    match c
    case Request(org, user, now, stage) => Request(org, user, now, stage + 1)
    case Confirm(org, user, code, now, stage) => Confirm(org, user, code, now, stage + 1)
    case Cancel(org, user, stage) => Cancel(org, user, stage + 1)
    case _ => c
  }

  function RequestStep(d: Rows, c: Call, random: string): Effect
    requires c.Request?
  {
    if c.stage == 0 then
      match RoleCheck(d, c.org, c.user, Owner)
      case Some(error) => Fail(d, error)
      case None => Effect(Onward(c), d, None)
    else if c.stage == 1 then
      if c.org !in d.orgs then Fail(d, OrganizationNotFound)
      else if Pending(d, c.org) then Fail(d, AlreadyScheduled)
      else Effect(Onward(c), d, None)
    else if c.stage == 2 then
      if c.user !in d.users then Fail(d, UserNotFound) else Effect(Onward(c), d, None)
    else
      Effect(Returned(None), IssueCode(d, c.org, c.user, random, c.now), Some(Issued(c.org, c.user, random, c.now)))
  }

  ghost function ConfirmStep(d: Rows, c: Call): Effect
    requires c.Confirm?
  {
    if c.stage == 0 then
      match RoleCheck(d, c.org, c.user, Owner)
      case Some(error) => Fail(d, error)
      case None => Effect(Onward(c), d, None)
    else if c.stage == 1 then
      if c.org !in d.orgs then Fail(d, OrganizationNotFound)
      else if Pending(d, c.org) then Fail(d, AlreadyScheduled)
      else Effect(Onward(c), d, None)
    else
      var (error, d') := ConfirmCommit(d, c.org, c.user, c.code, c.now);
      Effect(Returned(error), d', if error.None? then Some(Confirmed(c.org, c.user, c.code, c.now)) else None)
  }

  ghost function CancelStep(d: Rows, c: Call): Effect
    requires c.Cancel?
  {
    if c.stage == 0 then
      match RoleCheck(d, c.org, c.user, Admin)
      case Some(error) => Fail(d, error)
      case None => Effect(Onward(c), d, None)
    else if c.stage == 1 then
      if c.org !in d.orgs then Fail(d, OrganizationNotFound)
      else if !Pending(d, c.org) then Fail(d, NotScheduled)
      else Effect(Onward(c), d, None)
    else
      var (error, d') := CancelCommit(d, c.org, c.user);
      Effect(Returned(error), d', if error.None? then Some(Canceled(c.org, c.user)) else None)
  }

  function CronStep(d: Rows, c: Call, chosen: set<OrgId>, at: nat): Effect
    requires c.Cron?
  {
    match c.selection
    case None => Effect(Cron(c.now, c.limit, Some(Selection(chosen, at))), d, Some(Selected(chosen, c.now)))
    case Some(s) => Effect(Returned(None), HardDelete(d, s.ids), Some(Removed(s.ids)))
  }

  ghost function AccountStep(d: Rows, c: Call): Effect
    requires c.Account?
  {
    match c.soleOwned
    case None => Effect(Account(c.user, Some(SoleOwned(d, c.user)), false), d, None)
    case Some(ids) =>
      if !c.cleaned then Effect(Account(c.user, c.soleOwned, true), HardDelete(d, ids), Some(Removed(ids)))
      else Effect(Returned(None), DeleteUser(d, c.user), None)
  }

  ghost function CallStep(d: Rows, c: Call, random: string, chosen: set<OrgId>, at: nat): Effect
    requires !c.Returned?
  {
    match c
    case Request(_, _, _, _) => RequestStep(d, c, random)
    case Confirm(_, _, _, _, _) => ConfirmStep(d, c)
    case Cancel(_, _, _) => CancelStep(d, c)
    case Cron(_, _, _) => CronStep(d, c, chosen, at)
    case Account(_, _, _) => AccountStep(d, c)
  }

  /** The world after a step of call `id` with this effect. */
  function Committed(w: World, id: CallId, effect: Effect): World {
    w.(rows := effect.rows, calls := w.calls[id := effect.call],
       log := w.log + if effect.mark.Some? then [Entry(effect.mark.value, w.clock)] else [])
  }

  ghost function Next(w: World, e: Event): World
    requires Enabled(w, e)
  {
    match e
    case Begin(id, call) => w.(calls := w.calls[id := call])
    case Progress(id, random, chosen) =>
      Committed(w, id, CallStep(w.rows, w.calls[id], random, chosen, |w.log|))
    case CreateOrg(org) =>
      w.(rows := w.rows.(orgs := w.rows.orgs[org := NOT_PENDING]), everOrgs := w.everOrgs + {org})
    case CreateUser(user) =>
      w.(rows := w.rows.(users := w.rows.users + {user}), everUsers := w.everUsers + {user})
    case SetRole(org, user, role) =>
      w.(rows := w.rows.(activeRoles := w.rows.activeRoles[(org, user) := role]))
    case Suspend(org, user) =>
      w.(rows := w.rows.(activeRoles := w.rows.activeRoles - {(org, user)}))
    case Tick(elapsed) => w.(clock := w.clock + elapsed)
  }

  /** The world after a run from `w`; an event that is not enabled does not happen. */
  ghost function After(w: World, run: seq<Event>): World {
    if run == [] then w
    else
      var before := After(w, run[..|run| - 1]);
      var e := run[|run| - 1];
      if Enabled(before, e) then Next(before, e) else before
  }

  // ---- The log ----

  predicate Concerns(m: Mark, org: OrgId) {
    match m
    case Confirmed(o, _, _, _) => o == org
    case Canceled(o, _) => o == org
    case Removed(ids) => org in ids
    case _ => false
  }

  predicate ConcernsCode(m: Mark, org: OrgId, user: UserId) {
    (m.Issued? || m.Confirmed?) && m.org == org && m.user == user
  }

  /** The latest mark about the schedule of an organization. */
  function Latest(log: seq<Entry>, org: OrgId): Option<Mark> {
    if log == [] then None
    else if Concerns(log[|log| - 1].mark, org) then Some(log[|log| - 1].mark)
    else Latest(log[..|log| - 1], org)
  }

  /** The latest mark about the confirmation code of an organization and requester. */
  function LatestCode(log: seq<Entry>, org: OrgId, user: UserId): Option<Mark> {
    if log == [] then None
    else if ConcernsCode(log[|log| - 1].mark, org, user) then Some(log[|log| - 1].mark)
    else LatestCode(log[..|log| - 1], org, user)
  }

  /** What must have come before an entry. */
  ghost predicate Justified(before: seq<Entry>, e: Entry) {
    && (before != [] ==> before[|before| - 1].clock <= e.clock)
    && match e.mark
       case Confirmed(org, user, code, now) =>
         && now <= e.clock
         && (Latest(before, org).Some? ==> Latest(before, org).value.Canceled?)
         && var issued := LatestCode(before, org, user);
            issued.Some? && issued.value.Issued? && issued.value.code == code
            && now <= issued.value.now + CONFIRMATION_CODE_TTL_MS
       case Canceled(org, _) => Latest(before, org).Some? && Latest(before, org).value.Confirmed?
       case Selected(ids, now) =>
         && now <= e.clock
         && forall id <- ids ::
              var last := Latest(before, id);
              last.Some? && last.value.Confirmed? && last.value.now + GRACE_WINDOW_MS <= now
       case _ => true
  }

  ghost predicate LogJustified(log: seq<Entry>) {
    log == [] || (LogJustified(log[..|log| - 1]) && Justified(log[..|log| - 1], log[|log| - 1]))
  }

  // ---- The invariant ----

  /** The three columns of a row, as the latest mark leaves them. */
  ghost predicate RowMatches(w: World, org: OrgId, row: OrgRow) {
    match Latest(w.log, org)
    case None => row == NOT_PENDING
    case Some(Canceled(_, _)) => row == NOT_PENDING
    case Some(Confirmed(_, user, _, now)) =>
      && user in w.everUsers
      && row == if user in w.rows.users then Scheduled(user, now)
                else Scheduled(user, now).(pendingDeletionRequestedBy := None)
    case Some(_) => false
  }

  ghost predicate CodeMatches(w: World, key: MemberKey) {
    match LatestCode(w.log, key.0, key.1)
    case Some(Issued(_, _, code, now)) =>
      key in w.rows.codes && w.rows.codes[key] == CodeRow(code, now + CONFIRMATION_CODE_TTL_MS)
    case _ => key !in w.rows.codes
  }

  ghost predicate RowsMatch(w: World) {
    && (forall org <- w.rows.orgs :: org in w.everOrgs && RowMatches(w, org, w.rows.orgs[org]))
    && (forall key: MemberKey :: CodeMatches(w, key))
    && (forall key <- w.rows.activeRoles :: key.0 in w.rows.orgs && key.1 in w.rows.users)
    && w.rows.users <= w.everUsers
  }

  ghost predicate CallsMatch(w: World) {
    forall id <- w.calls :: CallMatches(w, w.calls[id])
  }

  ghost predicate CallMatches(w: World, c: Call) {
    match c
    case Confirm(_, _, _, now, _) => now <= w.clock
    case Cron(now, _, selection) =>
      && now <= w.clock
      && (selection.Some? ==>
            && selection.value.ids <= w.everOrgs && selection.value.at < |w.log|
            && w.log[selection.value.at].mark == Selected(selection.value.ids, now))
    case Account(_, soleOwned, _) => soleOwned.Some? ==> soleOwned.value <= w.everOrgs
    case _ => true
  }

  ghost predicate LogMatches(w: World) {
    && LogJustified(w.log)
    && (w.log != [] ==> w.log[|w.log| - 1].clock <= w.clock)
    && (forall org: OrgId | org !in w.everOrgs :: NoMark(w.log, org))
  }

  ghost predicate NoMark(log: seq<Entry>, org: OrgId) {
    forall entry <- log :: !Concerns(entry.mark, org)
  }

  ghost predicate Invariant(w: World) {
    RowsMatch(w) && CallsMatch(w) && LogMatches(w)
  }
}
