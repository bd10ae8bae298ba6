/**
The rows that organization deletion works on, and the single statements and transactions of
`packages/auth/src/organization-deletion.ts` as atomic steps on them.

A membership row is kept only while it is active: every query here asks for `suspended_at is null`,
and a partial unique index allows one such row for each organization and user.
*/
module OrgDeletionStore {
  import opened Wrappers
  import opened Roles

  type Time = int
  type OrgId = nat
  type UserId = nat
  type MemberKey = (OrgId, UserId)

  const CONFIRMATION_CODE_TTL_MS: Time := 24 * 60 * 60 * 1000
  const GRACE_WINDOW_MS: Time := 48 * 60 * 60 * 1000

  datatype OrgRow = OrgRow(
    pendingDeletionAt: Option<Time>,
    pendingDeletionRequestedAt: Option<Time>,
    pendingDeletionRequestedBy: Option<UserId>)

  const NOT_PENDING := OrgRow(None, None, None)

  datatype CodeRow = CodeRow(value: string, expiresAt: Time)

  // `codes` has the confirmation code of each organization and requester, the key of the source's
  // `org-delete-confirm:<org>:<user>` identifier.
  datatype Rows = Rows(
    orgs: map<OrgId, OrgRow>, activeRoles: map<MemberKey, string>, users: set<UserId>,
    codes: map<MemberKey, CodeRow>)

  datatype Error =
    | NotAMember | Forbidden | OrganizationNotFound | AlreadyScheduled | NotScheduled | UserNotFound
    | InvalidCode | CodeExpired

  // ---- Statements and transactions ----

  ghost predicate ActiveOwner(d: Rows, org: OrgId, user: UserId) {
    (org, user) in d.activeRoles && MemberHasOwnerRoleSql(d.activeRoles[(org, user)])
  }

  ghost predicate ActiveAdminOrOwner(d: Rows, org: OrgId, user: UserId) {
    (org, user) in d.activeRoles && MemberHasAdminOrOwnerRoleSql(d.activeRoles[(org, user)])
  }

  predicate Pending(d: Rows, org: OrgId) {
    org in d.orgs && d.orgs[org].pendingDeletionAt.Some?
  }

  /** The role checks made before the transactions, in TypeScript. */
  function RoleCheck(d: Rows, org: OrgId, user: UserId, required: OrgRole): Option<Error> {
    if (org, user) !in d.activeRoles then Some(NotAMember)
    else if !HasOrgRole(d.activeRoles[(org, user)], required) then Some(Forbidden)
    else None
  }

  /** The errors of the three calls when nothing comes in between. */
  function RequestError(d: Rows, org: OrgId, user: UserId): Option<Error> {
    var role := RoleCheck(d, org, user, Owner);
    if role.Some? then role
    else if org !in d.orgs then Some(OrganizationNotFound)
    else if Pending(d, org) then Some(AlreadyScheduled)
    else if user !in d.users then Some(UserNotFound)
    else None
  }

  ghost function ConfirmError(d: Rows, org: OrgId, user: UserId, code: string, now: Time): Option<Error> {
    var role := RoleCheck(d, org, user, Owner);
    if role.Some? then role
    else if org !in d.orgs then Some(OrganizationNotFound)
    else if Pending(d, org) then Some(AlreadyScheduled)
    else ConfirmCommit(d, org, user, code, now).0
  }

  ghost function CancelError(d: Rows, org: OrgId, user: UserId): Option<Error> {
    var role := RoleCheck(d, org, user, Admin);
    if role.Some? then role
    else if org !in d.orgs then Some(OrganizationNotFound)
    else if !Pending(d, org) then Some(NotScheduled)
    else CancelCommit(d, org, user).0
  }

  /** Replaces the requester's code by a new one. */
  function IssueCode(d: Rows, org: OrgId, user: UserId, code: string, now: Time): Rows {
    d.(codes := d.codes[(org, user) := CodeRow(code, now + CONFIRMATION_CODE_TTL_MS)])
  }

  function CodeCheck(d: Rows, org: OrgId, user: UserId, code: string, now: Time): Option<Error> {
    if (org, user) !in d.codes then Some(InvalidCode)
    else if d.codes[(org, user)].expiresAt < now then Some(CodeExpired)
    else if d.codes[(org, user)].value != code then Some(InvalidCode)
    else None
  }

  function Scheduled(user: UserId, now: Time): OrgRow {
    OrgRow(Some(now + GRACE_WINDOW_MS), Some(now), Some(user))
  }

  /** The confirming transaction; on an error it is rolled back. */
  ghost function ConfirmCommit(d: Rows, org: OrgId, user: UserId, code: string, now: Time): (Option<Error>, Rows) {
    var codeError := CodeCheck(d, org, user, code, now);
    if codeError.Some? then (codeError, d)
    else if org in d.orgs && !Pending(d, org) && ActiveOwner(d, org, user) then
      (None, d.(orgs := d.orgs[org := Scheduled(user, now)], codes := d.codes - {(org, user)}))
    else if org !in d.orgs then (Some(OrganizationNotFound), d)
    else if Pending(d, org) then (Some(AlreadyScheduled), d)
    else (Some(Forbidden), d)
  }

  ghost function CancelCommit(d: Rows, org: OrgId, user: UserId): (Option<Error>, Rows) {
    if Pending(d, org) && ActiveAdminOrOwner(d, org, user) then
      (None, d.(orgs := d.orgs[org := NOT_PENDING]))
    else if org !in d.orgs then (Some(OrganizationNotFound), d)
    else if !Pending(d, org) then (Some(NotScheduled), d)
    else (Some(Forbidden), d)
  }

  function Due(d: Rows, now: Time): set<OrgId> {
    set org <- d.orgs | d.orgs[org].pendingDeletionAt.Some? && d.orgs[org].pendingDeletionAt.value <= now
  }

  /** What a select of the due rows with a limit may return. */
  predicate MaySelect(d: Rows, now: Time, limit: nat, chosen: set<OrgId>) {
    chosen <= Due(d, now) && |chosen| <= limit && (|chosen| == limit || chosen == Due(d, now))
  }

  /** Deletes the organizations; their memberships go with them. */
  function HardDelete(d: Rows, ids: set<OrgId>): Rows {
    d.(orgs := d.orgs - ids,
       activeRoles := map key <- d.activeRoles | key.0 !in ids :: d.activeRoles[key])
  }

  /** Deletes a user; memberships go too, and `pending_deletion_requested_by` is set to null. */
  function DeleteUser(d: Rows, user: UserId): Rows {
    d.(users := d.users - {user},
       activeRoles := map key <- d.activeRoles | key.1 != user :: d.activeRoles[key],
       orgs := map org <- d.orgs :: Unlink(d.orgs[org], user))
  }

  function Unlink(row: OrgRow, user: UserId): OrgRow {
    if row.pendingDeletionRequestedBy == Some(user) then row.(pendingDeletionRequestedBy := None) else row
  }

  /** The organizations whose only active owner is `user`. */
  ghost function SoleOwned(d: Rows, user: UserId): set<OrgId> {
    set org <- d.orgs | ActiveOwner(d, org, user) && !OtherOwner(d, org, user)
  }

  ghost predicate OtherOwner(d: Rows, org: OrgId, user: UserId) {
    exists other: UserId :: other != user && ActiveOwner(d, org, other)
  }

  // ---- The calls as the source writes them, with nothing in between ----

  class Database {
    var orgs: map<OrgId, OrgRow>
    var activeRoles: map<MemberKey, string>
    var users: set<UserId>
    var codes: map<MemberKey, CodeRow>

    ghost function State(): Rows
      reads this
    {
      Rows(orgs, activeRoles, users, codes)
    }

    method OwnerSql(org: OrgId, user: UserId) returns (r: bool)
      ensures r <==> ActiveOwner(State(), org, user)
    {
      hide MemberHasOwnerRoleSql, HasSegments;
      if (org, user) !in activeRoles {
        return false;
      }
      SqlPredicatesComputed(activeRoles[(org, user)]);
      r := HasSegments(activeRoles[(org, user)], {Name(Owner)});
    }

    method AdminOrOwnerSql(org: OrgId, user: UserId) returns (r: bool)
      ensures r <==> ActiveAdminOrOwner(State(), org, user)
    {
      hide MemberHasAdminOrOwnerRoleSql, HasSegments;
      if (org, user) !in activeRoles {
        return false;
      }
      SqlPredicatesComputed(activeRoles[(org, user)]);
      r := HasSegments(activeRoles[(org, user)], {Name(Owner), Name(Admin)});
    }

    method GetOrgRole(org: OrgId, user: UserId) returns (r: Result<string, Error>)
      ensures r == if (org, user) in activeRoles then Ok(activeRoles[(org, user)]) else Err(NotAMember)
    {
      r := if (org, user) in activeRoles then Ok(activeRoles[(org, user)]) else Err(NotAMember);
    }

    method RequestOrgDeletion(org: OrgId, user: UserId, code: string, now: Time) returns (error: Option<Error>)
      modifies this`codes
      ensures error == RequestError(State(), org, user)
      ensures error ==
        if (org, user) !in activeRoles then Some(NotAMember)
        else if !HasOrgRole(activeRoles[(org, user)], Owner) then Some(Forbidden)
        else if org !in orgs then Some(OrganizationNotFound)
        else if orgs[org].pendingDeletionAt.Some? then Some(AlreadyScheduled)
        else if user !in users then Some(UserNotFound)
        else None
      ensures codes == if error.None? then old(codes)[(org, user) := CodeRow(code, now + 24 * 60 * 60 * 1000)]
                       else old(codes)
      ensures State() == if error.None? then IssueCode(old(State()), org, user, code, now) else old(State())
    {
      hide HasOrgRole;
      var role := GetOrgRole(org, user);
      if role.Err? {
        return Some(role.error);
      }
      if !HasOrgRole(role.value, Owner) {
        return Some(Forbidden);
      }
      if org !in orgs {
        return Some(OrganizationNotFound);
      }
      if orgs[org].pendingDeletionAt.Some? {
        return Some(AlreadyScheduled);
      }
      if user !in users {
        return Some(UserNotFound);
      }
      codes := codes - {(org, user)};
      codes := codes[(org, user) := CodeRow(code, now + CONFIRMATION_CODE_TTL_MS)];
      assert codes == old(codes)[(org, user) := CodeRow(code, now + CONFIRMATION_CODE_TTL_MS)];
      error := None;
    }

    method ConfirmTransaction(org: OrgId, user: UserId, code: string, now: Time) returns (error: Option<Error>)
      modifies this
      ensures (error, State()) == ConfirmCommit(old(State()), org, user, code, now)
      ensures error == old(
        if (org, user) !in codes then Some(InvalidCode)
        else if codes[(org, user)].expiresAt < now then Some(CodeExpired)
        else if codes[(org, user)].value != code then Some(InvalidCode)
        else if org !in orgs then Some(OrganizationNotFound)
        else if orgs[org].pendingDeletionAt.Some? then Some(AlreadyScheduled)
        else if !ActiveOwner(State(), org, user) then Some(Forbidden)
        else None)
    {
      hide ActiveOwner;
      if (org, user) !in codes {
        return Some(InvalidCode);
      }
      var verification := codes[(org, user)];
      if verification.expiresAt < now {
        return Some(CodeExpired);
      }
      if verification.value != code {
        return Some(InvalidCode);
      }
      var owner := OwnerSql(org, user);
      if org in orgs && orgs[org].pendingDeletionAt.None? && owner {
        orgs := orgs[org := OrgRow(Some(now + GRACE_WINDOW_MS), Some(now), Some(user))];
        codes := codes - {(org, user)};
        return None;
      }
      if org !in orgs {
        return Some(OrganizationNotFound);
      }
      if orgs[org].pendingDeletionAt.Some? {
        return Some(AlreadyScheduled);
      }
      error := Some(Forbidden);
    }

    /**
    Run alone, a confirmation succeeds exactly when an owner, by both readings of the role, of an
    organization that is not pending presents the unexpired code; it then schedules the deletion
    48 hours after `now` and uses the code up.  Otherwise nothing changes.
    */
    method ConfirmOrgDeletion(org: OrgId, user: UserId, code: string, now: Time)
      returns (r: Result<Time, Error>)
      modifies this
      ensures r == match ConfirmError(old(State()), org, user, code, now)
                   case Some(error) => Err(error)
                   case None => Ok(now + 48 * 60 * 60 * 1000)
      ensures ConfirmError(old(State()), org, user, code, now) == old(
        if (org, user) !in activeRoles then Some(NotAMember)
        else if !HasOrgRole(activeRoles[(org, user)], Owner) then Some(Forbidden)
        else if org !in orgs then Some(OrganizationNotFound)
        else if orgs[org].pendingDeletionAt.Some? then Some(AlreadyScheduled)
        else if (org, user) !in codes then Some(InvalidCode)
        else if codes[(org, user)].expiresAt < now then Some(CodeExpired)
        else if codes[(org, user)].value != code then Some(InvalidCode)
        else if !ActiveOwner(State(), org, user) then Some(Forbidden)
        else None)
      ensures r.Ok? ==>
                && orgs == old(orgs)[org := OrgRow(Some(now + 48 * 60 * 60 * 1000), Some(now), Some(user))]
                && codes == old(codes) - {(org, user)}
                && activeRoles == old(activeRoles) && users == old(users)
      ensures r.Err? ==> State() == old(State())
    {
      hide HasOrgRole, ActiveOwner;
      var role := GetOrgRole(org, user);
      if role.Err? {
        return Err(role.error);
      }
      if !HasOrgRole(role.value, Owner) {
        return Err(Forbidden);
      }
      if org !in orgs {
        return Err(OrganizationNotFound);
      }
      if orgs[org].pendingDeletionAt.Some? {
        return Err(AlreadyScheduled);
      }
      var error := ConfirmTransaction(org, user, code, now);
      r := if error.Some? then Err(error.value) else Ok(now + GRACE_WINDOW_MS);
    }

    method CancelStatement(org: OrgId, user: UserId) returns (error: Option<Error>)
      modifies this`orgs
      ensures (error, State()) == CancelCommit(old(State()), org, user)
    {
      hide ActiveAdminOrOwner;
      var allowed := AdminOrOwnerSql(org, user);
      if org in orgs && orgs[org].pendingDeletionAt.Some? && allowed {
        orgs := orgs[org := NOT_PENDING];
        return None;
      }
      if org !in orgs {
        return Some(OrganizationNotFound);
      }
      error := if orgs[org].pendingDeletionAt.None? then Some(NotScheduled) else Some(Forbidden);
    }

    /** Run alone, a cancellation succeeds exactly for an admin or owner of a pending organization. */
    method CancelOrgDeletion(org: OrgId, user: UserId) returns (error: Option<Error>)
      modifies this`orgs
      ensures error == CancelError(old(State()), org, user)
      ensures error == old(
        if (org, user) !in activeRoles then Some(NotAMember)
        else if !HasOrgRole(activeRoles[(org, user)], Admin) then Some(Forbidden)
        else if org !in orgs then Some(OrganizationNotFound)
        else if orgs[org].pendingDeletionAt.None? then Some(NotScheduled)
        else if !ActiveAdminOrOwner(State(), org, user) then Some(Forbidden)
        else None)
      ensures orgs == if error.None? then old(orgs)[org := OrgRow(None, None, None)] else old(orgs)
    {
      hide HasOrgRole, ActiveAdminOrOwner;
      var role := GetOrgRole(org, user);
      if role.Err? {
        return Some(role.error);
      }
      if !HasOrgRole(role.value, Admin) {
        return Some(Forbidden);
      }
      if org !in orgs {
        return Some(OrganizationNotFound);
      }
      if orgs[org].pendingDeletionAt.None? {
        return Some(NotScheduled);
      }
      error := CancelStatement(org, user);
    }

    method HardDeleteOrganizations(ids: set<OrgId>)
      modifies this`orgs, this`activeRoles
      ensures State() == HardDelete(old(State()), ids)
      ensures forall org :: org in orgs <==> org in old(orgs) && org !in ids
      ensures forall org <- orgs :: orgs[org] == old(orgs)[org]
      ensures forall key :: key in activeRoles <==> key in old(activeRoles) && key.0 !in ids
      ensures forall key <- activeRoles :: activeRoles[key] == old(activeRoles)[key]
    {
      orgs := orgs - ids;
      activeRoles := map key <- activeRoles | key.0 !in ids :: activeRoles[key];
    }

    /** Run alone, the cron deletes exactly what it selects, and selects only what is due. */
    method ProcessDueOrganizationDeletions(now: Time, limit: nat) returns (deleted: set<OrgId>)
      modifies this`orgs, this`activeRoles
      ensures |deleted| <= limit
      ensures forall org <- deleted ::
                && org in old(orgs) && old(orgs)[org].pendingDeletionAt.Some?
                && old(orgs)[org].pendingDeletionAt.value <= now
      ensures |deleted| < limit ==>
                forall org <- orgs :: orgs[org].pendingDeletionAt.None? || orgs[org].pendingDeletionAt.value > now
      ensures MaySelect(old(State()), now, limit, deleted)
      ensures State() == HardDelete(old(State()), deleted)
    {
      var due := set org <- orgs | orgs[org].pendingDeletionAt.Some? && orgs[org].pendingDeletionAt.value <= now;
      deleted := Take(due, limit);
      HardDeleteOrganizations(deleted);
    }

    static method Take(ids: set<OrgId>, limit: nat) returns (chosen: set<OrgId>)
      ensures chosen <= ids && |chosen| <= limit && (|chosen| == limit || chosen == ids)
    {
      chosen := {};
      var rest := ids;
      while rest != {} && |chosen| < limit
        invariant chosen !! rest && chosen + rest == ids && |chosen| <= limit
        decreases rest
      {
        var id :| id in rest;
        chosen, rest := chosen + {id}, rest - {id};
      }
      assert rest == {} ==> chosen == ids;
    }
  }
}
