/**
Organization roles: the split-based reader of `packages/auth/src/permissions.ts` and the regular
expressions of `packages/auth/src/organization-role-sql.ts`, which must agree on who is an owner.
*/
module Roles {
  import opened Wrappers
  import opened JsText
  import opened RegularExpressions

  datatype OrgRole = Owner | Admin | Member

  function OrgRoles(): seq<string> {
    ["owner", "admin", "member"]
  }

  function Name(role: OrgRole): (s: string)
    ensures IsOrgRole(s) && ',' !in s
  {
    match role
    case Owner => "owner"
    case Admin => "admin"
    case Member => "member"
  }

  /** The rank of a role name. */
  function Rank(name: string): nat
    requires IsOrgRole(name)
  {
    if name == "owner" then 2 else if name == "admin" then 1 else 0
  }

  predicate IsOrgRole(value: string) {
    value in OrgRoles()
  }

  predicate AllRoles(segments: seq<string>) {
    forall segment <- segments :: IsOrgRole(segment)
  }

  /** The roles of a role string; none when any segment is unknown or repeated. */
  function Parsed(value: string): (roles: seq<string>)
    ensures AllRoles(roles)
  {
    var segments := Split(value, ',');
    if AllRoles(segments) && Distinct(segments) then segments else []
  }

  method ParseOrgRoles(value: string) returns (parsed: seq<string>)
    ensures parsed == Parsed(value)
  {
    hide Trim, IsOrgRole, Split;
    var roles := Split(value, ',');
    parsed := [];
    var seen: set<string> := {};
    for i := 0 to |roles|
      invariant parsed == roles[..i] && AllRoles(parsed) && Distinct(parsed)
      invariant forall r :: r in seen <==> r in parsed
    {
      var role := roles[i];
      assert role in roles;
      if |role| == 0 || role != Trim(role) || !IsOrgRole(role) {
        RoleNamesAreTrimmed(role);
        return [];
      }
      if role in seen {
        var j :| 0 <= j < i && parsed[j] == role;
        assert roles[j] == roles[i];
        return [];
      }
      seen := seen + {role};
      parsed := parsed + [role];
    }
    assert roles[..|roles|] == roles;
  }

  lemma RoleNamesAreTrimmed(role: string)
    ensures IsOrgRole(role) ==> role != "" && Trim(role) == role
  {
    hide Trim;
    if role == "owner" || role == "admin" || role == "member" {
      assert 'a' <= role[0] <= 'z' && 'a' <= role[|role| - 1] <= 'z';
    }
  }

  /** Some parsed role ranks at least as high as the required one. */
  predicate HasOrgRole(actual: string, required: OrgRole) {
    exists role <- Parsed(actual) :: Rank(role) >= Rank(Name(required))
  }

  /** Whether `normalizeOrgRoleSet` returns its argument instead of throwing. */
  predicate Accepted(value: string) {
    Parsed(value) != [] && Join(Parsed(value), ",") == value
  }

  // ---- The SQL predicates ----

  function OrgRolePattern(): Regex {
    AnyOf(OrgRoles())
  }

  /** `^(owner|admin|member)(,(owner|admin|member))*$` */
  function OrgRoleSetPattern(): Regex {
    Then(Start, Then(OrgRolePattern(), Then(MoreRoles(), End)))
  }

  function MoreRoles(): Regex {
    Star(Then(Literal(","), OrgRolePattern()))
  }

  /** `(^|,)role(,|$)` */
  function SegmentPattern(role: OrgRole): Regex {
    Bounded(Name(role))
  }

  function Bounded(word: string): Regex {
    Then(Either(Start, Literal(",")), Then(Literal(word), Either(Literal(","), End)))
  }

  ghost predicate MemberHasOwnerRoleSql(role: string) {
    Found(OrgRoleSetPattern(), role) && Found(SegmentPattern(Owner), role)
  }

  ghost predicate MemberHasAdminOrOwnerRoleSql(role: string) {
    && Found(OrgRoleSetPattern(), role)
    && (Found(SegmentPattern(Admin), role) || Found(SegmentPattern(Owner), role))
  }

  // ---- What the patterns match ----

  /** A role, then more of them after commas, up to the end of `s`. */
  ghost predicate RolesToEnd(s: string, i: nat)
    requires i <= |s|
  {
    exists k: nat | i <= k <= |s| :: Matches(OrgRolePattern(), s, i, k) && Matches(MoreRoles(), s, k, |s|)
  }

  lemma MoreRolesUnfold(s: string, k: nat)
    requires k <= |s|
    ensures Matches(MoreRoles(), s, k, |s|) <==> k == |s| || (s[k] == ',' && RolesToEnd(s, k + 1))
  {
    hide Matches, OrgRolePattern;
    var one := Then(Literal(","), OrgRolePattern());
    if k == |s| {
      StarEmpty(one, s, k);
    } else {
      if Matches(MoreRoles(), s, k, |s|) {
        var m := StarSplit(one, s, k, |s|);
        var c := ThenSplit(Literal(","), OrgRolePattern(), s, k, m);
        Atoms(",", s, k, c);
        assert |s[k..c]| == 1 && s[k] == s[k..c][0];
        assert RolesToEnd(s, k + 1);
      }
      if s[k] == ',' && RolesToEnd(s, k + 1) {
        var m: nat :| k + 1 <= m <= |s| && Matches(OrgRolePattern(), s, k + 1, m) && Matches(MoreRoles(), s, m, |s|);
        assert s[k..k + 1] == ",";
        Atoms(",", s, k, k + 1);
        ThenJoin(Literal(","), OrgRolePattern(), s, k, k + 1, m);
        StarJoin(one, s, k, m, |s|);
      }
    }
  }

  /** A role at `i` is a role name, with more roles exactly where the first comma is. */
  lemma RolesToEndStep(s: string, i: nat)
    requires i <= |s|
    ensures var c := Find(s[i..], ',');
            RolesToEnd(s, i) <==> IsOrgRole(s[i..i + c]) && (i + c == |s| || RolesToEnd(s, i + c + 1))
  {
    hide Matches, MoreRoles, OrgRolePattern, IsOrgRole;
    var t := s[i..];
    var c := Find(t, ',');
    RolePatternMatches(s, i, i + c);
    MoreRolesUnfold(s, i + c);
    if RolesToEnd(s, i) {
      var k: nat :| i <= k <= |s| && Matches(OrgRolePattern(), s, i, k) && Matches(MoreRoles(), s, k, |s|);
      RolePatternMatches(s, i, k);
      MoreRolesUnfold(s, k);
      RoleHasNoComma(s[i..k]);
      assert t[..k - i] == s[i..k];
      FirstCommaAt(t, k - i);
    }
  }

  lemma RolePatternMatches(s: string, i: nat, j: nat)
    requires i <= j <= |s|
    ensures Matches(OrgRolePattern(), s, i, j) <==> IsOrgRole(s[i..j])
  {
    hide Matches;
    AnyOfMatches(OrgRoles(), s, i, j);
  }

  lemma RoleHasNoComma(w: string)
    requires IsOrgRole(w)
    ensures ',' !in w
  {
    assert w == "owner" || w == "admin" || w == "member";
  }

  lemma {:induction false} RolesToEndIsSplit(s: string, i: nat)
    requires i <= |s|
    ensures RolesToEnd(s, i) <==> AllRoles(Split(s[i..], ','))
    decreases |s| - i
  {
    hide RolesToEnd, IsOrgRole, Find, Split, AllRoles;
    var t := s[i..];
    var c := Find(t, ',');
    RolesToEndStep(s, i);
    SplitStep(t, ',');
    assert t[..c] == s[i..i + c];
    if c < |t| {
      assert t[c + 1..] == s[i + c + 1..];
      RolesToEndIsSplit(s, i + c + 1);
      AllRolesCons(t[..c], Split(t[c + 1..], ','));
    } else {
      AllRolesCons(t[..c], []);
      assert [t[..c]] + [] == [t[..c]];
    }
  }

  lemma AllRolesCons(first: string, rest: seq<string>)
    ensures AllRoles([first] + rest) <==> IsOrgRole(first) && AllRoles(rest)
    ensures AllRoles([first]) <==> IsOrgRole(first)
  {
    hide IsOrgRole;
    var all := [first] + rest;
    assert first in all && forall w <- rest :: w in all;
  }

  lemma FirstCommaAt(t: string, k: nat)
    requires k <= |t| && ',' !in t[..k] && (k < |t| ==> t[k] == ',')
    ensures Find(t, ',') == k
  {
    assert forall m | 0 <= m < k :: t[m] == t[..k][m];
    if k < |t| {
      FindFirst(t, ',', k);
    } else {
      assert t[..k] == t;
    }
  }

  /** The set pattern matches exactly the strings whose segments are all role names. */
  lemma RoleSetLanguage(s: string)
    ensures Found(OrgRoleSetPattern(), s) <==> AllRoles(Split(s, ','))
  {
    assert s[0..] == s;
    RolesToEndIsSplit(s, 0);
    hide Matches, OrgRolePattern, MoreRoles;
    var more := Then(MoreRoles(), End);
    var tail := Then(OrgRolePattern(), more);
    if Found(OrgRoleSetPattern(), s) {
      var i: nat, j: nat :| i <= j <= |s| && Matches(OrgRoleSetPattern(), s, i, j);
      var a := ThenSplit(Start, tail, s, i, j);
      var b := ThenSplit(OrgRolePattern(), more, s, a, j);
      var c := ThenSplit(MoreRoles(), End, s, b, j);
      Atoms("", s, i, a);
      Atoms("", s, c, j);
      assert RolesToEnd(s, 0);
    }
    if RolesToEnd(s, 0) {
      var k: nat :| k <= |s| && Matches(OrgRolePattern(), s, 0, k) && Matches(MoreRoles(), s, k, |s|);
      Atoms("", s, 0, 0);
      Atoms("", s, |s|, |s|);
      ThenJoin(MoreRoles(), End, s, k, |s|, |s|);
      ThenJoin(OrgRolePattern(), more, s, 0, k, |s|);
      ThenJoin(Start, tail, s, 0, 0, |s|);
      assert Matches(OrgRoleSetPattern(), s, 0, |s|);
    }
  }

  /** `w` stands in `s` at `p`, bounded on both sides by a comma or an end of `s`. */
  ghost predicate SegmentAt(s: string, w: string, p: nat) {
    && p + |w| <= |s| && s[p..p + |w|] == w
    && (p == 0 || s[p - 1] == ',')
    && (p + |w| == |s| || s[p + |w|] == ',')
  }

  ghost predicate HasSegment(s: string, w: string) {
    exists p: nat :: SegmentAt(s, w, p)
  }

  lemma {:induction false} SegmentIsSplit(s: string, w: string)
    requires ',' !in w
    ensures HasSegment(s, w) <==> w in Split(s, ',')
    decreases |s|
  {
    hide Find, HasSegment, Split;
    var c := Find(s, ',');
    SegmentStep(s, w);
    SplitStep(s, ',');
    if c < |s| {
      SegmentIsSplit(s[c + 1..], w);
    }
  }

  /** A segment is the part before the first comma, or a segment of what follows it. */
  lemma SegmentStep(s: string, w: string)
    requires ',' !in w
    ensures var c := Find(s, ',');
            HasSegment(s, w) <==> s[..c] == w || (c < |s| && HasSegment(s[c + 1..], w))
  {
    hide Find, SegmentAt;
    var c := Find(s, ',');
    if p: nat :| SegmentAt(s, w, p) {
      StepForward(s, w, p);
    }
    if s[..c] == w {
      HeadIsSegment(s, w);
    }
    if c < |s| {
      var rest := s[c + 1..];
      if p: nat :| SegmentAt(rest, w, p) {
        StepBack(s, w, p);
      }
    }
  }

  lemma StepForward(s: string, w: string, p: nat)
    requires ',' !in w && SegmentAt(s, w, p)
    ensures var c := Find(s, ',');
            s[..c] == w || (c < |s| && HasSegment(s[c + 1..], w))
  {
    hide Find, SegmentAt;
    var c := Find(s, ',');
    if p <= c {
      SegmentInHead(s, w, p);
    } else {
      SegmentBound(s, w, p);
      var head, rest := s[..c], s[c + 1..];
      assert s == head + [','] + rest;
      SegmentInRest(head, rest, s, w, p - c - 1);
    }
  }

  lemma StepBack(s: string, w: string, p: nat)
    requires Find(s, ',') < |s| && SegmentAt(s[Find(s, ',') + 1..], w, p)
    ensures HasSegment(s, w)
  {
    hide Find, SegmentAt;
    var c := Find(s, ',');
    var head, rest := s[..c], s[c + 1..];
    assert s == head + [','] + rest;
    SegmentInRest(head, rest, s, w, p);
  }

  lemma SegmentBound(s: string, w: string, p: nat)
    requires SegmentAt(s, w, p)
    ensures p <= |s|
  {
  }

  lemma HeadIsSegment(s: string, w: string)
    requires s[..Find(s, ',')] == w
    ensures SegmentAt(s, w, 0)
  {
  }

  /** A segment that begins no later than the first comma is the head of the string. */
  lemma SegmentInHead(s: string, w: string, p: nat)
    requires ',' !in w && p <= Find(s, ',') && SegmentAt(s, w, p)
    ensures s[..Find(s, ',')] == w
  {
    hide Find;
    var c := Find(s, ',');
    assert forall m | 0 <= m < c :: s[m] == s[..c][m] && s[m] != ',';
    assert p == 0;
    assert s[..|w|] == w;
    FirstCommaAt(s, |w|);
  }

  lemma SegmentInRest(head: string, rest: string, s: string, w: string, p: nat)
    requires s == head + [','] + rest
    ensures SegmentAt(rest, w, p) <==> SegmentAt(s, w, |head| + 1 + p)
  {
    var at := |head| + 1;
    assert s[at..] == rest;
    if p + |w| <= |rest| {
      assert rest[p..p + |w|] == s[at + p..at + p + |w|];
      assert p > 0 ==> rest[p - 1] == s[at + p - 1];
      assert p + |w| < |rest| ==> rest[p + |w|] == s[at + p + |w|];
    }
  }

  lemma PatternFindsSegment(s: string, w: string, i: nat, j: nat)
    requires i <= j <= |s| && Matches(Bounded(w), s, i, j)
    ensures HasSegment(s, w)
  {
    hide Matches;
    var before, after := Either(Start, Literal(",")), Either(Literal(","), End);
    var p := ThenSplit(before, Then(Literal(w), after), s, i, j);
    var q := ThenSplit(Literal(w), after, s, p, j);
    EitherMatches(Start, Literal(","), s, i, p);
    EitherMatches(Literal(","), End, s, q, j);
    Atoms(",", s, i, p);
    Atoms(w, s, p, q);
    Atoms(",", s, q, j);
    assert s[i..p] == "," ==> s[p - 1] == s[i..p][p - 1 - i];
    assert s[q..j] == "," ==> s[q] == s[q..j][0];
    assert SegmentAt(s, w, p);
  }

  lemma SegmentMatchesPattern(s: string, w: string, p: nat)
    requires SegmentAt(s, w, p)
    ensures Found(Bounded(w), s)
  {
    hide Matches;
    var before, after := Either(Start, Literal(",")), Either(Literal(","), End);
    var q := p + |w|;
    var i := if p == 0 then 0 else p - 1;
    var j := if q == |s| then q else q + 1;
    assert p > 0 ==> s[i..p] == ",";
    assert q < |s| ==> s[q..j] == ",";
    Atoms(",", s, i, p);
    Atoms(w, s, p, q);
    Atoms(",", s, q, j);
    EitherMatches(Start, Literal(","), s, i, p);
    EitherMatches(Literal(","), End, s, q, j);
    ThenJoin(Literal(w), after, s, p, q, j);
    ThenJoin(before, Then(Literal(w), after), s, i, p, j);
    assert Matches(Bounded(w), s, i, j);
  }

  /** A segment pattern is found exactly in the strings that have that segment. */
  lemma SegmentLanguage(s: string, role: OrgRole)
    ensures Found(SegmentPattern(role), s) <==> Name(role) in Split(s, ',')
  {
    hide Name, Matches, Bounded, SegmentAt, Split;
    var w := Name(role);
    SegmentIsSplit(s, w);
    if Found(SegmentPattern(role), s) {
      var i: nat, j: nat :| i <= j <= |s| && Matches(Bounded(w), s, i, j);
      PatternFindsSegment(s, w, i, j);
    }
    if HasSegment(s, w) {
      var p: nat :| SegmentAt(s, w, p);
      SegmentMatchesPattern(s, w, p);
    }
  }

  // ---- The two readers compared ----

  lemma HasRoleIsSplit(s: string)
    ensures var segments := Split(s, ',');
            var readable := AllRoles(segments) && Distinct(segments);
            && (HasOrgRole(s, Owner) <==> readable && Name(Owner) in segments)
            && (HasOrgRole(s, Admin) <==> readable && (Name(Admin) in segments || Name(Owner) in segments))
  {
    var roles := Parsed(s);
    if AllRoles(Split(s, ',')) && Distinct(Split(s, ',')) {
      assert Name(Owner) in roles ==> Rank(Name(Owner)) == 2;
      assert Name(Admin) in roles ==> Rank(Name(Admin)) == 1;
    }
  }

  /**
  For every string: the TypeScript test passes exactly when the SQL one does and no segment is
  repeated.  A repeated segment is all they disagree on.
  */
  lemma ReadersCompared(s: string)
    ensures var distinct := Distinct(Split(s, ','));
            && (HasOrgRole(s, Owner) <==> MemberHasOwnerRoleSql(s) && distinct)
            && (HasOrgRole(s, Admin) <==> MemberHasAdminOrOwnerRoleSql(s) && distinct)
  {
    HasRoleIsSplit(s);
    RoleSetLanguage(s);
    SegmentLanguage(s, Owner);
    SegmentLanguage(s, Admin);
  }

  /** What `normalizeOrgRoleSet` accepts: known segments, none repeated. */
  lemma AcceptedIsSplit(s: string)
    ensures Accepted(s) <==> AllRoles(Split(s, ',')) && Distinct(Split(s, ','))
  {
    JoinOfSplit(s, ',');
  }

  /** On every stored role string, which `normalizeOrgRoleSet` has accepted, the two agree. */
  lemma ReadersAgree(s: string)
    requires Accepted(s)
    ensures HasOrgRole(s, Owner) <==> MemberHasOwnerRoleSql(s)
    ensures HasOrgRole(s, Admin) <==> MemberHasAdminOrOwnerRoleSql(s)
  {
    AcceptedIsSplit(s);
    ReadersCompared(s);
  }

  /** A string they disagree on: a role stated twice, `owner,owner` for one. */
  lemma RepeatedRoleDisagrees()
    ensures var twice := Name(Owner) + "," + Name(Owner);
            MemberHasOwnerRoleSql(twice) && !HasOrgRole(twice, Owner)
  {
    var owner := Name(Owner);
    hide Name, IsOrgRole, HasOrgRole, Split, Find, OrgRoleSetPattern, SegmentPattern;
    hide MemberHasAdminOrOwnerRoleSql;
    var twice := owner + "," + owner;
    assert twice == owner + [','] + owner;
    SplitAtFirst(owner, ',', owner);
    SplitOfJoin([owner], ',');
    var segments := Split(twice, ',');
    assert segments == [owner, owner];
    assert segments[0] == segments[1];
    AllRolesCons(owner, [owner]);
    AllRolesCons(owner, []);
    ReadersCompared(twice);
    RoleSetLanguage(twice);
    SegmentLanguage(twice, Owner);
  }

  // ---- A computable form of the SQL predicates ----

  predicate HasSegments(role: string, names: set<string>) {
    var segments := Split(role, ',');
    AllRoles(segments) && exists name <- segments :: name in names
  }

  lemma SqlPredicatesComputed(role: string)
    ensures HasSegments(role, {Name(Owner)}) <==> MemberHasOwnerRoleSql(role)
    ensures HasSegments(role, {Name(Owner), Name(Admin)}) <==> MemberHasAdminOrOwnerRoleSql(role)
  {
    RoleSetLanguage(role);
    SegmentLanguage(role, Owner);
    SegmentLanguage(role, Admin);
    hide Found, OrgRoleSetPattern, SegmentPattern, Split, AllRoles, Name;
    var segments := Split(role, ',');
    if name :| name in segments && name in {Name(Owner), Name(Admin)} {
      assert name == Name(Owner) || name == Name(Admin);
    }
  }
}
