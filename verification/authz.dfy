/** Roles, actors and the two authorization guards of the server:
    `requireRole(...roles)` and `isAdmin(user)`. */
module Authz {
  import opened Base

  /** Roles are free strings in the user table; the three the server
      compares against get their own constructor, every other string is
      kept verbatim in Other. */
  datatype Role = Student | Admin | Superadmin | Other(name: string)

  /** The identity carried by the session cookie. The session layer
      (`requireAuth`) guarantees that every modelled route has one. */
  datatype Actor = Actor(id: UserId, role: Role)

  function RoleOf(s: string): (r: Role)
    ensures r.Other? <==> s !in {"student", "admin", "superadmin"}
  {
    if s == "student" then Student
    else if s == "admin" then Admin
    else if s == "superadmin" then Superadmin
    else Other(s)
  }

  function RoleName(r: Role): string {
    match r
    case Student => "student"
    case Admin => "admin"
    case Superadmin => "superadmin"
    case Other(s) => s
  }

  /** A role value in the form RoleOf produces: Other never spells a
      named role. */
  predicate Canonical(r: Role) {
    r.Other? ==> r.name !in {"student", "admin", "superadmin"}
  }

  /** Reading the stored string back gives the role that was written. */
  lemma RoleNameRoundTrip(r: Role)
    requires Canonical(r)
    ensures RoleOf(RoleName(r)) == r
  {
  }

  /** Every stored string is one role, and printing that role gives the
      string back. */
  lemma RoleOfRoundTrip(s: string)
    ensures Canonical(RoleOf(s))
    ensures RoleName(RoleOf(s)) == s
  {
  }

  /** `isAdmin`: admin or superadmin. */
  predicate IsAdmin(a: Actor) {
    a.role == Admin || a.role == Superadmin
  }

  /** `requireRole(...roles)`: the actor's role must be one of the listed
      ones, otherwise 403. */
  function RequireRole(a: Actor, allowed: set<Role>): Outcome {
    if a.role in allowed then Pass else Fail(Forbidden)
  }

  /** The guard as the server writes it, on strings: the session's role
      string must be non-empty and one of the listed names. */
  function RequireRoleName(role: string, roles: seq<string>): Outcome {
    if role == "" || role !in roles then Fail(Forbidden) else Pass
  }

  /** Checking roles as values agrees with the server's string check: for a
      role in canonical form and a list of non-empty role names, the actor
      passes exactly when its role's name is listed. */
  lemma RequireRoleMatchesStringCheck(a: Actor, roles: seq<string>)
    requires Canonical(a.role)
    requires forall i :: 0 <= i < |roles| ==> roles[i] != ""
    ensures RequireRole(a, set s | s in roles :: RoleOf(s)) == RequireRoleName(RoleName(a.role), roles)
  {
  }

  /** The user, group and venue administration routes all use
      `requireRole('superadmin')`. */
  function RequireSuperadmin(a: Actor): (r: Outcome)
    ensures r.Pass? ==> IsAdmin(a)
    ensures r.Pass? <==> a.role == Superadmin
    ensures r.Fail? ==> r.error == Forbidden
  {
    RequireRole(a, {Superadmin})
  }

  /** The two guards differ: a plain admin may decide on submissions and
      read the inbox, but is refused user, group and venue administration. */
  lemma AdminIsNotSuperadmin(id: UserId)
    ensures IsAdmin(Actor(id, Admin))
    ensures RequireSuperadmin(Actor(id, Admin)) == Fail(Forbidden)
  {
  }

  /** Only the two named admin roles are admins: a student or any other
      stored string is not. */
  lemma OnlyNamedRolesAreAdmin(a: Actor)
    ensures IsAdmin(a) <==> RoleName(a.role) in {"admin", "superadmin"} && Canonical(a.role)
  {
  }
}
