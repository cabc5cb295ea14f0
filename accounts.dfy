/**
 * The role and permission checks of the `User` and `Role` models. Roles are a
 * nullable string column; permissions a JSON column decoded to a list of
 * strings, or null.
 */
module Accounts {

  import opened Wrappers

  /** A `users` row, reduced to what the checks and the public profile read. */
  datatype User = User(id: int, role: Option<string>, permissions: Option<seq<string>>, isActive: bool)

  /** A `roles` row. */
  datatype Role = Role(name: string, permissions: Option<seq<string>>)

  /** `isAdmin`: the role is exactly "admin". */
  predicate IsAdmin(u: User) {
    u.role == Some("admin")
  }

  /** `isCustomer`: the role is exactly "customer". */
  predicate IsCustomer(u: User) {
    u.role == Some("customer")
  }

  /** `isGuest`: the role is exactly "guest". */
  predicate IsGuest(u: User) {
    u.role == Some("guest")
  }

  /** `in_array($needle, $haystack)`: a scan of the list from the front. */
  function InArray(needle: string, haystack: seq<string>): bool {
    if haystack == [] then false
    else haystack[0] == needle || InArray(needle, haystack[1..])
  }

  /** `$permissions ?? []`: a null column reads as the empty list. */
  function OrEmpty(permissions: Option<seq<string>>): seq<string> {
    match permissions
    case None => []
    case Some(ps) => ps
  }

  /** `User::hasPermission`. */
  predicate UserHasPermission(u: User, p: string) {
    InArray(p, OrEmpty(u.permissions))
  }

  /** `Role::hasPermission`. */
  predicate RoleHasPermission(r: Role, p: string) {
    InArray(p, OrEmpty(r.permissions))
  }

  /** The scan finds the needle exactly when it is an element of the list. */
  lemma {:induction false} InArrayIsMembership(needle: string, haystack: seq<string>)
    ensures InArray(needle, haystack) <==> needle in haystack
  {
    if haystack != [] {
      InArrayIsMembership(needle, haystack[1..]);
      assert haystack == [haystack[0]] + haystack[1..];
    }
  }

  /** A role name selects at most one of the three checks, and none without a role. */
  lemma AtMostOneRole(u: User)
    ensures !(IsAdmin(u) && IsCustomer(u)) && !(IsAdmin(u) && IsGuest(u)) && !(IsCustomer(u) && IsGuest(u))
    ensures u.role.None? ==> !IsAdmin(u) && !IsCustomer(u) && !IsGuest(u)
    ensures IsAdmin(u) || IsCustomer(u) || IsGuest(u) <==> u.role.Some? && u.role.value in {"admin", "customer", "guest"}
  {
  }

  /** A user holds a permission exactly when the column is set and lists it; a null or empty column grants nothing. */
  lemma UserPermissionIsMembership(u: User, p: string)
    ensures UserHasPermission(u, p) <==> u.permissions.Some? && p in u.permissions.value
    ensures u.permissions.None? || u.permissions == Some([]) ==> !UserHasPermission(u, p)
  {
    InArrayIsMembership(p, OrEmpty(u.permissions));
  }

  /** A role holds a permission exactly when the column is set and lists it; a null or empty column grants nothing. */
  lemma RolePermissionIsMembership(r: Role, p: string)
    ensures RoleHasPermission(r, p) <==> r.permissions.Some? && p in r.permissions.value
    ensures r.permissions.None? || r.permissions == Some([]) ==> !RoleHasPermission(r, p)
  {
    InArrayIsMembership(p, OrEmpty(r.permissions));
  }

  /** The answer depends on the permission list alone: two roles with the same list agree on every permission. */
  lemma RolePermissionReadsOnlyList(a: Role, b: Role, p: string)
    requires a.permissions == b.permissions
    ensures RoleHasPermission(a, p) == RoleHasPermission(b, p)
  {
  }

  /** A user and a role with the same list grant the same permissions. */
  lemma UserAndRoleAgree(u: User, r: Role, p: string)
    requires u.permissions == r.permissions
    ensures UserHasPermission(u, p) == RoleHasPermission(r, p)
  {
  }
}
