/** The role-based access decision: a caller is authorized when one of the
    role strings it holds appears in the list of roles an operation grants. */
module AccessControl {
  import opened Wrappers
  import Io

  /** Either access is granted, or it is refused with an error saying why. */
  datatype Authorization = Authorized | Unauthorized(error: Io.Error)

  const UNAUTHORIZED: Io.Error := Io.Error(Io.InvalidData, "Unauthorized")
  const USER_NOT_FOUND: Io.Error := Io.Error(Io.InvalidData, "User not found")

  /** The outcome of `SELECT role FROM public.user WHERE email=$1` run with
      `fetch_one`: a row whose nullable `role` column was read, or a failure
      (no such row, or any database error). */
  datatype LookupResult = Found(role: Option<seq<string>>) | Failed

  /** Some role string in `roles` also occurs in `granted`. */
  predicate HoldsGrantedRole(roles: seq<string>, granted: seq<string>) {
    exists i :: 0 <= i < |roles| && roles[i] in granted
  }

  /** `GrantAccess::from_role`: scan the held roles in order and grant access
      at the first one that the granted list contains. */
  method FromRole(roles: seq<string>, grantedRoles: seq<string>) returns (a: Authorization)
    ensures a.Authorized? <==> HoldsGrantedRole(roles, grantedRoles)
    ensures a.Unauthorized? ==> a.error == UNAUTHORIZED
  {
    var i := 0;
    while i < |roles|
      invariant 0 <= i <= |roles|
      invariant forall j :: 0 <= j < i ==> roles[j] !in grantedRoles
    {
      if roles[i] in grantedRoles {
        return Authorized;
      }
      i := i + 1;
    }
    return Unauthorized(UNAUTHORIZED);
  }

  /** `GrantAccess::with_email`: look the user's roles up by email in `store`
      (the database query), refuse with "User not found" when the lookup fails
      or the role column is NULL, and otherwise scan the stored roles exactly as
      `from_role` does. */
  method WithEmail(email: string, store: string -> LookupResult, grantedRoles: seq<string>)
    returns (a: Authorization)
    ensures store(email).Failed? || store(email).role.None? ==> a == Unauthorized(USER_NOT_FOUND)
    ensures store(email).Found? && store(email).role.Some? ==>
      (a.Authorized? <==> HoldsGrantedRole(store(email).role.value, grantedRoles))
      && (a.Unauthorized? ==> a.error == UNAUTHORIZED)
  {
    var res := store(email);
    if res.Failed? || res.role.None? {
      return Unauthorized(USER_NOT_FOUND);
    }
    var roles := res.role.value;
    var i := 0;
    while i < |roles|
      invariant 0 <= i <= |roles|
      invariant forall j :: 0 <= j < i ==> roles[j] !in grantedRoles
    {
      if roles[i] in grantedRoles {
        return Authorized;
      }
      i := i + 1;
    }
    return Unauthorized(UNAUTHORIZED);
  }

  /** Once the store has produced a role list, `with_email` decides exactly as
      `from_role` does on that list. */
  method WithEmailAgreesWithFromRole(email: string, store: string -> LookupResult, grantedRoles: seq<string>)
    returns (viaEmail: Authorization, viaRoles: Authorization)
    requires store(email).Found? && store(email).role.Some?
    ensures viaEmail == viaRoles
  {
    viaEmail := WithEmail(email, store, grantedRoles);
    viaRoles := FromRole(store(email).role.value, grantedRoles);
  }

  /** An empty role list is never authorized. */
  lemma NoRolesNoAccess(granted: seq<string>)
    ensures !HoldsGrantedRole([], granted)
  {
  }

  /** The decision is "the two lists share an element". */
  lemma HoldsGrantedRoleIffShared(roles: seq<string>, granted: seq<string>)
    ensures HoldsGrantedRole(roles, granted) <==> exists x :: x in roles && x in granted
  {
  }

  /** Only the elements matter: reordering or duplicating entries in either
      list leaves the decision unchanged. */
  lemma HoldsGrantedRoleOnlyElements(r1: seq<string>, g1: seq<string>, r2: seq<string>, g2: seq<string>)
    requires forall x :: x in r1 <==> x in r2
    requires forall x :: x in g1 <==> x in g2
    ensures HoldsGrantedRole(r1, g1) == HoldsGrantedRole(r2, g2)
  {
    HoldsGrantedRoleIffShared(r1, g1);
    HoldsGrantedRoleIffShared(r2, g2);
  }

  /** Holding more roles, or granting more, never revokes access. */
  lemma HoldsGrantedRoleMonotone(r1: seq<string>, g1: seq<string>, r2: seq<string>, g2: seq<string>)
    requires forall x :: x in r1 ==> x in r2
    requires forall x :: x in g1 ==> x in g2
    requires HoldsGrantedRole(r1, g1)
    ensures HoldsGrantedRole(r2, g2)
  {
    HoldsGrantedRoleIffShared(r1, g1);
    HoldsGrantedRoleIffShared(r2, g2);
  }

  /** The cases of `tests/specs/access_control_test.rs`. */
  lemma FromRoleTestCases()
    ensures HoldsGrantedRole(["ROLE_USER"], ["ROLE_USER"])
    ensures !HoldsGrantedRole(["ROLE_INVALID"], ["ROLE_USER"])
  {
    var held: seq<string> := ["ROLE_USER"];
    assert held[0] in ["ROLE_USER"];
  }
}
