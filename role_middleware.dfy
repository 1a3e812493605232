/** The role guard factory and its two instances. The authenticated user
    is what the token check attached to the request, if anything. */
module RoleMiddleware {
  import opened Common

  /** The claims of an authenticated request; `role` is absent when the
      token carries none. */
  datatype AuthUser = AuthUser(role: Option<string>)

  /** The 403 message naming the role that was required. */
  function DeniedMessage(requiredRole: string): string {
    "Access denied. " + requiredRole + " role required"
  }

  /** `roleMiddleware(requiredRole)`: no user is refused with 401; a role that
      is not exactly the required one with 403; otherwise the request goes on. */
  function RoleGuard(requiredRole: string, user: Option<AuthUser>): (r: Guard)
    ensures user.None? ==> r == Deny(401, "Authentication required")
    ensures user.Some? ==> (r.Pass? <==> user.value.role == Some(requiredRole))
    ensures user.Some? && r.Deny? ==> r == Deny(403, DeniedMessage(requiredRole))
  {
    if user.None? then Deny(401, "Authentication required")
    else if user.value.role != Some(requiredRole) then Deny(403, DeniedMessage(requiredRole))
    else Pass
  }

  function AdminOnly(user: Option<AuthUser>): Guard {
    RoleGuard("admin", user)
  }

  function InstitutionOnly(user: Option<AuthUser>): Guard {
    RoleGuard("institution", user)
  }

  /** No request passes both instance guards, and the two agree on refusing
      an unauthenticated request. */
  lemma AdminAndInstitutionExclusive(user: Option<AuthUser>)
    ensures !(AdminOnly(user).Pass? && InstitutionOnly(user).Pass?)
    ensures user.None? ==> AdminOnly(user) == InstitutionOnly(user)
    ensures AdminOnly(user).Pass? <==> user == Some(AuthUser(Some("admin")))
  {
  }

  /** The comparison is exact: a role differing only in case is refused. */
  lemma RoleComparisonIsExact()
    ensures AdminOnly(Some(AuthUser(Some("Admin")))) == Deny(403, DeniedMessage("admin"))
  {
    assert "Admin" != "admin" by {
      assert "Admin"[0] != "admin"[0];
    }
  }
}
