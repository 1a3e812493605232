/** The stand-alone admin guard. */
module AdminAuth {
  import opened Common
  import opened RoleMiddleware

  /** `adminAuth`: the authentication check comes first (401), then the role
      check (403); an admin goes on. */
  function AdminAuth(user: Option<AuthUser>): (r: Guard)
    ensures user.None? ==> r == Deny(401, "Authentication required")
    ensures user.Some? ==> (r.Pass? <==> user.value.role == Some("admin"))
    ensures user.Some? && r.Deny? ==> r == Deny(403, "Admin access required")
  {
    if user.None? then Deny(401, "Authentication required")
    else if user.value.role != Some("admin") then Deny(403, "Admin access required")
    else Pass
  }

  /** `adminAuth` and `adminOnly` admit the same requests and refuse the rest
      with the same codes; only the 403 wording differs. */
  lemma AdminAuthAgreesWithAdminOnly(user: Option<AuthUser>)
    ensures AdminAuth(user).Pass? <==> AdminOnly(user).Pass?
    ensures AdminAuth(user).Deny? ==> AdminOnly(user).Deny? && AdminAuth(user).code == AdminOnly(user).code
    ensures user.None? ==> AdminAuth(user) == AdminOnly(user)
  {
  }
}
