/** The signed-in principal as the session hook exposes it. */
module Auth {
  import opened Wrappers

  /** `session.user`: id, display name and role. */
  datatype SessionUser = SessionUser(id: int, name: Option<string>, role: Option<string>)

  /** `session?.user?.role === 'admin'` */
  predicate IsAdmin(user: Option<SessionUser>) {
    user.Some? && user.value.role == Some("admin")
  }

  /**
    The admin check is an exact, case-sensitive comparison: only the role
    string `admin` grants it; no session, no role, or any other spelling does not.
   */
  lemma IsAdminExactly(u: SessionUser, role: string)
    ensures IsAdmin(Some(u.(role := Some(role)))) <==> role == "admin"
    ensures !IsAdmin(Some(u.(role := None))) && !IsAdmin(None)
    ensures !IsAdmin(Some(u.(role := Some("Admin")))) && !IsAdmin(Some(u.(role := Some("admin "))))
  {
  }
}
