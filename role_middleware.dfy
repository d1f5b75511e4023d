/**
 * `backend/middleware/role_middleware.py`: three fixed role guards. A
 * handler without a role (`kwargs.get` gives `None`) is refused by all of them.
 */
module RoleMiddleware {
  import opened Common
  import opened Http
  import AuthMiddleware
  import Validators

  /** `admin_required`. */
  function AdminRequired(role: Option<string>): (g: Gate)
    ensures g.Pass? <==> role == Some("admin")
    ensures g.Deny? ==> g == Deny(403, "Admin access required")
  {
    if role != Some("admin") then Deny(403, "Admin access required") else Pass
  }

  /** `librarian_required`: admins and librarians. */
  function LibrarianRequired(role: Option<string>): (g: Gate)
    ensures g.Pass? <==> role == Some("admin") || role == Some("librarian")
    ensures g.Deny? ==> g == Deny(403, "Librarian access required")
  {
    if role.None? || role.value !in ["admin", "librarian"] then Deny(403, "Librarian access required") else Pass
  }

  /** `student_required`: admins, librarians and students. */
  function StudentRequired(role: Option<string>): (g: Gate)
    ensures g.Pass? <==> role == Some("admin") || role == Some("librarian") || role == Some("student")
    ensures g.Deny? ==> g == Deny(403, "Student access required")
  {
    if role.None? || role.value !in ["admin", "librarian", "student"] then Deny(403, "Student access required") else Pass
  }

  /** The guards are nested: admin ⊆ librarian ⊆ student, and without a role nobody passes. */
  lemma GuardsNested(role: Option<string>)
    ensures AdminRequired(role).Pass? ==> LibrarianRequired(role).Pass?
    ensures LibrarianRequired(role).Pass? ==> StudentRequired(role).Pass?
    ensures role.None? ==> AdminRequired(role).Deny? && LibrarianRequired(role).Deny? && StudentRequired(role).Deny?
  {
  }

  /**
   * The fixed guards let through the same callers as `role_required` with
   * the same roles, and `student_required` lets through exactly the roles
   * `validate_role` accepts; only the messages differ.
   */
  lemma GuardsAgreeWithRoleRequired(role: Option<string>)
    ensures AdminRequired(role).Pass? <==> AuthMiddleware.RoleRequired(AuthMiddleware.AdminOnly, role).Pass?
    ensures LibrarianRequired(role).Pass? <==> AuthMiddleware.RoleRequired(AuthMiddleware.Staff, role).Pass?
    ensures StudentRequired(role).Pass? <==> role.Some? && Validators.ValidateRole(role.value).Accepted?
  {
  }
}
