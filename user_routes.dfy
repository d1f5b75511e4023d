/**
 * The request decisions of `backend/routes/users.py`: profile ownership,
 * the ordered checks of a profile update, the refusal of self-deletion and
 * the student scoping of a user's books. The user-fines handler is the
 * same decision as `FineRoutes.UserFines`.
 */
module UserRoutes {
  import opened Common
  import opened Store
  import opened Schema
  import opened Db
  import opened Http
  import AuthMiddleware
  import Validators
  import Users
  import Transactions
  import FineRoutes

  /** A user record as `get_user` answers with it: every column but `password_hash`. */
  datatype Profile = Profile(username: string, email: string, fullName: string, role: string,
                             phone: Option<string>, address: Option<string>, isActive: int, createdAt: int)

  /** `user.pop('password_hash')`: the record without its hash, everything else kept. */
  function PublicProfile(u: User): (p: Profile)
    ensures p.username == u.username && p.email == u.email && p.fullName == u.fullName && p.role == u.role
    ensures p.phone == u.phone && p.address == u.address && p.isActive == u.isActive && p.createdAt == u.createdAt
  {
    Profile(u.username, u.email, u.fullName, u.role, u.phone, u.address, u.isActive, u.createdAt)
  }

  /** Two accounts that differ only in their password hash have the same public profile. */
  lemma ProfileHidesHash(u: User, h: string)
    ensures PublicProfile(u.(passwordHash := h)) == PublicProfile(u)
  {
  }

  /** Admins may act on any account, everybody else only on their own. */
  predicate MayManage(caller: Caller, userId: int) {
    caller.role == "admin" || userId == caller.userId
  }

  /** `get_users`: staff only; the active accounts of the role when one is given, newest first. */
  function ListUsers(users: Table<User>, caller: Caller, role: Option<string>): (r: Response<Listing<Row<User>>>)
    requires Store.Valid(users)
    ensures caller.role !in AuthMiddleware.Staff ==> r == Fail(403, AuthMiddleware.PermissionMessage)
    ensures caller.role in AuthMiddleware.Staff ==>
              && r.code == 200 && r.body.Success? && r.body.value.count == |r.body.value.items|
              && (forall x :: x in r.body.value.items <==>
                    x.id in users.rows && users.rows[x.id] == x.value && Users.IsActive(x.value)
                    && (Given(role) ==> x.value.role == role.value))
              && DistinctIds(r.body.value.items)
  {
    var gate := AuthMiddleware.RoleRequired(AuthMiddleware.Staff, Some(caller.role));
    if gate.Deny? then Denied(gate) else Response(200, Success(ListOf(Users.GetAll(users, role))))
  }

  /** `get_user`: the ownership check comes before the lookup; inactive accounts are not found. */
  function GetUser(users: Table<User>, caller: Caller, userId: int): (r: Response<Profile>)
    ensures !MayManage(caller, userId) ==> r == Fail(403, Unauthorized)
    ensures MayManage(caller, userId) && Users.GetById(users, userId).None? ==> r == Fail(404, "User not found")
    ensures r.code == 200 <==> MayManage(caller, userId) && Users.GetById(users, userId).Some?
    ensures r.code == 200 ==> r.body == Success(PublicProfile(users.rows[userId]))
  {
    if !MayManage(caller, userId) then Fail(403, Unauthorized)
    else match Users.GetById(users, userId)
      case None => Fail(404, "User not found")
      case Some(u) => Response(200, Success(PublicProfile(u)))
  }

  const RoleChangeMessage := "Only admins can change user roles"

  /**
   * `update_user`. In order: a non-admin touching another account is
   * refused (403); an `email` key whose value the e-mail validator rejects
   * is a 400 with its message; a non-admin sending `role` is refused (403);
   * a body with no allow-listed key is "No changes made" (400). Otherwise
   * the allow-listed columns are written. `checkEmail` stands for the
   * `email_validator` package.
   */
  method UpdateUser(db: Database, caller: Caller, userId: int, patch: Users.UserPatch, checkEmail: string -> Option<string>)
    returns (resp: Response<string>)
    requires db.Valid()
    modifies db
    ensures db.Valid()
    ensures db.books == old(db.books) && db.loans == old(db.loans) && db.fines == old(db.fines)
    ensures !MayManage(caller, userId) ==> resp == Fail(403, Unauthorized)
    ensures MayManage(caller, userId) && patch.email.Some? && Validators.ValidateEmail(patch.email.value, checkEmail).Rejected? ==>
              resp == Fail(400, Validators.ValidateEmail(patch.email.value, checkEmail).message)
    ensures MayManage(caller, userId) && (patch.email.Some? ==> Validators.ValidateEmail(patch.email.value, checkEmail).Accepted?)
            && patch.role.Some? && caller.role != "admin" ==>
              resp == Fail(403, RoleChangeMessage)
    ensures MayManage(caller, userId) && (patch.email.Some? ==> Validators.ValidateEmail(patch.email.value, checkEmail).Accepted?)
            && (patch.role.Some? ==> caller.role == "admin") && !Users.AnySupplied(patch) ==>
              resp == Fail(400, "No changes made")
    ensures resp.code == 200 <==>
              && MayManage(caller, userId)
              && (patch.email.Some? ==> Validators.ValidateEmail(patch.email.value, checkEmail).Accepted?)
              && (patch.role.Some? ==> caller.role == "admin")
              && Users.AnySupplied(patch)
    ensures resp.code == 200 ==> resp.body == Success("User updated successfully")
    ensures resp.code == 200 && userId in old(db.users.rows) ==>
              db.users == old(db.users).(rows := old(db.users.rows)[userId := Users.ApplyPatch(old(db.users.rows)[userId], patch)])
    ensures resp.code != 200 || userId !in old(db.users.rows) ==> db.users == old(db.users)
    ensures caller.role != "admin" ==>
              db.users.rows.Keys == old(db.users.rows.Keys)
              && forall id :: id in db.users.rows ==> db.users.rows[id].role == old(db.users.rows[id]).role
  {
    if !MayManage(caller, userId) {
      return Fail(403, Unauthorized);
    }
    if patch.email.Some? {
      var verdict := Validators.ValidateEmail(patch.email.value, checkEmail);
      if verdict.Rejected? {
        return Fail(400, verdict.message);
      }
    }
    if patch.role.Some? && caller.role != "admin" {
      return Fail(403, RoleChangeMessage);
    }
    var ok := Users.Update(db, userId, patch);
    if ok {
      resp := Response(200, Success("User updated successfully"));
    } else {
      resp := Fail(400, "No changes made");
    }
  }

  /** `delete_user`: admins only, never their own account; the account is soft-deleted. */
  method DeleteUser(db: Database, caller: Caller, userId: int) returns (resp: Response<string>)
    requires db.Valid()
    modifies db
    ensures db.Valid()
    ensures db.books == old(db.books) && db.loans == old(db.loans) && db.fines == old(db.fines)
    ensures caller.role != "admin" ==> resp == Fail(403, AuthMiddleware.PermissionMessage) && db.users == old(db.users)
    ensures caller.role == "admin" && userId == caller.userId ==> resp == Fail(400, "Cannot delete your own account") && db.users == old(db.users)
    ensures resp.code == 200 <==> caller.role == "admin" && userId != caller.userId
    ensures resp.code == 200 ==>
              && resp.body == Success("User deleted successfully") && Users.GetById(db.users, userId).None?
              && db.users.rows.Keys == old(db.users.rows.Keys) && db.users.next == old(db.users.next)
              && (userId in db.users.rows ==> db.users.rows[userId] == old(db.users.rows[userId]).(isActive := 0))
              && (forall id :: id in db.users.rows && id != userId ==> db.users.rows[id] == old(db.users.rows[id]))
    ensures Users.GetById(old(db.users), caller.userId).Some? ==> Users.GetById(db.users, caller.userId).Some?
  {
    var gate := AuthMiddleware.RoleRequired(AuthMiddleware.AdminOnly, Some(caller.role));
    if gate.Deny? {
      return Denied(gate);
    }
    if userId == caller.userId {
      return Fail(400, "Cannot delete your own account");
    }
    var ok := Users.Delete(db, userId);
    if ok {
      resp := Response(200, Success("User deleted successfully"));
    } else {
      resp := Fail(500, "Failed to delete user");
    }
  }

  /**
   * `get_user_books`: 403 for a student asking about someone else;
   * otherwise the user's loans in status `issued` only, so loans already
   * swept to `overdue` are not listed.
   */
  function UserBooks(loans: Table<Loan>, books: Table<Book>, caller: Caller, userId: int): (r: Response<Listing<Row<Loan>>>)
    requires Store.Valid(loans)
    ensures !FineRoutes.MayRead(caller, userId) ==> r == Fail(403, Unauthorized)
    ensures r.code == 200 <==> FineRoutes.MayRead(caller, userId)
    ensures r.code == 200 ==>
              && r.body.Success? && r.body.value.count == |r.body.value.items|
              && (forall x :: x in r.body.value.items <==>
                    x.id in loans.rows && loans.rows[x.id] == x.value && x.value.userId == userId
                    && x.value.bookId in books.rows && x.value.status == Issued)
              && DistinctIds(r.body.value.items)
  {
    if !FineRoutes.MayRead(caller, userId) then Fail(403, Unauthorized)
    else Response(200, Success(ListOf(Transactions.GetByUser(loans, books, userId, Some("issued")))))
  }
}
