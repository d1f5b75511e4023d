/**
 * The accounts of `backend/models/user.py`: creation with the `student`
 * default, getters that see active accounts only, allow-listed update, soft
 * delete and password change. `bcrypt` is outside the model: the caller
 * passes the hash it produced.
 */
module Users {
  import opened Common
  import opened Store
  import opened Schema
  import opened Db

  /**
   * `User.create`: a new active account. The role is `student` when the
   * caller leaves it out; phone and address are NULL unless given.
   */
  method Create(db: Database, username: string, email: string, passwordHash: string, fullName: string,
                role: Option<string>, phone: Option<string>, address: Option<string>, now: int) returns (id: int)
    requires db.Valid()
    modifies db
    ensures db.Valid()
    ensures id == old(db.users.next) && id !in old(db.users.rows)
    ensures var r := if role.Some? then role.value else "student";
      db.users == Insert(old(db.users), User(username, email, passwordHash, fullName, r, phone, address, 1, now))
    ensures role.None? ==> db.users.rows[id].role == "student"
    ensures db.books == old(db.books) && db.loans == old(db.loans) && db.fines == old(db.fines)
  {
    var r := if role.Some? then role.value else "student";
    id := db.users.next;
    db.users := Insert(db.users, User(username, email, passwordHash, fullName, r, phone, address, 1, now));
  }

  predicate IsActive(u: User) {
    u.isActive == 1
  }

  /** `User.get_by_id`: the account, provided it is active. */
  function GetById(users: Table<User>, id: int): (r: Option<User>)
    ensures r.Some? <==> id in users.rows && IsActive(users.rows[id])
    ensures r.Some? ==> r.value == users.rows[id]
  {
    if id in users.rows && IsActive(users.rows[id]) then Some(users.rows[id]) else None
  }

  /** The first active row, in id order, for which `key` gives `value`. */
  function FindActive(users: Table<User>, key: User -> string, value: string): (r: Option<Row<User>>)
    requires Store.Valid(users)
    ensures r.Some? ==> r.value.id in users.rows && users.rows[r.value.id] == r.value.value
                        && IsActive(r.value.value) && key(r.value.value) == value
    ensures r.None? <==> forall id :: id in users.rows ==> !(IsActive(users.rows[id]) && key(users.rows[id]) == value)
  {
    var rows := Rows(users);
    var r := First(rows, (x: Row<User>) => IsActive(x.value) && key(x.value) == value);
    assert r.None? ==> forall id :: id in users.rows ==> !(IsActive(users.rows[id]) && key(users.rows[id]) == value) by {
      if r.None? {
        forall id | id in users.rows ensures !(IsActive(users.rows[id]) && key(users.rows[id]) == value) {
          assert Row(id, users.rows[id]) in rows;
        }
      }
    }
    r
  }

  function EmailOf(u: User): string { u.email }
  function UsernameOf(u: User): string { u.username }

  /** `User.get_by_email`: an active account with that e-mail address, if there is one. */
  function GetByEmail(users: Table<User>, email: string): (r: Option<Row<User>>)
    requires Store.Valid(users)
    ensures r.Some? ==> r.value.id in users.rows && users.rows[r.value.id] == r.value.value
                        && IsActive(r.value.value) && r.value.value.email == email
    ensures r.None? <==> forall id :: id in users.rows ==> !(IsActive(users.rows[id]) && users.rows[id].email == email)
  {
    FindActive(users, EmailOf, email)
  }

  /** `User.get_by_username`: an active account with that user name, if there is one. */
  function GetByUsername(users: Table<User>, username: string): (r: Option<Row<User>>)
    requires Store.Valid(users)
    ensures r.Some? ==> r.value.id in users.rows && users.rows[r.value.id] == r.value.value
                        && IsActive(r.value.value) && r.value.value.username == username
    ensures r.None? <==> forall id :: id in users.rows ==> !(IsActive(users.rows[id]) && users.rows[id].username == username)
  {
    FindActive(users, UsernameOf, username)
  }

  /** `ORDER BY created_at DESC`. */
  predicate NewestFirst(a: Row<User>, b: Row<User>) {
    a.value.createdAt >= b.value.createdAt
  }

  predicate MatchesRole(role: Option<string>, x: Row<User>) {
    IsActive(x.value) && (Given(role) ==> x.value.role == role.value)
  }

  /** `User.get_all`: the active accounts, of the role when one is given, newest first. */
  function GetAll(users: Table<User>, role: Option<string>): (r: seq<Row<User>>)
    requires Store.Valid(users)
    ensures SortedBy(r, NewestFirst)
    ensures DistinctIds(r)
    ensures forall x :: x in r <==>
              && x.id in users.rows && users.rows[x.id] == x.value && IsActive(x.value)
              && (Given(role) ==> x.value.role == role.value)
  {
    var p := (x: Row<User>) => MatchesRole(role, x);
    QueryDistinct(users, p, NewestFirst);
    SortBy(Filter(Rows(users), p), NewestFirst)
  }

  // ---------------------------------------------------------------------------
  // update
  // ---------------------------------------------------------------------------

  /**
   * The keyword arguments of `User.update`; `None` means the key is absent.
   * `username` and `passwordHash` may be passed but are not in the allow-list.
   */
  datatype UserPatch = UserPatch(
    email: Option<string>,
    fullName: Option<string>,
    phone: Option<Option<string>>,
    address: Option<Option<string>>,
    role: Option<string>,
    isActive: Option<int>,
    username: Option<string>,
    passwordHash: Option<string>
  )

  datatype UserField = Email | FullName | Phone | Address | Role | Active

  const AllowedUserFields: seq<UserField> := [Email, FullName, Phone, Address, Role, Active]

  predicate Supplied(p: UserPatch, f: UserField) {
    match f
    case Email => p.email.Some?
    case FullName => p.fullName.Some?
    case Phone => p.phone.Some?
    case Address => p.address.Some?
    case Role => p.role.Some?
    case Active => p.isActive.Some?
  }

  predicate AnySupplied(p: UserPatch) {
    exists f :: f in AllowedUserFields && Supplied(p, f)
  }

  /** `AnySupplied` as the loop over the allow-list sees it, position by position. */
  lemma AnySuppliedByPosition(p: UserPatch)
    ensures AnySupplied(p) <==> exists k :: 0 <= k < |AllowedUserFields| && Supplied(p, AllowedUserFields[k])
  {
    if AnySupplied(p) {
      var f :| f in AllowedUserFields && Supplied(p, f);
      assert AllowedUserFields[Position(f)] == f;
    }
  }

  function SetField(u: User, p: UserPatch, f: UserField): User
    requires Supplied(p, f)
  {
    match f
    case Email => u.(email := p.email.value)
    case FullName => u.(fullName := p.fullName.value)
    case Phone => u.(phone := p.phone.value)
    case Address => u.(address := p.address.value)
    case Role => u.(role := p.role.value)
    case Active => u.(isActive := p.isActive.value)
  }

  function Position(f: UserField): (n: nat)
    ensures n < |AllowedUserFields| && AllowedUserFields[n] == f
  {
    match f
    case Email => 0
    case FullName => 1
    case Phone => 2
    case Address => 3
    case Role => 4
    case Active => 5
  }

  /** The row after the assignments for the supplied fields among the first `n` of the allow-list. */
  function PatchUpTo(u: User, p: UserPatch, n: nat): User {
    u.(email := if p.email.Some? && Position(Email) < n then p.email.value else u.email,
       fullName := if p.fullName.Some? && Position(FullName) < n then p.fullName.value else u.fullName,
       phone := if p.phone.Some? && Position(Phone) < n then p.phone.value else u.phone,
       address := if p.address.Some? && Position(Address) < n then p.address.value else u.address,
       role := if p.role.Some? && Position(Role) < n then p.role.value else u.role,
       isActive := if p.isActive.Some? && Position(Active) < n then p.isActive.value else u.isActive)
  }

  /**
   * The row `User.update` writes: the supplied allow-listed columns take the
   * supplied values; the user name, password hash and creation time never
   * change.
   */
  function ApplyPatch(u: User, p: UserPatch): (r: User)
    ensures r.username == u.username && r.passwordHash == u.passwordHash && r.createdAt == u.createdAt
    ensures !AnySupplied(p) ==> r == u
    ensures r.email == if p.email.Some? then p.email.value else u.email
    ensures r.fullName == if p.fullName.Some? then p.fullName.value else u.fullName
    ensures r.phone == if p.phone.Some? then p.phone.value else u.phone
    ensures r.address == if p.address.Some? then p.address.value else u.address
    ensures r.role == if p.role.Some? then p.role.value else u.role
    ensures r.isActive == if p.isActive.Some? then p.isActive.value else u.isActive
  {
    assert !AnySupplied(p) ==>
      (&& !Supplied(p, Email) && !Supplied(p, FullName) && !Supplied(p, Phone)
       && !Supplied(p, Address) && !Supplied(p, Role) && !Supplied(p, Active));
    PatchUpTo(u, p, |AllowedUserFields|)
  }

  lemma PatchStep(u: User, p: UserPatch, i: nat)
    requires i < |AllowedUserFields|
    ensures Supplied(p, AllowedUserFields[i]) ==> PatchUpTo(u, p, i + 1) == SetField(PatchUpTo(u, p, i), p, AllowedUserFields[i])
    ensures !Supplied(p, AllowedUserFields[i]) ==> PatchUpTo(u, p, i + 1) == PatchUpTo(u, p, i)
  {
    assert Position(AllowedUserFields[i]) == i;
  }

  /**
   * `User.update`: `false` and no write when no allow-listed key is given;
   * otherwise the row (active or not, if it exists) is rewritten and the
   * answer is `true`.
   */
  method Update(db: Database, userId: int, patch: UserPatch) returns (ok: bool)
    requires db.Valid()
    modifies db
    ensures db.Valid()
    ensures ok <==> AnySupplied(patch)
    ensures ok && userId in old(db.users.rows) ==>
              db.users == old(db.users).(rows := old(db.users.rows)[userId := ApplyPatch(old(db.users.rows)[userId], patch)])
    ensures !ok || userId !in old(db.users.rows) ==> db.users == old(db.users)
    ensures db.books == old(db.books) && db.loans == old(db.loans) && db.fines == old(db.fines)
  {
    var updates := 0;
    var current := if userId in db.users.rows then db.users.rows[userId] else User("", "", "", "", "", None, None, 0, 0);
    ghost var original := current;
    var i := 0;
    while i < |AllowedUserFields|
      invariant 0 <= i <= |AllowedUserFields|
      invariant current == PatchUpTo(original, patch, i)
      invariant unchanged(db)
      invariant updates > 0 <==> exists k :: 0 <= k < i && Supplied(patch, AllowedUserFields[k])
    {
      var field := AllowedUserFields[i];
      PatchStep(original, patch, i);
      if Supplied(patch, field) {
        current := SetField(current, patch, field);
        updates := updates + 1;
        assert Supplied(patch, AllowedUserFields[i]);
      } else {
        assert forall k :: 0 <= k <= i && Supplied(patch, AllowedUserFields[k]) ==> k < i;
      }
      i := i + 1;
    }
    AnySuppliedByPosition(patch);
    if updates == 0 {
      return false;
    }
    if userId in db.users.rows {
      db.users := db.users.(rows := db.users.rows[userId := current]);
    }
    return true;
  }

  /**
   * `User.delete`, a soft delete: the row stays, with `is_active = 0`, so
   * the active-only getters no longer see it. The answer is always `true`.
   */
  method Delete(db: Database, userId: int) returns (ok: bool)
    requires db.Valid()
    modifies db
    ensures db.Valid() && ok
    ensures db.users.rows.Keys == old(db.users.rows.Keys) && db.users.next == old(db.users.next)
    ensures userId in db.users.rows ==> db.users.rows[userId] == old(db.users.rows[userId]).(isActive := 0)
    ensures forall id :: id in db.users.rows && id != userId ==> db.users.rows[id] == old(db.users.rows[id])
    ensures GetById(db.users, userId).None?
    ensures db.books == old(db.books) && db.loans == old(db.loans) && db.fines == old(db.fines)
  {
    if userId in db.users.rows {
      db.users := db.users.(rows := db.users.rows[userId := db.users.rows[userId].(isActive := 0)]);
    }
    return true;
  }

  /** `User.change_password`: only that account's password hash changes; always `true`. */
  method ChangePassword(db: Database, userId: int, newHash: string) returns (ok: bool)
    requires db.Valid()
    modifies db
    ensures db.Valid() && ok
    ensures db.users.rows.Keys == old(db.users.rows.Keys) && db.users.next == old(db.users.next)
    ensures userId in db.users.rows ==> db.users.rows[userId] == old(db.users.rows[userId]).(passwordHash := newHash)
    ensures forall id :: id in db.users.rows && id != userId ==> db.users.rows[id] == old(db.users.rows[id])
    ensures db.books == old(db.books) && db.loans == old(db.loans) && db.fines == old(db.fines)
  {
    if userId in db.users.rows {
      db.users := db.users.(rows := db.users.rows[userId := db.users.rows[userId].(passwordHash := newHash)]);
    }
    return true;
  }
}
