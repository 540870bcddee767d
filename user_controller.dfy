/** User management: `addUser`, `listUsers`, `updateUser` and `deleteUser`.
    Every statement is keyed by the tenant id of the token (`req.user`),
    never by a path parameter. */
module UserController {
  import opened Values
  import opened Lists
  import opened Table
  import opened Schema
  import opened Http

  /** `req.body` of `POST /tenants/:tenantId/users`. */
  datatype NewUserBody = NewUserBody(
    email: Field<string>,
    fullName: Field<string>,
    password: Field<string>,
    role: Field<string>,
    isActive: Field<bool>)

  /** `req.body` of `PUT /users/:userId`. */
  datatype UserPatchBody = UserPatchBody(
    fullName: Field<string>,
    role: Field<string>,
    isActive: Field<bool>)

  /** `RETURNING id, email, full_name, role, is_active, created_at` (and the
      same columns listed by `listUsers`): a user without its password hash. */
  datatype UserView = UserView(
    id: string,
    email: string,
    fullName: Option<string>,
    role: Option<string>,
    isActive: Option<bool>,
    createdAt: int)

  /** `RETURNING id, email, full_name, role, is_active` of `updateUser`. */
  datatype UpdatedUser = UpdatedUser(
    id: string,
    email: string,
    fullName: Option<string>,
    role: Option<string>,
    isActive: Option<bool>)

  function View(u: UserRow): UserView {
    UserView(u.id, u.data.email, u.data.fullName, u.data.role, u.data.isActive, u.createdAt)
  }

  function UpdatedView(u: UserRow): UpdatedUser {
    UpdatedUser(u.id, u.data.email, u.data.fullName, u.data.role, u.data.isActive)
  }

  // ---------------------------------------------------------------------
  // Invariants of the users table that the operations keep

  /** Two users of one tenant never share an email; users of different
      tenants may. */
  predicate EmailsUniquePerTenant(users: seq<UserRow>) {
    forall i, j :: 0 <= i < j < |users| && users[i].tenantId == users[j].tenantId
      ==> users[i].data.email != users[j].data.email
  }

  /** No tenant has more users (active or not) than its `max_users`. */
  predicate WithinUserQuota(tenants: seq<Tenant>, users: seq<UserRow>) {
    forall k :: 0 <= k < |tenants| ==> Count(users, tenants[k].id) <= tenants[k].maxUsers
  }

  // ---------------------------------------------------------------------
  // addUser

  predicate RequiredFieldsPresent(body: NewUserBody) {
    Truthy(body.email) && Truthy(body.fullName) && Truthy(body.password)
  }

  /** `SELECT id FROM users WHERE email = $1 AND tenant_id = $2` finds a row. */
  predicate EmailTaken(users: seq<UserRow>, email: string, t: string) {
    exists k :: 0 <= k < |users| && users[k].tenantId == t && users[k].data.email == email
  }

  /** The verdict of the checks `addUser` runs before its insert. */
  datatype Admission = Admit | Reject(status: int, message: string)

  /** The checks of `addUser`, in the order it runs them: required fields
      (400); the tenant row, whose absence makes `rows[0].max_users` throw
      (500); the quota, counted over all the tenant's users (403), before
      the email check; the email within the same tenant (409). */
  function AdmitUser(tenants: seq<Tenant>, users: seq<UserRow>, t: string, body: NewUserBody): (v: Admission)
    ensures !RequiredFieldsPresent(body) ==> v == Reject(400, "Missing required fields")
    ensures RequiredFieldsPresent(body) && FindTenant(tenants, t).None?
      ==> v == Reject(500, "Failed to add user")
    ensures RequiredFieldsPresent(body) && FindTenant(tenants, t).Some?
      && Count(users, t) >= FindTenant(tenants, t).value.maxUsers
      ==> v == Reject(403, "User limit exceeded")
    ensures RequiredFieldsPresent(body) && FindTenant(tenants, t).Some?
      && Count(users, t) < FindTenant(tenants, t).value.maxUsers
      && EmailTaken(users, body.email.value, t)
      ==> v == Reject(409, "User already exists")
    ensures v == Admit <==>
      RequiredFieldsPresent(body) && FindTenant(tenants, t).Some?
      && Count(users, t) < FindTenant(tenants, t).value.maxUsers
      && !EmailTaken(users, body.email.value, t)
  {
    if !RequiredFieldsPresent(body) then Reject(400, "Missing required fields")
    else
      match FindTenant(tenants, t)
      case None => Reject(500, "Failed to add user")
      case Some(tenant) =>
        if Count(users, t) >= tenant.maxUsers then Reject(403, "User limit exceeded")
        else if EmailTaken(users, body.email.value, t) then Reject(409, "User already exists")
        else Admit
  }

  /** The row `addUser` inserts: a fresh id, the token's tenant, the hashed
      password, and `is_active` true unless the body says otherwise. */
  function NewUser(id: string, t: string, body: NewUserBody, passwordHash: string, now: int): (row: UserRow)
    requires body.email.Present?
    ensures row.id == id && row.tenantId == t && row.createdAt == now && row.updatedAt == now
    ensures row.data.email == body.email.value && row.data.passwordHash == passwordHash
    ensures row.data.fullName == body.fullName.Column() && row.data.role == body.role.Column()
    ensures body.isActive.Absent? ==> row.data.isActive == Some(true)
    ensures !body.isActive.Absent? ==> row.data.isActive == body.isActive.Column()
  {
    var isActive := if body.isActive.Absent? then Some(true) else body.isActive.Column();
    Row(id, t, now, now, UserData(body.email.value, passwordHash, body.fullName.Column(), body.role.Column(), isActive))
  }

  /** The checks read only the caller's tenant's users: the same email in
      another tenant, or any other change to another tenant, does not alter
      the verdict. */
  lemma AdmitUserLocal(tenants: seq<Tenant>, users1: seq<UserRow>, users2: seq<UserRow>, t: string, body: NewUserBody)
    requires Scoped(users1, t) == Scoped(users2, t)
    ensures AdmitUser(tenants, users1, t, body) == AdmitUser(tenants, users2, t, body)
  {
    if RequiredFieldsPresent(body) {
      EmailTakenLocal(users1, body.email.value, t);
      EmailTakenLocal(users2, body.email.value, t);
    }
  }

  lemma EmailTakenLocal(users: seq<UserRow>, email: string, t: string)
    ensures EmailTaken(users, email, t) <==> EmailTaken(Scoped(users, t), email, t)
  {
    var s := Scoped(users, t);
    if EmailTaken(users, email, t) {
      var k :| 0 <= k < |users| && users[k].tenantId == t && users[k].data.email == email;
      assert users[k] in s;
    }
    if EmailTaken(s, email, t) {
      var k :| 0 <= k < |s| && s[k].tenantId == t && s[k].data.email == email;
      assert s[k] in users;
    }
  }

  /** A user with the same email in a different tenant does not block. */
  lemma ForeignEmailDoesNotBlock(tenants: seq<Tenant>, users: seq<UserRow>, t: string, body: NewUserBody, other: UserRow)
    requires other.tenantId != t
    ensures AdmitUser(tenants, users + [other], t, body) == AdmitUser(tenants, users, t, body)
  {
    ScopedAppend(users, other, t);
    AdmitUserLocal(tenants, users + [other], users, t, body);
  }

  /** An admitted insert keeps emails unique within each tenant. */
  lemma AdmittedKeepsEmailsUnique(tenants: seq<Tenant>, users: seq<UserRow>, body: NewUserBody, row: UserRow)
    requires EmailsUniquePerTenant(users)
    requires AdmitUser(tenants, users, row.tenantId, body) == Admit
    requires row.data.email == body.email.value
    ensures EmailsUniquePerTenant(users + [row])
  {
    var s := users + [row];
    forall i, j | 0 <= i < j < |s| && s[i].tenantId == s[j].tenantId
      ensures s[i].data.email != s[j].data.email
    {
      if j == |users| {
        assert s[i] == users[i];
      }
    }
  }

  /** An admitted insert keeps every tenant within its quota. */
  lemma AdmittedKeepsQuota(tenants: seq<Tenant>, users: seq<UserRow>, body: NewUserBody, row: UserRow)
    requires TenantIdsUnique(tenants) && WithinUserQuota(tenants, users)
    requires AdmitUser(tenants, users, row.tenantId, body) == Admit
    ensures WithinUserQuota(tenants, users + [row])
  {
    forall k | 0 <= k < |tenants|
      ensures Count(users + [row], tenants[k].id) <= tenants[k].maxUsers
    {
      ScopedAppend(users, row, tenants[k].id);
      if tenants[k].id == row.tenantId {
        FindTenantUnique(tenants, k);
      }
    }
  }

  /** `addUser` */
  method AddUser(db: Database, user: Claims, body: NewUserBody, newId: string, now: int, hash: string -> string)
    returns (r: Response<UserView>)
    modifies db
    ensures db.tenants == old(db.tenants) && db.projects == old(db.projects) && db.auditLogs == old(db.auditLogs)
    ensures AdmitUser(old(db.tenants), old(db.users), user.tenantId, body).Reject? ==>
      var v := AdmitUser(old(db.tenants), old(db.users), user.tenantId, body);
      r == Err(v.status, v.message) && db.users == old(db.users)
    ensures AdmitUser(old(db.tenants), old(db.users), user.tenantId, body) == Admit ==>
      var row := NewUser(newId, user.tenantId, body, hash(body.password.value), now);
      db.users == old(db.users) + [row] && r == Ok(201, View(row))
    ensures forall t :: t != user.tenantId ==> Scoped(db.users, t) == Scoped(old(db.users), t)
    ensures EmailsUniquePerTenant(old(db.users)) ==> EmailsUniquePerTenant(db.users)
    ensures TenantIdsUnique(db.tenants) && WithinUserQuota(db.tenants, old(db.users))
      ==> WithinUserQuota(db.tenants, db.users)
  {
    var tenantId := user.tenantId;
    if !Truthy(body.email) || !Truthy(body.fullName) || !Truthy(body.password) {
      return Err(400, "Missing required fields");
    }
    var tenant := FindTenant(db.tenants, tenantId);
    if tenant.None? {
      return Err(500, "Failed to add user");
    }
    if Count(db.users, tenantId) >= tenant.value.maxUsers {
      return Err(403, "User limit exceeded");
    }
    if EmailTaken(db.users, body.email.value, tenantId) {
      return Err(409, "User already exists");
    }
    var passwordHash := hash(body.password.value);
    var row := NewUser(newId, tenantId, body, passwordHash, now);
    ghost var before := db.users;
    db.users := db.users + [row];
    r := Ok(201, View(row));
    forall t | t != tenantId ensures Scoped(db.users, t) == Scoped(before, t) {
      ScopedAppend(before, row, t);
    }
    if EmailsUniquePerTenant(before) {
      AdmittedKeepsEmailsUnique(db.tenants, before, body, row);
    }
    if TenantIdsUnique(db.tenants) && WithinUserQuota(db.tenants, before) {
      AdmittedKeepsQuota(db.tenants, before, body, row);
    }
  }

  // ---------------------------------------------------------------------
  // listUsers

  /** `listUsers`: the caller's tenant's users, oldest first, without
      password hashes. The `:tenantId` path parameter plays no part. */
  function ListUsers(users: seq<UserRow>, user: Claims, pathTenantId: string): (r: Response<seq<UserView>>)
    ensures r.Ok? && r.status == 200
    ensures forall i, j :: 0 <= i < j < |r.data| ==> r.data[i].createdAt <= r.data[j].createdAt
    ensures multiset(r.data) == multiset(Map(Scoped(users, user.tenantId), View))
    ensures forall v :: v in r.data <==> exists u :: u in users && u.tenantId == user.tenantId && View(u) == v
  {
    var visible := Map(Scoped(users, user.tenantId), View);
    var sorted := SortBy(visible, (v: UserView) => v.createdAt);
    SameElements(sorted, visible);
    forall v ensures v in visible <==> exists u :: u in users && u.tenantId == user.tenantId && View(u) == v {
      MapContains(Scoped(users, user.tenantId), View, v);
    }
    Ok(200, sorted)
  }

  /** What a caller lists depends on nothing but its own tenant's rows. */
  lemma ListUsersLocal(users1: seq<UserRow>, users2: seq<UserRow>, user: Claims, path1: string, path2: string)
    requires Scoped(users1, user.tenantId) == Scoped(users2, user.tenantId)
    ensures ListUsers(users1, user, path1) == ListUsers(users2, user, path2)
  {
  }

  // ---------------------------------------------------------------------
  // updateUser

  /** `SET full_name = $1, role = $2, is_active = $3`: a full overwrite of
      those three columns, `undefined` becoming NULL; email and password
      hash are not in the list. */
  function Overwrite(body: UserPatchBody): UserData -> UserData {
    (d: UserData) => d.(fullName := body.fullName.Column(), role := body.role.Column(), isActive := body.isActive.Column())
  }

  /** An update changes only full name, role, active flag and `updated_at`:
      every row keeps its id, tenant, creation time, email and password
      hash. */
  lemma UpdateKeepsIdentity(users: seq<UserRow>, id: string, t: string, body: UserPatchBody, now: int)
    ensures forall k :: 0 <= k < |users| ==>
      var (a, b) := (UpdateWhere(users, id, t, Overwrite(body), now)[k], users[k]);
      a.id == b.id && a.tenantId == b.tenantId && a.createdAt == b.createdAt
      && a.data.email == b.data.email && a.data.passwordHash == b.data.passwordHash
  {
    var after := UpdateWhere(users, id, t, Overwrite(body), now);
    forall k | 0 <= k < |users|
      ensures after[k].id == users[k].id && after[k].tenantId == users[k].tenantId
      ensures after[k].createdAt == users[k].createdAt
      ensures after[k].data.email == users[k].data.email
      ensures after[k].data.passwordHash == users[k].data.passwordHash
    {
      if Matches(users[k], id, t) {
        assert after[k] == Patched(users[k], Overwrite(body), now);
      }
    }
  }

  /** An update never changes a user's email, so uniqueness survives it. */
  lemma UpdateKeepsEmailsUnique(users: seq<UserRow>, id: string, t: string, body: UserPatchBody, now: int)
    requires EmailsUniquePerTenant(users)
    ensures EmailsUniquePerTenant(UpdateWhere(users, id, t, Overwrite(body), now))
  {
    UpdateKeepsIdentity(users, id, t, body, now);
  }

  /** `updateUser` */
  method UpdateUser(db: Database, user: Claims, userId: string, body: UserPatchBody, now: int)
    returns (r: Response<UpdatedUser>)
    modifies db
    ensures db.tenants == old(db.tenants) && db.projects == old(db.projects) && db.auditLogs == old(db.auditLogs)
    ensures db.users == UpdateWhere(old(db.users), userId, user.tenantId, Overwrite(body), now)
    ensures FindWhere(old(db.users), userId, user.tenantId).None? ==>
      r == Err(404, "User not found") && db.users == old(db.users)
    ensures FindWhere(old(db.users), userId, user.tenantId).Some? ==>
      r == Ok(200, UpdatedView(Patched(FindWhere(old(db.users), userId, user.tenantId).value, Overwrite(body), now)))
    ensures forall t :: t != user.tenantId ==> Scoped(db.users, t) == Scoped(old(db.users), t)
    ensures EmailsUniquePerTenant(old(db.users)) ==> EmailsUniquePerTenant(db.users)
  {
    var tenantId := user.tenantId;
    ghost var before := db.users;
    db.users := UpdateWhere(db.users, userId, tenantId, Overwrite(body), now);
    UpdateWhereFind(before, userId, tenantId, Overwrite(body), now);
    forall t | t != tenantId ensures Scoped(db.users, t) == Scoped(before, t) {
      UpdateWhereIsolated(before, userId, tenantId, Overwrite(body), now, t);
    }
    if EmailsUniquePerTenant(before) {
      UpdateKeepsEmailsUnique(before, userId, tenantId, body, now);
    }
    var updated := FindWhere(db.users, userId, tenantId);
    if updated.None? {
      return Err(404, "User not found");
    }
    r := Ok(200, UpdatedView(updated.value));
  }

  // ---------------------------------------------------------------------
  // deleteUser

  /** No user of `rest` in the tenant of `u` has the email of `u`. */
  predicate EmailFreeIn(u: UserRow, rest: seq<UserRow>) {
    forall v :: v in rest && v.tenantId == u.tenantId ==> v.data.email != u.data.email
  }

  /** In a table with unique emails, the first row's email is free in the
      rest, and the rest has unique emails. */
  lemma EmailsUniqueTail(u: UserRow, rest: seq<UserRow>)
    requires EmailsUniquePerTenant([u] + rest)
    ensures EmailFreeIn(u, rest) && EmailsUniquePerTenant(rest)
  {
    var s := [u] + rest;
    forall v | v in rest && v.tenantId == u.tenantId ensures v.data.email != u.data.email {
      var k :| 0 <= k < |rest| && rest[k] == v;
      assert s[0] == u && s[k + 1] == v;
    }
    forall i, j | 0 <= i < j < |rest| && rest[i].tenantId == rest[j].tenantId
      ensures rest[i].data.email != rest[j].data.email
    {
      assert rest[i] == s[i + 1] && rest[j] == s[j + 1];
    }
  }

  /** A row whose email is free in a table with unique emails can be put in
      front of it. */
  lemma EmailsUniqueCons(u: UserRow, rest: seq<UserRow>)
    requires EmailFreeIn(u, rest) && EmailsUniquePerTenant(rest)
    ensures EmailsUniquePerTenant([u] + rest)
  {
    var s := [u] + rest;
    forall i, j | 0 <= i < j < |s| && s[i].tenantId == s[j].tenantId
      ensures s[i].data.email != s[j].data.email
    {
      assert s[j] == rest[j - 1];
      if i == 0 {
        assert s[j] in rest;
      } else {
        assert s[i] == rest[i - 1];
      }
    }
  }

  /** Removing users never breaks email uniqueness. */
  lemma {:induction false} DeleteKeepsEmailsUnique(users: seq<UserRow>, id: string, t: string)
    requires EmailsUniquePerTenant(users)
    ensures EmailsUniquePerTenant(DeleteWhere(users, id, t))
  {
    if users != [] {
      var u, tail := users[0], users[1..];
      assert users == [u] + tail;
      EmailsUniqueTail(u, tail);
      DeleteKeepsEmailsUnique(tail, id, t);
      var rest := DeleteWhere(tail, id, t);
      if Matches(u, id, t) {
        assert DeleteWhere(users, id, t) == rest;
      } else {
        assert DeleteWhere(users, id, t) == [u] + rest;
        EmailsUniqueCons(u, rest);
      }
    }
  }

  /** Removing users never pushes a tenant over its quota. */
  lemma DeleteKeepsQuota(tenants: seq<Tenant>, users: seq<UserRow>, id: string, t: string)
    requires WithinUserQuota(tenants, users)
    ensures WithinUserQuota(tenants, DeleteWhere(users, id, t))
  {
    forall k | 0 <= k < |tenants|
      ensures Count(DeleteWhere(users, id, t), tenants[k].id) <= tenants[k].maxUsers
    {
      if tenants[k].id == t {
        DeleteWhereLocal(users, id, t);
        DeleteWhereCount(Scoped(users, t), id, t);
      } else {
        DeleteWhereIsolated(users, id, t, tenants[k].id);
      }
    }
  }

  /** `deleteUser` */
  method DeleteUser(db: Database, user: Claims, userId: string) returns (r: Response<()>)
    modifies db
    ensures db.tenants == old(db.tenants) && db.projects == old(db.projects) && db.auditLogs == old(db.auditLogs)
    ensures userId == user.userId ==> r == Err(403, "Cannot delete yourself") && db.users == old(db.users)
    ensures userId != user.userId ==> db.users == DeleteWhere(old(db.users), userId, user.tenantId)
    ensures userId != user.userId && FindWhere(old(db.users), userId, user.tenantId).Some? ==>
      r == Done(200, "User deleted successfully")
    ensures userId != user.userId && FindWhere(old(db.users), userId, user.tenantId).None? ==>
      r == Err(404, "User not found") && db.users == old(db.users)
    ensures forall t :: t != user.tenantId ==> Scoped(db.users, t) == Scoped(old(db.users), t)
    ensures EmailsUniquePerTenant(old(db.users)) ==> EmailsUniquePerTenant(db.users)
    ensures WithinUserQuota(db.tenants, old(db.users)) ==> WithinUserQuota(db.tenants, db.users)
  {
    var tenantId := user.tenantId;
    var currentUserId := user.userId;
    if userId == currentUserId {
      return Err(403, "Cannot delete yourself");
    }
    var before := db.users;
    db.users := DeleteWhere(db.users, userId, tenantId);
    DeleteWhereShape(before, userId, tenantId);
    forall t | t != tenantId ensures Scoped(db.users, t) == Scoped(before, t) {
      DeleteWhereIsolated(before, userId, tenantId, t);
    }
    if EmailsUniquePerTenant(before) {
      DeleteKeepsEmailsUnique(before, userId, tenantId);
    }
    if WithinUserQuota(db.tenants, before) {
      DeleteKeepsQuota(db.tenants, before, userId, tenantId);
    }
    var rowCount := |before| - |db.users|;
    if rowCount == 0 {
      DeleteWhereNoMatch(before, userId, tenantId);
      return Err(404, "User not found");
    }
    r := Done(200, "User deleted successfully");
  }
}
