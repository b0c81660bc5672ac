/** The super-admin routes over the `users` table: adding an admin,
    listing the admins, and removing one behind a password re-check and a
    last-admin guard. */
module ManageAdmins {
  import opened Wrappers
  import opened Http
  import opened Seqs
  import opened Decimal
  import opened Js
  import opened Users

  /** The row `addAdmin` inserts: only the four columns it names are set */
  function NewAdmin(db: Db, name: string, email: string, hashed: string, now: Timestamp): User {
    User(db.nextUserId, name, email, hashed, AdminRole, None, None, None, None, None, None, None, now)
  }

  /** `POST /addAdmin`: every field is required, the email must be new, and
      the stored row carries the hashed password and the admin role.
      `hashed` is what the hashing library returns for `password`. */
  function AddAdmin(db: Db, name: Option<string>, email: Option<string>, password: Option<string>,
                    hashed: string, now: Timestamp): (res: (Db, HttpResult<User>))
    ensures var (db', r) := res;
      !(Given(name) && Given(email) && Given(password)) ==>
        db' == db && r == Failure(BadRequest, "All fields are required")
    ensures var (db', r) := res;
      Given(name) && Given(email) && Given(password) && EmailTakenByOther(db.users, email.value, None) ==>
        db' == db && r == Failure(Conflict, "Email already exists")
    ensures var (db', r) := res;
      r.Success? <==> Given(name) && Given(email) && Given(password) && !EmailTakenByOther(db.users, email.value, None)
    ensures var (db', r) := res;
      r.Success? ==>
        && r.code == Created
        && r.body.id == db.nextUserId && r.body.role == AdminRole
        && r.body.name == name.value && r.body.email == email.value
        && r.body.passwordHash == hashed && r.body.createdAt == now
        && db' == db.(users := db.users + [r.body], nextUserId := db.nextUserId + 1)
        && AdminCount(db'.users) == AdminCount(db.users) + 1
    ensures Valid(db) ==> Valid(res.0)
    ensures EmailsUnique(db.users) ==> EmailsUnique(res.0.users)
  {
    if !(Given(name) && Given(email) && Given(password)) then
      (db, Failure(BadRequest, "All fields are required"))
    else if EmailTakenByOther(db.users, email.value, None) then
      (db, Failure(Conflict, "Email already exists"))
    else
      var row := NewAdmin(db, name.value, email.value, hashed, now);
      CountIfAppend(db.users, [row], IsAdminRow);
      InsertKeepsValid(db, row);
      (db.(users := db.users + [row], nextUserId := db.nextUserId + 1), Success(Created, row))
  }

  /** `GET /getAdmins`: every admin row once, newest first; 404 when there
      is none */
  function GetAdmins(db: Db): (r: HttpResult<seq<User>>)
    ensures r.Failure? <==> AdminCount(db.users) == 0
    ensures r.Failure? ==> r == Failure(NotFound, "No admins found")
    ensures r.Success? ==> r.code == Ok && |r.body| == AdminCount(db.users)
    ensures r.Success? ==> multiset(r.body) == multiset(Filter(db.users, IsAdminRow))
    ensures r.Success? ==> forall i :: 0 <= i < |r.body| ==> r.body[i] in db.users && IsAdminRow(r.body[i])
    ensures r.Success? ==> forall k :: 0 <= k < |db.users| && IsAdminRow(db.users[k]) ==> db.users[k] in r.body
    ensures r.Success? ==> forall i, j :: 0 <= i < j < |r.body| ==> r.body[i].createdAt >= r.body[j].createdAt
  {
    var rows := NewestFirstWhere(db.users, IsAdminRow);
    if |rows| == 0 then Failure(NotFound, "No admins found")
    else Success(Ok, rows)
  }

  /** The caller has a row and `password` matches its hash: the checks
      before the transaction opens */
  predicate Reauthenticated(db: Db, password: Option<string>, caller: Option<UserId>,
                            matches: (string, string) -> bool) {
    && Given(password)
    && caller.Some?
    && Find(db.users, caller.value).Some?
    && matches(password.value, Find(db.users, caller.value).value.passwordHash)
  }

  /** `DELETE /removeAdmin/:id`. The caller re-enters a password, checked
      against the caller's own row (`matches` is the hashing library's
      compare); the last admin cannot be removed; only a row with the admin
      role is deleted. Every failure leaves the store as it was. */
  function RemoveAdmin(db: Db, idParam: string, password: Option<string>, caller: Option<UserId>,
                       matches: (string, string) -> bool): (res: (Db, HttpResult<User>))
    ensures res.1.Failure? ==> res.0 == db
    ensures !Given(password) ==> res.1 == Failure(BadRequest, "Password is required")
    ensures Given(password) && caller.None? ==> res.1 == Failure(Unauthorized, "Unauthorized")
    ensures Given(password) && caller.Some? && Find(db.users, caller.value).None? ==>
              res.1 == Failure(NotFound, "Current user not found")
    ensures Given(password) && caller.Some? && Find(db.users, caller.value).Some?
            && !matches(password.value, Find(db.users, caller.value).value.passwordHash) ==>
              res.1 == Failure(Forbidden, "Incorrect password")
    ensures Reauthenticated(db, password, caller, matches) && idParam == "" ==>
              res.1 == Failure(BadRequest, "Admin ID is required")
    ensures Reauthenticated(db, password, caller, matches) && idParam != "" && AdminCount(db.users) == 1 ==>
              res.1 == Failure(BadRequest, "Failed to remove last admin")
    ensures Reauthenticated(db, password, caller, matches) && idParam != "" && AdminCount(db.users) != 1
            && ParamId(idParam).None? ==>
              res.1 == Failure(InternalError, "Internal server error while removing admin")
    ensures Reauthenticated(db, password, caller, matches) && idParam != "" && AdminCount(db.users) != 1
            && ParamId(idParam).Some? && FindAdmin(db.users, ParamId(idParam).value).None? ==>
              res.1 == Failure(NotFound, "Admin not found")
    ensures res.1.Success? <==>
              && Reauthenticated(db, password, caller, matches)
              && AdminCount(db.users) != 1
              && ParamId(idParam).Some?
              && FindAdmin(db.users, ParamId(idParam).value).Some?
    ensures res.1.Success? ==>
              && res.1.code == Ok
              && res.1.body in db.users && IsAdminRow(res.1.body)
              && res.1.body.id == ParamId(idParam).value
              && res.0 == db.(users := WithoutAdmin(db.users, res.1.body.id))
  {
    if !Given(password) then (db, Failure(BadRequest, "Password is required"))
    else if caller.None? then (db, Failure(Unauthorized, "Unauthorized"))
    else match Find(db.users, caller.value)
      case None => (db, Failure(NotFound, "Current user not found"))
      case Some(me) =>
        if !matches(password.value, me.passwordHash) then (db, Failure(Forbidden, "Incorrect password"))
        else if idParam == "" then (db, Failure(BadRequest, "Admin ID is required"))
        else if AdminCount(db.users) == 1 then (db, Failure(BadRequest, "Failed to remove last admin"))
        else match ParamId(idParam)
          case None => (db, Failure(InternalError, "Internal server error while removing admin"))
          case Some(target) =>
            match FindAdmin(db.users, target)
            case Some(row) => (db.(users := WithoutAdmin(db.users, target)), Success(Ok, row))
            case None => (db, Failure(NotFound, "Admin not found"))
  }

  /** A removal takes away exactly one admin row and never the last one;
      the table stays valid */
  lemma RemoveAdminKeepsAnAdmin(db: Db, idParam: string, password: Option<string>, caller: Option<UserId>,
                                matches: (string, string) -> bool)
    requires Valid(db)
    ensures var (db', r) := RemoveAdmin(db, idParam, password, caller, matches);
      && Valid(db')
      && (AdminCount(db.users) >= 1 ==> AdminCount(db'.users) >= 1)
      && (r.Success? ==> AdminCount(db'.users) == AdminCount(db.users) - 1 && |db'.users| == |db.users| - 1)
      && (r.Success? ==> db'.users == Without(db.users, r.body.id))
  {
    var (db', r) := RemoveAdmin(db, idParam, password, caller, matches);
    if r.Success? {
      var k :| 0 <= k < |db.users| && db.users[k] == r.body;
      UniqueAdminDelete(db.users, k);
      AdminCountWithout(db.users, k);
      WithoutAt(db.users, k);
      WithoutKeepsValid(db, r.body.id);
    }
  }

  /** Adding an admin and then removing that admin, as any re-authenticated
      caller while another admin exists, restores the users table */
  lemma AddThenRemoveAdmin(db: Db, name: string, email: string, password: string, hashed: string, now: Timestamp,
                           caller: UserId, callerPassword: string, matches: (string, string) -> bool)
    requires Valid(db) && AdminCount(db.users) >= 1
    requires name != "" && email != "" && password != "" && !EmailTakenByOther(db.users, email, None)
    requires Reauthenticated(db, Some(callerPassword), Some(caller), matches)
    ensures var (db1, r1) := AddAdmin(db, Some(name), Some(email), Some(password), hashed, now);
      r1.Success? &&
      var (db2, r2) := RemoveAdmin(db1, FromNat(r1.body.id), Some(callerPassword), Some(caller), matches);
      r2.Success? && db2.users == db.users
  {
    var (db1, r1) := AddAdmin(db, Some(name), Some(email), Some(password), hashed, now);
    var n := |db.users|;
    assert db1.users == db.users + [r1.body];
    assert r1.Success? && Valid(db1) && AdminCount(db1.users) >= 2;
    assert db1.users[n] == r1.body;
    ReauthenticatedAfterAppend(db, r1.body, callerPassword, caller, matches);
    RemoveLastRow(db1, callerPassword, caller, matches);
    assert db1.users[..n] == db.users;
  }

  /** Removing the admin in the last row, by a re-authenticated caller while
      another admin exists, drops just that row */
  lemma RemoveLastRow(db: Db, password: string, caller: UserId, matches: (string, string) -> bool)
    requires Valid(db) && |db.users| > 0 && IsAdminRow(db.users[|db.users| - 1]) && AdminCount(db.users) >= 2
    requires Reauthenticated(db, Some(password), Some(caller), matches)
    ensures var n := |db.users| - 1;
      var (db', r) := RemoveAdmin(db, FromNat(db.users[n].id), Some(password), Some(caller), matches);
      r.Success? && db'.users == db.users[..n]
  {
    var n := |db.users| - 1;
    ParamIdOfFromNat(db.users[n].id);
    UniqueAdminDelete(db.users, n);
    WithoutAt(db.users, n);
  }

  lemma ReauthenticatedAfterAppend(db: Db, row: User, password: string, caller: UserId,
                                   matches: (string, string) -> bool)
    requires Reauthenticated(db, Some(password), Some(caller), matches)
    ensures Reauthenticated(db.(users := db.users + [row], nextUserId := db.nextUserId + 1),
                            Some(password), Some(caller), matches)
  {
    FindAfterAppend(db.users, row, caller);
  }

  /** Appending a row leaves a lookup that already succeeds unchanged */
  lemma {:induction false} FindAfterAppend(users: seq<User>, row: User, id: UserId)
    requires Find(users, id).Some?
    ensures Find(users + [row], id) == Find(users, id)
    decreases |users|
  {
    if users[0].id != id {
      assert (users + [row])[1..] == users[1..] + [row];
      FindAfterAppend(users[1..], row, id);
    }
  }

  /** Nothing stops an admin from removing their own row while another
      admin exists */
  lemma AdminMayRemoveSelf(db: Db, k: nat, password: string, matches: (string, string) -> bool)
    requires Valid(db) && k < |db.users| && IsAdminRow(db.users[k]) && AdminCount(db.users) >= 2
    requires password != "" && matches(password, db.users[k].passwordHash)
    ensures var (db', r) := RemoveAdmin(db, FromNat(db.users[k].id), Some(password), Some(db.users[k].id), matches);
      r.Success? && Find(db'.users, db.users[k].id).None?
  {
    FindAt(db.users, k);
    UniqueAdminDelete(db.users, k);
    ParamIdOfFromNat(db.users[k].id);
  }
}
