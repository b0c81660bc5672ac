/** The `users` table shared by the admin routes, with the `payroll` and
    `past_employees` tables they touch, and the row-level queries the
    handlers are built from. */
module Users {
  import opened Wrappers
  import opened Seqs
  import opened Sorting
  import opened Decimal

  type UserId = nat
  type Timestamp = int

  /** The `role` column: `'admin'`, `'employee'`, or anything else */
  datatype Role = AdminRole | EmployeeRole | OtherRole(name: string)

  /** A `users` row. Optional columns are NULL as `None`; `salary` is a whole
      number. */
  datatype User = User(
    id: UserId,
    name: string,
    email: string,
    passwordHash: string,
    role: Role,
    designation: Option<string>,
    phone: Option<string>,
    location: Option<string>,
    joiningDate: Option<string>,
    salary: Option<int>,
    skills: Option<string>,
    employmentType: Option<string>,
    createdAt: Timestamp)

  /** A `payroll` row: the basic salary of one user */
  datatype PayrollRow = PayrollRow(user: UserId, basicSalary: int)

  /** A `past_employees` row: the archived copy of a removed user */
  datatype PastEmployee = PastEmployee(
    originalId: UserId,
    name: string,
    email: string,
    designation: Option<string>,
    phone: Option<string>,
    location: Option<string>,
    joiningDate: Option<string>,
    skills: Option<string>,
    employmentType: Option<string>,
    reason: string,
    removedBy: UserId,
    exitDate: Timestamp)

  /** The three tables, and the next value of the `users.id` sequence */
  datatype Db = Db(
    users: seq<User>,
    nextUserId: nat,
    payroll: seq<PayrollRow>,
    past: seq<PastEmployee>)

  predicate IdsUnique(users: seq<User>) {
    forall i, j :: 0 <= i < j < |users| ==> users[i].id != users[j].id
  }

  /** Every id was drawn from the sequence before `next` */
  predicate IdsBelow(users: seq<User>, next: UserId) {
    forall i :: 0 <= i < |users| ==> users[i].id < next
  }

  /** Ids are unique and below the sequence's next value */
  predicate Valid(db: Db) {
    && IdsUnique(db.users)
    && IdsBelow(db.users, db.nextUserId)
  }

  /** No two rows share an email: what the handlers' lookups before insert
      and update maintain */
  predicate EmailsUnique(users: seq<User>) {
    forall i, j :: 0 <= i < j < |users| ==> users[i].email != users[j].email
  }

  predicate IsAdminRow(u: User) {
    u.role == AdminRole
  }

  predicate IsEmployeeRow(u: User) {
    u.role == EmployeeRole
  }

  /** The number of rows with `role = 'admin'` */
  function AdminCount(users: seq<User>): nat {
    CountIf(users, IsAdminRow)
  }

  /** `ORDER BY created_at DESC` as a sort key */
  function NewestFirst(u: User): int {
    -u.createdAt
  }

  /** `SELECT ... WHERE <p> ORDER BY created_at DESC`: the rows satisfying
      `p`, each once, newest first */
  function NewestFirstWhere(users: seq<User>, p: User -> bool): (rows: seq<User>)
    ensures multiset(rows) == multiset(Filter(users, p))
    ensures |rows| == CountIf(users, p)
    ensures forall i :: 0 <= i < |rows| ==> rows[i] in users && p(rows[i])
    ensures forall k :: 0 <= k < |users| && p(users[k]) ==> users[k] in rows
    ensures forall i, j :: 0 <= i < j < |rows| ==> rows[i].createdAt >= rows[j].createdAt
  {
    var rows := SortBy(Filter(users, p), NewestFirst);
    assert |rows| == |multiset(rows)|;
    assert forall i, j :: 0 <= i < j < |rows| ==> NewestFirst(rows[i]) <= NewestFirst(rows[j]);
    ListingSound(users, rows, p);
    ListingComplete(users, rows, p);
    rows
  }

  /** A permutation of the matching rows holds only matching rows */
  lemma ListingSound(users: seq<User>, rows: seq<User>, p: User -> bool)
    requires multiset(rows) == multiset(Filter(users, p))
    ensures forall i :: 0 <= i < |rows| ==> rows[i] in users && p(rows[i])
  {
    var f := Filter(users, p);
    forall i | 0 <= i < |rows|
      ensures rows[i] in users && p(rows[i])
    {
      assert rows[i] in multiset(f);
      var j :| 0 <= j < |f| && f[j] == rows[i];
      assert f[j] in users;
    }
  }

  /** A permutation of the matching rows holds every matching row */
  lemma ListingComplete(users: seq<User>, rows: seq<User>, p: User -> bool)
    requires multiset(rows) == multiset(Filter(users, p))
    ensures forall k :: 0 <= k < |users| && p(users[k]) ==> users[k] in rows
  {
    var f := Filter(users, p);
    forall k | 0 <= k < |users| && p(users[k])
      ensures users[k] in rows
    {
      assert users[k] in f;
      assert users[k] in multiset(rows);
    }
  }

  /** A route parameter as the integer id the store compares it with;
      `None` when the store cannot read it as one */
  function ParamId(s: string): (r: Option<UserId>)
    ensures r.Some? <==> s != "" && AllDigits(s)
  {
    if s != "" && AllDigits(s) then
      Some(Value(s))
    else None
  }

  /** The id of a user, written as it appears in a request path, reads
      back as that id */
  lemma ParamIdOfFromNat(n: UserId)
    ensures ParamId(FromNat(n)) == Some(n)
  {
    ValueOfFromNat(n);
  }

  /** `SELECT ... WHERE id = $1`: the first row with that id */
  function Find(users: seq<User>, id: UserId): (r: Option<User>)
    ensures r.None? <==> forall i :: 0 <= i < |users| ==> users[i].id != id
    ensures r.Some? ==> r.value.id == id && r.value in users
  {
    if |users| == 0 then None
    else if users[0].id == id then Some(users[0])
    else
      assert forall i :: 1 <= i < |users| ==> users[i] == users[1..][i - 1];
      Find(users[1..], id)
  }

  /** With unique ids, the row found is the one at the id's index */
  lemma FindAt(users: seq<User>, k: nat)
    requires IdsUnique(users) && k < |users|
    ensures Find(users, users[k].id) == Some(users[k])
  {
    var r := Find(users, users[k].id);
    var j :| 0 <= j < |users| && users[j] == r.value;
    assert j == k;
  }

  /** Some row other than `id` already has this email */
  predicate EmailTakenByOther(users: seq<User>, email: string, id: Option<UserId>) {
    exists i :: 0 <= i < |users| && users[i].email == email && Some(users[i].id) != id
  }

  /** Inserting a row under the next id, with an email no row has, keeps
      ids and emails unique */
  lemma InsertKeepsValid(db: Db, row: User)
    requires row.id == db.nextUserId && !EmailTakenByOther(db.users, row.email, None)
    ensures Valid(db) ==> Valid(db.(users := db.users + [row], nextUserId := db.nextUserId + 1))
    ensures EmailsUnique(db.users) ==> EmailsUnique(db.users + [row])
  {
    var users := db.users + [row];
    assert forall i :: 0 <= i < |db.users| ==> users[i] == db.users[i];
    assert forall i :: 0 <= i < |db.users| ==> users[i].email != row.email;
  }

  /** `DELETE FROM users WHERE id = $1` */
  function Without(users: seq<User>, id: UserId): (r: seq<User>)
    ensures |r| <= |users|
    ensures forall i :: 0 <= i < |r| ==> r[i].id != id && r[i] in users
    ensures forall i :: 0 <= i < |users| && users[i].id != id ==> users[i] in r
  {
    if |users| == 0 then []
    else
      assert forall i :: 1 <= i < |users| ==> users[i] == users[1..][i - 1];
      if users[0].id == id then Without(users[1..], id)
      else [users[0]] + Without(users[1..], id)
  }

  /** An admin row with this id */
  predicate IsAdminWithId(u: User, id: UserId) {
    u.id == id && IsAdminRow(u)
  }

  /** `DELETE FROM users WHERE id = $1 AND role = 'admin'`: the rows kept,
      in order */
  function WithoutAdmin(users: seq<User>, id: UserId): (r: seq<User>)
    ensures |r| <= |users|
    ensures forall i :: 0 <= i < |r| ==> r[i] in users && !IsAdminWithId(r[i], id)
    ensures forall i :: 0 <= i < |users| && !IsAdminWithId(users[i], id) ==> users[i] in r
  {
    if |users| == 0 then []
    else
      assert forall i :: 1 <= i < |users| ==> users[i] == users[1..][i - 1];
      if IsAdminWithId(users[0], id) then WithoutAdmin(users[1..], id)
      else [users[0]] + WithoutAdmin(users[1..], id)
  }

  /** The first row the same `DELETE ... RETURNING *` reports, `None` when
      it deletes nothing */
  function FindAdmin(users: seq<User>, id: UserId): (r: Option<User>)
    ensures r.None? <==> forall i :: 0 <= i < |users| ==> !IsAdminWithId(users[i], id)
    ensures r.Some? ==> r.value in users && IsAdminWithId(r.value, id)
  {
    if |users| == 0 then None
    else if IsAdminWithId(users[0], id) then Some(users[0])
    else
      assert forall i :: 1 <= i < |users| ==> users[i] == users[1..][i - 1];
      FindAdmin(users[1..], id)
  }

  /** When every row with the id is an admin, the role filter of the
      delete makes no difference */
  lemma {:induction false} AdminDeleteIsDelete(users: seq<User>, id: UserId)
    requires forall i :: 0 <= i < |users| && users[i].id == id ==> IsAdminRow(users[i])
    ensures WithoutAdmin(users, id) == Without(users, id)
    ensures FindAdmin(users, id) == Find(users, id)
    decreases |users|
  {
    if |users| > 0 {
      assert forall i :: 0 <= i < |users[1..]| ==> users[1..][i] == users[i + 1];
      AdminDeleteIsDelete(users[1..], id);
    }
  }

  /** With unique ids, deleting an admin's id by id and role is deleting
      it by id, and the delete reports that admin's row */
  lemma UniqueAdminDelete(users: seq<User>, k: nat)
    requires IdsUnique(users) && k < |users| && IsAdminRow(users[k])
    ensures WithoutAdmin(users, users[k].id) == Without(users, users[k].id)
    ensures FindAdmin(users, users[k].id) == Some(users[k])
  {
    assert forall i :: 0 <= i < |users| && users[i].id == users[k].id ==> i == k;
    AdminDeleteIsDelete(users, users[k].id);
    FindAt(users, k);
  }

  /** With unique ids, deleting an id present at index `k` removes exactly
      that row and keeps the order of the rest */
  lemma {:induction false} WithoutAt(users: seq<User>, k: nat)
    requires IdsUnique(users) && k < |users|
    ensures Without(users, users[k].id) == users[..k] + users[k + 1..]
    decreases |users|
  {
    var id := users[k].id;
    var tail := users[1..];
    assert forall i :: 0 <= i < |tail| ==> tail[i] == users[i + 1];
    if k == 0 {
      assert forall i :: 0 <= i < |tail| ==> tail[i].id != id;
      WithoutAbsent(tail, id);
    } else {
      assert IdsUnique(tail);
      assert tail[k - 1] == users[k];
      WithoutAt(tail, k - 1);
      WithoutCons(users, id);
      SpliceCons(users, k);
    }
  }

  /** A delete that spares the first row keeps it in front */
  lemma WithoutCons(users: seq<User>, id: UserId)
    requires |users| > 0 && users[0].id != id
    ensures Without(users, id) == [users[0]] + Without(users[1..], id)
  {
  }

  /** Cutting out index `k > 0` is keeping the head and cutting `k - 1` out
      of the tail */
  lemma SpliceCons<T>(s: seq<T>, k: nat)
    requires 0 < k < |s|
    ensures [s[0]] + (s[1..][..k - 1] + s[1..][k..]) == s[..k] + s[k + 1..]
  {
    assert s[..k] == [s[0]] + s[1..][..k - 1];
    assert s[k + 1..] == s[1..][k..];
  }

  /** Deleting an id no row has changes nothing */
  lemma {:induction false} WithoutAbsent(users: seq<User>, id: UserId)
    requires forall i :: 0 <= i < |users| ==> users[i].id != id
    ensures Without(users, id) == users
    decreases |users|
  {
    if |users| > 0 {
      var tail := users[1..];
      assert forall i :: 0 <= i < |tail| ==> tail[i] == users[i + 1];
      WithoutAbsent(tail, id);
      WithoutCons(users, id);
      assert users == [users[0]] + tail;
    }
  }

  /** Deleting one row keeps ids unique */
  lemma WithoutKeepsValid(db: Db, id: UserId)
    requires Valid(db)
    ensures Valid(db.(users := Without(db.users, id)))
    ensures EmailsUnique(db.users) ==> EmailsUnique(Without(db.users, id))
  {
    if k :| 0 <= k < |db.users| && db.users[k].id == id {
      WithoutAt(db.users, k);
      RemoveAtKeepsUnique(db.users, k, db.nextUserId);
    } else {
      WithoutAbsent(db.users, id);
    }
  }

  /** Cutting one row out keeps ids and emails unique and ids bounded */
  lemma RemoveAtKeepsUnique(users: seq<User>, k: nat, next: UserId)
    requires k < |users|
    ensures IdsUnique(users) ==> IdsUnique(users[..k] + users[k + 1..])
    ensures EmailsUnique(users) ==> EmailsUnique(users[..k] + users[k + 1..])
    ensures IdsBelow(users, next) ==> IdsBelow(users[..k] + users[k + 1..], next)
  {
    var r := users[..k] + users[k + 1..];
    assert forall i :: 0 <= i < |r| ==> r[i] == users[if i < k then i else i + 1];
  }

  /** Deleting the row at index `k` lowers the admin count by one exactly
      when that row is an admin */
  lemma AdminCountWithout(users: seq<User>, k: nat)
    requires IdsUnique(users) && k < |users|
    ensures AdminCount(Without(users, users[k].id))
         == AdminCount(users) - (if IsAdminRow(users[k]) then 1 else 0)
  {
    WithoutAt(users, k);
    CountIfRemoveAt(users, k, IsAdminRow);
  }

  /** `UPDATE users SET ... WHERE id = $n`: every row with the new row's id
      is replaced by it */
  function Replace(users: seq<User>, row: User): (r: seq<User>)
    ensures |r| == |users|
    ensures forall i :: 0 <= i < |r| ==> r[i] == if users[i].id == row.id then row else users[i]
  {
    seq(|users|, i requires 0 <= i < |users| => if users[i].id == row.id then row else users[i])
  }
}
