/** The admin routes over employee records: onboarding with a generated
    password, updating a record (and the payroll when the salary changes),
    listing employees, and removing an employee into the archive behind a
    password re-check. */
module AdminEmp {
  import opened Wrappers
  import opened Http
  import opened Seqs
  import opened Decimal
  import opened Js
  import opened Users

  // ---------------------------------------------------------------------
  // The generated password

  newtype byte = b: int | 0 <= b < 256

  predicate IsUpperHex(c: char) {
    '0' <= c <= '9' || 'A' <= c <= 'F'
  }

  function HexChar(d: nat): (c: char)
    requires d < 16
    ensures IsUpperHex(c)
  {
    if d < 10 then (48 + d) as char else (55 + d) as char
  }

  function HexValue(c: char): (d: nat)
    requires IsUpperHex(c)
    ensures d < 16
  {
    if c <= '9' then c as nat - 48 else c as nat - 55
  }

  /** `buf.toString("hex").toUpperCase()`: two upper-case hex digits per
      byte, high nibble first */
  function UpperHex(bs: seq<byte>): (r: string)
    ensures |r| == 2 * |bs|
    ensures forall i :: 0 <= i < |r| ==> IsUpperHex(r[i])
  {
    if |bs| == 0 then ""
    else [HexChar(bs[0] as nat / 16), HexChar(bs[0] as nat % 16)] + UpperHex(bs[1..])
  }

  /** Reads pairs of upper-case hex digits back as bytes */
  function FromUpperHex(s: string): (bs: seq<byte>)
    requires |s| % 2 == 0 && forall i :: 0 <= i < |s| ==> IsUpperHex(s[i])
    ensures |bs| * 2 == |s|
  {
    if |s| == 0 then []
    else [(HexValue(s[0]) * 16 + HexValue(s[1])) as byte] + FromUpperHex(s[2..])
  }

  lemma {:induction false} FromUpperHexOfUpperHex(bs: seq<byte>)
    ensures FromUpperHex(UpperHex(bs)) == bs
    decreases |bs|
  {
    if |bs| > 0 {
      var s := UpperHex(bs);
      assert s[2..] == UpperHex(bs[1..]);
      FromUpperHexOfUpperHex(bs[1..]);
      assert HexValue(s[0]) * 16 + HexValue(s[1]) == bs[0] as nat;
      assert bs == [bs[0]] + bs[1..];
    }
  }

  /** The initial password of a new employee, from four random bytes: eight
      upper-case hex digits, and different bytes give different passwords */
  function GeneratedPassword(random: seq<byte>): (pw: string)
    requires |random| == 4
    ensures |pw| == 8 && forall i :: 0 <= i < |pw| ==> IsUpperHex(pw[i])
    ensures FromUpperHex(pw) == random
  {
    FromUpperHexOfUpperHex(random);
    UpperHex(random)
  }

  // ---------------------------------------------------------------------
  // Adding

  /** The body of `addEmp` and `updateEmp`; a missing field is `None` */
  datatype EmpForm = EmpForm(
    name: Option<string>,
    email: Option<string>,
    designation: Option<string>,
    phone: Option<string>,
    location: Option<string>,
    joiningDate: Option<string>,
    salary: Option<int>,
    skills: Option<string>,
    employmentType: Option<string>)

  /** `addEmp` demands all nine fields be truthy (a salary of 0 is not) */
  predicate Complete(f: EmpForm) {
    && Given(f.name) && Given(f.email) && Given(f.designation) && Given(f.phone)
    && Given(f.location) && Given(f.joiningDate) && GivenNumber(f.salary)
    && Given(f.skills) && Given(f.employmentType)
  }

  /** The row `addEmp` inserts; the role is the column default */
  function NewEmployee(db: Db, f: EmpForm, hashed: string, now: Timestamp): User
    requires Complete(f)
  {
    User(db.nextUserId, f.name.value, f.email.value, hashed, EmployeeRole,
         f.designation, f.phone, f.location, f.joiningDate, f.salary, f.skills, f.employmentType, now)
  }

  /** `POST /addEmp`: every field required, the email must be new; the row
      stores the hash of the password generated from four random bytes
      (`random` is what `randomBytes(4)` yields, `hash` the hashing
      library) */
  function AddEmp(db: Db, f: EmpForm, random: seq<byte>, hash: string -> string, now: Timestamp)
    : (res: (Db, HttpResult<User>))
    requires |random| == 4
    ensures var (db', r) := res;
      !Complete(f) ==> db' == db && r == Failure(BadRequest, "All fields are required")
    ensures var (db', r) := res;
      Complete(f) && EmailTakenByOther(db.users, f.email.value, None) ==>
        db' == db && r == Failure(BadRequest, "User already exists with this email")
    ensures var (db', r) := res;
      r.Success? <==> Complete(f) && !EmailTakenByOther(db.users, f.email.value, None)
    ensures var (db', r) := res;
      r.Success? ==>
        && r.code == Ok
        && r.body.id == db.nextUserId && r.body.role == EmployeeRole
        && r.body.passwordHash == hash(GeneratedPassword(random))
        && r.body.name == f.name.value && r.body.email == f.email.value && r.body.salary == f.salary
        && r.body.designation == f.designation && r.body.phone == f.phone && r.body.location == f.location
        && r.body.joiningDate == f.joiningDate && r.body.skills == f.skills
        && r.body.employmentType == f.employmentType && r.body.createdAt == now
        && db' == db.(users := db.users + [r.body], nextUserId := db.nextUserId + 1)
    ensures Valid(db) ==> Valid(res.0)
    ensures EmailsUnique(db.users) ==> EmailsUnique(res.0.users)
  {
    if !Complete(f) then (db, Failure(BadRequest, "All fields are required"))
    else if EmailTakenByOther(db.users, f.email.value, None) then
      (db, Failure(BadRequest, "User already exists with this email"))
    else
      var row := NewEmployee(db, f, hash(GeneratedPassword(random)), now);
      InsertKeepsValid(db, row);
      (db.(users := db.users + [row], nextUserId := db.nextUserId + 1), Success(Ok, row))
  }

  // ---------------------------------------------------------------------
  // Updating

  /** `updateEmp` demands only the five key fields */
  predicate HasKeyFields(f: EmpForm) {
    Given(f.name) && Given(f.email) && Given(f.designation) && Given(f.phone) && GivenNumber(f.salary)
  }

  /** The row after `UPDATE users SET ...`: the nine columns take the form's
      values, a missing optional one becoming NULL */
  function Updated(prior: User, f: EmpForm): (u: User)
    requires HasKeyFields(f)
    ensures u.id == prior.id && u.passwordHash == prior.passwordHash && u.role == prior.role
    ensures u.createdAt == prior.createdAt
    ensures u.name == f.name.value && u.email == f.email.value && u.salary == f.salary
    ensures u.designation == f.designation && u.phone == f.phone && u.location == f.location
    ensures u.joiningDate == f.joiningDate && u.skills == f.skills && u.employmentType == f.employmentType
  {
    prior.(name := f.name.value, email := f.email.value, designation := f.designation, phone := f.phone,
         location := f.location, joiningDate := f.joiningDate, salary := f.salary, skills := f.skills,
         employmentType := f.employmentType)
  }

  /** `Number(existing) !== Number(salary)`, a NULL salary counting as 0 */
  predicate SalaryChanged(prior: Option<int>, salary: int) {
    prior.GetOr(0) != salary
  }

  /** `UPDATE payroll SET basic_salary = $1 WHERE user_id = $2` */
  function SetBasicSalary(payroll: seq<PayrollRow>, user: UserId, salary: int): (r: seq<PayrollRow>)
    ensures |r| == |payroll|
    ensures forall i :: 0 <= i < |r| ==> r[i].user == payroll[i].user
    ensures forall i :: 0 <= i < |r| ==> r[i].basicSalary == if payroll[i].user == user then salary else payroll[i].basicSalary
  {
    seq(|payroll|, i requires 0 <= i < |payroll| =>
      if payroll[i].user == user then PayrollRow(user, salary) else payroll[i])
  }

  datatype UpdateReply = UpdateReply(user: User, salaryUpdatedInPayroll: bool)

  /** `PUT /updateEmp/:id`. Key fields are required; the id must name a row;
      the email may not belong to another row. The row is rewritten, and the
      payroll follows when the salary changed. Every failure leaves the store
      as it was. */
  function UpdateEmp(db: Db, idParam: string, f: EmpForm): (res: (Db, HttpResult<UpdateReply>))
    ensures res.1.Failure? ==> res.0 == db
    ensures !HasKeyFields(f) ==> res.1 == Failure(BadRequest, "Key fields are required for update")
    ensures HasKeyFields(f) && ParamId(idParam).None? ==> res.1 == Failure(InternalError, "Internal server error")
    ensures HasKeyFields(f) && ParamId(idParam).Some? && Find(db.users, ParamId(idParam).value).None? ==>
              res.1 == Failure(NotFound, "Employee not found")
    ensures HasKeyFields(f) && ParamId(idParam).Some? && Find(db.users, ParamId(idParam).value).Some?
            && EmailTakenByOther(db.users, f.email.value, ParamId(idParam)) ==>
              res.1 == Failure(BadRequest, "Email is already in use by another employee")
    ensures res.1.Success? <==>
              && HasKeyFields(f) && ParamId(idParam).Some?
              && Find(db.users, ParamId(idParam).value).Some?
              && !EmailTakenByOther(db.users, f.email.value, ParamId(idParam))
    ensures res.1.Success? ==>
              var prior := Find(db.users, ParamId(idParam).value).value;
              var changed := SalaryChanged(prior.salary, f.salary.value);
              && res.1.code == Ok
              && res.1.body == UpdateReply(Updated(prior, f), changed)
              && res.0.users == Replace(db.users, Updated(prior, f))
              && res.0.payroll == (if changed then SetBasicSalary(db.payroll, prior.id, f.salary.value) else db.payroll)
              && res.0.nextUserId == db.nextUserId && res.0.past == db.past
  {
    if !HasKeyFields(f) then (db, Failure(BadRequest, "Key fields are required for update"))
    else match ParamId(idParam)
      case None => (db, Failure(InternalError, "Internal server error"))
      case Some(id) =>
        match Find(db.users, id)
        case None => (db, Failure(NotFound, "Employee not found"))
        case Some(prior) =>
          if EmailTakenByOther(db.users, f.email.value, Some(id)) then
            (db, Failure(BadRequest, "Email is already in use by another employee"))
          else
            var row := Updated(prior, f);
            var changed := SalaryChanged(prior.salary, f.salary.value);
            var payroll := if changed then SetBasicSalary(db.payroll, id, f.salary.value) else db.payroll;
            (db.(users := Replace(db.users, row), payroll := payroll), Success(Ok, UpdateReply(row, changed)))
  }

  /** An update keeps ids unique and, since it refuses an email held by
      another row, keeps emails unique */
  lemma UpdateEmpKeepsInvariants(db: Db, idParam: string, f: EmpForm)
    requires Valid(db)
    ensures Valid(UpdateEmp(db, idParam, f).0)
    ensures EmailsUnique(db.users) ==> EmailsUnique(UpdateEmp(db, idParam, f).0.users)
  {
    var (db', r) := UpdateEmp(db, idParam, f);
    if r.Success? {
      var id := ParamId(idParam).value;
      var row := Updated(Find(db.users, id).value, f);
      assert forall i :: 0 <= i < |db'.users| ==> db'.users[i].id == db.users[i].id;
      if EmailsUnique(db.users) {
        forall i, j | 0 <= i < j < |db'.users|
          ensures db'.users[i].email != db'.users[j].email
        {
          if db.users[i].id == id {
            assert db.users[j].id != id;
          } else if db.users[j].id == id {
            assert db.users[i].email != f.email.value;
          }
        }
      }
    }
  }

  /** Replacing a row by itself changes nothing */
  lemma ReplaceSame(users: seq<User>, k: nat)
    requires IdsUnique(users) && k < |users|
    ensures Replace(users, users[k]) == users
  {
  }

  /** The updated row is found under its id */
  lemma FindReplaced(users: seq<User>, row: User)
    requires IdsUnique(users) && Find(users, row.id).Some?
    ensures IdsUnique(Replace(users, row))
    ensures Find(Replace(users, row), row.id) == Some(row)
  {
    var r := Replace(users, row);
    var k :| 0 <= k < |users| && users[k] == Find(users, row.id).value;
    assert r[k] == row;
    FindAt(r, k);
  }

  /** Repeating an update that succeeded succeeds again, reports no salary
      change and leaves the store as the first one left it */
  lemma UpdateEmpTwice(db: Db, idParam: string, f: EmpForm)
    requires Valid(db) && UpdateEmp(db, idParam, f).1.Success?
    ensures var (db1, _) := UpdateEmp(db, idParam, f);
      var (db2, r2) := UpdateEmp(db1, idParam, f);
      r2.Success? && !r2.body.salaryUpdatedInPayroll && db2 == db1
  {
    var (db1, r1) := UpdateEmp(db, idParam, f);
    var id := ParamId(idParam).value;
    var row := Updated(Find(db.users, id).value, f);
    FindReplaced(db.users, row);
    assert !EmailTakenByOther(db1.users, f.email.value, Some(id));
    var k :| 0 <= k < |db1.users| && db1.users[k] == row;
    assert Updated(row, f) == row;
    ReplaceSame(db1.users, k);
  }

  // ---------------------------------------------------------------------
  // Listing

  /** `GET /all`: every row with the employee role once, newest first; an
      empty list is a success too */
  function AllEmployees(db: Db): (r: HttpResult<seq<User>>)
    ensures r.Success? && r.code == Ok
    ensures |r.body| == CountIf(db.users, IsEmployeeRow)
    ensures multiset(r.body) == multiset(Filter(db.users, IsEmployeeRow))
    ensures forall i :: 0 <= i < |r.body| ==> r.body[i] in db.users && IsEmployeeRow(r.body[i])
    ensures forall k :: 0 <= k < |db.users| && IsEmployeeRow(db.users[k]) ==> db.users[k] in r.body
    ensures forall i, j :: 0 <= i < j < |r.body| ==> r.body[i].createdAt >= r.body[j].createdAt
  {
    Success(Ok, NewestFirstWhere(db.users, IsEmployeeRow))
  }

  // ---------------------------------------------------------------------
  // Removing

  /** The archive row for a removed user; `exitDate` is the column default */
  function Archived(u: User, reason: Option<string>, admin: UserId, now: Timestamp): (p: PastEmployee)
    ensures p.originalId == u.id && p.removedBy == admin && p.exitDate == now
    ensures p.name == u.name && p.email == u.email && p.designation == u.designation
    ensures p.phone == u.phone && p.location == u.location && p.joiningDate == u.joiningDate
    ensures p.skills == u.skills && p.employmentType == u.employmentType
    ensures p.reason == (if Given(reason) then reason.value else "Not specified")
  {
    PastEmployee(u.id, u.name, u.email, u.designation, u.phone, u.location, u.joiningDate,
                 u.skills, u.employmentType, OrDefault(reason, "Not specified"), admin, now)
  }

  /** `POST /removeEmp/:id`. The caller's token, the target row and the
      caller's row must exist and `password` must match the caller's hash
      (`matches` is the hashing library's compare). The row is archived and
      deleted in one transaction, whatever its role. Every failure leaves
      the store as it was. */
  function RemoveEmp(db: Db, idParam: string, reason: Option<string>, password: string, caller: Option<UserId>,
                     matches: (string, string) -> bool, now: Timestamp): (res: (Db, HttpResult<string>))
    ensures res.1.Failure? ==> res.0 == db
    ensures caller.None? ==> res.1 == Failure(Unauthorized, "Unauthorized")
    ensures caller.Some? && ParamId(idParam).None? ==>
              res.1 == Failure(InternalError, "Transaction failed. No changes were made.")
    ensures caller.Some? && ParamId(idParam).Some? && Find(db.users, ParamId(idParam).value).None? ==>
              res.1 == Failure(NotFound, "Employee not found")
    ensures caller.Some? && ParamId(idParam).Some? && Find(db.users, ParamId(idParam).value).Some?
            && Find(db.users, caller.value).None? ==>
              res.1 == Failure(NotFound, "Admin not found")
    ensures caller.Some? && ParamId(idParam).Some? && Find(db.users, ParamId(idParam).value).Some?
            && Find(db.users, caller.value).Some? && !matches(password, Find(db.users, caller.value).value.passwordHash) ==>
              res.1 == Failure(Unauthorized, "Invalid password")
    ensures res.1.Success? <==>
              && caller.Some? && ParamId(idParam).Some?
              && Find(db.users, ParamId(idParam).value).Some?
              && Find(db.users, caller.value).Some?
              && matches(password, Find(db.users, caller.value).value.passwordHash)
    ensures res.1.Success? ==>
              var user := Find(db.users, ParamId(idParam).value).value;
              && res.1 == Success(Ok, user.name)
              && res.0 == db.(users := Without(db.users, user.id),
                              past := db.past + [Archived(user, reason, caller.value, now)])
  {
    if caller.None? then (db, Failure(Unauthorized, "Unauthorized"))
    else match ParamId(idParam)
      case None => (db, Failure(InternalError, "Transaction failed. No changes were made."))
      case Some(id) =>
        match Find(db.users, id)
        case None => (db, Failure(NotFound, "Employee not found"))
        case Some(user) =>
          match Find(db.users, caller.value)
          case None => (db, Failure(NotFound, "Admin not found"))
          case Some(admin) =>
            if !matches(password, admin.passwordHash) then (db, Failure(Unauthorized, "Invalid password"))
            else
              (db.(users := Without(db.users, id), past := db.past + [Archived(user, reason, caller.value, now)]),
               Success(Ok, user.name))
  }

  /** A removal deletes exactly the target row, which is then gone, and
      keeps the table valid */
  lemma RemoveEmpDeletesOne(db: Db, idParam: string, reason: Option<string>, password: string,
                            caller: Option<UserId>, matches: (string, string) -> bool, now: Timestamp)
    requires Valid(db)
    ensures var (db', r) := RemoveEmp(db, idParam, reason, password, caller, matches, now);
      && Valid(db')
      && (EmailsUnique(db.users) ==> EmailsUnique(db'.users))
      && (r.Success? ==>
            && |db'.users| == |db.users| - 1
            && (exists k :: 0 <= k < |db.users| && db.users[k].id == ParamId(idParam).value
                           && db'.users == db.users[..k] + db.users[k + 1..])
            && Find(db'.users, ParamId(idParam).value).None?
            && |db'.past| == |db.past| + 1)
  {
    var (db', r) := RemoveEmp(db, idParam, reason, password, caller, matches, now);
    if r.Success? {
      var id := ParamId(idParam).value;
      var k :| 0 <= k < |db.users| && db.users[k] == Find(db.users, id).value;
      WithoutAt(db.users, k);
      WithoutKeepsValid(db, id);
    }
  }

  /** The route removes admins as readily as employees: the only admin,
      re-authenticated, can remove their own row, after which no admin is
      left; the admin route refuses the same removal */
  lemma RemoveEmpMayRemoveLastAdmin(db: Db, k: nat, password: string, matches: (string, string) -> bool, now: Timestamp)
    requires Valid(db) && k < |db.users| && IsAdminRow(db.users[k]) && AdminCount(db.users) == 1
    requires matches(password, db.users[k].passwordHash)
    ensures var id := db.users[k].id;
      var (db', r) := RemoveEmp(db, FromNat(id), None, password, Some(id), matches, now);
      r.Success? && AdminCount(db'.users) == 0
  {
    FindAt(db.users, k);
    ParamIdOfFromNat(db.users[k].id);
    AdminCountWithout(db.users, k);
  }
}
