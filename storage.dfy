/**
 * The HR application's storage layer (`DatabaseStorage`): create/read/update/delete
 * operations over twelve tables, each held as a sequence of rows in table order.
 * Getters are functions of the tables; mutators are methods that replace tables.
 */
module Storage {
  import opened Wrappers
  import opened Schema
  import opened Sql

  /** All twelve tables at one moment, to say which tables an operation leaves alone. */
  datatype Tables = Tables(
    users: seq<Row>,
    attendance: seq<Row>,
    leaveRequests: seq<Row>,
    expenseClaims: seq<Row>,
    payroll: seq<Row>,
    salaryStructures: seq<Row>,
    leaveAssignments: seq<Row>,
    employeeProfiles: seq<Row>,
    announcements: seq<Row>,
    companySettings: seq<Row>,
    departments: seq<Row>,
    designations: seq<Row>)

  /** `eq(t.id, id)` */
  function ById(id: string): (cs: seq<Cond>)
    ensures forall r :: Matches(cs, r) <==> Get(r, Id) == Text(id)
  {
    MatchesOne(Eq(Id, Text(id)));
    [Eq(Id, Text(id))]
  }

  /** `eq(t.userId, userId)` */
  function ByUser(userId: string): (cs: seq<Cond>)
    ensures forall r :: Matches(cs, r) <==> Get(r, UserId) == Text(userId)
  {
    MatchesOne(Eq(UserId, Text(userId)));
    [Eq(UserId, Text(userId))]
  }

  /** The row an insert stores: the given values, with the database-generated id when they carry none. */
  function WithId(values: Row, newId: string): (r: Row)
    ensures Get(r, Id) == if Id in values then values[Id] else Text(newId)
  {
    if Id in values then values else values[Id := Text(newId)]
  }

  /** The row `createUser` stores, with the generated id. */
  function RegisteredUser(email: string, passwordHash: string, firstName: string, lastName: string,
                          newId: string): (r: Row)
    ensures Get(r, Id) == Text(newId)
    ensures Get(r, Email) == Text(email) && Get(r, PasswordHash) == Text(passwordHash)
    ensures Get(r, FirstName) == Text(firstName) && Get(r, LastName) == Text(lastName)
    ensures Get(r, Role) == Text("employee")
    ensures Get(r, IsOnboardingComplete) == Bool(false) && Get(r, NeedsPasswordReset) == Bool(true)
  {
    map[Id := Text(newId), Email := Text(email), PasswordHash := Text(passwordHash),
        FirstName := Text(firstName), LastName := Text(lastName), Role := Text("employee"),
        IsOnboardingComplete := Bool(false), NeedsPasswordReset := Bool(true)]
  }

  /** The row `createEmployeeByAdmin` stores, with the generated id; the reset flag defaults to true. */
  function AdminCreatedUser(email: string, passwordHash: string, firstName: string, lastName: string,
                            department: Option<string>, position: Option<string>,
                            needsPasswordReset: Option<bool>, newId: string): (r: Row)
    ensures Get(r, Id) == Text(newId)
    ensures Get(r, Email) == Text(email) && Get(r, PasswordHash) == Text(passwordHash)
    ensures Get(r, FirstName) == Text(firstName) && Get(r, LastName) == Text(lastName)
    ensures Get(r, Department) == if department.Some? then Text(department.value) else Null
    ensures Get(r, Position) == if position.Some? then Text(position.value) else Null
    ensures Get(r, Role) == Text("employee")
    ensures Get(r, NeedsPasswordReset) == Bool(if needsPasswordReset.Some? then needsPasswordReset.value else true)
  {
    var base := map[Id := Text(newId), Email := Text(email), PasswordHash := Text(passwordHash),
                    FirstName := Text(firstName), LastName := Text(lastName), Role := Text("employee"),
                    NeedsPasswordReset := Bool(if needsPasswordReset.Some? then needsPasswordReset.value else true)];
    WithOptional(WithOptional(base, Department, department), Position, position)
  }

  /**
   * The row `upsertUser` inserts for an identity-provider user it has not seen: a placeholder
   * password hash, no password reset, and the given role unless it is missing or empty.
   */
  function OAuthUser(id: string, email: string, firstName: string, lastName: string,
                     profileImageUrl: Option<string>, role: Option<string>): (r: Row)
    ensures Get(r, Id) == Text(id) && Get(r, Email) == Text(email)
    ensures Get(r, FirstName) == Text(firstName) && Get(r, LastName) == Text(lastName)
    ensures Get(r, ProfileImageUrl) == if profileImageUrl.Some? then Text(profileImageUrl.value) else Null
    ensures Get(r, PasswordHash) == Text("oauth-placeholder") && Get(r, NeedsPasswordReset) == Bool(false)
    ensures Get(r, Role) == Text(if role.Some? && role.value != "" then role.value else "employee")
  {
    var base := map[Id := Text(id), Email := Text(email), FirstName := Text(firstName), LastName := Text(lastName),
                    PasswordHash := Text("oauth-placeholder"), NeedsPasswordReset := Bool(false),
                    Role := Text(if role.Some? && role.value != "" then role.value else "employee")];
    WithOptional(base, ProfileImageUrl, profileImageUrl)
  }

  /** The `userData` object `upsertUser` hands to `updateUser`. */
  function UserData(email: string, firstName: string, lastName: string,
                   profileImageUrl: Option<string>, role: Option<string>): (r: Row)
    ensures r.Keys <= {Email, FirstName, LastName, ProfileImageUrl, Role}
    ensures Get(r, Email) == Text(email)
    ensures Get(r, FirstName) == Text(firstName) && Get(r, LastName) == Text(lastName)
    ensures ProfileImageUrl in r <==> profileImageUrl.Some?
    ensures profileImageUrl.Some? ==> r[ProfileImageUrl] == Text(profileImageUrl.value)
    ensures Role in r <==> role.Some?
    ensures role.Some? ==> r[Role] == Text(role.value)
  {
    WithOptional(WithOptional(map[Email := Text(email), FirstName := Text(firstName), LastName := Text(lastName)],
                              ProfileImageUrl, profileImageUrl), Role, role)
  }

  /** `{ ...patch, updatedAt: new Date() }` */
  function Stamped(patch: Row, now: int): (r: Row)
    ensures r.Keys == patch.Keys + {UpdatedAt}
    ensures Get(r, UpdatedAt) == Time(now)
  {
    patch[UpdatedAt := Time(now)]
  }

  /** Stamping keeps every other column of the patch as given. */
  lemma StampedKeepsPatch(patch: Row, now: int)
    ensures forall c :: c in patch && c != UpdatedAt ==> Stamped(patch, now)[c] == patch[c]
  {
  }

  /** `{ ...values, col: v }` where an `undefined` v leaves the column out (the ORM skips it). */
  function WithOptional(values: Row, col: Column, v: Option<string>): (r: Row)
    ensures Get(r, col) == if v.Some? then Text(v.value) else Get(values, col)
  {
    if v.Some? then values[col := Text(v.value)] else values
  }

  /** The columns `updateLeaveRequestStatus` sets. */
  function LeaveDecision(status: string, approverId: string, notes: Option<string>, now: int): (p: Row)
    ensures Get(p, Status) == Text(status) && Get(p, ApproverId) == Text(approverId)
    ensures Get(p, ApproverNotes) == if notes.Some? then Text(notes.value) else Null
    ensures Get(p, UpdatedAt) == Time(now)
    ensures ApproverNotes in p <==> notes.Some?
    ensures p.Keys <= {Status, ApproverId, ApproverNotes, UpdatedAt}
  {
    WithOptional(map[Status := Text(status), ApproverId := Text(approverId), UpdatedAt := Time(now)],
                 ApproverNotes, notes)
  }

  /** The columns `updateExpenseClaimStatus` sets: `approvalDate` only for an approval, and no `updatedAt`. */
  function ExpenseDecision(status: string, approverId: string, notes: Option<string>, now: int): (p: Row)
    ensures ApprovalDate in p <==> status == "approved"
    ensures ApprovalDate in p ==> p[ApprovalDate] == Time(now)
    ensures Get(p, Status) == Text(status) && Get(p, ApproverId) == Text(approverId)
    ensures Get(p, ApproverNotes) == if notes.Some? then Text(notes.value) else Null
    ensures UpdatedAt !in p
    ensures ApproverNotes in p <==> notes.Some?
    ensures p.Keys <= {Status, ApproverId, ApproverNotes, ApprovalDate}
  {
    var base := WithOptional(map[Status := Text(status), ApproverId := Text(approverId)],
                             ApproverNotes, notes);
    if status == "approved" then base[ApprovalDate := Time(now)] else base
  }

  /** The columns `processPayrollRecord` sets. */
  function Processed(now: int): (p: Row)
    ensures Get(p, Status) == Text("processed") && Get(p, ProcessedAt) == Time(now)
    ensures p.Keys == {Status, ProcessedAt}
  {
    map[Status := Text("processed"), ProcessedAt := Time(now)]
  }

  /** The conditions `getAttendanceByUser` pushes: the user, then the optional inclusive bounds. */
  function AttendanceFilter(userId: string, startDate: Option<int>, endDate: Option<int>): (cs: seq<Cond>)
    ensures |cs| == 1 + (if startDate.Some? then 1 else 0) + (if endDate.Some? then 1 else 0)
    ensures cs[0] == Eq(UserId, Text(userId))
  {
    ByUser(userId)
      + (if startDate.Some? then [Gte(Date, Time(startDate.value))] else [])
      + (if endDate.Some? then [Lte(Date, Time(endDate.value))] else [])
  }

  /** The conditions `getPayrollRecords` pushes: a month or year filter only when the argument is truthy. */
  function PayrollFilter(month: Option<int>, year: Option<int>): (cs: seq<Cond>)
    ensures cs == [] <==> (month.None? || month.value == 0) && (year.None? || year.value == 0)
    ensures |cs| <= 2
  {
    (if month.Some? && month.value != 0 then [Eq(Month, Int(month.value))] else [])
      + (if year.Some? && year.value != 0 then [Eq(Year, Int(year.value))] else [])
  }

  lemma AttendanceFilterMeaning(userId: string, startDate: Option<int>, endDate: Option<int>)
    ensures forall r :: Matches(AttendanceFilter(userId, startDate, endDate), r) <==>
      && Get(r, UserId) == Text(userId)
      && (startDate.Some? ==> Holds(Gte(Date, Time(startDate.value)), r))
      && (endDate.Some? ==> Holds(Lte(Date, Time(endDate.value)), r))
  {
    var s: seq<Cond> := if startDate.Some? then [Gte(Date, Time(startDate.value))] else [];
    var e: seq<Cond> := if endDate.Some? then [Lte(Date, Time(endDate.value))] else [];
    MatchesAppend(ByUser(userId) + s, e);
    MatchesAppend(ByUser(userId), s);
    MatchesOne(Eq(UserId, Text(userId)));
    if startDate.Some? { MatchesOne(Gte(Date, Time(startDate.value))); }
    if endDate.Some? { MatchesOne(Lte(Date, Time(endDate.value))); }
  }

  lemma PayrollFilterMeaning(month: Option<int>, year: Option<int>)
    ensures forall r :: Matches(PayrollFilter(month, year), r) <==>
      && (month.Some? && month.value != 0 ==> Get(r, Month) == Int(month.value))
      && (year.Some? && year.value != 0 ==> Get(r, Year) == Int(year.value))
  {
    var m: seq<Cond> := if month.Some? && month.value != 0 then [Eq(Month, Int(month.value))] else [];
    var y: seq<Cond> := if year.Some? && year.value != 0 then [Eq(Year, Int(year.value))] else [];
    MatchesAppend(m, y);
    if month.Some? { MatchesOne(Eq(Month, Int(month.value))); }
    if year.Some? { MatchesOne(Eq(Year, Int(year.value))); }
  }

  /** A patch that does not overwrite `col` with another value keeps every row `eq(col, v)` selects selected. */
  lemma PatchKeepsSelection(rows: seq<Row>, col: Column, v: Value, patch: Row)
    requires col !in patch || patch[col] == v
    ensures forall r :: r in rows && Matches([Eq(col, v)], r) ==> Matches([Eq(col, v)], r + patch)
  {
    MatchesOne(Eq(col, v));
  }

  /** No row of the table has `id` in column `col`. */
  predicate NoneWith(rows: seq<Row>, col: Column, id: string)
  {
    forall r :: r in rows ==> Get(r, col) != Text(id)
  }

  lemma DeleteLeavesNone(rows: seq<Row>, col: Column, id: string)
    ensures NoneWith(Delete(rows, [Eq(col, Text(id))]), col, id)
  {
    MatchesOne(Eq(col, Text(id)));
  }

  /**
   * The tables after `deleteEmployee(id)`: every row that refers to the user is gone, and so is
   * the user.
   */
  function WithoutUser(t: Tables, id: string): (r: Tables)
    ensures NoneWith(r.attendance, UserId, id) && NoneWith(r.leaveRequests, UserId, id)
    ensures NoneWith(r.expenseClaims, UserId, id) && NoneWith(r.payroll, UserId, id)
    ensures NoneWith(r.employeeProfiles, UserId, id) && NoneWith(r.leaveAssignments, UserId, id)
    ensures NoneWith(r.salaryStructures, UserId, id) && NoneWith(r.users, Id, id)
  {
    DeleteLeavesNone(t.attendance, UserId, id);
    DeleteLeavesNone(t.leaveRequests, UserId, id);
    DeleteLeavesNone(t.expenseClaims, UserId, id);
    DeleteLeavesNone(t.payroll, UserId, id);
    DeleteLeavesNone(t.employeeProfiles, UserId, id);
    DeleteLeavesNone(t.leaveAssignments, UserId, id);
    DeleteLeavesNone(t.salaryStructures, UserId, id);
    DeleteLeavesNone(t.users, Id, id);
    t.(
      attendance := Delete(t.attendance, ByUser(id)),
      leaveRequests := Delete(t.leaveRequests, ByUser(id)),
      expenseClaims := Delete(t.expenseClaims, ByUser(id)),
      payroll := Delete(t.payroll, ByUser(id)),
      employeeProfiles := Delete(t.employeeProfiles, ByUser(id)),
      leaveAssignments := Delete(t.leaveAssignments, ByUser(id)),
      salaryStructures := Delete(t.salaryStructures, ByUser(id)),
      users := Delete(t.users, ById(id)))
  }

  class DatabaseStorage {
    var users: seq<Row>
    var attendance: seq<Row>
    var leaveRequests: seq<Row>
    var expenseClaims: seq<Row>
    var payroll: seq<Row>
    var salaryStructures: seq<Row>
    var leaveAssignments: seq<Row>
    var employeeProfiles: seq<Row>
    var announcements: seq<Row>
    var companySettings: seq<Row>
    var departments: seq<Row>
    var designations: seq<Row>

    function Snapshot(): Tables
      reads this
    {
      Tables(users, attendance, leaveRequests, expenseClaims, payroll, salaryStructures,
             leaveAssignments, employeeProfiles, announcements, companySettings, departments, designations)
    }

    /** Company settings is a singleton table; each user has at most one salary structure. */
    ghost predicate Valid()
      reads this
    {
      |companySettings| <= 1 && Distinct(salaryStructures, UserId)
    }

    constructor ()
      ensures Valid()
      ensures Snapshot() == Tables([], [], [], [], [], [], [], [], [], [], [], [])
    {
      users, attendance, leaveRequests, expenseClaims := [], [], [], [];
      payroll, salaryStructures, leaveAssignments, employeeProfiles := [], [], [], [];
      announcements, companySettings, departments, designations := [], [], [], [];
    }

    // -------------------------------------------------------------------------
    // Users
    // -------------------------------------------------------------------------

    function GetUser(id: string): (u: Option<Row>)
      reads this
      ensures u.Some? <==> exists r :: r in users && Get(r, Id) == Text(id)
      ensures u.Some? ==> u.value in users && Get(u.value, Id) == Text(id)
    {
      MatchesOne(Eq(Id, Text(id)));
      FirstWhere(users, ById(id))
    }

    function GetUserByEmail(email: string): (u: Option<Row>)
      reads this
      ensures u.Some? <==> exists r :: r in users && Get(r, Email) == Text(email)
      ensures u.Some? ==> u.value in users && Get(u.value, Email) == Text(email)
    {
      MatchesOne(Eq(Email, Text(email)));
      FirstWhere(users, [Eq(Email, Text(email))])
    }

    /**
     * Replaces the password hash when `currentPassword` matches the stored hash.
     * `compare` stands for the hash library's comparison and `newHash` for the hash it makes of the new password.
     */
    method ChangeUserPassword(userId: string, currentPassword: string, newHash: string,
                              compare: (string, string) -> bool, now: int) returns (changed: bool)
      requires Valid()
      modifies this
      ensures Valid()
      ensures changed <==>
        var u := old(GetUser(userId));
        u.Some? && Get(u.value, PasswordHash).Text? && compare(currentPassword, Get(u.value, PasswordHash).s)
      ensures changed ==> Snapshot() == old(Snapshot()).(users :=
        Update(old(users), ById(userId), map[PasswordHash := Text(newHash), UpdatedAt := Time(now)]))
      ensures !changed ==> Snapshot() == old(Snapshot())
    {
      var user := GetUser(userId);
      if user.None? {
        return false;
      }
      var stored := Get(user.value, PasswordHash);
      if !stored.Text? || !compare(currentPassword, stored.s) {
        return false;
      }
      users := Update(users, ById(userId), map[PasswordHash := Text(newHash), UpdatedAt := Time(now)]);
      changed := true;
    }

    /** Self-registration: always an employee who has not finished onboarding and must reset the password. */
    method CreateUser(email: string, passwordHash: string, firstName: string, lastName: string, newId: string)
      returns (user: Row)
      requires Valid()
      modifies this
      ensures Valid()
      ensures Snapshot() == old(Snapshot()).(users := old(users) + [user])
      ensures user == RegisteredUser(email, passwordHash, firstName, lastName, newId)
      ensures old(GetUser(newId)).None? ==> GetUser(newId) == Some(user)
    {
      user := RegisteredUser(email, passwordHash, firstName, lastName, newId);
      MatchesOne(Eq(Id, Text(newId)));
      if GetUser(newId).None? {
        ReadAfterInsert(users, ById(newId), user);
      }
      users := users + [user];
    }

    /** An admin-created employee; the password-reset flag defaults to true. */
    method CreateEmployeeByAdmin(email: string, passwordHash: string, firstName: string, lastName: string,
                                 department: Option<string>, position: Option<string>,
                                 needsPasswordReset: Option<bool>, newId: string)
      returns (user: Row)
      requires Valid()
      modifies this
      ensures Valid()
      ensures Snapshot() == old(Snapshot()).(users := old(users) + [user])
      ensures user == AdminCreatedUser(email, passwordHash, firstName, lastName, department, position,
                                       needsPasswordReset, newId)
      ensures old(GetUser(newId)).None? ==> GetUser(newId) == Some(user)
    {
      user := AdminCreatedUser(email, passwordHash, firstName, lastName, department, position,
                               needsPasswordReset, newId);
      MatchesOne(Eq(Id, Text(newId)));
      if GetUser(newId).None? {
        ReadAfterInsert(users, ById(newId), user);
      }
      users := users + [user];
    }

    /** Applies `updates` and a fresh `updatedAt` to the user; "User not found" when no row has the id. */
    method UpdateUser(id: string, updates: Row, now: int) returns (result: Result<Row>)
      requires Valid()
      modifies this
      ensures Valid()
      ensures Snapshot() == old(Snapshot()).(users := Update(old(users), ById(id), Stamped(updates, now)))
      ensures result.Err? <==> old(GetUser(id)).None?
      ensures result.Err? ==> result.message == "User not found" && Snapshot() == old(Snapshot())
      ensures result.Ok? ==> result.value == old(GetUser(id)).value + Stamped(updates, now)
      ensures result.Ok? && Id !in updates ==> GetUser(id) == Some(result.value)
    {
      MatchesOne(Eq(Id, Text(id)));
      UpdateReturnsFirstMatch(users, ById(id), Stamped(updates, now));
      if Id !in updates {
        PatchKeepsSelection(users, Id, Text(id), Stamped(updates, now));
        ReadAfterUpdate(users, ById(id), Stamped(updates, now));
      }
      var returned := Returning(users, ById(id), Stamped(updates, now));
      users := Update(users, ById(id), Stamped(updates, now));
      if returned == [] {
        result := Err("User not found");
      } else {
        result := Ok(returned[0]);
      }
    }

    /**
     * Sign-in from an identity provider: updates the user with that id, or inserts one with a
     * placeholder password hash, no password reset, and the given role ("employee" when none or empty).
     */
    method UpsertUser(id: string, email: string, firstName: string, lastName: string,
                      profileImageUrl: Option<string>, role: Option<string>, now: int)
      returns (user: Row)
      requires Valid()
      modifies this
      ensures Valid()
      ensures old(GetUser(id)).Some? ==>
        && Snapshot() == old(Snapshot()).(users := Update(old(users), ById(id), Stamped(UserData(email, firstName, lastName, profileImageUrl, role), now)))
        && |users| == |old(users)|
        && user == old(GetUser(id)).value + Stamped(UserData(email, firstName, lastName, profileImageUrl, role), now)
      ensures old(GetUser(id)).None? ==>
        && Snapshot() == old(Snapshot()).(users := old(users) + [user])
        && user == OAuthUser(id, email, firstName, lastName, profileImageUrl, role)
      ensures GetUser(id) == Some(user)
    {
      var existing := GetUser(id);
      if existing.Some? {
        var result := UpdateUser(id, UserData(email, firstName, lastName, profileImageUrl, role), now);
        user := result.value;
      } else {
        user := OAuthUser(id, email, firstName, lastName, profileImageUrl, role);
        MatchesOne(Eq(Id, Text(id)));
        ReadAfterInsert(users, ById(id), user);
        users := users + [user];
      }
    }

    // -------------------------------------------------------------------------
    // Employees
    // -------------------------------------------------------------------------

    function GetAllEmployees(): (out: seq<Row>)
      reads this
      ensures forall r {:trigger multiset(out)[r]} ::
        multiset(out)[r] == if Get(r, IsActive) == Bool(true) then multiset(users)[r] else 0
    {
      MatchesOne(Eq(IsActive, Bool(true)));
      Where(users, [Eq(IsActive, Bool(true))])
    }

    function GetEmployeesByManager(managerId: string): (out: seq<Row>)
      reads this
      ensures forall r {:trigger multiset(out)[r]} ::
        multiset(out)[r] ==
          if Get(r, ManagerId) == Text(managerId) && Get(r, IsActive) == Bool(true) then multiset(users)[r] else 0
    {
      MatchesAppend([Eq(ManagerId, Text(managerId))], [Eq(IsActive, Bool(true))]);
      MatchesOne(Eq(ManagerId, Text(managerId)));
      MatchesOne(Eq(IsActive, Bool(true)));
      Where(users, [Eq(ManagerId, Text(managerId))] + [Eq(IsActive, Bool(true))])
    }

    method UpdateEmployee(id: string, updates: Row, now: int) returns (result: Result<Row>)
      requires Valid()
      modifies this
      ensures Valid()
      ensures Snapshot() == old(Snapshot()).(users := Update(old(users), ById(id), Stamped(updates, now)))
      ensures result.Err? <==> old(GetUser(id)).None?
      ensures result.Err? ==> result.message == "User not found" && Snapshot() == old(Snapshot())
      ensures result.Ok? ==> result.value == old(GetUser(id)).value + Stamped(updates, now)
      ensures result.Ok? && Id !in updates ==> GetUser(id) == Some(result.value)
    {
      result := UpdateUser(id, updates, now);
    }

    /**
     * Removes the user's attendance, leave requests, expense claims, payroll, profile, leave
     * assignments and salary structure, then the user; rows of everyone else stay as they were.
     */
    method DeleteEmployee(id: string)
      requires Valid()
      modifies this
      ensures Valid()
      ensures Snapshot() == old(Snapshot()).(
        attendance := Delete(old(attendance), ByUser(id)),
        leaveRequests := Delete(old(leaveRequests), ByUser(id)),
        expenseClaims := Delete(old(expenseClaims), ByUser(id)),
        payroll := Delete(old(payroll), ByUser(id)),
        employeeProfiles := Delete(old(employeeProfiles), ByUser(id)),
        leaveAssignments := Delete(old(leaveAssignments), ByUser(id)),
        salaryStructures := Delete(old(salaryStructures), ByUser(id)),
        users := Delete(old(users), ById(id)))
      ensures NoneWith(attendance, UserId, id) && NoneWith(leaveRequests, UserId, id)
      ensures NoneWith(expenseClaims, UserId, id) && NoneWith(payroll, UserId, id)
      ensures NoneWith(employeeProfiles, UserId, id) && NoneWith(leaveAssignments, UserId, id)
      ensures NoneWith(salaryStructures, UserId, id) && NoneWith(users, Id, id)
    {
      FilterKeepsDistinct(salaryStructures, ByUser(id), false, UserId);
      var t := WithoutUser(Snapshot(), id);
      attendance, leaveRequests, expenseClaims, payroll := t.attendance, t.leaveRequests, t.expenseClaims, t.payroll;
      employeeProfiles, leaveAssignments := t.employeeProfiles, t.leaveAssignments;
      salaryStructures, users := t.salaryStructures, t.users;
    }

    // -------------------------------------------------------------------------
    // Attendance
    // -------------------------------------------------------------------------

    method MarkAttendance(values: Row, newId: string) returns (record: Row)
      requires Valid()
      modifies this
      ensures Valid()
      ensures Snapshot() == old(Snapshot()).(attendance := old(attendance) + [record])
      ensures record == WithId(values, newId)
    {
      record := WithId(values, newId);
      attendance := attendance + [record];
    }

    /** Applies `updates` (no `updatedAt`); "Attendance record not found" when no row has the id. */
    method UpdateAttendance(id: string, updates: Row) returns (result: Result<Row>)
      requires Valid()
      modifies this
      ensures Valid()
      ensures Snapshot() == old(Snapshot()).(attendance := Update(old(attendance), ById(id), updates))
      ensures result.Err? <==> forall r :: r in old(attendance) ==> Get(r, Id) != Text(id)
      ensures result.Err? ==> result.message == "Attendance record not found" && Snapshot() == old(Snapshot())
      ensures result.Ok? ==> result.value == old(attendance[FirstMatch(attendance, ById(id))]) + updates
    {
      MatchesOne(Eq(Id, Text(id)));
      UpdateReturnsFirstMatch(attendance, ById(id), updates);
      var returned := Returning(attendance, ById(id), updates);
      attendance := Update(attendance, ById(id), updates);
      if returned == [] {
        result := Err("Attendance record not found");
      } else {
        result := Ok(returned[0]);
      }
    }

    /** The user's attendance within the optional inclusive date bounds, latest date first. */
    function GetAttendanceByUser(userId: string, startDate: Option<int>, endDate: Option<int>): (out: seq<Row>)
      reads this
      ensures forall r {:trigger multiset(out)[r]} ::
        multiset(out)[r] ==
          if && Get(r, UserId) == Text(userId)
             && (startDate.Some? ==> Holds(Gte(Date, Time(startDate.value)), r))
             && (endDate.Some? ==> Holds(Lte(Date, Time(endDate.value)), r))
          then multiset(attendance)[r] else 0
      ensures SortedDesc(out, [Date])
    {
      AttendanceFilterMeaning(userId, startDate, endDate);
      OrderByDesc(Where(attendance, AttendanceFilter(userId, startDate, endDate)), [Date])
    }

    /** The user's attendance dated within `[dayStart, dayEnd]`: local midnight and the next midnight. */
    function GetTodayAttendance(userId: string, dayStart: int, dayEnd: int): (a: Option<Row>)
      reads this
      ensures a.Some? <==> exists r :: r in attendance && Get(r, UserId) == Text(userId)
                                        && Holds(Gte(Date, Time(dayStart)), r) && Holds(Lte(Date, Time(dayEnd)), r)
      ensures a.Some? ==> a.value in attendance && Get(a.value, UserId) == Text(userId)
                          && dayStart <= Num(Get(a.value, Date)) <= dayEnd
    {
      AttendanceFilterMeaning(userId, Some(dayStart), Some(dayEnd));
      FirstWhere(attendance, AttendanceFilter(userId, Some(dayStart), Some(dayEnd)))
    }

    /** Everyone's attendance dated within `[dayStart, dayEnd]`: the range query over one day. */
    function GetTodayAttendanceForAll(dayStart: int, dayEnd: int): (out: seq<Row>)
      reads this
      ensures forall r {:trigger multiset(out)[r]} ::
        multiset(out)[r] == if Get(r, Date).Time? && dayStart <= Get(r, Date).t <= dayEnd
                            then multiset(attendance)[r] else 0
    {
      GetAttendanceRangeForAll(dayStart, dayEnd)
    }

    function GetAttendanceRangeForAll(startDate: int, endDate: int): (out: seq<Row>)
      reads this
      ensures forall r {:trigger multiset(out)[r]} ::
        multiset(out)[r] == if Get(r, Date).Time? && startDate <= Get(r, Date).t <= endDate
                            then multiset(attendance)[r] else 0
    {
      MatchesAppend([Gte(Date, Time(startDate))], [Lte(Date, Time(endDate))]);
      MatchesOne(Gte(Date, Time(startDate)));
      MatchesOne(Lte(Date, Time(endDate)));
      Where(attendance, [Gte(Date, Time(startDate))] + [Lte(Date, Time(endDate))])
    }

    // -------------------------------------------------------------------------
    // Leave requests
    // -------------------------------------------------------------------------

    method CreateLeaveRequest(values: Row, newId: string) returns (request: Row)
      requires Valid()
      modifies this
      ensures Valid()
      ensures Snapshot() == old(Snapshot()).(leaveRequests := old(leaveRequests) + [request])
      ensures request == WithId(values, newId)
    {
      request := WithId(values, newId);
      leaveRequests := leaveRequests + [request];
    }

    function GetLeaveRequestsByUser(userId: string): (out: seq<Row>)
      reads this
      ensures forall r {:trigger multiset(out)[r]} ::
        multiset(out)[r] == if Get(r, UserId) == Text(userId) then multiset(leaveRequests)[r] else 0
      ensures SortedDesc(out, [CreatedAt])
    {
      MatchesOne(Eq(UserId, Text(userId)));
      OrderByDesc(Where(leaveRequests, ByUser(userId)), [CreatedAt])
    }

    /** Every pending request, newest first; `approverId` does not narrow the result. */
    function GetPendingLeaveRequests(approverId: Option<string>): (out: seq<Row>)
      reads this
      ensures forall r {:trigger multiset(out)[r]} ::
        multiset(out)[r] == if Get(r, Status) == Text("pending") then multiset(leaveRequests)[r] else 0
      ensures SortedDesc(out, [CreatedAt])
    {
      MatchesOne(Eq(Status, Text("pending")));
      OrderByDesc(Where(leaveRequests, [Eq(Status, Text("pending"))]), [CreatedAt])
    }

    /** Records the decision; "Leave request not found" when no row has the id. */
    method UpdateLeaveRequestStatus(id: string, status: string, approverId: string, notes: Option<string>, now: int)
      returns (result: Result<Row>)
      requires Valid()
      modifies this
      ensures Valid()
      ensures Snapshot() == old(Snapshot()).(leaveRequests :=
        Update(old(leaveRequests), ById(id), LeaveDecision(status, approverId, notes, now)))
      ensures result.Err? <==> forall r :: r in old(leaveRequests) ==> Get(r, Id) != Text(id)
      ensures result.Err? ==> result.message == "Leave request not found" && Snapshot() == old(Snapshot())
      ensures result.Ok? ==>
        && result.value == old(leaveRequests[FirstMatch(leaveRequests, ById(id))]) + LeaveDecision(status, approverId, notes, now)
        && Get(result.value, Status) == Text(status)
        && Get(result.value, ApproverId) == Text(approverId)
        && Get(result.value, UpdatedAt) == Time(now)
    {
      MatchesOne(Eq(Id, Text(id)));
      var patch := LeaveDecision(status, approverId, notes, now);
      UpdateReturnsFirstMatch(leaveRequests, ById(id), patch);
      var returned := Returning(leaveRequests, ById(id), patch);
      leaveRequests := Update(leaveRequests, ById(id), patch);
      if returned == [] {
        result := Err("Leave request not found");
      } else {
        result := Ok(returned[0]);
      }
    }

    function GetAllLeaveRequests(): (out: seq<Row>)
      reads this
      ensures multiset(out) == multiset(leaveRequests)
      ensures SortedDesc(out, [CreatedAt])
    {
      OrderByDesc(leaveRequests, [CreatedAt])
    }

    /** `updateLeaveRequestStatus` with the approver defaulting to the empty string. */
    method RespondToLeaveRequest(requestId: string, status: string, notes: Option<string>,
                                 approverId: Option<string>, now: int)
      returns (result: Result<Row>)
      requires Valid()
      modifies this
      ensures Valid()
      ensures Snapshot() == old(Snapshot()).(leaveRequests :=
        Update(old(leaveRequests), ById(requestId),
               LeaveDecision(status, if approverId.Some? then approverId.value else "", notes, now)))
      ensures result.Err? <==> forall r :: r in old(leaveRequests) ==> Get(r, Id) != Text(requestId)
      ensures result.Err? ==> result.message == "Leave request not found" && Snapshot() == old(Snapshot())
      ensures result.Ok? ==>
        && result.value == old(leaveRequests[FirstMatch(leaveRequests, ById(requestId))])
                           + LeaveDecision(status, if approverId.Some? then approverId.value else "", notes, now)
        && Get(result.value, Status) == Text(status)
        && Get(result.value, ApproverId) == Text(if approverId.Some? then approverId.value else "")
    {
      result := UpdateLeaveRequestStatus(requestId, status, if approverId.Some? then approverId.value else "", notes, now);
    }

    // -------------------------------------------------------------------------
    // Expense claims
    // -------------------------------------------------------------------------

    method CreateExpenseClaim(values: Row, newId: string) returns (claim: Row)
      requires Valid()
      modifies this
      ensures Valid()
      ensures Snapshot() == old(Snapshot()).(expenseClaims := old(expenseClaims) + [claim])
      ensures claim == WithId(values, newId)
    {
      claim := WithId(values, newId);
      expenseClaims := expenseClaims + [claim];
    }

    function GetExpenseClaimsByUser(userId: string): (out: seq<Row>)
      reads this
      ensures forall r {:trigger multiset(out)[r]} ::
        multiset(out)[r] == if Get(r, UserId) == Text(userId) then multiset(expenseClaims)[r] else 0
      ensures SortedDesc(out, [SubmissionDate])
    {
      MatchesOne(Eq(UserId, Text(userId)));
      OrderByDesc(Where(expenseClaims, ByUser(userId)), [SubmissionDate])
    }

    /** Every submitted claim, latest submission first; `approverId` does not narrow the result. */
    function GetPendingExpenseClaims(approverId: Option<string>): (out: seq<Row>)
      reads this
      ensures forall r {:trigger multiset(out)[r]} ::
        multiset(out)[r] == if Get(r, Status) == Text("submitted") then multiset(expenseClaims)[r] else 0
      ensures SortedDesc(out, [SubmissionDate])
    {
      MatchesOne(Eq(Status, Text("submitted")));
      OrderByDesc(Where(expenseClaims, [Eq(Status, Text("submitted"))]), [SubmissionDate])
    }

    /**
     * Records the decision; sets `approvalDate` only for "approved" and otherwise leaves it as it was.
     * "Expense claim not found" when no row has the id.
     */
    method UpdateExpenseClaimStatus(id: string, status: string, approverId: string, notes: Option<string>, now: int)
      returns (result: Result<Row>)
      requires Valid()
      modifies this
      ensures Valid()
      ensures Snapshot() == old(Snapshot()).(expenseClaims :=
        Update(old(expenseClaims), ById(id), ExpenseDecision(status, approverId, notes, now)))
      ensures result.Err? <==> forall r :: r in old(expenseClaims) ==> Get(r, Id) != Text(id)
      ensures result.Err? ==> result.message == "Expense claim not found" && Snapshot() == old(Snapshot())
      ensures result.Ok? ==>
        var before := old(expenseClaims[FirstMatch(expenseClaims, ById(id))]);
        && Get(before, Id) == Text(id)
        && result.value == before + ExpenseDecision(status, approverId, notes, now)
        && Get(result.value, Status) == Text(status)
        && Get(result.value, ApproverId) == Text(approverId)
        && Get(result.value, ApprovalDate) == (if status == "approved" then Time(now) else Get(before, ApprovalDate))
        && Get(result.value, UpdatedAt) == Get(before, UpdatedAt)
    {
      MatchesOne(Eq(Id, Text(id)));
      var patch := ExpenseDecision(status, approverId, notes, now);
      UpdateReturnsFirstMatch(expenseClaims, ById(id), patch);
      var returned := Returning(expenseClaims, ById(id), patch);
      expenseClaims := Update(expenseClaims, ById(id), patch);
      if returned == [] {
        result := Err("Expense claim not found");
      } else {
        result := Ok(returned[0]);
      }
    }

    // -------------------------------------------------------------------------
    // Payroll
    // -------------------------------------------------------------------------

    /** The user's payroll, latest year first and, within a year, latest month first. */
    function GetPayrollByUser(userId: string): (out: seq<Row>)
      reads this
      ensures forall r {:trigger multiset(out)[r]} ::
        multiset(out)[r] == if Get(r, UserId) == Text(userId) then multiset(payroll)[r] else 0
      ensures SortedDesc(out, [Year, Month])
    {
      MatchesOne(Eq(UserId, Text(userId)));
      OrderByDesc(Where(payroll, ByUser(userId)), [Year, Month])
    }

    function GetPayrollByUserAndPeriod(userId: string, month: int, year: int): (p: Option<Row>)
      reads this
      ensures p.Some? <==> exists r :: r in payroll && Get(r, UserId) == Text(userId)
                                        && Get(r, Month) == Int(month) && Get(r, Year) == Int(year)
      ensures p.Some? ==> p.value in payroll && Get(p.value, UserId) == Text(userId)
                          && Get(p.value, Month) == Int(month) && Get(p.value, Year) == Int(year)
    {
      MatchesAppend(ByUser(userId) + [Eq(Month, Int(month))], [Eq(Year, Int(year))]);
      MatchesAppend(ByUser(userId), [Eq(Month, Int(month))]);
      MatchesOne(Eq(UserId, Text(userId)));
      MatchesOne(Eq(Month, Int(month)));
      MatchesOne(Eq(Year, Int(year)));
      FirstWhere(payroll, ByUser(userId) + [Eq(Month, Int(month))] + [Eq(Year, Int(year))])
    }

    method CreatePayrollRecord(values: Row, newId: string) returns (record: Row)
      requires Valid()
      modifies this
      ensures Valid()
      ensures Snapshot() == old(Snapshot()).(payroll := old(payroll) + [record])
      ensures record == WithId(values, newId)
    {
      record := WithId(values, newId);
      payroll := payroll + [record];
    }

    /** Payroll rows, narrowed by month and by year only when those arguments are given and non-zero. */
    function GetPayrollRecords(month: Option<int>, year: Option<int>): (out: seq<Row>)
      reads this
      ensures forall r {:trigger multiset(out)[r]} ::
        multiset(out)[r] ==
          if && (month.Some? && month.value != 0 ==> Get(r, Month) == Int(month.value))
             && (year.Some? && year.value != 0 ==> Get(r, Year) == Int(year.value))
          then multiset(payroll)[r] else 0
      ensures (month.None? || month.value == 0) && (year.None? || year.value == 0) ==> out == payroll
    {
      PayrollFilterMeaning(month, year);
      var conditions := PayrollFilter(month, year);
      if |conditions| > 0 then Where(payroll, conditions) else payroll
    }

    /** Marks the record processed; "Payroll record not found" when no row has the id. */
    method ProcessPayrollRecord(recordId: string, now: int) returns (result: Result<Row>)
      requires Valid()
      modifies this
      ensures Valid()
      ensures Snapshot() == old(Snapshot()).(payroll :=
        Update(old(payroll), ById(recordId), Processed(now)))
      ensures result.Err? <==> forall r :: r in old(payroll) ==> Get(r, Id) != Text(recordId)
      ensures result.Err? ==> result.message == "Payroll record not found" && Snapshot() == old(Snapshot())
      ensures result.Ok? ==>
        && Get(old(payroll[FirstMatch(payroll, ById(recordId))]), Id) == Text(recordId)
        && Get(result.value, Status) == Text("processed")
        && Get(result.value, ProcessedAt) == Time(now)
      ensures result.Ok? ==> GetPayrollRecordById(recordId) == Some(result.value)
    {
      MatchesOne(Eq(Id, Text(recordId)));
      var patch := Processed(now);
      UpdateReturnsFirstMatch(payroll, ById(recordId), patch);
      PatchKeepsSelection(payroll, Id, Text(recordId), patch);
      ReadAfterUpdate(payroll, ById(recordId), patch);
      var returned := Returning(payroll, ById(recordId), patch);
      payroll := Update(payroll, ById(recordId), patch);
      if returned == [] {
        result := Err("Payroll record not found");
      } else {
        result := Ok(returned[0]);
      }
    }

    function GetPayrollRecordById(recordId: string): (p: Option<Row>)
      reads this
      ensures p.Some? <==> exists r :: r in payroll && Get(r, Id) == Text(recordId)
      ensures p.Some? ==> p.value in payroll && Get(p.value, Id) == Text(recordId)
    {
      MatchesOne(Eq(Id, Text(recordId)));
      FirstWhere(payroll, ById(recordId))
    }

    // -------------------------------------------------------------------------
    // Salary structures
    // -------------------------------------------------------------------------

    /**
     * Updates the user's salary structure in place when there is one (the row count stays),
     * and inserts one otherwise; each user keeps at most one structure.
     */
    method CreateOrUpdateSalaryStructure(userId: string, fields: Row, newId: string, now: int)
      returns (structure: Row)
      requires Valid()
      modifies this
      ensures Valid()
      ensures old(GetEmployeeSalaryStructure(userId)).Some? ==>
        && Snapshot() == old(Snapshot()).(salaryStructures :=
             Update(old(salaryStructures), ByUser(userId), Stamped(fields[UserId := Text(userId)], now)))
        && |salaryStructures| == |old(salaryStructures)|
        && structure == old(GetEmployeeSalaryStructure(userId)).value + Stamped(fields[UserId := Text(userId)], now)
      ensures old(GetEmployeeSalaryStructure(userId)).None? ==>
        && Snapshot() == old(Snapshot()).(salaryStructures := old(salaryStructures) + [structure])
        && structure == WithId(fields[UserId := Text(userId)], newId)
      ensures Get(structure, UserId) == Text(userId)
      ensures GetEmployeeSalaryStructure(userId) == Some(structure)
    {
      MatchesOne(Eq(UserId, Text(userId)));
      var existing := GetEmployeeSalaryStructure(userId);
      var values := fields[UserId := Text(userId)];
      if existing.Some? {
        var patch := Stamped(values, now);
        var returned := Returning(salaryStructures, ByUser(userId), patch);
        UpdateKeepsSelectedColumn(salaryStructures, UserId, Text(userId), patch);
        UpdateReturnsFirstMatch(salaryStructures, ByUser(userId), patch);
        PatchKeepsSelection(salaryStructures, UserId, Text(userId), patch);
        ReadAfterUpdate(salaryStructures, ByUser(userId), patch);
        salaryStructures := Update(salaryStructures, ByUser(userId), patch);
        structure := returned[0];
      } else {
        structure := WithId(values, newId);
        ReadAfterInsert(salaryStructures, ByUser(userId), structure);
        ghost var before := salaryStructures;
        salaryStructures := salaryStructures + [structure];
        forall i, j | 0 <= i < j < |salaryStructures|
          ensures Get(salaryStructures[i], UserId) != Get(salaryStructures[j], UserId)
        {
          if j == |before| {
            assert salaryStructures[i] in before;
          }
        }
      }
    }

    function GetEmployeeSalaryStructure(userId: string): (s: Option<Row>)
      reads this
      ensures s.Some? <==> exists r :: r in salaryStructures && Get(r, UserId) == Text(userId)
      ensures s.Some? ==> s.value in salaryStructures && Get(s.value, UserId) == Text(userId)
    {
      MatchesOne(Eq(UserId, Text(userId)));
      FirstWhere(salaryStructures, ByUser(userId))
    }

    function GetAllEmployeesWithSalaryStructure(): (out: seq<Row>)
      reads this
      ensures out == salaryStructures
    {
      salaryStructures
    }

    // -------------------------------------------------------------------------
    // Leave assignments
    // -------------------------------------------------------------------------

    method CreateLeaveAssignment(values: Row, newId: string) returns (assignment: Row)
      requires Valid()
      modifies this
      ensures Valid()
      ensures Snapshot() == old(Snapshot()).(leaveAssignments := old(leaveAssignments) + [assignment])
      ensures assignment == WithId(values, newId)
    {
      assignment := WithId(values, newId);
      leaveAssignments := leaveAssignments + [assignment];
    }

    function GetLeaveAssignments(): (out: seq<Row>)
      reads this
      ensures out == leaveAssignments
    {
      leaveAssignments
    }

    // -------------------------------------------------------------------------
    // Employee profiles
    // -------------------------------------------------------------------------

    function GetEmployeeProfile(userId: string): (p: Option<Row>)
      reads this
      ensures p.Some? <==> exists r :: r in employeeProfiles && Get(r, UserId) == Text(userId)
      ensures p.Some? ==> p.value in employeeProfiles && Get(p.value, UserId) == Text(userId)
    {
      MatchesOne(Eq(UserId, Text(userId)));
      FirstWhere(employeeProfiles, ByUser(userId))
    }

    method CreateEmployeeProfile(values: Row, newId: string) returns (profile: Row)
      requires Valid()
      modifies this
      ensures Valid()
      ensures Snapshot() == old(Snapshot()).(employeeProfiles := old(employeeProfiles) + [profile])
      ensures profile == WithId(values, newId)
    {
      profile := WithId(values, newId);
      employeeProfiles := employeeProfiles + [profile];
    }

    /** Updates every profile of the user; returns the first; "Employee profile not found" when there is none. */
    method UpdateEmployeeProfile(userId: string, updates: Row, now: int) returns (result: Result<Row>)
      requires Valid()
      modifies this
      ensures Valid()
      ensures Snapshot() == old(Snapshot()).(employeeProfiles :=
        Update(old(employeeProfiles), ByUser(userId), Stamped(updates, now)))
      ensures result.Err? <==> old(GetEmployeeProfile(userId)).None?
      ensures result.Err? ==> result.message == "Employee profile not found" && Snapshot() == old(Snapshot())
      ensures result.Ok? ==> result.value == old(GetEmployeeProfile(userId)).value + Stamped(updates, now)
      ensures result.Ok? && UserId !in updates ==> GetEmployeeProfile(userId) == Some(result.value)
    {
      MatchesOne(Eq(UserId, Text(userId)));
      UpdateReturnsFirstMatch(employeeProfiles, ByUser(userId), Stamped(updates, now));
      if UserId !in updates {
        PatchKeepsSelection(employeeProfiles, UserId, Text(userId), Stamped(updates, now));
        ReadAfterUpdate(employeeProfiles, ByUser(userId), Stamped(updates, now));
      }
      var returned := Returning(employeeProfiles, ByUser(userId), Stamped(updates, now));
      employeeProfiles := Update(employeeProfiles, ByUser(userId), Stamped(updates, now));
      if returned == [] {
        result := Err("Employee profile not found");
      } else {
        result := Ok(returned[0]);
      }
    }

    // -------------------------------------------------------------------------
    // Announcements
    // -------------------------------------------------------------------------

    method CreateAnnouncement(values: Row, newId: string) returns (announcement: Row)
      requires Valid()
      modifies this
      ensures Valid()
      ensures Snapshot() == old(Snapshot()).(announcements := old(announcements) + [announcement])
      ensures announcement == WithId(values, newId)
    {
      announcement := WithId(values, newId);
      announcements := announcements + [announcement];
    }

    /**
     * At most five active announcements, newest first; fewer only when fewer are active, and any
     * active announcement left out is no newer than each one returned.
     */
    function GetActiveAnnouncements(): (out: seq<Row>)
      reads this
      ensures |out| <= 5
      ensures multiset(out) <= multiset(announcements)
      ensures forall r :: r in out ==> r in announcements && Get(r, IsActive) == Bool(true)
      ensures SortedDesc(out, [CreatedAt])
      ensures |out| == 5 || forall r {:trigger multiset(out)[r]} ::
        multiset(out)[r] == if Get(r, IsActive) == Bool(true) then multiset(announcements)[r] else 0
      ensures forall x {:trigger multiset(out)[x]} ::
        Get(x, IsActive) == Bool(true) && multiset(out)[x] < multiset(announcements)[x] ==>
          forall y :: y in out ==> Precedes(y, x, [CreatedAt])
    {
      MatchesOne(Eq(IsActive, Bool(true)));
      var active := Where(announcements, [Eq(IsActive, Bool(true))]);
      var out := Top(active, [CreatedAt], 5);
      WhereIsSubMultiset(announcements, [Eq(IsActive, Bool(true))]);
      assert forall r :: r in out ==> r in active by {
        forall r | r in out ensures r in active {
          assert r in multiset(out);
        }
      }
      out
    }

    // -------------------------------------------------------------------------
    // Company settings
    // -------------------------------------------------------------------------

    function GetCompanySettings(): (s: Option<Row>)
      reads this
      ensures s.Some? <==> |companySettings| > 0
      ensures s.Some? ==> s.value == companySettings[0]
    {
      FirstOf(companySettings)
    }

    /**
     * Updates the settings row selected by the existing row's id, or inserts the first one;
     * afterwards there is exactly one settings row. The result is the row `.returning()` gives first.
     */
    method UpdateCompanySettings(settings: Row, newId: string, now: int) returns (result: Option<Row>)
      requires Valid()
      modifies this
      ensures Valid()
      ensures |companySettings| == 1
      ensures old(|companySettings|) == 1 ==>
        && Snapshot() == old(Snapshot()).(companySettings :=
             Update(old(companySettings), [Eq(Id, Get(old(companySettings)[0], Id))], Stamped(settings, now)))
        && (Get(old(companySettings)[0], Id) != Null ==>
              result == Some(old(companySettings)[0] + Stamped(settings, now)))
      ensures old(|companySettings|) == 0 ==>
        && Snapshot() == old(Snapshot()).(companySettings := [WithId(settings, newId)])
        && result == Some(WithId(settings, newId))
    {
      var existing := GetCompanySettings();
      if existing.Some? {
        var cs := [Eq(Id, Get(existing.value, Id))];
        MatchesOne(cs[0]);
        var returned := Returning(companySettings, cs, Stamped(settings, now));
        companySettings := Update(companySettings, cs, Stamped(settings, now));
        result := FirstOf(returned);
        if Get(existing.value, Id) != Null {
          assert Matches(cs, existing.value);
          WhereStartsAtFirstMatch(old(companySettings), cs);
        }
      } else {
        var row := WithId(settings, newId);
        companySettings := companySettings + [row];
        result := Some(row);
      }
    }

    // -------------------------------------------------------------------------
    // Departments
    // -------------------------------------------------------------------------

    function GetDepartments(): (out: seq<Row>)
      reads this
      ensures multiset(out) == multiset(departments)
      ensures SortedDesc(out, [CreatedAt])
    {
      OrderByDesc(departments, [CreatedAt])
    }

    method CreateDepartment(department: Row, newId: string) returns (created: Row)
      requires Valid()
      modifies this
      ensures Valid()
      ensures Snapshot() == old(Snapshot()).(departments := old(departments) + [created])
      ensures created == WithId(department, newId)
    {
      created := WithId(department, newId);
      departments := departments + [created];
    }

    /** Updates the department; `null` (here `None`) when no row has the id. */
    method UpdateDepartment(id: string, department: Row, now: int) returns (result: Option<Row>)
      requires Valid()
      modifies this
      ensures Valid()
      ensures Snapshot() == old(Snapshot()).(departments := Update(old(departments), ById(id), Stamped(department, now)))
      ensures result.None? <==> forall r :: r in old(departments) ==> Get(r, Id) != Text(id)
      ensures result.None? ==> Snapshot() == old(Snapshot())
      ensures result.Some? ==> result.value == old(departments[FirstMatch(departments, ById(id))]) + Stamped(department, now)
    {
      MatchesOne(Eq(Id, Text(id)));
      UpdateReturnsFirstMatch(departments, ById(id), Stamped(department, now));
      var returned := Returning(departments, ById(id), Stamped(department, now));
      departments := Update(departments, ById(id), Stamped(department, now));
      result := FirstOf(returned);
    }

    /** Deletes the department and reports success whether or not a row had the id. */
    method DeleteDepartment(id: string) returns (ok: bool)
      requires Valid()
      modifies this
      ensures Valid()
      ensures Snapshot() == old(Snapshot()).(departments := Delete(old(departments), ById(id)))
      ensures forall r :: r in departments ==> Get(r, Id) != Text(id)
      ensures ok
    {
      MatchesOne(Eq(Id, Text(id)));
      departments := Delete(departments, ById(id));
      ok := true;
    }

    // -------------------------------------------------------------------------
    // Designations
    // -------------------------------------------------------------------------

    /** All designations, newest first; no department is attached to them. */
    function GetDesignations(): (out: seq<Row>)
      reads this
      ensures multiset(out) == multiset(designations)
      ensures SortedDesc(out, [CreatedAt])
    {
      OrderByDesc(designations, [CreatedAt])
    }

    method CreateDesignation(designation: Row, newId: string) returns (created: Row)
      requires Valid()
      modifies this
      ensures Valid()
      ensures Snapshot() == old(Snapshot()).(designations := old(designations) + [created])
      ensures created == WithId(designation, newId)
    {
      created := WithId(designation, newId);
      designations := designations + [created];
    }

    /** Updates the designation; `null` (here `None`) when no row has the id. */
    method UpdateDesignation(id: string, designation: Row, now: int) returns (result: Option<Row>)
      requires Valid()
      modifies this
      ensures Valid()
      ensures Snapshot() == old(Snapshot()).(designations := Update(old(designations), ById(id), Stamped(designation, now)))
      ensures result.None? <==> forall r :: r in old(designations) ==> Get(r, Id) != Text(id)
      ensures result.None? ==> Snapshot() == old(Snapshot())
      ensures result.Some? ==> result.value == old(designations[FirstMatch(designations, ById(id))]) + Stamped(designation, now)
    {
      MatchesOne(Eq(Id, Text(id)));
      UpdateReturnsFirstMatch(designations, ById(id), Stamped(designation, now));
      var returned := Returning(designations, ById(id), Stamped(designation, now));
      designations := Update(designations, ById(id), Stamped(designation, now));
      result := FirstOf(returned);
    }

    /** Deletes the designation and reports success whether or not a row had the id. */
    method DeleteDesignation(id: string) returns (ok: bool)
      requires Valid()
      modifies this
      ensures Valid()
      ensures Snapshot() == old(Snapshot()).(designations := Delete(old(designations), ById(id)))
      ensures forall r :: r in designations ==> Get(r, Id) != Text(id)
      ensures ok
    {
      MatchesOne(Eq(Id, Text(id)));
      designations := Delete(designations, ById(id));
      ok := true;
    }
  }
}
