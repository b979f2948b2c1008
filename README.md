# HR storage layer in Dafny

This project models the storage layer of an HR web application, the `DatabaseStorage` class in
`server/storage.ts`. It has about forty create/read/update/delete operations over twelve tables:

- users, attendance, leave requests, expense claims and payroll;
- employee salary structures, leave assignments and employee profiles;
- announcements, company settings, departments and designations.

Each operation is one or a few ORM queries. The model gives every query its SQL meaning over
in-memory tables and proves what each operation does to those tables.

## Files

- `wrappers.dfy`: module `Wrappers`, with `Option` and `Result`. A thrown `Error("… not found")`
  becomes `Err(message)`; `undefined` and `null` become `None`.
- `schema.dfy`: module `Schema`, the column names the storage layer uses.
- `sql.dfy`: module `Sql`, the query semantics.
  - A row maps columns to values; a missing column reads as `NULL`.
  - `eq`, `gte` and `lte` conditions combine with `and`, with SQL's NULL rules: a comparison with
    `NULL` or across types selects nothing.
  - `select … where` is `Where`, `delete … where` is `Delete`, `update … set … where` is `Update`
    and `.returning()` is `Returning`.
  - `orderBy(desc(…))` is `OrderByDesc`, a stable sort with NULLs first. `.limit(n)` is `Limit`, and
    the two together are `Top`.
- `storage.dfy`: module `Storage`, the class `DatabaseStorage`.
  - The class has one `seq<Row>` field per table.
  - Getters are functions that read the tables. Mutators are methods that replace tables.
  - Each mutator states its whole new state as `Snapshot() == old(Snapshot()).(table := …)`,
    so every table it does not name is unchanged.
  - Row builders (`RegisteredUser`, `AdminCreatedUser`, `OAuthUser`, `LeaveDecision`,
    `ExpenseDecision`, …) are module functions. So are the `conditions` arrays the source builds
    with `push`: `AttendanceFilter` and `PayrollFilter`.
  - The class invariant `Valid()` has two parts: the settings table has at most one row, and each
    user has at most one salary structure. Every mutator preserves it.

Inputs the source takes from its environment are parameters:

- `now` stands for `new Date()`.
- `newId` is the id the database generates.
- `dayStart`/`dayEnd` are local midnight and the next midnight.
- `compare`/`newHash` stand for bcrypt.

## Model

| member | source | states |
|---|---|---|
| Sql.Holds | server/storage.ts:304-308 | one `eq`, `gte` or `lte` comparison under SQL's NULL rules: a NULL column never satisfies it, and `eq` against NULL selects nothing |
| Sql.Matches | server/storage.ts:254-264 | `and(...cs)`: a row is selected only when every filtered column is non-NULL, and `and()` of nothing selects every row |
| Sql.Filter | server/storage.ts:247-264 | a filter keeps each row exactly as often as the table has it when the condition's truth equals `keep`, and no other row |
| Sql.Where | server/storage.ts:247-252 | `select … where` returns exactly the table's rows the condition selects, never more rows than the table has |
| Sql.Delete | server/storage.ts:720-723 | `delete … where` leaves exactly the table's rows the condition does not select |
| Sql.DeleteAndWherePartition | server/storage.ts:270-281 | a `delete` and a `select` under the same condition split the table between them, each row going to exactly one side |
| Sql.WhereIsSubMultiset | server/storage.ts:653-660 | a `select` returns no row more often than the table holds it |
| Sql.Returning | server/storage.ts:211-220 | `.returning()` yields one row per selected row, in selection order: the i-th returned row is the i-th selected table row with the patch applied |
| Sql.Limit | server/storage.ts:653-660 | `.limit(n)` is the first min(n, rows) rows of the result |
| Sql.FirstOf | server/storage.ts:663-670 | `result[0]` is a row exactly when the result is non-empty, and then its first row |
| Sql.FirstMatch | server/storage.ts:130-138 | the index of the first row the condition selects: no earlier row matches, the row at it does, or it is the table length |
| Sql.FirstWhere | server/storage.ts:130-138 | `.where(…).limit(1)` then `result[0]`, defined as `FirstOf(Where(…))`, yields a row exactly when some row matches, and that row is in the table and matches |
| Sql.WhereStartsAtFirstMatch | server/storage.ts:130-138 | a `where` result is empty exactly when nothing matches, and otherwise starts at the first matching row |
| Sql.FilterKeepsDistinct | server/storage.ts:270-281 | deleting or selecting rows keeps a column's values distinct |
| Sql.MatchesOne | server/storage.ts:518-528 | `and` of one condition is that condition |
| Sql.MatchesAppend | server/storage.ts:304-315 | `and` over two lists of conditions pushed one after the other holds exactly when both hold |
| Sql.Update | server/storage.ts:211-220 | `update … set(patch)` keeps the row count, leaves every unselected row as it was, and gives a selected row the patch's value in each column the patch sets and its old value elsewhere |
| Sql.UpdateWithoutMatch | server/storage.ts:211-220 | an update that selects no row leaves the table unchanged and returns nothing |
| Sql.UpdateReturnsFirstMatch | server/storage.ts:211-220 | `.returning()` is empty exactly when no row matches, and then the table is unchanged; otherwise its first row is the first matching row with the patch applied |
| Sql.UpdateKeepsSelectedColumn | server/storage.ts:559-572 | an update whose patch writes the selected value into the selected column keeps that column, and its distinctness, in every row |
| Sql.ReadAfterUpdate | server/storage.ts:211-220 | when the patch keeps every selected row selected, selecting again after the update yields the first row `.returning()` gave |
| Sql.ReadAfterInsert | server/storage.ts:228-243 | a row appended where no row matched is what selecting afterwards finds first |
| Sql.Rank | server/storage.ts:309-314 | the sort key of a value: none exactly for NULL, the number itself for integers and timestamps |
| Sql.Higher | server/storage.ts:309-314 | `desc` with NULLs first: a NULL key sorts before any non-NULL key, and no key sorts strictly before itself |
| Sql.Precedes | server/storage.ts:485-491 | the order of `orderBy(desc(c1), desc(c2), …)`, compared column by column: every row may stand before itself |
| Sql.PrecedesByFirstColumn | server/storage.ts:485-491 | a row with a higher key in the first sort column comes first and never after the other |
| Sql.PrecedesTotal | server/storage.ts:309-314 | of two rows, one may be ordered before the other under `desc` on any columns |
| Sql.PrecedesTransitive | server/storage.ts:309-314 | the `desc` ordering is transitive |
| Sql.InsertDesc | server/storage.ts:309-314 | inserting into a descending sequence adds exactly that row and keeps the sequence descending |
| Sql.OrderByDesc | server/storage.ts:309-314 | `orderBy(desc(…))` is a permutation of its input in descending order |
| Sql.Top | server/storage.ts:653-660 | `orderBy(desc(…)).limit(n)` returns min(n, rows) rows, all from the input (all of them when at most n), in descending order; any row left out is ordered after every row returned |
| Sql.LimitOfSorted | server/storage.ts:653-660 | a limit over a descending permutation of the rows has the properties `Top` promises |
| Sql.LimitKeepsHighest | server/storage.ts:653-660 | a limit over a descending sequence drops only rows ordered after every row it keeps |
| Storage.ById | server/storage.ts:130-138 | `eq(t.id, id)` selects exactly the rows whose id is `id` |
| Storage.ByUser | server/storage.ts:389-395 | `eq(t.userId, userId)` selects exactly the rows of that user |
| Storage.Stamped | server/storage.ts:211-220 | `{ ...updates, updatedAt: new Date() }` sets the columns of `updates` plus `updatedAt`, which is now |
| Storage.StampedKeepsPatch | server/storage.ts:211-220 | stamping keeps every other column of `updates` as given |
| Storage.AttendanceFilter | server/storage.ts:304-308 | the attendance conditions start with the user and gain one condition per bound given |
| Storage.PayrollFilter | server/storage.ts:518-522 | the payroll conditions are empty exactly when neither month nor year is given as non-zero, and there are at most two |
| Storage.WithId | server/storage.ts:284-291 | an inserted row carries its own id when it has one, and otherwise the generated id |
| Storage.WithOptional | server/storage.ts:193-209 | an optional value is written when given; when `undefined`, the column keeps whatever the values already had |
| Storage.RegisteredUser | server/storage.ts:176-191 | a registered user is always an "employee" who has not finished onboarding and must reset the password, with the given email, hash and names |
| Storage.AdminCreatedUser | server/storage.ts:193-209 | an admin-created user is an "employee"; the reset flag is the given one and defaults to true; department and position only when given |
| Storage.OAuthUser | server/storage.ts:229-240 | a new identity-provider user has the given id, the placeholder hash "oauth-placeholder", no password reset, and the given role unless it is missing or empty, in which case "employee" |
| Storage.UserData | server/storage.ts:222-226 | the profile `upsertUser` hands to `updateUser` sets email and names, the image and the role exactly when given and then as given (a given empty role is written as it is), and never the id |
| Storage.LeaveDecision | server/storage.ts:405-419 | a leave decision sets status, approver and `updatedAt`; it sets the notes column exactly when notes are given, so missing notes leave the stored notes as they were |
| Storage.ExpenseDecision | server/storage.ts:463-472 | an expense decision sets status and approver, and the notes column exactly when notes are given; it sets `approvalDate` to now exactly when the status is "approved", and never `updatedAt` |
| Storage.Processed | server/storage.ts:534-546 | processing payroll sets exactly status "processed" and `processedAt` |
| Storage.AttendanceFilterMeaning | server/storage.ts:304-315 | the pushed attendance conditions select exactly that user's rows with a date within each bound that is given, bounds inclusive |
| Storage.PayrollFilterMeaning | server/storage.ts:518-532 | the pushed payroll conditions require the month only when it is non-zero and the year likewise |
| Storage.DeleteLeavesNone | server/storage.ts:270-281 | after `delete … where eq(col, id)` no row has `id` in that column |
| Storage.WithoutUser | server/storage.ts:270-281 | after the cascade no attendance, leave request, expense claim, payroll row, profile, leave assignment or salary structure of the user is left, and no user row with the id |
| Storage.DatabaseStorage.constructor | server/storage.ts:128-128 | the storage starts with twelve empty tables and satisfies the invariant |
| Storage.DatabaseStorage.GetUser | server/storage.ts:130-138 | a user is found exactly when a row has the id, and the one found has it |
| Storage.DatabaseStorage.GetUserByEmail | server/storage.ts:140-148 | a user is found exactly when a row has the email, and the one found has it |
| Storage.DatabaseStorage.ChangeUserPassword | server/storage.ts:150-174 | the password changes, and only then, when the user exists and the current password matches its hash; then the hash and `updatedAt` are replaced, and otherwise nothing changes |
| Storage.DatabaseStorage.CreateUser | server/storage.ts:176-191 | exactly one user is appended, built as `RegisteredUser`; with a fresh id, looking it up finds that user |
| Storage.DatabaseStorage.CreateEmployeeByAdmin | server/storage.ts:193-209 | exactly one user is appended, built as `AdminCreatedUser`; with a fresh id, looking it up finds that user |
| Storage.DatabaseStorage.UpdateUser | server/storage.ts:211-220 | "User not found" exactly when no row has the id, and then nothing changes; otherwise only rows with the id change, the result is the found user with the updates and a new `updatedAt`, and when the updates do not change the id, looking the user up again returns it |
| Storage.DatabaseStorage.UpsertUser | server/storage.ts:222-244 | an existing user is updated in place and no row is added; otherwise exactly one `OAuthUser` is appended; either way the user is found afterwards |
| Storage.DatabaseStorage.GetAllEmployees | server/storage.ts:247-252 | exactly the active users, each as often as the table holds it |
| Storage.DatabaseStorage.GetEmployeesByManager | server/storage.ts:254-264 | exactly the active users of that manager |
| Storage.DatabaseStorage.UpdateEmployee | server/storage.ts:266-268 | the same as `UpdateUser`, including that the read-back holds only when the updates do not change the id |
| Storage.DatabaseStorage.DeleteEmployee | server/storage.ts:270-281 | the user's rows go from the seven dependent tables, then the user; other users' rows and the other tables stay as they were; none of the user's rows is left |
| Storage.DatabaseStorage.MarkAttendance | server/storage.ts:284-291 | exactly one attendance row is appended, the given values with an id |
| Storage.DatabaseStorage.UpdateAttendance | server/storage.ts:293-302 | "Attendance record not found" exactly when no row has the id, and then nothing changes; otherwise the first matching row with the updates, with no `updatedAt` |
| Storage.DatabaseStorage.GetAttendanceByUser | server/storage.ts:304-315 | exactly the user's rows within the optional inclusive bounds, latest date first |
| Storage.DatabaseStorage.GetTodayAttendance | server/storage.ts:317-336 | a record is found exactly when the user has one dated within the day bounds, and the one found is such a record |
| Storage.DatabaseStorage.GetTodayAttendanceForAll | server/storage.ts:350-365 | exactly the rows dated within the day bounds, each as often as the table holds it: the range query over one day |
| Storage.DatabaseStorage.GetAttendanceRangeForAll | server/storage.ts:367-377 | exactly the rows dated within the inclusive range |
| Storage.DatabaseStorage.CreateLeaveRequest | server/storage.ts:380-387 | exactly one leave request is appended |
| Storage.DatabaseStorage.GetLeaveRequestsByUser | server/storage.ts:389-395 | exactly the user's leave requests, newest first |
| Storage.DatabaseStorage.GetPendingLeaveRequests | server/storage.ts:397-403 | exactly the pending leave requests, whoever the approver, newest first |
| Storage.DatabaseStorage.UpdateLeaveRequestStatus | server/storage.ts:405-419 | "Leave request not found" exactly when no row has the id, and then nothing changes; otherwise the first matching row with the decision applied |
| Storage.DatabaseStorage.GetAllLeaveRequests | server/storage.ts:421-426 | every leave request, newest first |
| Storage.DatabaseStorage.RespondToLeaveRequest | server/storage.ts:428-430 | `UpdateLeaveRequestStatus` with the approver defaulting to the empty string: "Leave request not found" and nothing changed exactly when no row has the id; otherwise the first row with the id with the decision applied, carrying the status and the defaulted approver |
| Storage.DatabaseStorage.CreateExpenseClaim | server/storage.ts:438-445 | exactly one claim is appended |
| Storage.DatabaseStorage.GetExpenseClaimsByUser | server/storage.ts:447-453 | exactly the user's claims, latest submission first |
| Storage.DatabaseStorage.GetPendingExpenseClaims | server/storage.ts:455-461 | exactly the submitted claims, whoever the approver, latest submission first |
| Storage.DatabaseStorage.UpdateExpenseClaimStatus | server/storage.ts:463-482 | "Expense claim not found" exactly when no row has the id; otherwise status and approver are set, `approvalDate` becomes now for an approval and otherwise stays as it was, and `updatedAt` stays as it was; the returned row is the stored row with the decision applied |
| Storage.DatabaseStorage.GetPayrollByUser | server/storage.ts:485-491 | exactly the user's payroll rows, latest year first and, within a year, latest month first |
| Storage.DatabaseStorage.GetPayrollByUserAndPeriod | server/storage.ts:493-507 | a row is found exactly when the user has one for that month and year |
| Storage.DatabaseStorage.CreatePayrollRecord | server/storage.ts:509-516 | exactly one payroll row is appended |
| Storage.DatabaseStorage.GetPayrollRecords | server/storage.ts:518-532 | the rows of the month and year given as non-zero values; the whole table when neither is |
| Storage.DatabaseStorage.ProcessPayrollRecord | server/storage.ts:534-546 | "Payroll record not found" exactly when no row has the id; otherwise the record is processed now and reading it by id returns it |
| Storage.DatabaseStorage.GetPayrollRecordById | server/storage.ts:548-556 | a row is found exactly when one has the id |
| Storage.DatabaseStorage.CreateOrUpdateSalaryStructure | server/storage.ts:559-578 | an existing structure is updated in place and the row count stays; otherwise one is appended; each user keeps at most one structure, and the user's structure afterwards is the one returned |
| Storage.DatabaseStorage.GetEmployeeSalaryStructure | server/storage.ts:580-588 | a structure is found exactly when the user has one |
| Storage.DatabaseStorage.GetAllEmployeesWithSalaryStructure | server/storage.ts:590-594 | the whole table in table order |
| Storage.DatabaseStorage.CreateLeaveAssignment | server/storage.ts:597-604 | exactly one assignment is appended |
| Storage.DatabaseStorage.GetLeaveAssignments | server/storage.ts:606-610 | the whole table in table order |
| Storage.DatabaseStorage.GetEmployeeProfile | server/storage.ts:613-621 | a profile is found exactly when the user has one |
| Storage.DatabaseStorage.CreateEmployeeProfile | server/storage.ts:623-630 | exactly one profile is appended |
| Storage.DatabaseStorage.UpdateEmployeeProfile | server/storage.ts:632-641 | "Employee profile not found" exactly when the user has no profile; otherwise every profile of the user is updated and the first is returned, which is what reading the profile returns afterwards when the updates do not change the user id |
| Storage.DatabaseStorage.CreateAnnouncement | server/storage.ts:644-651 | exactly one announcement is appended |
| Storage.DatabaseStorage.GetActiveAnnouncements | server/storage.ts:653-660 | at most five active announcements, newest first; all active ones when fewer than five are returned; any active one left out is no newer than each one returned; no announcement appears more often than stored |
| Storage.DatabaseStorage.GetCompanySettings | server/storage.ts:663-670 | the first settings row, when there is one |
| Storage.DatabaseStorage.UpdateCompanySettings | server/storage.ts:672-691 | the existing row is updated, selected by its id, or the first row is inserted; afterwards there is exactly one settings row |
| Storage.DatabaseStorage.GetDepartments | server/storage.ts:694-699 | every department, newest first |
| Storage.DatabaseStorage.CreateDepartment | server/storage.ts:701-708 | exactly one department is appended |
| Storage.DatabaseStorage.UpdateDepartment | server/storage.ts:710-718 | `null` exactly when no row has the id, and then nothing changes; otherwise the first matching row with the changes and a new `updatedAt` |
| Storage.DatabaseStorage.DeleteDepartment | server/storage.ts:720-723 | no department with the id is left, the others stay, and the result is always true |
| Storage.DatabaseStorage.GetDesignations | server/storage.ts:726-731 | every designation, newest first |
| Storage.DatabaseStorage.CreateDesignation | server/storage.ts:733-740 | exactly one designation is appended |
| Storage.DatabaseStorage.UpdateDesignation | server/storage.ts:742-750 | `null` exactly when no row has the id, and then nothing changes; otherwise the first matching row with the changes and a new `updatedAt` |
| Storage.DatabaseStorage.DeleteDesignation | server/storage.ts:752-755 | no designation with the id is left, the others stay, and the result is always true |

## Left out

- The table schema is not part of this model, so column types, NOT NULL, primary keys, foreign keys and the role enum are not modelled.
  - Rows are maps from the columns the storage layer names to untyped values.
  - Nothing forces ids to be unique. Operations by id therefore state what happens to every row with the id.
- Column defaults are not modelled; a column an insert does not set reads as `NULL`. These defaults include `isActive`, `createdAt`, `status` and the database-generated id.
  - The generated id is the `newId` parameter. The model keeps an id the values already carry.
  - Because defaults are missing, a new user is not `isActive = true` in the model until an update sets it.
- `getAttendanceStats` is left out because it returns a constant record of zeros and reads no table.
- `updateLeaveBalance` is left out because its body is empty.
- `getDesignations` is modelled as the sorted select it is. Its declared department join is not in its body.
- Storage.DatabaseStorage.ChangeUserPassword: bcrypt is outside the model. `compare` stands for `bcrypt.compare` and `newHash` for `bcrypt.hash(newPassword, 10)`. The `try/catch` that turns a database error into `false` is not modelled.
- Database errors in general, the connection pool, `async` interleaving, and the non-atomicity of the eight deletes in `deleteEmployee` are left out. They are I/O and concurrency.
- Storage.DatabaseStorage.GetTodayAttendance: the local-time midnight computation is outside the model. The bounds `dayStart`/`dayEnd` are parameters; the same holds for `GetTodayAttendanceForAll`.
- Storage.DatabaseStorage.GetAttendanceRangeForAll: `new Date(string)` parsing is outside the model. The bounds arrive as timestamps.
- Sql.OrderByDesc: only integer and timestamp columns are ordered by in the source, and those rank by their number. Other values get a stand-in key: `true` ranks as 1, and `false` and every text as 0, so text ties with `false` and with the integer 0. NULLs come first, and rows that tie keep table order.
- Order without `orderBy`: a select or `.limit(1)` with no `orderBy` returns rows in table (insertion) order. SQL leaves this order unspecified.
- Storage.DatabaseStorage.UpdateAttendance: an empty `updates` object is modelled as an update that changes no column. How the ORM treats an empty `set` is not modelled.
- Storage.DatabaseStorage.UpdateCompanySettings: when the single settings row has a `NULL` id, `eq` selects nothing and the result is `None` (the source's `undefined`). The contract states the returned row only for a non-NULL id.
- The HTTP routes, the development server, logging, serverless bootstrap, the disabled backup module and the database connection setup are not part of this model.
