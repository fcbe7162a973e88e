# Attendance portal backend, modelled in Dafny

This project models the backend of an employee attendance tracker. Employees
register and log in, which gives them a session token valid for 24 hours.
Every other route goes through the `authenticateToken` middleware. An employee
checks in once per day and checks out once per day. They can query today's
status and any employee's history. The employee directory supports list, get,
update and delete.

The two MongoDB collections are replaced by the fields of one `Database`
object (`store.dfy`):
- `employees`: a map from `_id` to the employee document;
- `nextId`: the `_id` the next registered employee receives, standing in for ObjectId generation;
- `attendance`: a sequence of attendance records in insertion order. `findOne` returns the first match.

The clock is a parameter `now` in milliseconds. "Today" is
`now - now % 86400000`, so days are UTC days. `totalHours` is kept in integer
hundredths of an hour: `(now - checkIn + 18000) / 36000`. This is the value
`Math.round(hours * 100)` gives.

bcrypt and JSON Web Tokens are abstract, as function-valued parameters
(`crypto.dfy`):
- `Bcrypt(hash, compare)`; the random salt is taken as already chosen inside `hash`.
- `Jwt(sign, decode)`; `decode` is the signature check. It returns the signed claims, or nothing for a forged or malformed token.

A token's claims are the employee's `_id` and an `exp` in whole seconds, as
the JWT library sets it: `floor(now / 1000) + 86400`. The token verifies while
`floor(now / 1000) < exp`. The one assumption about the JWT library is
`Crypto.Sound`: a signed token decodes to what was signed and is a non-empty
word without spaces.

Each route that changes state has two parts:
- a pure step function. It maps the old state and the request to the reply and the new state, and its `ensures` clauses hold the properties.
- a module-level method that takes the `Database` as a parameter and performs the same change on its fields in place. Its `ensures` ties the reply and the new fields to the step function and keeps `Database.Valid()`: both unique employee indexes and the unique (employeeId, date) attendance index.

Lemmas relate several steps, for example:
- a second check-out fails;
- register then login succeeds;
- a token lets its employee through for exactly a day;
- a deleted employee's token is refused.

The source places no access rule on the history route. Any authenticated
employee can read any employee's history, and the model does the same.

## Model

| member | source | states |
|---|---|---|
| `EmployeeModel.WithoutPassword` | backend/src/routes/employees.ts:14 | the `-password` projection keeps the `_id` and loses exactly the password: putting the password back gives the stored document |
| `EmployeeModel.Validate` | backend/src/models/Employee.ts:13-44 | a new document is accepted iff employeeId, name, email, password, department and position are all present and non-empty; the accepted document has exactly those values and `createdAt` equal to the creation time |
| `EmployeeModel.FindByEmail` | backend/src/routes/auth.ts:59 | under the unique email index, finds the one employee with that email, or reports that no employee has it |
| `AttendanceModel.ParseStatus` | backend/src/models/Attendance.ts:29-33 | the status enum accepts exactly "present", "absent" and "partial", and maps each back to its name |
| `AttendanceModel.StatusRoundTrip` | backend/src/models/Attendance.ts:8 | each of the three statuses survives storing it as its string |
| `AttendanceModel.Create` | backend/src/models/Attendance.ts:12-38 | a record is created iff employeeId, date and checkIn are given and any given status is in the enum; checkOut stays optional, status defaults to present, totalHours defaults to 0 and a given totalHours is kept |
| `AttendanceModel.Today` | backend/src/routes/attendance.ts:19-20 | today's key is a multiple of a day, at most `now` and less than a day before it |
| `AttendanceModel.HundredthsOfHour` | backend/src/routes/attendance.ts:75-78 | the hours worked, in hundredths, are rounded half up: within half a hundredth of the elapsed time |
| `AttendanceModel.FindRecord` | backend/src/routes/attendance.ts:23-26 | finds a record for (employee, day) iff one exists, and returns the first one |
| `AttendanceModel.FoundIsOnly` | backend/src/models/Attendance.ts:41 | under the unique (employeeId, date) index, any record with the key is the one the lookup finds |
| `AttendanceModel.FindRecordAppend` | backend/src/routes/attendance.ts:32-39 | inserting a record with another key changes no lookup |
| `AttendanceModel.FindRecordSameKeys` | backend/src/routes/attendance.ts:77-80 | changing fields other than employeeId and date changes no lookup |
| `Crypto.Verify` | backend/src/middleware/auth.ts:18 | verification succeeds iff the signature check recovers claims whose expiry lies strictly after the current second, and then returns those claims |
| `Crypto.IssuedTokenLifetime` | backend/src/routes/auth.ts:71-75 | a token issued for an `_id` verifies, carrying that `_id`, exactly until 24 hours of whole seconds have passed |
| `Crypto.TokenExpiresAfterADay` | backend/src/routes/auth.ts:74 | a token issued at T is accepted at T+23h59m and refused at T+24h01m |
| `AuthMiddleware.Split` | backend/src/middleware/auth.ts:11 | `split(' ')` gives at least one piece, none of which contains a space, and joining the pieces with spaces gives back the header |
| `AuthMiddleware.SplitJoin` | backend/src/middleware/auth.ts:11 | splitting space-free words joined with spaces gives back exactly those words |
| `AuthMiddleware.BearerToken` | backend/src/middleware/auth.ts:10-15 | the token is the second space-separated word of a present header exactly when that word exists and is non-empty |
| `AuthMiddleware.SchemeIgnored` | backend/src/middleware/auth.ts:11 | `<scheme> <token>` yields the token whatever the scheme word is |
| `AuthMiddleware.Decide` | backend/src/middleware/auth.ts:9-30 | four outcomes: no token gives 401 "Access token required"; a token that fails verification or has expired gives 403 "Invalid token"; a verified token naming no employee gives 401 "Invalid token"; the request is accepted iff the token verifies and names a stored employee, and then it is accepted as a stored employee, whose password is removed and whose `_id` the token carries |
| `AuthMiddleware.AuthenticateToken` | backend/src/middleware/auth.ts:13-29 | on acceptance, sets `req.user` to the employee and then calls `next` exactly once; on rejection, answers with the status and message and leaves `req.user` and `next` alone |
| `AuthMiddleware.IssuedTokenDecision` | backend/src/middleware/auth.ts:18-26 | a token issued to a stored employee, sent as `<scheme> <token>`, admits that employee while it is under a day old and is refused with 403 afterwards |
| `AuthRoutes.RegisterStep` | backend/src/routes/auth.ts:9-47 | 400 "Employee already exists" iff the email or the employeeId is taken. Any other failure, a missing password or a document that fails validation, gives 500 "Server error". Every failure leaves the store unchanged. Success is 201 with exactly one new employee: its password is the hash of the given one, its fields are the request's, and its `createdAt` is now. The reply has the six public fields. The unique indexes are preserved |
| `AuthRoutes.Register` | backend/src/routes/auth.ts:9-47 | performs the register step in place on the database and keeps its invariant |
| `AuthRoutes.Login` | backend/src/routes/auth.ts:54-87 | succeeds iff some employee has the email and bcrypt accepts the password. An unknown email and a wrong password give the same 400 "Invalid credentials". Success is 200 with a token for the employee's `_id` and the six public fields. Nothing is written |
| `AuthRoutes.RegisterThenLogin` | backend/src/routes/auth.ts:23-68 | when bcrypt accepts a password against its own hash, logging in right after registering with the same email and password succeeds, and the token names the new employee |
| `AuthRoutes.WrongPasswordIssuesNoToken` | backend/src/routes/auth.ts:65-68 | a wrong password for a stored email gets 400 "Invalid credentials" and no token |
| `AttendanceRoutes.CheckInStep` | backend/src/routes/attendance.ts:13-45 | no user gives 401. An existing record for (user, today) gives 400 "Already checked in today" iff there is one, and the ledger is unchanged. Otherwise 201, and exactly one record is appended: today's date, checked in now, status present, no check-out, totalHours 0. The invariant is kept |
| `AttendanceRoutes.CheckIn` | backend/src/routes/attendance.ts:13-45 | performs the check-in step in place on the attendance collection and keeps the database invariant |
| `AttendanceRoutes.CheckOutStep` | backend/src/routes/attendance.ts:52-86 | no user gives 401. No record today gives 400 "No check-in record found for today". A record already checked out gives 400 "Already checked out today". Failures leave the ledger unchanged. It succeeds iff there is a user whose record for today has no check-out, and then answers 200 and only that record changes: checkOut = now, totalHours = elapsed time rounded half up to hundredths, every other field kept. The invariant is kept |
| `AttendanceRoutes.CheckOut` | backend/src/routes/attendance.ts:52-86 | performs the check-out step in place, updating the one record, and keeps the database invariant |
| `AttendanceRoutes.TodayStatus` | backend/src/routes/attendance.ts:118-136 | hasCheckedIn iff a record exists for (user, today); hasCheckedOut iff that record has a check-out; so hasCheckedOut implies hasCheckedIn; the record returned is the first record for (user, today), the one `findOne` finds |
| `AttendanceRoutes.Select` | backend/src/routes/attendance.ts:98-105 | keeps exactly the employee's records, filtered by date only when both bounds are given and then inclusively, each as many times as the ledger holds it; keeps the unique index |
| `AttendanceRoutes.InsertByDate` | backend/src/routes/attendance.ts:109 | inserting into a newest-first sequence keeps it newest first and adds exactly that record |
| `AttendanceRoutes.InsertKeepsUniqueDays` | backend/src/models/Attendance.ts:41 | inserting a record with a new key keeps the unique index |
| `AttendanceRoutes.SortNewestFirst` | backend/src/routes/attendance.ts:109 | `sort({ date: -1 })` gives a newest-first permutation of its input |
| `AttendanceRoutes.SortKeepsUniqueDays` | backend/src/models/Attendance.ts:41 | sorting keeps the unique index |
| `AttendanceRoutes.OneEmployeeStrictlyNewestFirst` | backend/src/models/Attendance.ts:41 | one employee's records sorted newest first under the unique (employeeId, date) index have strictly decreasing dates |
| `AttendanceRoutes.History` | backend/src/routes/attendance.ts:93-111 | returns exactly the employee's records in the window, each as often as the ledger holds it, newest first; under the unique index the dates strictly decrease |
| `AttendanceRoutes.CheckInTwiceFails` | backend/src/routes/attendance.ts:23-30 | after a successful check-in, another check-in the same day is refused and changes nothing |
| `AttendanceRoutes.SecondCheckOutFails` | backend/src/routes/attendance.ts:70-72 | after a successful check-out, another check-out the same day is refused with "Already checked out today" and leaves checkOut and totalHours alone |
| `AttendanceRoutes.CheckOutNeedsCheckIn` | backend/src/routes/attendance.ts:66-68 | check-out with no record for today is refused and changes nothing |
| `AttendanceRoutes.StatusAfterCheckIn` | backend/src/routes/attendance.ts:127-136 | right after check-in, today's status is checked in and not checked out |
| `AttendanceRoutes.StatusAfterCheckOut` | backend/src/routes/attendance.ts:127-136 | right after check-out, today's status is checked in and checked out |
| `AttendanceRoutes.CheckInIsLocal` | backend/src/routes/attendance.ts:23-39 | a check-in changes no other (employee, day)'s status |
| `AttendanceRoutes.CheckOutIsLocal` | backend/src/routes/attendance.ts:61-80 | a check-out changes no other (employee, day)'s status |
| `AttendanceRoutes.NineToHalfPastFive` | backend/src/routes/attendance.ts:74-78 | check-in at 09:00 and check-out at 17:30 the same day stores totalHours 8.5 (850 hundredths) |
| `EmployeeRoutes.ListEmployees` | backend/src/routes/employees.ts:12-19 | lists every employee and no other; each is keyed by its `_id` and has lost exactly its password |
| `EmployeeRoutes.GetEmployee` | backend/src/routes/employees.ts:22-32 | 404 "Employee not found" iff the id is absent; otherwise 200 with that employee without its password |
| `EmployeeRoutes.UpdateStep` | backend/src/routes/employees.ts:35-53 | an absent id gives 404. A new email held by another employee gives 500: the unique index refuses the write. Both failures leave the store unchanged. Otherwise only name, email, department and position of that one employee change; employeeId, password and createdAt are kept. The reply has the updated employee without its password. The unique indexes are preserved |
| `EmployeeRoutes.UpdateEmployee` | backend/src/routes/employees.ts:35-53 | performs the update step in place on the employee collection and keeps the database invariant |
| `EmployeeRoutes.DeleteStep` | backend/src/routes/employees.ts:56-66 | an absent id gives 404 and no change; otherwise exactly that employee is removed and every other is kept unchanged; the unique indexes are preserved |
| `EmployeeRoutes.DeleteEmployee` | backend/src/routes/employees.ts:56-66 | performs the delete step in place and leaves the attendance collection untouched: there is no cascade |
| `EmployeeRoutes.DeletedEmployeeTokenRefused` | backend/src/middleware/auth.ts:19-23 | once an employee is deleted, a token naming them that is still within its lifetime is refused with 401 "Invalid token" |

## Left out

- HTTP and Express wiring, CORS, the database connection and `listen` (backend/src/server.ts), and the type augmentation (backend/src/types/express.d.ts).
- The frontend (frontend/src/components/Dashboard.tsx, frontend/src/context/AuthContext.tsx): rendering, local storage and the HTTP client.
- `populate('employeeId', 'name employeeId')` (backend/src/routes/attendance.ts:40,81,108). It is a read-side join on replies. Replies carry the record with the plain employee `_id`.
- Concurrency. Requests run one at a time. The lookup-then-insert race of check-in, where the unique index turns a duplicate into a 500, is not modelled.
- bcrypt and JWT internals: hashing, salts, signatures and the `'fallback_secret'` default secret. They are the abstract `Crypto.Bcrypt` and `Crypto.Jwt`.
- Floating point. `totalHours` is exact integer hundredths. The source's `Math.round` on a binary double may differ at exact half-hundredth boundaries.
- Time zones. `setHours(0, 0, 0, 0)` truncates to local midnight; the model truncates to UTC midnight.
- Parsing of `startDate`, `endDate` and path ids. History takes already-parsed optional integers, where `None` stands for a missing or empty query value. An unparsable date or a malformed ObjectId, which the source answers with 500, is not modelled.
- Storage failures answered by the catch blocks with 500. Only these 500 paths are modelled: a missing register password, a failed register validation, and an update that hits the unique email index.
- AuthRoutes.Login: takes email and password as strings, so a body that omits a field is not modelled. In the source an omitted email becomes `findOne({ email: undefined })` (backend/src/routes/auth.ts:59), whose result depends on how the driver casts `undefined`. An omitted password with an unknown email gets the same 400 "Invalid credentials" (auth.ts:60-62). An omitted password with a known email makes `bcrypt.compare` reject, which the catch block answers with 500 (auth.ts:65, 88-90).
- EmployeeRoutes.UpdateStep: takes all four fields as strings. What happens to a field the body omits depends on the Mongoose version, and is not modelled.
- AuthMiddleware.Decide: the middleware's catch block (backend/src/middleware/auth.ts:27-29) answers 403 "Invalid token" for any exception after the token is read, not only a failed verification. Two such cases are not modelled: a verified token whose id is not a well-formed ObjectId, which makes `findById` throw, and a storage failure during `findById`. In the model every id is a key and the lookup always succeeds.
- EmployeeRoutes.ListEmployees: the result is a map keyed by `_id`, not an array in collection order.
- Error objects. Every catch block answers `{ message: 'Server error', error }` (backend/src/routes/attendance.ts:47,88,113,138; backend/src/routes/auth.ts:49,89; backend/src/routes/employees.ts:17,30,51,64), so the client also receives the exception, which for a duplicate-key error includes the duplicated key value. `Common.Reply.Fail` carries only the status and the message.
- AuthRoutes.RegisterStep: `Taken` assumes that a field missing from the request matches no stored employee in `findOne({ $or: [{ email }, { employeeId }] })` (backend/src/routes/auth.ts:14-16). If the driver instead drops or nulls the `undefined` condition, a request without an email or employeeId gets 400 "Employee already exists" from a non-empty store, where the model gives 500 through the failed validation. Matching on a missing `email` or `employeeId` is not modelled.
- Success messages. The 201 replies of check-in and register and the 200 reply of check-out also carry the `message` strings "Checked in successfully", "Employee registered successfully" and "Checked out successfully" (backend/src/routes/attendance.ts:43,84, backend/src/routes/auth.ts:38); the model's replies carry only the status and the body.
- Document `_id` generation. New employees get `nextId`, not a random ObjectId. The version key `__v` is not modelled.
