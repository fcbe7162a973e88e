/**
 * The employee directory routes: list, get, update and delete by `_id`.
 * Every employee they return has its password removed.
 */
module EmployeeRoutes {
  import opened Common
  import opened EmployeeModel
  import opened Crypto
  import opened Store
  import opened AuthMiddleware

  const EmployeeNotFound := "Employee not found"
  const EmployeeDeleted := "Employee deleted successfully"

  /** `Employee.find().select('-password')`: every employee, keyed by `_id`, without its password. */
  function ListEmployees(m: map<Id, Employee>): (r: map<Id, Profile>)
    ensures r.Keys == m.Keys
    ensures forall id :: id in r ==> r[id].id == id && WithPassword(r[id], m[id].password) == m[id]
  {
    map id | id in m :: WithoutPassword(id, m[id])
  }

  /** `findById(id).select('-password')`: 404 for an absent id, else the employee without its password. */
  function GetEmployee(m: map<Id, Employee>, id: Id): (r: Reply<Profile>)
    ensures r.Fail? <==> id !in m
    ensures r.Fail? ==> r == Fail(NotFound, EmployeeNotFound)
    ensures r.Ok? ==> r.status == Success && r.body.id == id && WithPassword(r.body, m[id].password) == m[id]
  {
    if id !in m then Fail(NotFound, EmployeeNotFound) else Ok(Success, WithoutPassword(id, m[id]))
  }

  /** The four fields an update writes, as the request body gives them. */
  datatype Changes = Changes(name: string, email: string, department: string, position: string)

  /** Another employee already has `email`: the unique email index refuses the write. */
  predicate EmailTakenByOther(m: map<Id, Employee>, id: Id, email: string)
  {
    exists other :: other in m && other != id && m[other].email == email
  }

  /**
   * `findByIdAndUpdate(id, { name, email, department, position }, { new: true })`:
   * 404 for an absent id; 500 when the new email belongs to another employee
   * (the unique index rejects the write); otherwise only the four fields of
   * that one employee change, and the updated employee comes back without its
   * password. No validators run on the update.
   */
  function UpdateStep(m: map<Id, Employee>, id: Id, c: Changes): (r: Step<Profile, map<Id, Employee>>)
    ensures id !in m ==> r == Step(Fail(NotFound, EmployeeNotFound), m)
    ensures id in m && EmailTakenByOther(m, id, c.email) ==> r == Step(Fail(ServerError, ServerErrorMessage), m)
    ensures r.reply.Ok? <==> id in m && !EmailTakenByOther(m, id, c.email)
    ensures r.reply.Fail? ==> r.state == m
    ensures r.reply.Ok? ==>
      && r.state.Keys == m.Keys
      && (forall other :: other in m && other != id ==> r.state[other] == m[other])
      && var e := r.state[id];
      && e.name == c.name && e.email == c.email && e.department == c.department && e.position == c.position
      && e.employeeId == m[id].employeeId && e.password == m[id].password && e.createdAt == m[id].createdAt
      && r.reply == Ok(Success, WithoutPassword(id, e))
    ensures forall n: Id :: DirectoryValid(m, n) ==> DirectoryValid(r.state, n)
  {
    if id !in m then Step(Fail(NotFound, EmployeeNotFound), m)
    else if EmailTakenByOther(m, id, c.email) then Step(Fail(ServerError, ServerErrorMessage), m)
    else
      var e := m[id].(name := c.name, email := c.email, department := c.department, position := c.position);
      Step(Ok(Success, WithoutPassword(id, e)), m[id := e])
  }

  /** The update handler, writing the employee collection in place. */
  method UpdateEmployee(db: Database, id: Id, c: Changes) returns (reply: Reply<Profile>)
    requires db.Valid()
    modifies db`employees
    ensures db.Valid()
    ensures var r := UpdateStep(old(db.employees), id, c);
      reply == r.reply && db.employees == r.state
  {
    if id !in db.employees {
      return Fail(NotFound, EmployeeNotFound);
    }
    if EmailTakenByOther(db.employees, id, c.email) {
      return Fail(ServerError, ServerErrorMessage);
    }
    var e := db.employees[id].(name := c.name, email := c.email, department := c.department, position := c.position);
    db.employees := db.employees[id := e];
    reply := Ok(Success, WithoutPassword(id, e));
  }

  /**
   * `findByIdAndDelete(id)`: 404 and no change for an absent id; otherwise
   * exactly that employee is gone and every other one is kept.
   */
  function DeleteStep(m: map<Id, Employee>, id: Id): (r: Step<string, map<Id, Employee>>)
    ensures id !in m ==> r == Step(Fail(NotFound, EmployeeNotFound), m)
    ensures id in m ==> r.reply == Ok(Success, EmployeeDeleted)
    ensures r.state.Keys == m.Keys - {id}
    ensures forall other :: other in r.state ==> r.state[other] == m[other]
    ensures forall n: Id :: DirectoryValid(m, n) ==> DirectoryValid(r.state, n)
  {
    if id !in m then Step(Fail(NotFound, EmployeeNotFound), m)
    else Step(Ok(Success, EmployeeDeleted), m - {id})
  }

  /** The delete handler; attendance records of the employee are kept (there is no cascade). */
  method DeleteEmployee(db: Database, id: Id) returns (reply: Reply<string>)
    requires db.Valid()
    modifies db`employees
    ensures db.Valid()
    ensures var r := DeleteStep(old(db.employees), id);
      reply == r.reply && db.employees == r.state
    ensures db.attendance == old(db.attendance)
  {
    if id !in db.employees {
      return Fail(NotFound, EmployeeNotFound);
    }
    db.employees := db.employees - {id};
    reply := Ok(Success, EmployeeDeleted);
  }

  /**
   * Once an employee is deleted, a token still within its lifetime that names
   * them is refused with 401 "Invalid token".
   */
  lemma DeletedEmployeeTokenRefused(jwt: Jwt, m: map<Id, Employee>, id: Id, issued: int, now: int, scheme: string)
    requires Sound(jwt) && ' ' !in scheme && id in m
    requires Seconds(now) < Seconds(issued) + LifetimeSeconds
    ensures Decide(Some(scheme + " " + Issue(jwt, id, issued)), jwt, DeleteStep(m, id).state, now)
      == Reject(Unauthorized, InvalidToken)
  {
    var token := Issue(jwt, id, issued);
    assert jwt.decode(jwt.sign(Claims(id, Seconds(issued) + LifetimeSeconds))) == Some(Claims(id, Seconds(issued) + LifetimeSeconds));
    SchemeIgnored(scheme, token);
    IssuedTokenLifetime(jwt, id, issued, now);
  }
}
