/**
 * The Employee schema: the stored document, the views of it that leave the
 * server (never with the password), the required-field validation Mongoose
 * runs when a new document is saved, and the two unique indexes.
 */
module EmployeeModel {
  import opened Common

  /** The storage key `_id` of a document. */
  type Id = nat

  /** A stored employee document; `password` holds the bcrypt hash. */
  datatype Employee = Employee(
    employeeId: string,
    name: string,
    email: string,
    password: string,
    department: string,
    position: string,
    createdAt: int)

  /** An employee as `.select('-password')` returns it: every field but the password. */
  datatype Profile = Profile(
    id: Id,
    employeeId: string,
    name: string,
    email: string,
    department: string,
    position: string,
    createdAt: int)

  /** The six fields the register and login replies carry. */
  datatype Summary = Summary(
    id: Id,
    employeeId: string,
    name: string,
    email: string,
    department: string,
    position: string)

  /**
   * The fields of a document before validation; `None` is a field the
   * request body did not supply.
   */
  datatype Draft = Draft(
    employeeId: Option<string>,
    name: Option<string>,
    email: Option<string>,
    password: Option<string>,
    department: Option<string>,
    position: Option<string>)

  /** Puts a password back on a profile: the inverse of `WithoutPassword`. */
  function WithPassword(p: Profile, password: string): Employee
  {
    Employee(p.employeeId, p.name, p.email, password, p.department, p.position, p.createdAt)
  }

  /** The projection `.select('-password')`: the only thing lost is the password. */
  function WithoutPassword(id: Id, e: Employee): (p: Profile)
    ensures p.id == id
    ensures WithPassword(p, e.password) == e
  {
    Profile(id, e.employeeId, e.name, e.email, e.department, e.position, e.createdAt)
  }

  /** The employee object of the register and login replies. */
  function SummaryOf(id: Id, e: Employee): Summary
  {
    Summary(id, e.employeeId, e.name, e.email, e.department, e.position)
  }

  /** Mongoose's `required` validator on a string path: present and not empty. */
  predicate Supplied(f: Option<string>)
  {
    f.Some? && f.value != ""
  }

  /** All six required string paths of the schema hold a non-empty value. */
  predicate HasRequiredFields(e: Employee)
  {
    e.employeeId != "" && e.name != "" && e.email != "" &&
    e.password != "" && e.department != "" && e.position != ""
  }

  /**
   * Validation of a new document: it is refused when any required field is
   * missing or empty; otherwise it is stored with `createdAt` defaulted to the
   * creation time `now`.
   */
  function Validate(d: Draft, now: int): (r: Option<Employee>)
    ensures r.Some? <==>
      Supplied(d.employeeId) && Supplied(d.name) && Supplied(d.email) &&
      Supplied(d.password) && Supplied(d.department) && Supplied(d.position)
    ensures r.Some? ==> HasRequiredFields(r.value) && r.value.createdAt == now
    ensures r.Some? ==>
      && d.employeeId == Some(r.value.employeeId) && d.name == Some(r.value.name)
      && d.email == Some(r.value.email) && d.password == Some(r.value.password)
      && d.department == Some(r.value.department) && d.position == Some(r.value.position)
  {
    if Supplied(d.employeeId) && Supplied(d.name) && Supplied(d.email) &&
       Supplied(d.password) && Supplied(d.department) && Supplied(d.position)
    then
      Some(Employee(d.employeeId.value, d.name.value, d.email.value, d.password.value,
                    d.department.value, d.position.value, now))
    else
      None
  }

  /** The unique index on `email`. */
  ghost predicate UniqueEmails(m: map<Id, Employee>)
  {
    forall i, j :: i in m && j in m && m[i].email == m[j].email ==> i == j
  }

  /** The unique index on `employeeId`. */
  ghost predicate UniqueEmployeeIds(m: map<Id, Employee>)
  {
    forall i, j :: i in m && j in m && m[i].employeeId == m[j].employeeId ==> i == j
  }

  /**
   * The employee collection: both unique indexes hold, and every key lies
   * below `nextId`, the key the next inserted document receives.
   */
  ghost predicate DirectoryValid(m: map<Id, Employee>, nextId: Id)
  {
    UniqueEmails(m) && UniqueEmployeeIds(m) && forall id :: id in m ==> id < nextId
  }

  /** The document whose email is `email`, if any; it is unique by the email index. */
  function FindByEmail(m: map<Id, Employee>, email: string): (r: Option<Id>)
    requires UniqueEmails(m)
    ensures r.Some? ==> r.value in m && m[r.value].email == email
    ensures r.None? <==> forall id :: id in m ==> m[id].email != email
  {
    if exists id :: id in m && m[id].email == email then
      var id :| id in m && m[id].email == email;
      Some(id)
    else
      None
  }
}
