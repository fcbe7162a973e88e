/**
 * The database the route handlers share: the employee collection keyed by
 * `_id`, the key the next inserted employee receives, and the attendance
 * collection in insertion order. Handlers run one at a time.
 */
module Store {
  import opened EmployeeModel
  import opened AttendanceModel

  class Database {
    var employees: map<Id, Employee>
    var nextId: Id
    var attendance: seq<Attendance>

    /** Both unique indexes of the employee collection and the attendance index hold. */
    ghost predicate Valid()
      reads this
    {
      DirectoryValid(employees, nextId) && LedgerValid(attendance)
    }

    constructor ()
      ensures Valid()
      ensures employees == map[] && nextId == 0 && attendance == []
    {
      employees := map[];
      nextId := 0;
      attendance := [];
    }
  }
}
