/**
 * The Attendance schema: one record per employee and calendar day, the status
 * enumeration with its default, the `totalHours` default, and the compound
 * unique index on (employeeId, date). Times are integer milliseconds and
 * `totalHours` is kept in integer hundredths of an hour.
 */
module AttendanceModel {
  import opened Common
  import opened EmployeeModel

  const MsPerDay := 86400000

  datatype Status = Present | Absent | Partial

  /** A stored attendance record; `date` is a midnight, `totalHours` is in hundredths. */
  datatype Attendance = Attendance(
    employeeId: Id,
    date: int,
    checkIn: int,
    checkOut: Option<int>,
    status: Status,
    totalHours: int)

  /** The fields given when a record is created; `None` is a field left unset. */
  datatype AttendanceDraft = AttendanceDraft(
    employeeId: Option<Id>,
    date: Option<int>,
    checkIn: Option<int>,
    checkOut: Option<int>,
    status: Option<string>,
    totalHours: Option<int>)

  /** The string the enum stores for each status. */
  function StatusName(s: Status): string
  {
    match s
    case Present => "present"
    case Absent => "absent"
    case Partial => "partial"
  }

  /** The enum validator: only the three listed strings are accepted. */
  function ParseStatus(name: string): (r: Option<Status>)
    ensures r.Some? <==> name in {"present", "absent", "partial"}
    ensures r.Some? ==> StatusName(r.value) == name
  {
    if name == "present" then Some(Present)
    else if name == "absent" then Some(Absent)
    else if name == "partial" then Some(Partial)
    else None
  }

  lemma StatusRoundTrip(s: Status)
    ensures ParseStatus(StatusName(s)) == Some(s)
  {
  }

  /**
   * Creating a record: `employeeId`, `date` and `checkIn` are required,
   * `checkOut` is optional, `status` must be one of the enum's strings and
   * defaults to present, and `totalHours` defaults to 0.
   */
  function Create(d: AttendanceDraft): (r: Option<Attendance>)
    ensures r.Some? <==>
      d.employeeId.Some? && d.date.Some? && d.checkIn.Some? &&
      (d.status.Some? ==> ParseStatus(d.status.value).Some?)
    ensures r.Some? ==>
      && r.value.employeeId == d.employeeId.value
      && r.value.date == d.date.value
      && r.value.checkIn == d.checkIn.value
      && r.value.checkOut == d.checkOut
    ensures r.Some? && d.status.None? ==> r.value.status == Present
    ensures r.Some? && d.status.Some? ==> StatusName(r.value.status) == d.status.value
    ensures r.Some? && d.totalHours.None? ==> r.value.totalHours == 0
    ensures r.Some? && d.totalHours.Some? ==> r.value.totalHours == d.totalHours.value
  {
    if d.employeeId.None? || d.date.None? || d.checkIn.None? then None
    else
      var status := if d.status.None? then Some(Present) else ParseStatus(d.status.value);
      if status.None? then None
      else
        Some(Attendance(d.employeeId.value, d.date.value, d.checkIn.value, d.checkOut,
                        status.value, if d.totalHours.None? then 0 else d.totalHours.value))
  }

  /** "Today": the instant `now` truncated to the start of its day. */
  function Today(now: int): (day: int)
    ensures day % MsPerDay == 0
    ensures day <= now < day + MsPerDay
  {
    now - now % MsPerDay
  }

  /**
   * Elapsed milliseconds as hundredths of an hour, rounded half up:
   * `Math.round(ms / 36000)`.
   */
  function HundredthsOfHour(ms: int): (h: int)
    ensures 36000 * h - 18000 <= ms < 36000 * h + 18000
  {
    (ms + 18000) / 36000
  }

  /** The key of the compound unique index. */
  function Key(r: Attendance): (Id, int)
  {
    (r.employeeId, r.date)
  }

  /** The compound unique index on (employeeId, date): no two records share a key. */
  ghost predicate UniqueDays(s: seq<Attendance>)
  {
    forall i, j :: 0 <= i < j < |s| ==> Key(s[i]) != Key(s[j])
  }

  /** A record that has not been checked out still has the default `totalHours`. */
  ghost predicate WellFormed(r: Attendance)
  {
    r.checkOut.None? ==> r.totalHours == 0
  }

  /** The attendance collection's invariant. */
  ghost predicate LedgerValid(s: seq<Attendance>)
  {
    UniqueDays(s) && forall i :: 0 <= i < |s| ==> WellFormed(s[i])
  }

  /** Some record of the ledger belongs to `employeeId` on `date`. */
  ghost predicate HasRecord(s: seq<Attendance>, employeeId: Id, date: int)
  {
    exists i :: 0 <= i < |s| && Key(s[i]) == (employeeId, date)
  }

  /** `findOne({employeeId, date})`: the position of the first record with that key. */
  function FindRecord(s: seq<Attendance>, employeeId: Id, date: int): (r: Option<nat>)
    ensures r.None? <==> !HasRecord(s, employeeId, date)
    ensures r.Some? ==> r.value < |s| && Key(s[r.value]) == (employeeId, date)
    ensures r.Some? ==> forall j :: 0 <= j < r.value ==> Key(s[j]) != (employeeId, date)
    decreases |s|
  {
    if s == [] then None
    else if Key(s[0]) == (employeeId, date) then Some(0)
    else
      var rest := FindRecord(s[1..], employeeId, date);
      if rest.None? then None else Some(rest.value + 1)
  }

  /** Under the unique index, a record with the key is the one `FindRecord` returns. */
  lemma FoundIsOnly(s: seq<Attendance>, employeeId: Id, date: int, i: int)
    requires UniqueDays(s)
    requires 0 <= i < |s| && Key(s[i]) == (employeeId, date)
    ensures FindRecord(s, employeeId, date) == Some(i)
  {
  }

  /** Appending a record with another key leaves every lookup as it was. */
  lemma {:induction false} FindRecordAppend(s: seq<Attendance>, x: Attendance, employeeId: Id, date: int)
    requires Key(x) != (employeeId, date)
    ensures FindRecord(s + [x], employeeId, date) == FindRecord(s, employeeId, date)
    decreases |s|
  {
    if s != [] {
      assert (s + [x])[1..] == s[1..] + [x];
      FindRecordAppend(s[1..], x, employeeId, date);
    }
  }

  /** Changing fields other than the key leaves every lookup as it was. */
  lemma {:induction false} FindRecordSameKeys(s: seq<Attendance>, t: seq<Attendance>, employeeId: Id, date: int)
    requires |s| == |t|
    requires forall i :: 0 <= i < |s| ==> Key(s[i]) == Key(t[i])
    ensures FindRecord(s, employeeId, date) == FindRecord(t, employeeId, date)
    decreases |s|
  {
    if s != [] && Key(s[0]) != (employeeId, date) {
      FindRecordSameKeys(s[1..], t[1..], employeeId, date);
    }
  }
}
