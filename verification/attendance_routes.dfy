/**
 * The attendance routes: check-in and check-out, which move the record of
 * (employee, today) from no record to checked in to checked out, and the two
 * read-only queries, today's status and an employee's history.
 *
 * The authenticated employee arrives as `user`: `None` when `req.user` is
 * unset. "Today" is `Today(now)` for the clock reading `now`.
 */
module AttendanceRoutes {
  import opened Common
  import opened EmployeeModel
  import opened AttendanceModel
  import opened Store

  const NotAuthenticated := "User not authenticated"
  const AlreadyCheckedIn := "Already checked in today"
  const NoCheckIn := "No check-in record found for today"
  const AlreadyCheckedOut := "Already checked out today"

  /** The record check-in creates: today's date, checked in now, status present, no check-out. */
  function CheckInDraft(employeeId: Id, now: int): AttendanceDraft
  {
    AttendanceDraft(Some(employeeId), Some(Today(now)), Some(now), None, Some(StatusName(Present)), None)
  }

  /**
   * Check-in: 401 without a user; 400 when the user already has a record for
   * today, leaving the ledger alone; otherwise 201 and exactly one new record
   * appended, with the schema's defaults.
   */
  function CheckInStep(s: seq<Attendance>, user: Option<Id>, now: int): (r: Step<Attendance, seq<Attendance>>)
    ensures user.None? ==> r == Step(Fail(Unauthorized, NotAuthenticated), s)
    ensures user.Some? ==> (r.reply == Fail(BadRequest, AlreadyCheckedIn) <==> HasRecord(s, user.value, Today(now)))
    ensures r.reply.Ok? <==> user.Some? && !HasRecord(s, user.value, Today(now))
    ensures r.reply.Fail? ==> r.state == s
    ensures r.reply.Ok? ==>
      && r.reply == Ok(Created, Attendance(user.value, Today(now), now, None, Present, 0))
      && r.state == s + [r.reply.body]
    ensures LedgerValid(s) ==> LedgerValid(r.state)
  {
    if user.None? then Step(Fail(Unauthorized, NotAuthenticated), s)
    else if FindRecord(s, user.value, Today(now)).Some? then Step(Fail(BadRequest, AlreadyCheckedIn), s)
    else
      var rec := Create(CheckInDraft(user.value, now)).value;
      Step(Ok(Created, rec), s + [rec])
  }

  /** The check-in handler, inserting into the attendance collection. */
  method CheckIn(db: Database, user: Option<Id>, now: int) returns (reply: Reply<Attendance>)
    requires db.Valid()
    modifies db`attendance
    ensures db.Valid()
    ensures var r := CheckInStep(old(db.attendance), user, now);
      reply == r.reply && db.attendance == r.state
  {
    if user.None? {
      return Fail(Unauthorized, NotAuthenticated);
    }
    var existing := FindRecord(db.attendance, user.value, Today(now));
    if existing.Some? {
      return Fail(BadRequest, AlreadyCheckedIn);
    }
    var rec := Create(CheckInDraft(user.value, now)).value;
    db.attendance := db.attendance + [rec];
    reply := Ok(Created, rec);
  }

  /**
   * Check-out: 401 without a user; 400 when there is no record for today,
   * or when it is already checked out, leaving the ledger alone; otherwise
   * 200 and that one record gains `checkOut = now` and the time worked,
   * rounded half up to hundredths of an hour, with nothing else changed.
   */
  function CheckOutStep(s: seq<Attendance>, user: Option<Id>, now: int): (r: Step<Attendance, seq<Attendance>>)
    ensures user.None? ==> r == Step(Fail(Unauthorized, NotAuthenticated), s)
    ensures user.Some? && !HasRecord(s, user.value, Today(now)) ==> r == Step(Fail(BadRequest, NoCheckIn), s)
    ensures user.Some? && HasRecord(s, user.value, Today(now)) ==>
      var i := FindRecord(s, user.value, Today(now)).value;
      s[i].checkOut.Some? <==> r.reply == Fail(BadRequest, AlreadyCheckedOut)
    ensures r.reply.Fail? ==> r.state == s
    ensures r.reply.Ok? <==>
      user.Some? && HasRecord(s, user.value, Today(now)) &&
      s[FindRecord(s, user.value, Today(now)).value].checkOut.None?
    ensures r.reply.Ok? ==>
      && user.Some? && HasRecord(s, user.value, Today(now))
      && var i := FindRecord(s, user.value, Today(now)).value;
      && var rec := r.reply.body;
      && r.reply.status == Success
      && s[i].checkOut == None
      && r.state == s[i := rec]
      && rec.employeeId == s[i].employeeId && rec.date == s[i].date
      && rec.checkIn == s[i].checkIn && rec.status == s[i].status
      && rec.checkOut == Some(now)
      && 36000 * rec.totalHours - 18000 <= now - rec.checkIn < 36000 * rec.totalHours + 18000
    ensures LedgerValid(s) ==> LedgerValid(r.state)
  {
    if user.None? then Step(Fail(Unauthorized, NotAuthenticated), s)
    else
      match FindRecord(s, user.value, Today(now))
      case None => Step(Fail(BadRequest, NoCheckIn), s)
      case Some(i) =>
        if s[i].checkOut.Some? then Step(Fail(BadRequest, AlreadyCheckedOut), s)
        else
          var rec := s[i].(checkOut := Some(now), totalHours := HundredthsOfHour(now - s[i].checkIn));
          Step(Ok(Success, rec), s[i := rec])
  }

  /** The check-out handler, updating the found record in place. */
  method CheckOut(db: Database, user: Option<Id>, now: int) returns (reply: Reply<Attendance>)
    requires db.Valid()
    modifies db`attendance
    ensures db.Valid()
    ensures var r := CheckOutStep(old(db.attendance), user, now);
      reply == r.reply && db.attendance == r.state
  {
    if user.None? {
      return Fail(Unauthorized, NotAuthenticated);
    }
    var found := FindRecord(db.attendance, user.value, Today(now));
    if found.None? {
      return Fail(BadRequest, NoCheckIn);
    }
    var i := found.value;
    if db.attendance[i].checkOut.Some? {
      return Fail(BadRequest, AlreadyCheckedOut);
    }
    var worked := HundredthsOfHour(now - db.attendance[i].checkIn);
    var rec := db.attendance[i].(checkOut := Some(now), totalHours := worked);
    db.attendance := db.attendance[i := rec];
    reply := Ok(Success, rec);
  }

  /** The `{ hasCheckedIn, hasCheckedOut, attendance }` reply of today's status. */
  datatype TodayReport = TodayReport(hasCheckedIn: bool, hasCheckedOut: bool, attendance: Option<Attendance>)

  /**
   * Today's status: checked in exactly when a record exists for today,
   * checked out exactly when that record has a check-out, so never checked
   * out without being checked in.
   */
  function TodayStatus(s: seq<Attendance>, user: Option<Id>, now: int): (r: Reply<TodayReport>)
    ensures user.None? <==> r == Fail(Unauthorized, NotAuthenticated)
    ensures user.Some? ==> r.Ok? && r.status == Success
    ensures r.Ok? ==> (r.body.hasCheckedIn <==> HasRecord(s, user.value, Today(now)))
    ensures r.Ok? ==> (r.body.hasCheckedIn <==> r.body.attendance.Some?)
    ensures r.Ok? && r.body.attendance.Some? ==>
      && r.body.attendance.value in s
      && Key(r.body.attendance.value) == (user.value, Today(now))
      && (r.body.hasCheckedOut <==> r.body.attendance.value.checkOut.Some?)
    ensures r.Ok? && r.body.attendance.Some? ==>
      r.body.attendance == Some(s[FindRecord(s, user.value, Today(now)).value])
    ensures r.Ok? && r.body.hasCheckedOut ==> r.body.hasCheckedIn
  {
    if user.None? then Fail(Unauthorized, NotAuthenticated)
    else
      match FindRecord(s, user.value, Today(now))
      case None => Ok(Success, TodayReport(false, false, None))
      case Some(i) => Ok(Success, TodayReport(true, s[i].checkOut.Some?, Some(s[i])))
  }

  /** The history query's date filter: applied only when both bounds are given, both inclusive. */
  predicate InWindow(date: int, startDate: Option<int>, endDate: Option<int>)
  {
    startDate.Some? && endDate.Some? ==> startDate.value <= date <= endDate.value
  }

  /** The history query `{ employeeId, date: { $gte, $lte } }`. */
  predicate Matches(r: Attendance, employeeId: Id, startDate: Option<int>, endDate: Option<int>)
  {
    r.employeeId == employeeId && InWindow(r.date, startDate, endDate)
  }

  /** Dropping the first record keeps the index, and no later record shares its key. */
  lemma UniqueDaysTail(s: seq<Attendance>)
    requires s != []
    ensures UniqueDays(s) ==> UniqueDays(s[1..]) && forall y :: y in s[1..] ==> Key(y) != Key(s[0])
  {
    if UniqueDays(s) {
      forall y | y in s[1..] ensures Key(y) != Key(s[0]) {
        var j :| 0 <= j < |s[1..]| && s[1..][j] == y;
        assert s[j + 1] == y;
      }
    }
  }

  /** One step of the selection: keeping or dropping the first record keeps the counts of the matching records. */
  lemma SelectCountStep(s: seq<Attendance>, rest: seq<Attendance>, r: seq<Attendance>,
                        employeeId: Id, startDate: Option<int>, endDate: Option<int>)
    requires s != []
    requires forall x :: multiset(rest)[x] == if Matches(x, employeeId, startDate, endDate) then multiset(s[1..])[x] else 0
    requires r == if Matches(s[0], employeeId, startDate, endDate) then [s[0]] + rest else rest
    ensures forall x :: multiset(r)[x] == if Matches(x, employeeId, startDate, endDate) then multiset(s)[x] else 0
  {
    assert s == [s[0]] + s[1..];
    assert multiset(s) == multiset{s[0]} + multiset(s[1..]);
    if Matches(s[0], employeeId, startDate, endDate) {
      assert multiset(r) == multiset{s[0]} + multiset(rest);
    }
  }

  /** The records the history query selects, in ledger order. */
  function Select(s: seq<Attendance>, employeeId: Id, startDate: Option<int>, endDate: Option<int>): (r: seq<Attendance>)
    ensures forall x :: x in r <==> x in s && Matches(x, employeeId, startDate, endDate)
    ensures forall x :: multiset(r)[x] == if Matches(x, employeeId, startDate, endDate) then multiset(s)[x] else 0
    ensures UniqueDays(s) ==> UniqueDays(r)
    decreases |s|
  {
    if s == [] then []
    else
      var rest := Select(s[1..], employeeId, startDate, endDate);
      UniqueDaysTail(s);
      assert forall x :: x in s <==> x == s[0] || x in s[1..];
      var r := if Matches(s[0], employeeId, startDate, endDate) then [s[0]] + rest else rest;
      SelectCountStep(s, rest, r, employeeId, startDate, endDate);
      r
  }

  /** Most recent first: `sort({ date: -1 })`. */
  ghost predicate NewestFirst(s: seq<Attendance>)
  {
    forall i, j :: 0 <= i < j < |s| ==> s[i].date >= s[j].date
  }

  /** A newest-first sequence stays so without its head, whose date is the latest. */
  lemma NewestFirstTail(t: seq<Attendance>)
    requires t != [] && NewestFirst(t)
    ensures NewestFirst(t[1..])
    ensures forall y :: y in t ==> y.date <= t[0].date
  {
    forall y | y in t ensures y.date <= t[0].date {
      var k :| 0 <= k < |t| && t[k] == y;
    }
  }

  /** Putting a record no older than the head in front keeps the order and the index. */
  lemma NewestFirstCons(x: Attendance, t: seq<Attendance>)
    requires NewestFirst(t) && (t == [] || x.date >= t[0].date)
    ensures NewestFirst([x] + t)
    ensures UniqueDays(t) && (forall y :: y in t ==> Key(y) != Key(x)) ==> UniqueDays([x] + t)
  {
    var r := [x] + t;
    assert forall j :: 0 < j < |r| ==> r[j] == t[j - 1] && r[j] in t;
  }

  /** Inserts a record into a newest-first sequence. */
  function InsertByDate(x: Attendance, t: seq<Attendance>): (r: seq<Attendance>)
    requires NewestFirst(t)
    ensures NewestFirst(r)
    ensures multiset(r) == multiset(t) + multiset{x}
    ensures forall y :: y in r <==> y == x || y in t
    decreases |t|
  {
    if t == [] || x.date >= t[0].date then
      NewestFirstCons(x, t);
      [x] + t
    else
      NewestFirstTail(t);
      var rest := InsertByDate(x, t[1..]);
      assert t == [t[0]] + t[1..];
      var r := [t[0]] + rest;
      assert forall j :: 0 < j < |r| ==> r[j] == rest[j - 1] && r[j] in rest;
      r
  }

  /** Inserting a record whose key is new keeps the unique index. */
  lemma {:induction false} InsertKeepsUniqueDays(x: Attendance, t: seq<Attendance>)
    requires NewestFirst(t) && UniqueDays(t)
    requires forall y :: y in t ==> Key(y) != Key(x)
    ensures UniqueDays(InsertByDate(x, t))
    decreases |t|
  {
    if t == [] || x.date >= t[0].date {
      NewestFirstCons(x, t);
    } else {
      NewestFirstTail(t);
      UniqueDaysTail(t);
      InsertKeepsUniqueDays(x, t[1..]);
      var rest := InsertByDate(x, t[1..]);
      var r := [t[0]] + rest;
      assert r == InsertByDate(x, t);
      assert forall j :: 0 < j < |r| ==> r[j] == rest[j - 1] && r[j] in rest;
    }
  }

  /** Sorts records newest first. */
  function SortNewestFirst(s: seq<Attendance>): (r: seq<Attendance>)
    ensures NewestFirst(r)
    ensures multiset(r) == multiset(s)
    ensures forall y :: y in r <==> y in s
    decreases |s|
  {
    if s == [] then []
    else
      assert s == [s[0]] + s[1..];
      InsertByDate(s[0], SortNewestFirst(s[1..]))
  }

  /** Sorting keeps the unique index. */
  lemma {:induction false} SortKeepsUniqueDays(s: seq<Attendance>)
    ensures UniqueDays(s) ==> UniqueDays(SortNewestFirst(s))
    decreases |s|
  {
    if s != [] && UniqueDays(s) {
      UniqueDaysTail(s);
      SortKeepsUniqueDays(s[1..]);
      InsertKeepsUniqueDays(s[0], SortNewestFirst(s[1..]));
    }
  }

  /** One employee's records, newest first and under the unique index, have strictly decreasing dates. */
  lemma OneEmployeeStrictlyNewestFirst(r: seq<Attendance>, employeeId: Id)
    ensures NewestFirst(r) && UniqueDays(r) && (forall x :: x in r ==> x.employeeId == employeeId) ==>
      forall i, j :: 0 <= i < j < |r| ==> r[i].date > r[j].date
  {
    if NewestFirst(r) && UniqueDays(r) && (forall x :: x in r ==> x.employeeId == employeeId) {
      forall i, j | 0 <= i < j < |r| ensures r[i].date > r[j].date {
        assert r[i] in r && r[j] in r;
      }
    }
  }

  /**
   * An employee's history: exactly that employee's records in the window,
   * each as often as the ledger holds it, newest first; under the unique
   * index the dates strictly decrease.
   */
  function History(s: seq<Attendance>, employeeId: Id, startDate: Option<int>, endDate: Option<int>): (r: seq<Attendance>)
    ensures forall x :: x in r <==> x in s && Matches(x, employeeId, startDate, endDate)
    ensures multiset(r) == multiset(Select(s, employeeId, startDate, endDate))
    ensures forall x :: multiset(r)[x] == if Matches(x, employeeId, startDate, endDate) then multiset(s)[x] else 0
    ensures NewestFirst(r)
    ensures UniqueDays(s) ==> forall i, j :: 0 <= i < j < |r| ==> r[i].date > r[j].date
  {
    var selected := Select(s, employeeId, startDate, endDate);
    var r := SortNewestFirst(selected);
    SortKeepsUniqueDays(selected);
    OneEmployeeStrictlyNewestFirst(r, employeeId);
    r
  }

  /** A second check-in on the same day is refused and changes nothing. */
  lemma CheckInTwiceFails(s: seq<Attendance>, u: Id, now: int, later: int)
    requires CheckInStep(s, Some(u), now).reply.Ok?
    requires Today(later) == Today(now)
    ensures var s' := CheckInStep(s, Some(u), now).state;
      CheckInStep(s', Some(u), later) == Step(Fail(BadRequest, AlreadyCheckedIn), s')
  {
    var s' := CheckInStep(s, Some(u), now).state;
    assert Key(s'[|s|]) == (u, Today(later));
  }

  /** After a check-out, a second check-out on the same day is refused and changes nothing. */
  lemma SecondCheckOutFails(s: seq<Attendance>, u: Id, now: int, later: int)
    requires CheckOutStep(s, Some(u), now).reply.Ok?
    requires Today(later) == Today(now)
    ensures var s' := CheckOutStep(s, Some(u), now).state;
      CheckOutStep(s', Some(u), later) == Step(Fail(BadRequest, AlreadyCheckedOut), s')
  {
    var s' := CheckOutStep(s, Some(u), now).state;
    FindRecordSameKeys(s, s', u, Today(now));
  }

  /** Check-out before any check-in that day is refused. */
  lemma CheckOutNeedsCheckIn(s: seq<Attendance>, u: Id, now: int)
    requires forall i :: 0 <= i < |s| ==> Key(s[i]) != (u, Today(now))
    ensures CheckOutStep(s, Some(u), now) == Step(Fail(BadRequest, NoCheckIn), s)
  {
  }

  /** Right after check-in, today's status is checked in and not checked out. */
  lemma StatusAfterCheckIn(s: seq<Attendance>, u: Id, now: int, later: int)
    requires CheckInStep(s, Some(u), now).reply.Ok?
    requires Today(later) == Today(now)
    ensures var st := TodayStatus(CheckInStep(s, Some(u), now).state, Some(u), later);
      st.Ok? && st.body.hasCheckedIn && !st.body.hasCheckedOut
  {
    var s' := CheckInStep(s, Some(u), now).state;
    assert s' == s + [s'[|s|]];
    assert Key(s'[|s|]) == (u, Today(later));
  }

  /** Right after check-out, today's status is checked in and checked out. */
  lemma StatusAfterCheckOut(s: seq<Attendance>, u: Id, now: int, later: int)
    requires CheckOutStep(s, Some(u), now).reply.Ok?
    requires Today(later) == Today(now)
    ensures var st := TodayStatus(CheckOutStep(s, Some(u), now).state, Some(u), later);
      st.Ok? && st.body.hasCheckedIn && st.body.hasCheckedOut
  {
    var s' := CheckOutStep(s, Some(u), now).state;
    FindRecordSameKeys(s, s', u, Today(now));
  }

  /** Check-in by one employee on one day leaves the status of every other (employee, day) as it was. */
  lemma CheckInIsLocal(s: seq<Attendance>, u: Id, now: int, v: Id, later: int)
    requires (v, Today(later)) != (u, Today(now))
    ensures TodayStatus(CheckInStep(s, Some(u), now).state, Some(v), later) == TodayStatus(s, Some(v), later)
  {
    var r := CheckInStep(s, Some(u), now);
    if r.reply.Ok? {
      FindRecordAppend(s, r.reply.body, v, Today(later));
      var i := FindRecord(s, v, Today(later));
      if i.Some? {
        assert r.state[i.value] == s[i.value];
      }
    }
  }

  /** Check-out by one employee on one day leaves the status of every other (employee, day) as it was. */
  lemma CheckOutIsLocal(s: seq<Attendance>, u: Id, now: int, v: Id, later: int)
    requires (v, Today(later)) != (u, Today(now))
    ensures TodayStatus(CheckOutStep(s, Some(u), now).state, Some(v), later) == TodayStatus(s, Some(v), later)
  {
    var r := CheckOutStep(s, Some(u), now);
    FindRecordSameKeys(s, r.state, v, Today(later));
  }

  /** Checked in at 09:00 and out at 17:30 the same day: 8.5 hours, i.e. 850 hundredths. */
  lemma NineToHalfPastFive(s: seq<Attendance>, u: Id, day: int)
    requires day % MsPerDay == 0
    requires !HasRecord(s, u, day)
    ensures var s' := CheckInStep(s, Some(u), day + 32400000).state;
      CheckOutStep(s', Some(u), day + 63000000).reply
        == Ok(Success, Attendance(u, day, day + 32400000, Some(day + 63000000), Present, 850))
  {
    assert Today(day + 32400000) == day;
    assert Today(day + 63000000) == day;
    var s' := CheckInStep(s, Some(u), day + 32400000).state;
    assert Key(s'[|s|]) == (u, day);
  }
}
