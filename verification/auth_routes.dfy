/**
 * `POST /register` and `POST /login`: registering inserts a new employee
 * with a hashed password unless its email or employeeId is taken; logging in
 * checks the password and issues a 24-hour session token.
 */
module AuthRoutes {
  import opened Common
  import opened EmployeeModel
  import opened Crypto
  import opened Store

  /** The employee collection together with the key its next document receives. */
  datatype Directory = Directory(employees: map<Id, Employee>, nextId: Id)

  const AlreadyExists := "Employee already exists"
  const InvalidCredentials := "Invalid credentials"

  /**
   * `findOne({ $or: [{ email }, { employeeId }] })` finds a document. The model
   * takes a field missing from the request to match no stored document.
   */
  predicate Taken(m: map<Id, Employee>, req: Draft)
  {
    exists id :: id in m && (req.email == Some(m[id].email) || req.employeeId == Some(m[id].employeeId))
  }

  /**
   * Registering: 400 when the email or employeeId is taken; 500 when the
   * password is missing (bcrypt throws) or the document fails validation;
   * otherwise 201 and exactly one new employee whose password is the hash.
   */
  function RegisterStep(d: Directory, req: Draft, hash: string -> string, now: int): (r: Step<Summary, Directory>)
    ensures r.reply == Fail(BadRequest, AlreadyExists) <==> Taken(d.employees, req)
    ensures r.reply.Fail? ==> r.state == d
    ensures !Taken(d.employees, req) && r.reply.Fail? ==> r.reply == Fail(ServerError, ServerErrorMessage)
    ensures r.reply.Ok? ==>
      && req.password.Some?
      && d.nextId in r.state.employees
      && var e := r.state.employees[d.nextId];
      && r.state == Directory(d.employees[d.nextId := e], d.nextId + 1)
      && r.reply == Ok(Created, SummaryOf(d.nextId, e))
      && e.password == hash(req.password.value)
      && Some(e.employeeId) == req.employeeId && Some(e.name) == req.name && Some(e.email) == req.email
      && Some(e.department) == req.department && Some(e.position) == req.position
      && e.createdAt == now
      && HasRequiredFields(e)
    ensures r.reply.Ok? <==>
      !Taken(d.employees, req) && req.password.Some? &&
      Validate(req.(password := Some(hash(req.password.value))), now).Some?
    ensures DirectoryValid(d.employees, d.nextId) ==> DirectoryValid(r.state.employees, r.state.nextId)
    ensures DirectoryValid(d.employees, d.nextId) && r.reply.Ok? ==> |r.state.employees| == |d.employees| + 1
  {
    if Taken(d.employees, req) then Step(Fail(BadRequest, AlreadyExists), d)
    else if req.password.None? then Step(Fail(ServerError, ServerErrorMessage), d)
    else
      match Validate(req.(password := Some(hash(req.password.value))), now)
      case None => Step(Fail(ServerError, ServerErrorMessage), d)
      case Some(e) =>
        assert d.nextId !in d.employees ==> |d.employees[d.nextId := e]| == |d.employees| + 1;
        Step(Ok(Created, SummaryOf(d.nextId, e)), Directory(d.employees[d.nextId := e], d.nextId + 1))
  }

  /** The register handler, inserting into the database in place. */
  method Register(db: Database, req: Draft, hash: string -> string, now: int) returns (reply: Reply<Summary>)
    requires db.Valid()
    modifies db`employees, db`nextId
    ensures db.Valid()
    ensures var r := RegisterStep(Directory(old(db.employees), old(db.nextId)), req, hash, now);
      reply == r.reply && Directory(db.employees, db.nextId) == r.state
  {
    if Taken(db.employees, req) {
      return Fail(BadRequest, AlreadyExists);
    }
    if req.password.None? {
      return Fail(ServerError, ServerErrorMessage);
    }
    var hashed := hash(req.password.value);
    var doc := Validate(req.(password := Some(hashed)), now);
    if doc.None? {
      return Fail(ServerError, ServerErrorMessage);
    }
    var id := db.nextId;
    db.employees := db.employees[id := doc.value];
    db.nextId := id + 1;
    reply := Ok(Created, SummaryOf(id, doc.value));
  }

  /** The login reply: the token and the employee's six public fields. */
  datatype Session = Session(token: string, employee: Summary)

  /**
   * Logging in: an unknown email and a wrong password give the same 400
   * reply; otherwise 200 with a token for the employee's `_id`. The
   * collection is only read.
   */
  function Login(m: map<Id, Employee>, email: string, password: string, bcrypt: Bcrypt, jwt: Jwt, now: int): (r: Reply<Session>)
    requires UniqueEmails(m)
    ensures r.Fail? ==> r == Fail(BadRequest, InvalidCredentials)
    ensures r.Ok? <==> exists id :: id in m && m[id].email == email && bcrypt.compare(password, m[id].password)
    ensures r.Ok? ==> exists id :: (id in m && m[id].email == email &&
      r == Ok(Success, Session(Issue(jwt, id, now), SummaryOf(id, m[id]))))
  {
    match FindByEmail(m, email)
    case None => Fail(BadRequest, InvalidCredentials)
    case Some(id) =>
      if !bcrypt.compare(password, m[id].password) then Fail(BadRequest, InvalidCredentials)
      else Ok(Success, Session(Issue(jwt, id, now), SummaryOf(id, m[id])))
  }

  /**
   * When bcrypt accepts a password against its own hash, registering and
   * then logging in with the same email and password succeeds, and the token
   * names the new employee.
   */
  lemma RegisterThenLogin(d: Directory, req: Draft, bcrypt: Bcrypt, jwt: Jwt, now: int, later: int)
    requires DirectoryValid(d.employees, d.nextId)
    requires RegisterStep(d, req, bcrypt.hash, now).reply.Ok?
    requires bcrypt.compare(req.password.value, bcrypt.hash(req.password.value))
    ensures var m := RegisterStep(d, req, bcrypt.hash, now).state.employees;
      UniqueEmails(m) &&
      Login(m, req.email.value, req.password.value, bcrypt, jwt, later)
        == Ok(Success, Session(Issue(jwt, d.nextId, later), SummaryOf(d.nextId, m[d.nextId])))
  {
    var m := RegisterStep(d, req, bcrypt.hash, now).state.employees;
    assert d.nextId in m && m[d.nextId].email == req.email.value;
    assert FindByEmail(m, req.email.value) == Some(d.nextId);
  }

  /** A wrong password for a stored email gets the same reply as an unknown email, with no token. */
  lemma WrongPasswordIssuesNoToken(m: map<Id, Employee>, id: Id, password: string, bcrypt: Bcrypt, jwt: Jwt, now: int)
    requires UniqueEmails(m) && id in m && !bcrypt.compare(password, m[id].password)
    ensures Login(m, m[id].email, password, bcrypt, jwt, now) == Fail(BadRequest, InvalidCredentials)
  {
  }
}
