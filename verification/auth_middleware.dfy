/**
 * `authenticateToken`: reads the token from the Authorization header, checks
 * it, resolves the employee it names, and either answers the request itself
 * or records the employee on the request and hands it to the next handler.
 */
module AuthMiddleware {
  import opened Common
  import opened EmployeeModel
  import opened Crypto

  /** `s.split(sep)`: the maximal separator-free pieces, one more than there are separators. */
  function Split(s: string, sep: char): (parts: seq<string>)
    ensures |parts| >= 1
    ensures forall i :: 0 <= i < |parts| ==> sep !in parts[i]
    ensures Join(parts, sep) == s
    decreases |s|
  {
    if s == [] then [[]]
    else
      var rest := Split(s[1..], sep);
      if s[0] == sep then
        assert ([[]] + rest)[1..] == rest;
        [[]] + rest
      else
        var parts := [[s[0]] + rest[0]] + rest[1..];
        assert parts[1..] == rest[1..];
        parts
  }

  /** The pieces glued back with the separator between them. */
  function Join(parts: seq<string>, sep: char): string
    requires |parts| >= 1
  {
    if |parts| == 1 then parts[0] else parts[0] + [sep] + Join(parts[1..], sep)
  }

  /** Splitting undoes joining separator-free pieces. */
  lemma {:induction false} SplitJoin(parts: seq<string>, sep: char)
    requires |parts| >= 1
    requires forall i :: 0 <= i < |parts| ==> sep !in parts[i]
    ensures Split(Join(parts, sep), sep) == parts
    decreases |parts|, |parts[0]|
  {
    var head := parts[0];
    if head == [] {
      if |parts| > 1 {
        SplitJoin(parts[1..], sep);
        var s := Join(parts, sep);
        assert s == [sep] + Join(parts[1..], sep);
        assert s[1..] == Join(parts[1..], sep);
        assert parts == [[]] + parts[1..];
      }
    } else {
      var tail := [head[1..]] + parts[1..];
      assert tail[1..] == parts[1..];
      assert forall i :: 1 <= i < |tail| ==> tail[i] == parts[i];
      SplitJoin(tail, sep);
      var s := Join(parts, sep);
      assert head == [head[0]] + head[1..];
      assert s[0] == head[0] && head[0] != sep;
      if |parts| == 1 {
        assert s[1..] == Join(tail, sep);
      } else {
        assert s == [head[0]] + (head[1..] + [sep] + Join(parts[1..], sep));
        assert s[1..] == Join(tail, sep);
      }
      assert parts == [[head[0]] + tail[0]] + tail[1..];
    }
  }

  /**
   * `authHeader && authHeader.split(' ')[1]`, kept only when it is truthy:
   * the second space-separated word of the header. The first word, the
   * scheme, is not looked at.
   */
  function BearerToken(header: Option<string>): (t: Option<string>)
    ensures t.Some? ==> header.Some? && t.value != "" && ' ' !in t.value
    ensures t.Some? ==> |Split(header.value, ' ')| >= 2 && t.value == Split(header.value, ' ')[1]
    ensures header.Some? && |Split(header.value, ' ')| >= 2 && Split(header.value, ' ')[1] != "" ==>
      t == Some(Split(header.value, ' ')[1])
  {
    if header.None? then None
    else
      var words := Split(header.value, ' ');
      if |words| < 2 || words[1] == "" then None else Some(words[1])
  }

  /** `<scheme> <token>` yields the token, whatever the scheme word is. */
  lemma SchemeIgnored(scheme: string, token: string)
    requires ' ' !in scheme && ' ' !in token && token != ""
    ensures BearerToken(Some(scheme + " " + token)) == Some(token)
  {
    SplitJoin([scheme, token], ' ');
    assert Join([scheme, token], ' ') == scheme + " " + token;
  }

  /** What the middleware decides about a request. */
  datatype Decision =
    | Accept(user: Profile)
    | Reject(status: int, message: string)

  const TokenRequired := "Access token required"
  const InvalidToken := "Invalid token"

  /**
   * The four outcomes: no token (401), a token that does not verify or has
   * expired (403), a verified token naming no stored employee (401), or the
   * employee the token names, without its password.
   */
  function Decide(header: Option<string>, jwt: Jwt, employees: map<Id, Employee>, now: int): (d: Decision)
    ensures BearerToken(header).None? <==> d == Reject(Unauthorized, TokenRequired)
    ensures d == Reject(Forbidden, InvalidToken) <==>
      BearerToken(header).Some? && Verify(jwt, BearerToken(header).value, now).None?
    ensures d == Reject(Unauthorized, InvalidToken) <==>
      && BearerToken(header).Some?
      && Verify(jwt, BearerToken(header).value, now).Some?
      && Verify(jwt, BearerToken(header).value, now).value.id !in employees
    ensures d.Accept? <==>
      && BearerToken(header).Some?
      && Verify(jwt, BearerToken(header).value, now).Some?
      && Verify(jwt, BearerToken(header).value, now).value.id in employees
    ensures d.Accept? ==> d.user.id in employees && d.user == WithoutPassword(d.user.id, employees[d.user.id])
    ensures d.Accept? ==> Verify(jwt, BearerToken(header).value, now) == Some(Claims(d.user.id, jwt.decode(BearerToken(header).value).value.exp))
  {
    match BearerToken(header)
    case None => Reject(Unauthorized, TokenRequired)
    case Some(token) =>
      match Verify(jwt, token, now)
      case None => Reject(Forbidden, InvalidToken)
      case Some(claims) =>
        if claims.id in employees then Accept(WithoutPassword(claims.id, employees[claims.id]))
        else Reject(Unauthorized, InvalidToken)
  }

  /** What the middleware does to a request, in order. */
  datatype Event = UserSet(user: Profile) | NextCalled | Responded(status: int, message: string)

  /** An incoming request: its Authorization header, `req.user`, and what has been done to it. */
  class Request {
    const authorization: Option<string>
    var user: Option<Profile>
    var trace: seq<Event>

    constructor (authorization: Option<string>)
      ensures this.authorization == authorization && user == None && trace == []
    {
      this.authorization := authorization;
      user := None;
      trace := [];
    }
  }

  /**
   * Runs the middleware on `req`: on acceptance it sets `req.user` and then
   * calls `next` once; otherwise it answers and leaves `req.user` alone.
   */
  method AuthenticateToken(req: Request, jwt: Jwt, employees: map<Id, Employee>, now: int)
    modifies req
    ensures match Decide(req.authorization, jwt, employees, now)
      case Accept(u) => req.user == Some(u) && req.trace == old(req.trace) + [UserSet(u), NextCalled]
      case Reject(status, message) =>
        req.user == old(req.user) && req.trace == old(req.trace) + [Responded(status, message)]
  {
    var d := Decide(req.authorization, jwt, employees, now);
    match d
    case Accept(u) =>
      req.user := Some(u);
      req.trace := req.trace + [UserSet(u)];
      req.trace := req.trace + [NextCalled];
    case Reject(status, message) =>
      req.trace := req.trace + [Responded(status, message)];
  }

  /**
   * A token issued to a stored employee, presented as `<scheme> <token>`,
   * lets the request through as that employee while it is under a day old,
   * and is refused with 403 afterwards.
   */
  lemma IssuedTokenDecision(jwt: Jwt, employees: map<Id, Employee>, id: Id, issued: int, now: int, scheme: string)
    requires Sound(jwt) && ' ' !in scheme && id in employees
    ensures Seconds(now) < Seconds(issued) + LifetimeSeconds ==>
      Decide(Some(scheme + " " + Issue(jwt, id, issued)), jwt, employees, now) == Accept(WithoutPassword(id, employees[id]))
    ensures Seconds(now) >= Seconds(issued) + LifetimeSeconds ==>
      Decide(Some(scheme + " " + Issue(jwt, id, issued)), jwt, employees, now) == Reject(Forbidden, InvalidToken)
  {
    var token := Issue(jwt, id, issued);
    assert jwt.decode(jwt.sign(Claims(id, Seconds(issued) + LifetimeSeconds))) == Some(Claims(id, Seconds(issued) + LifetimeSeconds));
    SchemeIgnored(scheme, token);
    IssuedTokenLifetime(jwt, id, issued, now);
  }
}
