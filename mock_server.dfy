/** The callback the mock server runs for `POST /ws/UserOfficeWebService`
    (`respondToPostRequest` in src/mockserver.js): it reads the SOAP
    operation name out of the raw XML body, picks the one parameter that
    operation is keyed by, builds the path of a fixture file under
    `src/responses/user/` and answers with that file's contents. */
module MockServer {
  import opened Wrappers
  import opened LazyMatch

  /** The directory every fixture path starts with. */
  const UserResponses: string := "src/responses/user/"

  /** The operation names the handler tells apart. */
  const BasicPersonByUserNumber: string := "getBasicPersonDetailsFromUserNumber"
  const SearchablePeopleByUserNumbers: string := "getSearchableBasicPeopleDetailsFromUserNumbers"
  const SearchablePersonByEmail: string := "getSearchableBasicPersonDetailsFromEmail"
  const PersonBySessionId: string := "getPersonDetailsFromSessionId"
  const RolesForUser: string := "getRolesForUser"
  const BasicPeopleByUserNumbers: string := "getBasicPeopleDetailsFromUserNumbers"

  const KnownOperations: set<string> := {
    BasicPersonByUserNumber, SearchablePeopleByUserNumbers, SearchablePersonByEmail,
    PersonBySessionId, RolesForUser, BasicPeopleByUserNumbers
  }

  /** A pattern `open(.*?)close` of the handler: a literal, a lazy group and
      one closing literal character. */
  datatype Pattern = Pattern(open: string, close: char)

  const OperationTag := Pattern("<tns:", '>')
  const UserNumberTag := Pattern("<UserNumber>", '<')
  const UserNumbersTag := Pattern("<UserNumbers>", '<')
  const EmailTag := Pattern("<Email>", '<')
  const SessionIdTag := Pattern("<SessionId>", '<')
  const LowerUserNumberTag := Pattern("<userNumber>", '<')

  /** The session id that selects the external user's fixture. */
  const ExternalUser: string := "externalUser"

  /** Why the handler throws instead of answering. */
  datatype Failure =
    | NullMatch(pattern: Pattern)  // `match` gave null, so reading `[1]` raised a TypeError
    | FileNotFound(path: string)   // `fs.readFileSync` found no file at the path

  /** What the callback hands back to the mock server. */
  datatype Response =
    | NoResponse              // the callback returned `undefined`
    | Body(content: string)   // the callback returned `{ body: content }`
    | Threw(failure: Failure) // the callback threw

  /** The first group of `pattern` in `xml`, or the TypeError that reading
      `[1]` of a null match raises. */
  function Group(xml: string, pattern: Pattern): (r: Result<string, Failure>)
    ensures r.Success? <==> !Absent(xml, pattern.open, pattern.close)
    ensures r.Success? ==> FirstMatch(xml, pattern.open, pattern.close, r.value)
    ensures r.Failure? ==> r.error == NullMatch(pattern)
  {
    match Capture(xml, pattern.open, pattern.close)
    case Some(g) => Success(g)
    case None => Failure(NullMatch(pattern))
  }

  /** The SOAP operation name: the text between the first `<tns:` and the
      next `>`. It can hold neither `>` nor a line terminator. */
  function OperationName(xml: string): (r: Result<string, Failure>)
    ensures r.Failure? <==> Absent(xml, OperationTag.open, OperationTag.close)
    ensures r.Failure? ==> r.error == NullMatch(OperationTag)
    ensures r.Success? ==> FirstMatch(xml, OperationTag.open, OperationTag.close, r.value)
    ensures r.Success? ==> forall k :: 0 <= k < |r.value| ==> r.value[k] != '>' && !IsLineTerminator(r.value[k])
  {
    var g := Group(xml, OperationTag);
    if g.Success? then
      FirstMatchGroupShape(xml, OperationTag.open, OperationTag.close, g.value);
      g
    else g
  }

  /** The fixture file the handler reads for a POST body, or the TypeError
      it raises on the way. */
  function ResponsePath(xml: string): (r: Result<string, Failure>)
    ensures Absent(xml, OperationTag.open, OperationTag.close) ==> r == Failure(NullMatch(OperationTag))
    ensures r.Failure? ==> r.error.NullMatch? && Absent(xml, r.error.pattern.open, r.error.pattern.close)
  {
    var op :- OperationName(xml);
    OperationPath(xml, op)
  }

  /** The fixture file for operation `op`. The source tests each operation
      name in its own `if`; at most one of them can hold, and the default
      only applies when none assigned a path, so they are written here as
      one chain. */
  function OperationPath(xml: string, op: string): (r: Result<string, Failure>)
    ensures r.Failure? ==> r.error.NullMatch? && Absent(xml, r.error.pattern.open, r.error.pattern.close)
    ensures r.Failure? ==>
      r.error.pattern in {UserNumberTag, UserNumbersTag, EmailTag, SessionIdTag, LowerUserNumberTag}
    ensures op !in KnownOperations ==> r == Success(UserResponses + op + ".xml")
  {
    if op == BasicPersonByUserNumber || op == SearchablePeopleByUserNumbers then
      var tag := if op == SearchablePeopleByUserNumbers then UserNumbersTag else UserNumberTag;
      var userNumber :- Group(xml, tag);
      Success(UserResponses + op + "/" + userNumber + ".xml")
    else if op == SearchablePersonByEmail then
      var email :- Group(xml, EmailTag);
      Success(UserResponses + op + "/" + email + ".xml")
    else if op == PersonBySessionId && Includes(xml, SessionIdTag.open) then
      var sessionId :- Group(xml, SessionIdTag);
      if sessionId == ExternalUser then Success(UserResponses + op + "/4.xml")
      else Success(UserResponses + op + "/1.xml")
    else if op == RolesForUser then
      var userNumber :- Group(xml, LowerUserNumberTag);
      Success(UserResponses + op + "/" + userNumber + ".xml")
    else if op == BasicPeopleByUserNumbers && Includes(xml, UserNumbersTag.open) then
      var userNumbers :- Group(xml, UserNumbersTag);
      // The source compares the captured string with the numbers 1 and 4
      // under `===`, which is false for a string and a number.
      if StrictEquals(JsString(userNumbers), JsNumber(1))
        || StrictEquals(JsString(userNumbers), JsNumber(4)) then
        Success(UserResponses + op + "/" + userNumbers + ".xml")
      else Success(UserResponses + "notEmptyResponse" + ".xml")
    else Success(UserResponses + op + ".xml")
  }

  /** The two kinds of JavaScript value the comparison at line 56 meets. */
  datatype JsValue = JsString(s: string) | JsNumber(n: int)

  /** JavaScript's `a === b`: no type conversion, so values of different
      types are never strictly equal. */
  function StrictEquals(a: JsValue, b: JsValue): (r: bool)
    ensures r <==> a == b
    ensures a.JsString? != b.JsString? ==> !r
  {
    match (a, b)
    case (JsString(x), JsString(y)) => x == y
    case (JsNumber(x), JsNumber(y)) => x == y
    case _ => false
  }

  /** The whole callback: a non-POST request gets no response and reads no
      file; a POST is answered with the resolved fixture's contents exactly
      as stored, with `fixtures` standing for the files on disk. */
  function Respond(httpMethod: string, xml: string, fixtures: map<string, string>): (r: Response)
    ensures httpMethod != "POST" ==> r == NoResponse
    ensures httpMethod == "POST" ==> r != NoResponse
    ensures r.Body? <==>
      httpMethod == "POST" && ResponsePath(xml).Success? && ResponsePath(xml).value in fixtures
    ensures r.Body? ==> r.content == fixtures[ResponsePath(xml).value]
    ensures r.Threw? && r.failure.FileNotFound? ==>
      ResponsePath(xml) == Success(r.failure.path) && r.failure.path !in fixtures
    ensures httpMethod == "POST" && ResponsePath(xml).Failure? ==>
      r == Threw(ResponsePath(xml).error)
    ensures httpMethod == "POST" && ResponsePath(xml).Success? && ResponsePath(xml).value !in fixtures ==>
      r == Threw(FileNotFound(ResponsePath(xml).value))
  {
    if httpMethod != "POST" then NoResponse
    else
      match ResponsePath(xml)
      case Failure(e) => Threw(e)
      case Success(path) =>
        if path in fixtures then Body(fixtures[path]) else Threw(FileNotFound(path))
  }
}
