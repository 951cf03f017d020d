# mock-uows: fixture-path resolution of the SOAP POST handler

mock-uows is a mock server that stands in for the "user office" web
service during end-to-end tests. Its only logic is the callback
`respondToPostRequest` in `src/mockserver.js`. The mock server calls it for
every `POST /ws/UserOfficeWebService`. The callback reads the SOAP
operation name from the raw XML body: it is the text between the first
`<tns:` and the next `>`. It then takes the one parameter that the
operation is keyed by. That parameter is the text after `<UserNumber>`,
`<UserNumbers>`, `<Email>`, `<SessionId>` or `<userNumber>`, up to the next
`<`. From these it builds the path of a fixture file under
`src/responses/user/` and answers with that file's contents, unchanged.

The model is a set of pure functions:

- `LazyMatch` (lazy_match.dfy) models the two JavaScript string operations
  the handler uses. `Capture(s, open, close)` is
  `s.match(open + "(.*?)" + close)[1]` for a literal `open` and a one-character
  literal `close`. It returns `None` where `match` gives `null`. `Includes` is
  `String.prototype.includes`. Their meaning is given separately by the ghost
  predicates `MatchAt`, `FirstMatch` and `Absent`. A match at index `i` needs
  `open` at `i`, then a group that stops at the first `close`. The group may
  not contain a line terminator, because JavaScript's `.` does not match
  LF, CR, U+2028 or U+2029. `match` reports the leftmost such match. If a
  line break comes before the closing character, that occurrence is skipped.
- `MockServer` (mock_server.dfy) holds the handler. `ResponsePath` returns
  the fixture path, or the `TypeError` that `match[1]` raises when `match`
  is `null`. `Respond` is the whole callback, with the file system given as
  a map from paths to file contents.
- `ResponsePathProperties` (response_path_properties.dfy) proves what each
  operation resolves to. Each lemma is stated against the specification
  predicates of `LazyMatch`, not against the functions that compute the
  result.

The source runs the operation tests as a series of separate `if`
statements. The model writes them as one `if … else if` chain. The two
forms give the same result, because each test compares the operation
name with a different literal. The default path at lines 62-64 is used only
when no earlier branch has set a path.

For `getBasicPeopleDetailsFromUserNumbers`, the source compares the
captured text, which is a string, with the numbers `1` and `4` using
`===`. A string is never strictly equal to a number, so that branch can
never be taken. The model keeps this comparison as written
(`StrictEquals` on a `JsString` and a `JsNumber`). `BasicPeopleNeverNumbered` proves that no numbered
fixture of that operation is ever read.

The handler calls `fs.readFileSync` on the resolved path without any check,
and that call throws when the file is missing. The model follows the code:
`Respond` gives `Threw(FileNotFound(path))`.

## Model

| member | source | states |
|---|---|---|
| LazyMatch.TakeUntil | src/mockserver.js:13 | the lazy group followed by its closing character either captures the text up to the first closing character, which holds no line terminator, or there is no capture at all at that position |
| LazyMatch.LazyCaptureUnique | src/mockserver.js:13 | from a given start position, the lazy group can capture at most one text |
| LazyMatch.Search | src/mockserver.js:13 | the scan returns the leftmost index where the pattern matches, with its group, and proves that no match starts before that index; `None` means no match starts at or after the starting index |
| LazyMatch.Capture | src/mockserver.js:13-14 | `match(...)[1]` is the group of the leftmost match; it is null exactly when the pattern matches nowhere |
| LazyMatch.CaptureComplete | src/mockserver.js:13-14 | the converse: whatever the leftmost match captures is exactly what `Capture` returns |
| LazyMatch.FirstMatchGroupShape | src/mockserver.js:13-14 | a captured group holds neither the closing character nor a line terminator |
| LazyMatch.IncludesFrom | src/mockserver.js:36 | `includes` from an index holds exactly when the text occurs at or after that index |
| LazyMatch.Includes | src/mockserver.js:36 | `includes` holds exactly when the text occurs somewhere in the string |
| LazyMatch.CaptureImpliesIncludes | src/mockserver.js:34-38 | if the pattern matches, its opening literal is in the string, so `includes` holds |
| MockServer.Group | src/mockserver.js:24-26 | reading `match[1]` succeeds exactly when the pattern matches somewhere, and then gives the leftmost group; otherwise it is a TypeError that names the pattern |
| MockServer.OperationName | src/mockserver.js:13-14 | the operation name is the group of the leftmost `<tns:(.*?)>` match; it is a TypeError naming that pattern exactly when the pattern matches nowhere; a found name never contains `>` or a line terminator |
| MockServer.ResponsePath | src/mockserver.js:11-64 | a body without an operation tag throws the TypeError of line 14; every failure is a TypeError of a null match whose pattern matches nowhere in the body, so resolving a path never reads a file; per-operation results are in the ResponsePathProperties rows below |
| MockServer.OperationPath | src/mockserver.js:16-64 | a failure is a null match of one of the five parameter patterns, which matches nowhere in the body; an operation outside the six named ones gets `src/responses/user/<op>.xml` |
| MockServer.StrictEquals | src/mockserver.js:56 | `===` holds exactly for equal values of the same type; a string and a number are never strictly equal |
| MockServer.Respond | src/mockserver.js:7-68 | a request that is not a POST gets no response; a POST whose path resolution fails throws that same error; the body is the resolved fixture's contents exactly as stored; a missing fixture throws `FileNotFound` with the resolved path, and only then |
| ResponsePathProperties.OperationResolved | src/mockserver.js:13-14 | if the body carries operation `op`, the handler continues with `op` as the operation name |
| ResponsePathProperties.MissingOperationThrows | src/mockserver.js:13-14 | a body without a `<tns:...>` tag on one line makes the handler throw on `match[1]` |
| ResponsePathProperties.UserNumberLookup | src/mockserver.js:16-27 | for the two user-number operations, the path is `src/responses/user/<op>/<X>.xml` exactly when X is the first `<UserNumber>` value (`<UserNumbers>` for the searchable batch); it throws exactly when that element has no value |
| ResponsePathProperties.EmailLookup | src/mockserver.js:28-32 | the e-mail search reads `.../getSearchableBasicPersonDetailsFromEmail/<E>.xml` exactly when E is the first `<Email>` value; it throws exactly when there is none |
| ResponsePathProperties.RolesLookup | src/mockserver.js:46-50 | the role lookup reads `.../getRolesForUser/<N>.xml` exactly when N is the first lower-case `<userNumber>` value; it throws exactly when there is none |
| ResponsePathProperties.ParameterPath | src/mockserver.js:24-31 | a path built by splicing a group into `prefix + _ + ".xml"` names that group and nothing else, and fails exactly when the pattern is absent |
| ResponsePathProperties.SessionLookupWithoutSessionId | src/mockserver.js:62-64 | a session lookup whose body does not contain `<SessionId>` falls through to `.../getPersonDetailsFromSessionId.xml` |
| ResponsePathProperties.SessionLookup | src/mockserver.js:34-44 | with a `<SessionId>` value, `externalUser` selects `.../getPersonDetailsFromSessionId/4.xml` and any other value selects `.../1.xml` |
| ResponsePathProperties.SessionLookupUnterminated | src/mockserver.js:34-39 | if `<SessionId>` is present but its value never closes on the same line, `includes` passes and the handler throws on `match[1]` |
| ResponsePathProperties.BasicPeopleLookup | src/mockserver.js:51-64 | the batch lookup with a `<UserNumbers>` value reads `notEmptyResponse.xml`; without the element it reads the operation's default file; with the element but no `<` after it on the same line, `includes` passes and the handler throws on `match[1]` |
| ResponsePathProperties.BasicPeopleNeverNumbered | src/mockserver.js:56-57 | whatever the `<UserNumbers>` value, the batch lookup never reads `.../getBasicPeopleDetailsFromUserNumbers/<value>.xml`, because the string-to-number `===` never holds |
| ResponsePathProperties.OtherOperation | src/mockserver.js:62-64 | any operation outside the six named ones reads `src/responses/user/<op>.xml` |
| ResponsePathProperties.OperationPathShape | src/mockserver.js:16-64 | every path any branch builds lies under `src/responses/user/` and ends in `.xml` |
| ResponsePathProperties.PathShape | src/mockserver.js:16-64 | every path the handler reads lies under `src/responses/user/` and ends in `.xml` |
| ResponsePathProperties.RespondReadsOnlyResolvedFixture | src/mockserver.js:65-68 | the answer depends on the file system only at the resolved path: two file systems that agree there give the same answer |

## Left out

- `mockserver()` registration (src/mockserver.js:71-121) is not modelled. It registers the callback and the static WSDL GET response with an external mock-server library over the network, and handles the returned promises.
- The WSDL file served for GET (src/mockserver.js:93-111) is not modelled. It is one file served unchanged, with no logic.
- Logging through `logger.logInfo` and `logger.logError` is not modelled. It is an external collaborator.
- `fs.readFileSync` is modelled as a lookup in a map from paths to contents. Path normalisation (`..`, `//`), symbolic links, encodings and I/O errors other than a missing file are not modelled. The captured parameters are spliced into the path without any check.
- `String(request.body.xml)` is not modelled. The model takes the body as a string, so the conversion of a missing body to `"undefined"` is not modelled either.
- The general JavaScript regular-expression engine is not modelled. Only the pattern shape `literal(.*?)c` that the handler uses is modelled, with a literal prefix and a one-character closing literal. JavaScript strings are UTF-16 code units, while Dafny's `char` is a Unicode scalar value. The line terminators are the same in both, so the captures are the same.
- How the mock server turns a thrown exception into an HTTP response is not modelled. It happens in the external library. `Respond` stops at `Threw`.
