/** What the fixture-path rule of `respondToPostRequest` promises, stated
    against the regular-expression specification of LazyMatch (where the
    leftmost match is and what it captures) rather than against the
    functions that compute it. */
module ResponsePathProperties {
  import opened Wrappers
  import opened LazyMatch
  import opened MockServer

  /** `op` is the operation name the body carries. */
  ghost predicate CarriesOperation(xml: string, op: string) {
    FirstMatch(xml, OperationTag.open, OperationTag.close, op)
  }

  /** `value` is the first group of `pattern` in `xml`. */
  ghost predicate Carries(xml: string, pattern: Pattern, value: string) {
    FirstMatch(xml, pattern.open, pattern.close, value)
  }

  /** A path built as `pre + a + suf` gives back its middle part. */
  lemma SplicedInjective(pre: string, a: string, b: string, suf: string)
    requires pre + a + suf == pre + b + suf
    ensures a == b
  {
    var s := pre + a + suf;
    assert |a| == |b|;
    assert a == s[|pre|..|pre| + |a|];
    assert b == (pre + b + suf)[|pre|..|pre| + |b|];
  }

  /** The body names its operation, so the handler goes on past line 14. */
  lemma OperationResolved(xml: string, op: string)
    requires CarriesOperation(xml, op)
    ensures OperationName(xml) == Success(op)
  {
    CaptureComplete(xml, OperationTag.open, OperationTag.close, op);
  }

  /** Without a `<tns:...>` tag, `match` is null and the handler throws. */
  lemma MissingOperationThrows(xml: string)
    requires Absent(xml, OperationTag.open, OperationTag.close)
    ensures ResponsePath(xml) == Failure(NullMatch(OperationTag))
  {
  }

  /** The two user-number lookups read the file named after the first
      `<UserNumber>` (or `<UserNumbers>`) value, and throw when the element
      is missing. */
  lemma UserNumberLookup(xml: string, op: string, userNumber: string)
    requires CarriesOperation(xml, op)
    requires op == BasicPersonByUserNumber || op == SearchablePeopleByUserNumbers
    ensures var tag := if op == SearchablePeopleByUserNumbers then UserNumbersTag else UserNumberTag;
      && (ResponsePath(xml) == Success(UserResponses + op + "/" + userNumber + ".xml")
          <==> Carries(xml, tag, userNumber))
      && (ResponsePath(xml) == Failure(NullMatch(tag)) <==> Absent(xml, tag.open, tag.close))
  {
    OperationResolved(xml, op);
    var tag := if op == SearchablePeopleByUserNumbers then UserNumbersTag else UserNumberTag;
    ParameterPath(xml, tag, UserResponses + op + "/", userNumber);
  }

  /** The e-mail search reads the file named after the first `<Email>` value. */
  lemma EmailLookup(xml: string, email: string)
    requires CarriesOperation(xml, SearchablePersonByEmail)
    ensures ResponsePath(xml) == Success(UserResponses + SearchablePersonByEmail + "/" + email + ".xml")
      <==> Carries(xml, EmailTag, email)
    ensures ResponsePath(xml) == Failure(NullMatch(EmailTag)) <==> Absent(xml, EmailTag.open, EmailTag.close)
  {
    OperationResolved(xml, SearchablePersonByEmail);
    ParameterPath(xml, EmailTag, UserResponses + SearchablePersonByEmail + "/", email);
  }

  /** The role lookup is keyed by the lower-case `<userNumber>` element. */
  lemma RolesLookup(xml: string, userNumber: string)
    requires CarriesOperation(xml, RolesForUser)
    ensures ResponsePath(xml) == Success(UserResponses + RolesForUser + "/" + userNumber + ".xml")
      <==> Carries(xml, LowerUserNumberTag, userNumber)
    ensures ResponsePath(xml) == Failure(NullMatch(LowerUserNumberTag))
      <==> Absent(xml, LowerUserNumberTag.open, LowerUserNumberTag.close)
  {
    OperationResolved(xml, RolesForUser);
    ParameterPath(xml, LowerUserNumberTag, UserResponses + RolesForUser + "/", userNumber);
  }

  /** Shared step of the three lookups above: once the branch is taken and
      its result is `Group(xml, tag)` spliced into `prefix + _ + ".xml"`,
      the path names the first group and the failure names the pattern. */
  lemma ParameterPath(xml: string, tag: Pattern, prefix: string, value: string)
    requires ResponsePath(xml) == (match Group(xml, tag)
                                   case Success(v) => Success(prefix + v + ".xml")
                                   case Failure(e) => Failure(e))
    ensures ResponsePath(xml) == Success(prefix + value + ".xml") <==> Carries(xml, tag, value)
    ensures ResponsePath(xml) == Failure(NullMatch(tag)) <==> Absent(xml, tag.open, tag.close)
  {
    if Carries(xml, tag, value) {
      CaptureComplete(xml, tag.open, tag.close, value);
    } else if Group(xml, tag).Success? {
      var found := Group(xml, tag).value;
      if ResponsePath(xml) == Success(prefix + value + ".xml") {
        SplicedInjective(prefix, found, value, ".xml");
      }
    }
  }

  /** A session lookup without a `<SessionId>` element falls through to the
      operation's default file. */
  lemma SessionLookupWithoutSessionId(xml: string)
    requires CarriesOperation(xml, PersonBySessionId)
    requires forall i :: !OccursAt(xml, SessionIdTag.open, i)
    ensures ResponsePath(xml) == Success(UserResponses + PersonBySessionId + ".xml")
  {
    OperationResolved(xml, PersonBySessionId);
  }

  /** With a `<SessionId>` element, the session id `externalUser` selects
      fixture 4 and every other session id fixture 1. */
  lemma SessionLookup(xml: string, sessionId: string)
    requires CarriesOperation(xml, PersonBySessionId)
    requires Carries(xml, SessionIdTag, sessionId)
    ensures sessionId == ExternalUser ==>
      ResponsePath(xml) == Success(UserResponses + PersonBySessionId + "/4.xml")
    ensures sessionId != ExternalUser ==>
      ResponsePath(xml) == Success(UserResponses + PersonBySessionId + "/1.xml")
  {
    OperationResolved(xml, PersonBySessionId);
    CaptureComplete(xml, SessionIdTag.open, SessionIdTag.close, sessionId);
    CaptureImpliesIncludes(xml, SessionIdTag.open, SessionIdTag.close);
  }

  /** `<SessionId>` is present but no `<` follows it on the same line:
      `includes` holds, `match` is null and the handler throws. */
  lemma SessionLookupUnterminated(xml: string)
    requires CarriesOperation(xml, PersonBySessionId)
    requires Includes(xml, SessionIdTag.open)
    requires Absent(xml, SessionIdTag.open, SessionIdTag.close)
    ensures ResponsePath(xml) == Failure(NullMatch(SessionIdTag))
  {
    OperationResolved(xml, PersonBySessionId);
  }

  /** The batch lookup with a `<UserNumbers>` value always reads
      `notEmptyResponse.xml`; without the element it reads the operation's
      default file; with the element but no `<` after it on the same line,
      `includes` holds, `match` is null and the handler throws. */
  lemma BasicPeopleLookup(xml: string, userNumbers: string)
    requires CarriesOperation(xml, BasicPeopleByUserNumbers)
    ensures Carries(xml, UserNumbersTag, userNumbers) ==>
      ResponsePath(xml) == Success(UserResponses + "notEmptyResponse" + ".xml")
    ensures (forall i :: !OccursAt(xml, UserNumbersTag.open, i)) ==>
      ResponsePath(xml) == Success(UserResponses + BasicPeopleByUserNumbers + ".xml")
    ensures Includes(xml, UserNumbersTag.open) && Absent(xml, UserNumbersTag.open, UserNumbersTag.close) ==>
      ResponsePath(xml) == Failure(NullMatch(UserNumbersTag))
  {
    OperationResolved(xml, BasicPeopleByUserNumbers);
    if Carries(xml, UserNumbersTag, userNumbers) {
      CaptureComplete(xml, UserNumbersTag.open, UserNumbersTag.close, userNumbers);
      CaptureImpliesIncludes(xml, UserNumbersTag.open, UserNumbersTag.close);
    }
  }

  /** Whatever the `<UserNumbers>` value, the batch lookup never reads a
      numbered fixture under its own directory. */
  lemma BasicPeopleNeverNumbered(xml: string, userNumbers: string)
    requires CarriesOperation(xml, BasicPeopleByUserNumbers)
    ensures ResponsePath(xml) != Success(UserResponses + BasicPeopleByUserNumbers + "/" + userNumbers + ".xml")
  {
    OperationResolved(xml, BasicPeopleByUserNumbers);
    var notEmpty := UserResponses + "notEmptyResponse" + ".xml";
    var fallback := UserResponses + BasicPeopleByUserNumbers + ".xml";
    assert ResponsePath(xml) in {Success(notEmpty), Success(fallback), Failure(NullMatch(UserNumbersTag))};
    var numbered := UserResponses + BasicPeopleByUserNumbers + "/" + userNumbers + ".xml";
    var k := |UserResponses + BasicPeopleByUserNumbers|;
    assert numbered[|UserResponses|] == 'g' && notEmpty[|UserResponses|] == 'n';
    assert numbered[k] == '/' && fallback[k] == '.';
  }

  /** Any operation the handler does not single out reads
      `src/responses/user/<operation>.xml`. */
  lemma OtherOperation(xml: string, op: string)
    requires CarriesOperation(xml, op)
    requires op !in KnownOperations
    ensures ResponsePath(xml) == Success(UserResponses + op + ".xml")
  {
    OperationResolved(xml, op);
  }

  /** `p` lies under `src/responses/user/` and names an `.xml` file. */
  ghost predicate FixtureShaped(p: string) {
    && |UserResponses| + 4 <= |p|
    && p[..|UserResponses|] == UserResponses
    && p[|p| - 4..] == ".xml"
  }

  ghost predicate Rooted(q: string) {
    |UserResponses| <= |q| && q[..|UserResponses|] == UserResponses
  }

  lemma RootedAppend(q: string, x: string)
    requires Rooted(q)
    ensures Rooted(q + x)
  {
    assert (q + x)[..|UserResponses|] == q[..|UserResponses|];
  }

  lemma ShapedByExtension(q: string)
    requires Rooted(q)
    ensures FixtureShaped(q + ".xml")
  {
    RootedAppend(q, ".xml");
    var p := q + ".xml";
    assert p[|p| - 4..] == ".xml";
  }

  /** `UserResponses + a + b + c + ".xml"`, as the handler concatenates it,
      is shaped like a fixture path. */
  lemma ShapedSplice(a: string, b: string, c: string)
    ensures FixtureShaped(UserResponses + a + b + c + ".xml")
  {
    assert Rooted(UserResponses);
    RootedAppend(UserResponses, a);
    RootedAppend(UserResponses + a, b);
    RootedAppend(UserResponses + a + b, c);
    ShapedByExtension(UserResponses + a + b + c);
  }

  /** Every path the handler reads lies under `src/responses/user/` and
      names an `.xml` file. */
  lemma PathShape(xml: string)
    ensures ResponsePath(xml).Success? ==> FixtureShaped(ResponsePath(xml).value)
  {
    if ResponsePath(xml).Success? {
      OperationPathShape(xml, OperationName(xml).value);
    }
  }

  lemma OperationPathShape(xml: string, op: string)
    ensures OperationPath(xml, op).Success? ==> FixtureShaped(OperationPath(xml, op).value)
  {
    if OperationPath(xml, op).Success? {
      assert Rooted(UserResponses);
      RootedAppend(UserResponses, op);
      if op == BasicPersonByUserNumber || op == SearchablePeopleByUserNumbers {
        var tag := if op == SearchablePeopleByUserNumbers then UserNumbersTag else UserNumberTag;
        ShapedSplice(op, "/", Group(xml, tag).value);
      } else if op == SearchablePersonByEmail {
        ShapedSplice(op, "/", Group(xml, EmailTag).value);
      } else if op == PersonBySessionId && Includes(xml, SessionIdTag.open) {
        ShapedSplice(op, "/4", "");
        ShapedSplice(op, "/1", "");
      } else if op == RolesForUser {
        ShapedSplice(op, "/", Group(xml, LowerUserNumberTag).value);
      } else if op == BasicPeopleByUserNumbers && Includes(xml, UserNumbersTag.open) {
        RootedAppend(UserResponses, "notEmptyResponse");
        ShapedByExtension(UserResponses + "notEmptyResponse");
      } else {
        ShapedByExtension(UserResponses + op);
      }
    }
  }

  /** The callback consults `fixtures` only at the resolved path: two file
      systems that agree there get the same answer. */
  lemma RespondReadsOnlyResolvedFixture(httpMethod: string, xml: string, a: map<string, string>, b: map<string, string>)
    requires ResponsePath(xml).Success? ==>
      var p := ResponsePath(xml).value; (p in a <==> p in b) && (p in a ==> a[p] == b[p])
    ensures Respond(httpMethod, xml, a) == Respond(httpMethod, xml, b)
  {
  }
}
