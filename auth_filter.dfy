/** AuthFilter, the servlet filter that signs a user in from an HTTP Basic
    Authorization header and then always passes the request on down the
    filter chain. */
module AuthFilter {
  import opened Options
  import opened BasicCredentials

  /** UserController.KEY_USER: the session attribute that holds the signed-in
      user. */
  const KeyUser: string := "__user__"

  /** The user entity signin returns (the fields UserController reads). */
  datatype User = User(id: int, email: string, name: string)

  /** A session attribute value: the signed-in user, or anything else other
      code stored (this filter never reads or writes those). */
  datatype Attribute = UserAttribute(user: User) | OtherAttribute(value: string)

  /** UserService.signin: the user for an email and password, or None where
      it throws. */
  type Signin = (string, string) -> Option<User>

  /** The outcome of one authentication: no attempt, an exception, or the
      user that signed in. */
  function Authenticate(header: Option<string>, codecs: Codecs, signin: Signin): (r: Attempt<User>)
    ensures r.NotAttempted? <==> ExtractCredentials(header, codecs).NotAttempted?
    ensures r.Found? ==>
      var creds := ExtractCredentials(header, codecs);
      creds.Found? && signin(creds.value.0, creds.value.1) == Some(r.value)
    ensures var creds := ExtractCredentials(header, codecs);
      && (creds.Thrown? ==> r == Thrown(creds.failure))
      && (creds.Found? ==> (r.Found? <==> signin(creds.value.0, creds.value.1).Some?))
      && (creds.Found? && !r.Found? ==> r == Thrown(SigninRejected))
  {
    match ExtractCredentials(header, codecs)
    case NotAttempted => NotAttempted
    case Thrown(f) => Thrown(f)
    case Found((email, password)) =>
      match signin(email, password)
      case None => Thrown(SigninRejected)
      case Some(user) => Found(user)
  }

  /** The session attributes after an authentication: a sign-in sets
      KeyUser to the user and changes nothing else; any other outcome
      changes nothing. */
  function SessionAfter(attributes: map<string, Attribute>, outcome: Attempt<User>): (r: map<string, Attribute>)
    ensures outcome.Found? ==> KeyUser in r && r[KeyUser] == UserAttribute(outcome.value)
    ensures forall k :: k != KeyUser ==> (k in r <==> k in attributes)
    ensures forall k :: k != KeyUser && k in attributes ==> r[k] == attributes[k]
    ensures !outcome.Found? ==> r == attributes
  {
    if outcome.Found? then attributes[KeyUser := UserAttribute(outcome.value)] else attributes
  }

  /** End to end: a client that sends "Basic " and the Base64 of the UTF-8
      bytes of "user:password" is signed in as the user signin returns for
      the form-decoded halves, and the session then holds that user. */
  lemma SignInRoundTrip(user: string, password: string, bytes: seq<Base64.byte>,
                        codecs: Codecs, signin: Signin, attributes: map<string, Attribute>)
    requires |user| > 0 && ':' !in user
    requires codecs.utf8(bytes) == user + [':'] + password
    requires codecs.formDecode(user).Some? && codecs.formDecode(password).Some?
    requires signin(codecs.formDecode(user).value, codecs.formDecode(password).value).Some?
    ensures var outcome := Authenticate(Some(BasicPrefix + Base64.Encode(bytes)), codecs, signin);
      && outcome == Found(signin(codecs.formDecode(user).value, codecs.formDecode(password).value).value)
      && SessionAfter(attributes, outcome)[KeyUser] == UserAttribute(outcome.value)
  {
    HalvesDecodedSeparately(user, password, bytes, codecs);
  }

  /** An HttpSession. */
  class Session {
    var attributes: map<string, Attribute>

    constructor ()
      ensures attributes == map[]
    {
      attributes := map[];
    }

    /** HttpSession.setAttribute. */
    method SetAttribute(name: string, value: Attribute)
      modifies this
      ensures attributes == old(attributes)[name := value]
    {
      attributes := attributes[name := value];
    }
  }

  /** The attributes of a session that may not exist yet. */
  function AttributesOf(session: Session?): map<string, Attribute>
    reads session
  {
    if session == null then map[] else session.attributes
  }

  /** An HttpServletRequest: the value of its Authorization header, and its
      session, which is created on first demand. */
  class Request {
    const authorization: Option<string>
    var session: Session?

    constructor (authorization: Option<string>, session: Session?)
      ensures this.authorization == authorization && this.session == session
    {
      this.authorization := authorization;
      this.session := session;
    }

    /** HttpServletRequest.getSession(): the request's session, created
        empty if it has none. */
    method GetSession() returns (s: Session)
      modifies this
      ensures session == s
      ensures old(session) != null ==> s == old(session)
      ensures old(session) == null ==> fresh(s) && s.attributes == map[]
    {
      if session == null {
        session := new Session();
      }
      s := session;
    }
  }

  /** An HttpServletResponse; the filter only passes it on. */
  class Response {
    constructor () {}
  }

  /** The rest of the filter chain, seen only through the calls it gets:
      each call records the request, the response and the session
      attributes the later handlers find at that moment. */
  class FilterChain {
    var calls: seq<(Request, Response, map<string, Attribute>)>

    constructor ()
      ensures calls == []
    {
      calls := [];
    }

    /** FilterChain.doFilter: hands the request on, together with the
        session state it has at this point. */
    method DoFilter(request: Request, response: Response)
      modifies this
      ensures calls == old(calls) + [(request, response, AttributesOf(request.session))]
    {
      calls := calls + [(request, response, AttributesOf(request.session))];
    }
  }

  /** The filter, with the UserService.signin it was given and the JDK
      decoders it calls. */
  class AuthFilter {
    const signin: Signin
    const codecs: Codecs

    constructor (signin: Signin, codecs: Codecs)
      ensures this.signin == signin && this.codecs == codecs
    {
      this.signin := signin;
      this.codecs := codecs;
    }

    /** authenticateByHeader: decodes the credentials, signs in and stores
        the user in the session. The result is the exception it throws, if
        any. A session is created only for a successful sign-in. */
    method AuthenticateByHeader(req: Request) returns (thrown: Option<Failure>)
      modifies req, req.session
      ensures var outcome := Authenticate(req.authorization, codecs, signin);
        && thrown == (if outcome.Thrown? then Some(outcome.failure) else None)
        && AttributesOf(req.session) == SessionAfter(old(AttributesOf(req.session)), outcome)
        && (outcome.Found? ==> req.session != null && (old(req.session) == null ==> fresh(req.session)))
        && (old(req.session) != null || !outcome.Found? ==> req.session == old(req.session))
    {
      thrown := None;
      var authHeader := req.authorization;
      if authHeader.Some? && StartsWith(authHeader.value, BasicPrefix) {
        var decoded := Base64.Decode(authHeader.value[|BasicPrefix|..]);
        if decoded.None? {
          return Some(MalformedBase64);
        }
        var up := codecs.utf8(decoded.value);
        var pos := IndexOf(up, ':');
        if pos > 0 {
          var email := codecs.formDecode(up[..pos]);
          if email.None? {
            return Some(MalformedEscape);
          }
          var password := codecs.formDecode(up[pos + 1..]);
          if password.None? {
            return Some(MalformedEscape);
          }
          var user := signin(email.value, password.value);
          if user.None? {
            return Some(SigninRejected);
          }
          var session := req.GetSession();
          session.SetAttribute(KeyUser, UserAttribute(user.value));
        }
      }
    }

    /** doFilter: any exception from the authentication is caught (and only
        logged), and then the chain is called exactly once with the same
        request and response, so later handlers already see the signed-in
        user. */
    method DoFilter(req: Request, resp: Response, chain: FilterChain)
      modifies req, req.session, chain
      ensures var outcome := Authenticate(req.authorization, codecs, signin);
        && chain.calls == old(chain.calls) + [(req, resp, SessionAfter(old(AttributesOf(req.session)), outcome))]
        && AttributesOf(req.session) == SessionAfter(old(AttributesOf(req.session)), outcome)
        && (outcome.Found? ==> req.session != null && (old(req.session) == null ==> fresh(req.session)))
        && (old(req.session) != null || !outcome.Found? ==> req.session == old(req.session))
    {
      var thrown := AuthenticateByHeader(req);
      chain.DoFilter(req, resp);
    }
  }
}
