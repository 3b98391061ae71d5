/**
 * The `verifyJWT` middleware (index.js:30-45): a request without an
 * `Authorization` header is refused with 401, a header whose token does not
 * verify is refused with 403, and otherwise the decoded claims are attached
 * to the request and the next handler runs.
 *
 * Token verification (signature and expiry) is an oracle `verify` that
 * yields the decoded claims or `None`.
 */
module Auth {
  import opened Wrappers
  import opened Text

  /** The claims carried by a token; the login route signs `{email}`. */
  datatype Claims = Claims(email: string)

  /** The part of a request the gate reads (`headers.authorization`) and writes (`decoded`). */
  datatype Request = Request(authorization: Option<string>, decoded: Option<Claims>)

  /**
   * What the gate does with a request: either it answers with a status and a
   * message and never calls the next handler, or it calls the next handler
   * exactly once, with the request it has updated.
   */
  datatype GateResult = Reply(status: nat, message: string) | Next(request: Request)

  const UnauthorizedStatus: nat := 401
  const UnauthorizedMessage: string := "unauthorized access"
  const ForbiddenStatus: nat := 403
  const ForbiddenMessage: string := "Forbidden access"

  /** `!authHeader` in JavaScript: the header is absent or the empty string. */
  predicate HeaderMissing(authorization: Option<string>) {
    authorization.None? || authorization.value == ""
  }

  /**
   * `authHeader.split(' ')[1]`: the second space-separated segment of the
   * header, `None` (JavaScript `undefined`) when the header has no space.
   */
  function BearerToken(header: string): (token: Option<string>)
    ensures token.None? <==> ' ' !in header
    ensures token.Some? ==> ' ' !in token.value
  {
    SplitCount(header, ' ');
    var parts := Split(header, ' ');
    if |parts| > 1 then Some(parts[1]) else None
  }

  /** `"<scheme> <token>"` yields the token. */
  lemma BearerTokenOfHeader(scheme: string, token: string)
    requires ' ' !in scheme && ' ' !in token
    ensures BearerToken(scheme + " " + token) == Some(token)
  {
    SplitAfterWord(scheme, ' ', token);
    SplitWithoutSeparator(token, ' ');
  }

  /** Anything after a further space is ignored: `"<scheme> <token> <rest>"` still yields the token. */
  lemma BearerTokenIgnoresTail(scheme: string, token: string, rest: string)
    requires ' ' !in scheme && ' ' !in token
    ensures BearerToken(scheme + " " + token + " " + rest) == Some(token)
  {
    SplitAfterWord(token, ' ', rest);
    assert scheme + " " + token + " " + rest == scheme + [' '] + (token + [' '] + rest);
    SplitAfterWord(scheme, ' ', token + [' '] + rest);
  }

  /**
   * The token `jwt.verify` accepts to check: the library refuses an
   * `undefined` or empty token outright ("jwt must be provided"), so only a
   * non-empty segment reaches the oracle.
   */
  function VerifiedClaims(header: string, verify: string -> Option<Claims>): (c: Option<Claims>)
    ensures c.Some? ==> BearerToken(header).Some? && BearerToken(header).value != ""
                        && verify(BearerToken(header).value) == c
    ensures BearerToken(header).Some? && BearerToken(header).value != ""
            ==> c == verify(BearerToken(header).value)
  {
    match BearerToken(header)
    case None => None
    case Some(token) => if token == "" then None else verify(token)
  }

  /** `verifyJWT(req, res, next)`. */
  function Gate(req: Request, verify: string -> Option<Claims>): (r: GateResult)
    ensures HeaderMissing(req.authorization) <==> r == Reply(UnauthorizedStatus, UnauthorizedMessage)
    ensures !HeaderMissing(req.authorization)
            && VerifiedClaims(req.authorization.value, verify).None?
            <==> r == Reply(ForbiddenStatus, ForbiddenMessage)
    ensures r.Next? <==> !HeaderMissing(req.authorization)
                         && VerifiedClaims(req.authorization.value, verify).Some?
    ensures r.Next? ==> r.request.authorization == req.authorization
                        && r.request.decoded == VerifiedClaims(req.authorization.value, verify)
                        && r.request.decoded.Some?
  {
    if HeaderMissing(req.authorization) then
      Reply(UnauthorizedStatus, UnauthorizedMessage)
    else
      match VerifiedClaims(req.authorization.value, verify)
      case None => Reply(ForbiddenStatus, ForbiddenMessage)
      case Some(decoded) => Next(req.(decoded := Some(decoded)))
  }

  /**
   * A well-formed `Bearer <token>` header whose token the oracle accepts
   * always reaches the next handler with exactly those claims.
   */
  lemma GateAdmitsVerifiedBearer(req: Request, token: string, verify: string -> Option<Claims>, claims: Claims)
    requires req.authorization == Some("Bearer " + token)
    requires ' ' !in token && token != ""
    requires verify(token) == Some(claims)
    ensures Gate(req, verify) == Next(req.(decoded := Some(claims)))
  {
    BearerTokenOfHeader("Bearer", token);
    assert "Bearer" + " " + token == "Bearer " + token;
  }

  /** A header without a space can never pass, whatever the oracle says. */
  lemma GateRefusesSchemeOnly(req: Request, verify: string -> Option<Claims>)
    requires req.authorization.Some? && req.authorization.value != ""
    requires ' ' !in req.authorization.value
    ensures Gate(req, verify) == Reply(ForbiddenStatus, ForbiddenMessage)
  {
  }
}
