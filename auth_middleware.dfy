/**
 * The two authentication middlewares. A request carries an optional `Authorization` header; the
 * token is its second space-separated piece. Token verification and the user lookup are
 * parameters: `verify` gives the id a token was signed for, or None when it does not verify, and
 * `findUser` is `User.findById(...).select('-password')`.
 */
module AuthMiddleware {
  import opened Wrappers
  import opened Text
  import opened Models

  /** `req.headers.authorization && req.headers.authorization.startsWith('Bearer')`. */
  predicate BearerHeader(authorization: Option<string>)
  {
    authorization.Some? && StartsWith(authorization.value, "Bearer")
  }

  /** `authorization.split(' ')[1]`, None for `undefined` when there is no second piece. */
  function HeaderToken(authorization: string): (r: Option<string>)
    ensures r.Some? <==> |Split(authorization, ' ')| >= 2
    ensures r.Some? ==> r.value == Split(authorization, ' ')[1] && ' ' !in r.value
  {
    var pieces := Split(authorization, ' ');
    if |pieces| >= 2 then Some(pieces[1]) else None
  }

  /** The token a Bearer header carries; None when the header is not a Bearer header. */
  function RequestToken(authorization: Option<string>): Option<string>
  {
    if BearerHeader(authorization) then HeaderToken(authorization.value) else None
  }

  /** `jwt.verify(token, secret).id`: a missing or empty token is rejected before `verify` is consulted. */
  function Decoded(token: Option<string>, verify: string -> Option<Id>): (r: Option<Id>)
    ensures !Truthy(token) ==> r.None?
    ensures Truthy(token) ==> r == verify(token.value)
  {
    if Truthy(token) then verify(token.value) else None
  }

  datatype AuthFailure = UserNotFound | TokenFailed | NoToken

  /** How a request ends: it proceeds with the user it carries, or is refused with one 401. */
  datatype AuthDecision = Proceed(user: User) | Reject(reason: AuthFailure)

  /**
   * The decision `protect` means to take: a header that is not a Bearer header has no token; a
   * token that does not verify fails; an id with no user is refused; otherwise the request proceeds.
   */
  function Decision(authorization: Option<string>, verify: string -> Option<Id>, findUser: Id -> Option<User>): (d: AuthDecision)
    ensures d == Reject(NoToken) <==> !BearerHeader(authorization)
    ensures d == Reject(TokenFailed) <==>
              BearerHeader(authorization) && Decoded(RequestToken(authorization), verify).None?
    ensures d == Reject(UserNotFound) <==>
              && BearerHeader(authorization) && Decoded(RequestToken(authorization), verify).Some?
              && findUser(Decoded(RequestToken(authorization), verify).value).None?
    ensures d.Proceed? <==>
              && BearerHeader(authorization) && Decoded(RequestToken(authorization), verify).Some?
              && findUser(Decoded(RequestToken(authorization), verify).value).Some?
    ensures d.Proceed? ==> findUser(Decoded(RequestToken(authorization), verify).value) == Some(d.user)
  {
    if !BearerHeader(authorization) then Reject(NoToken)
    else
      var decoded := Decoded(RequestToken(authorization), verify);
      if decoded.None? then Reject(TokenFailed)
      else
        var user := findUser(decoded.value);
        if user.None? then Reject(UserNotFound) else Proceed(user.value)
  }

  /** A request proceeds only with a token that is present, not empty, and verifies. */
  lemma ProceedNeedsVerifiedToken(authorization: Option<string>, verify: string -> Option<Id>, findUser: Id -> Option<User>)
    requires Decision(authorization, verify, findUser).Proceed?
    ensures BearerHeader(authorization)
    ensures var token := RequestToken(authorization);
            Truthy(token) && verify(token.value).Some? && findUser(verify(token.value).value).Some?
  {
  }

  /**
   * `protect` as written: the catch branch responds "token failed" without returning, so the final
   * `if (!token)` check runs after it. Each element of `responses` is one `res.status(401).json(...)`.
   * Wherever the Bearer header carries a token this is `Decision`; where it carries none, two 401s
   * are attempted for the one request.
   */
  method Protect(authorization: Option<string>, verify: string -> Option<Id>, findUser: Id -> Option<User>)
      returns (responses: seq<AuthFailure>, proceeds: bool, user: Option<User>)
    ensures var d := Decision(authorization, verify, findUser);
            && (proceeds <==> d.Proceed?)
            && (proceeds ==> responses == [] && user == Some(d.user))
            && (d.Reject? && (BearerHeader(authorization) ==> Truthy(RequestToken(authorization))) ==> responses == [d.reason])
    ensures BearerHeader(authorization) && !Truthy(RequestToken(authorization)) ==> responses == [TokenFailed, NoToken]
  {
    var token: Option<string> := None;
    responses, proceeds, user := [], false, None;
    if BearerHeader(authorization) {
      token := HeaderToken(authorization.value);
      var decoded := Decoded(token, verify);
      if decoded.None? {
        responses := responses + [TokenFailed];
      } else {
        user := findUser(decoded.value);
        if user.None? {
          responses := responses + [UserNotFound];
          return;
        }
        proceeds := true;
      }
    }
    if !Truthy(token) {
      responses := responses + [NoToken];
    }
  }

  /** `protect` with the catch branch returning after its response: one response per refused request. */
  method ProtectOnce(authorization: Option<string>, verify: string -> Option<Id>, findUser: Id -> Option<User>)
      returns (responses: seq<AuthFailure>, proceeds: bool, user: Option<User>)
    ensures var d := Decision(authorization, verify, findUser);
            && (proceeds <==> d.Proceed?)
            && (proceeds ==> responses == [] && user == Some(d.user))
            && (!proceeds ==> responses == [d.reason])
    ensures |responses| == (if proceeds then 0 else 1)
  {
    var token: Option<string> := None;
    responses, proceeds, user := [], false, None;
    if BearerHeader(authorization) {
      token := HeaderToken(authorization.value);
      var decoded := Decoded(token, verify);
      if decoded.None? {
        responses := responses + [TokenFailed];
        return;
      } else {
        user := findUser(decoded.value);
        if user.None? {
          responses := responses + [UserNotFound];
          return;
        }
        proceeds := true;
      }
    }
    if !Truthy(token) {
      responses := responses + [NoToken];
    }
  }

  /** A header that is exactly `Bearer` carries no token: it has no second piece. */
  lemma BareBearerHasNoToken()
    ensures BearerHeader(Some("Bearer"))
    ensures RequestToken(Some("Bearer")) == None
  {
    SplitPrefix("Bearer", [], ' ');
    assert "Bearer" + [] == "Bearer";
  }

  /** The header `Bearer` draws two 401 responses from `protect` as written. */
  method BareBearerDoubleResponse(verify: string -> Option<Id>, findUser: Id -> Option<User>)
      returns (responses: seq<AuthFailure>)
    ensures responses == [TokenFailed, NoToken]
  {
    BareBearerHasNoToken();
    var proceeds, user;
    responses, proceeds, user := Protect(Some("Bearer"), verify, findUser);
  }

  /** `Bearer <token>` followed by nothing or by more space-separated text yields `<token>`. */
  lemma TokenIsSecondPiece(token: string, rest: string)
    requires ' ' !in token
    requires rest == [] || rest[0] == ' '
    ensures RequestToken(Some("Bearer " + token + rest)) == Some(token)
  {
    var h := "Bearer " + token + rest;
    assert h == "Bearer" + (" " + (token + rest));
    assert (" " + (token + rest))[1..] == token + rest;
    SplitPrefix(token, rest, ' ');
    var tail := Split(rest, ' ');
    assert tail[0] == [] by {
      if rest != [] {
        assert Split(rest, ' ') == [[]] + Split(rest[1..], ' ');
      }
    }
    assert Split(token + rest, ' ')[0] == token;
    assert Split(" " + (token + rest), ' ') == [[]] + Split(token + rest, ' ');
    SplitPrefix("Bearer", " " + (token + rest), ' ');
    assert "Bearer" <= h;
  }

  datatype RequestUser = Unset | Identified(user: Option<User>)

  /**
   * `identifyUser`: always passes the request on. Without a Bearer header `req.user` is left
   * unset; when verification fails it is null; otherwise it is whatever the lookup found.
   */
  method IdentifyUser(authorization: Option<string>, verify: string -> Option<Id>, findUser: Id -> Option<User>)
      returns (proceeds: bool, user: RequestUser)
    ensures proceeds
    ensures !BearerHeader(authorization) <==> user == Unset
    ensures Decision(authorization, verify, findUser).Proceed? <==> user.Identified? && user.user.Some?
    ensures Decision(authorization, verify, findUser).Proceed? ==> user == Identified(Some(Decision(authorization, verify, findUser).user))
  {
    user := Unset;
    if BearerHeader(authorization) {
      var token := HeaderToken(authorization.value);
      var decoded := Decoded(token, verify);
      if decoded.None? {
        user := Identified(None);
      } else {
        user := Identified(findUser(decoded.value));
      }
    }
    proceeds := true;
  }
}
