/** The access guard of middlewares/userAuth.js: from the `authorization`
    header, the verdict of `jwt.verify` and the users collection, it either
    answers 403 or 401, or attaches the user to the request and calls
    `next`, or (when the lookup throws) logs the error and does nothing. */
module UserAuth {
  import opened Wrappers
  import opened JsString
  import opened UserModel
  import opened Crypto
  import opened Http

  /** `authHeader.split(" ")[1]`, `undefined` being None. */
  function ExtractToken(header: string): (r: Option<string>)
    ensures r.None? <==> ' ' !in header
    ensures r.Some? ==> ' ' !in r.value
  {
    SplitHasSecondPiece(header, ' ');
    var parts := Split(header, ' ');
    if |parts| >= 2 then Some(parts[1]) else None
  }

  /** The text of `s` up to its first space, or all of it. */
  function UpToSpace(s: string): string
  {
    match IndexOf(s, ' ')
    case None => s
    case Some(j) => s[..j]
  }

  /** The token is the text after the first space, up to the next space or
      the end; a header without a space has none. */
  lemma TokenIsSecondSegment(header: string)
    ensures ExtractToken(header) == match IndexOf(header, ' ')
                                    case None => None
                                    case Some(i) => Some(UpToSpace(header[i + 1..]))
  {
    match IndexOf(header, ' ')
    case None =>
      SplitWithoutSeparator(header, ' ');
    case Some(i) =>
      assert header == header[..i] + [' '] + header[i + 1..];
      SplitAround(header[..i], ' ', header[i + 1..]);
      SplitFirstPiece(header[i + 1..], ' ');
  }

  /** Whatever stands before the first space is never looked at. */
  lemma TokenAfterAnyScheme(scheme: string, rest: string)
    requires ' ' !in scheme
    ensures ExtractToken(scheme + " " + rest) == Some(UpToSpace(rest))
  {
    var header := scheme + " " + rest;
    TokenIsSecondSegment(header);
    assert header[|scheme|] == ' ' && header[..|scheme|] == scheme;
    assert IndexOf(header, ' ') == Some(|scheme|) by {
      var i := IndexOf(header, ' ').value;
      assert forall k :: 0 <= k < |scheme| ==> header[k] == scheme[k];
      assert header[..i] == scheme[..i] || i >= |scheme|;
    }
    assert header[|scheme| + 1..] == rest;
  }

  /** The subject of the token, when `jwt.verify` accepts it. A missing or
      empty token is refused by `jwt.verify` itself ("jwt must be provided"). */
  function VerifiedSubject(header: string, verify: string -> Verified): (r: Option<UserId>)
    ensures ' ' !in header ==> r == None
    ensures ExtractToken(header) == Some("") ==> r == None
    ensures r.Some? <==>
      ExtractToken(header).Some? && ExtractToken(header).value != "" && verify(ExtractToken(header).value).Payload?
    ensures r.Some? ==> verify(ExtractToken(header).value) == Payload(r.value)
  {
    match ExtractToken(header)
    case None => None
    case Some(token) =>
      if token == "" then None
      else
        match verify(token)
        case Rejected => None
        case Payload(id) => Some(id)
  }

  datatype Decision =
    | Forbid                       // 403, next not called
    | Unauthorized                 // 401, next not called
    | Proceed(identity: Identity)  // req.user = identity; next()
    | Swallowed                    // the lookup threw: logged, no response, next not called

  const ForbiddenResponse := Response(403, Error("Forbidden \U{1F6D1}\U{1F6D1} , JWT token not entered / expired "))
  const UnauthorizedResponse := Response(401, Error("Unauthorized!"))

  /** The guard's decision for one request. */
  function Guard(authorization: Option<string>, verify: string -> Verified, docs: seq<User>, lookupThrows: bool)
    : (d: Decision)
    ensures d == Forbid <==> !Truthy(authorization)
    ensures d == Unauthorized <==> Truthy(authorization) && VerifiedSubject(authorization.value, verify).None?
    ensures d == Swallowed <==> Truthy(authorization) && VerifiedSubject(authorization.value, verify).Some? && lookupThrows
    ensures d.Proceed? ==>
      var id := VerifiedSubject(authorization.value, verify).value;
      && !lookupThrows
      && d.identity != Unset
      && (d.identity == Null <==> forall k :: 0 <= k < |docs| ==> docs[k].id != id)
      && (d.identity.Attached? ==>
            d.identity.user.id == id && d.identity.user.password.None? &&
            exists k :: 0 <= k < |docs| && WithoutPassword(docs[k]) == d.identity.user)
  {
    if !Truthy(authorization) then Forbid
    else
      match VerifiedSubject(authorization.value, verify)
      case None => Unauthorized
      case Some(id) =>
        if lookupThrows then Swallowed
        else
          match FindById(docs, id)
          case None => Proceed(Null)
          case Some(u) => Proceed(Attached(u))
  }

  /** A present header without a space carries no token: 401. */
  lemma NoSpaceIsUnauthorized(header: string, verify: string -> Verified, docs: seq<User>, lookupThrows: bool)
    requires header != "" && ' ' !in header
    ensures Guard(Some(header), verify, docs, lookupThrows) == Unauthorized
  {
    TokenIsSecondSegment(header);
  }

  /** A scheme followed by a space and nothing else carries an empty token: 401. */
  lemma EmptyTokenIsUnauthorized(scheme: string, verify: string -> Verified, docs: seq<User>, lookupThrows: bool)
    requires ' ' !in scheme
    ensures Guard(Some(scheme + " "), verify, docs, lookupThrows) == Unauthorized
  {
    TokenAfterAnyScheme(scheme, "");
    assert scheme + " " + "" == scheme + " ";
  }

  /** The first segment is never checked to be "Bearer": any two schemes
      get the same decision. */
  lemma SchemeNotChecked(scheme1: string, scheme2: string, rest: string,
                         verify: string -> Verified, docs: seq<User>, lookupThrows: bool)
    requires ' ' !in scheme1 && ' ' !in scheme2
    ensures Guard(Some(scheme1 + " " + rest), verify, docs, lookupThrows)
         == Guard(Some(scheme2 + " " + rest), verify, docs, lookupThrows)
  {
    TokenAfterAnyScheme(scheme1, rest);
    TokenAfterAnyScheme(scheme2, rest);
  }

  /** The middleware itself: it responds, or sets `req.user` and calls
      `next` once, or (the lookup threw) leaves the request untouched. */
  method Authenticate(req: Request, crypto: Primitives, db: UserCollection, lookupThrows: bool)
    modifies req
    ensures var d := Guard(req.authorization, crypto.verify, db.docs, lookupThrows);
      && req.response == (match d
                          case Forbid => Some(ForbiddenResponse)
                          case Unauthorized => Some(UnauthorizedResponse)
                          case _ => old(req.response))
      && req.user == (if d.Proceed? then d.identity else old(req.user))
      && req.nextCalls == (if d.Proceed? then old(req.nextCalls) + 1 else old(req.nextCalls))
  {
    if !Truthy(req.authorization) {
      req.response := Some(ForbiddenResponse);
      return;
    }
    var subject := VerifiedSubject(req.authorization.value, crypto.verify);
    if subject.None? {
      req.response := Some(UnauthorizedResponse);
      return;
    }
    if lookupThrows {
      return;
    }
    var found := FindById(db.docs, subject.value);
    req.user := if found.Some? then Attached(found.value) else Null;
    req.nextCalls := req.nextCalls + 1;
  }
}
