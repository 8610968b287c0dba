/** The handlers of routes/user-routes.js: POST /register, POST /login,
    PUT /edit (behind the guard) and GET /users, over the users collection. */
module UserRoutes {
  import opened Wrappers
  import opened UserModel
  import opened EmailRule
  import opened Crypto
  import opened Http
  import opened UserAuth

  // ---- POST /register ----

  /** `req.body` of a registration; a field left out is None. */
  datatype RegisterRequest = RegisterRequest(name: Option<string>, email: Option<string>,
                                             password: Option<string>, phone: Option<string>,
                                             address: Option<string>)

  predicate AllPresent(req: RegisterRequest)
  {
    Truthy(req.name) && Truthy(req.email) && Truthy(req.password) && Truthy(req.phone) && Truthy(req.address)
  }

  /** The validation rules, each with its own 400 message. */
  datatype Rule = Presence | NameMin | NameMax | EmailShape | PasswordMin | PhoneMin

  /** The order in which the handler applies the rules. */
  function Rank(rule: Rule): nat
  {
    match rule
    case Presence => 0
    case NameMin => 1
    case NameMax => 2
    case EmailShape => 3
    case PasswordMin => 4
    case PhoneMin => 5
  }

  function Text(field: Option<string>): string
  {
    match field
    case None => ""
    case Some(s) => s
  }

  /** Whether a request breaks a rule, each rule read on its own. */
  predicate Violates(req: RegisterRequest, rule: Rule)
  {
    match rule
    case Presence => !AllPresent(req)
    case NameMin => |Text(req.name)| < 3
    case NameMax => |Text(req.name)| > 25
    case EmailShape => !IsValidEmail(Text(req.email))
    case PasswordMin => |Text(req.password)| <= 6
    case PhoneMin => |Text(req.phone)| < 10
  }

  function Message(rule: Rule): string
  {
    match rule
    case Presence => "please enter all the required fields"
    case NameMin => "name should have at least 3 characters"
    case NameMax => "name can only be 25 characters long."
    case EmailShape => "please enter a valid email address."
    case PasswordMin => "password must be at least 6 characters"
    case PhoneMin => "phone must be at least 10 characters long"
  }

  function Reject(rule: Rule): Response
  {
    Response(400, Error(Message(rule)))
  }

  /** The early-return validation chain: the first rule, in the handler's
      order, that the request breaks; None when it breaks none. */
  function RegistrationCheck(req: RegisterRequest): (r: Option<Rule>)
    ensures r.None? <==> forall rule :: !Violates(req, rule)
    ensures r.Some? ==> Violates(req, r.value) && forall rule :: Rank(rule) < Rank(r.value) ==> !Violates(req, rule)
    ensures r.None? ==> AllPresent(req)
  {
    if !AllPresent(req) then assert Violates(req, Presence); Some(Presence)
    else if |req.name.value| < 3 then assert Violates(req, NameMin); Some(NameMin)
    else if |req.name.value| > 25 then assert Violates(req, NameMax); Some(NameMax)
    else if !IsValidEmail(req.email.value) then assert Violates(req, EmailShape); Some(EmailShape)
    else if |req.password.value| <= 6 then assert Violates(req, PasswordMin); Some(PasswordMin)
    else if |req.phone.value| < 10 then assert Violates(req, PhoneMin); Some(PhoneMin)
    else None
  }

  function DuplicateMessage(email: string): string
  {
    "a user with \"" + email + "\" already exists, so please try with different email"
  }

  /** The handler. `salt` is the randomness of `bcrypt.hash`; `storeFails`
      says that a call on the collection throws, which the handler answers
      with 500. The response carries the saved document as it is, hash
      included. */
  method Register(db: UserCollection, req: RegisterRequest, crypto: Primitives, salt: Salt, storeFails: bool)
    returns (resp: Response)
    requires db.Valid()
    modifies db
    ensures db.Valid()
    ensures RegistrationCheck(req).Some? ==>
      resp == Reject(RegistrationCheck(req).value) && unchanged(db)
    ensures RegistrationCheck(req).None? && storeFails ==>
      resp == Response(500, Thrown) && unchanged(db)
    ensures RegistrationCheck(req).None? && !storeFails && EmailTaken(old(db.docs), req.email.value) ==>
      resp == Response(400, Error(DuplicateMessage(req.email.value))) && unchanged(db)
    ensures RegistrationCheck(req).None? && !storeFails && !EmailTaken(old(db.docs), req.email.value) ==>
      var saved := User(old(db.nextId), req.name.value, req.email.value,
                        Some(crypto.hash(req.password.value, salt)), req.phone.value, req.address.value);
      && db.docs == old(db.docs) + [saved] && db.nextId == old(db.nextId) + 1
      && resp == Response(201, Record(saved, "user saved successfully"))
  {
    var check := RegistrationCheck(req);
    if check.Some? {
      return Reject(check.value);
    }
    if storeFails {
      return Response(500, Thrown);
    }
    var email := req.email.value;
    var existing := FindByEmail(db.docs, email);
    if existing.Some? {
      return Response(400, Error(DuplicateMessage(email)));
    }
    var hashed := crypto.hash(req.password.value, salt);
    var saved := db.Save(req.name.value, email, hashed, req.phone.value, req.address.value);
    resp := Response(201, Record(saved, "user saved successfully"));
  }

  /** A missing or empty field is reported before anything else is looked at. */
  lemma MissingFieldComesFirst(req: RegisterRequest)
    requires !AllPresent(req)
    ensures RegistrationCheck(req) == Some(Presence)
  {
  }

  /** With every field present, the name passes exactly when it has 3 to 25
      characters, and the two ways of failing are told apart. */
  lemma NameBounds(req: RegisterRequest)
    requires AllPresent(req)
    ensures RegistrationCheck(req) == Some(NameMin) <==> |req.name.value| < 3
    ensures RegistrationCheck(req) == Some(NameMax) <==> |req.name.value| > 25
    ensures Message(NameMin) != Message(NameMax)
  {
  }

  /** A password of exactly six characters is refused, though the message
      asks for "at least 6". */
  lemma SixCharacterPasswordRejected(name: string, email: string, phone: string, address: string)
    requires 3 <= |name| <= 25 && IsValidEmail(email) && phone != "" && address != ""
    ensures RegistrationCheck(RegisterRequest(Some(name), Some(email), Some("abcdef"), Some(phone), Some(address)))
         == Some(PasswordMin)
  {
  }

  /** A two-letter name is refused whatever the other fields hold: the
      email is not even examined. */
  lemma TwoLetterNameRejected(email: string, password: string, phone: string, address: string)
    requires email != "" && password != "" && phone != "" && address != ""
    ensures RegistrationCheck(RegisterRequest(Some("ab"), Some(email), Some(password), Some(phone), Some(address)))
         == Some(NameMin)
  {
  }

  /** "not-an-email" is refused with the email message (the string is a
      pinned parameter, as in the examples of email_rule.dfy). */
  lemma NotAnEmailRejected(name: string, email: string, password: string, phone: string, address: string)
    requires 3 <= |name| <= 25 && email == "not-an-email" && password != "" && phone != "" && address != ""
    ensures RegistrationCheck(RegisterRequest(Some(name), Some(email), Some(password), Some(phone), Some(address)))
         == Some(EmailShape)
  {
    RejectsWithoutAt(email);
  }

  // ---- POST /login ----

  datatype LoginRequest = LoginRequest(email: Option<string>, password: Option<string>)

  const InvalidCredentials := "invalid email or password"

  /** The handler, which changes nothing. A token is issued only for a
      known email whose stored hash matches the password; an unknown email
      and a wrong password give the same message, but for its surrounding
      spaces. */
  function LoginResponse(docs: seq<User>, req: LoginRequest, crypto: Primitives, now: Time, storeFails: bool)
    : (r: Response)
    ensures !Truthy(req.email) || !Truthy(req.password) ==> r == Reject(Presence)
    ensures Truthy(req.email) && Truthy(req.password) && !IsValidEmail(req.email.value) ==> r == Reject(EmailShape)
    ensures r.status == 200 <==>
      && Truthy(req.email) && Truthy(req.password) && IsValidEmail(req.email.value) && !storeFails
      && EmailTaken(docs, req.email.value)
      && var u := FindByEmail(docs, req.email.value).value;
         u.password.Some? && crypto.compare(req.password.value, u.password.value)
    ensures r.status == 200 ==>
      var u := FindByEmail(docs, req.email.value).value;
      r.body == LoggedIn(crypto.sign(u.id, now), WithoutPassword(u)) && u.email == req.email.value
    ensures Truthy(req.email) && Truthy(req.password) && IsValidEmail(req.email.value) && !storeFails ==>
      match FindByEmail(docs, req.email.value)
      case None => r == Response(400, Error(InvalidCredentials))
      case Some(u) =>
        u.password.Some? && !crypto.compare(req.password.value, u.password.value) ==>
        r == Response(400, Error(" " + InvalidCredentials + " "))
    ensures Truthy(req.email) && Truthy(req.password) && IsValidEmail(req.email.value) && storeFails ==>
      r == Response(500, Thrown)
    ensures Truthy(req.email) && Truthy(req.password) && IsValidEmail(req.email.value) && !storeFails ==>
      match FindByEmail(docs, req.email.value)
      case None => true
      case Some(u) => u.password.None? ==> r == Response(500, Thrown)
  {
    if !Truthy(req.email) || !Truthy(req.password) then Reject(Presence)
    else if !IsValidEmail(req.email.value) then Reject(EmailShape)
    else if storeFails then Response(500, Thrown)
    else
      match FindByEmail(docs, req.email.value)
      case None => Response(400, Error(InvalidCredentials))
      case Some(u) =>
        match u.password
        case None => Response(500, Thrown)   // bcrypt.compare throws without a hash
        case Some(hash) =>
          if !crypto.compare(req.password.value, hash) then Response(400, Error(" " + InvalidCredentials + " "))
          else Response(200, LoggedIn(crypto.sign(u.id, now), WithoutPassword(u)))
  }

  /** Whoever has just registered can log in with the same email and
      password, and gets a token for the new document. */
  lemma RegisteredUserCanLogIn(docs: seq<User>, nextId: UserId, req: RegisterRequest,
                               crypto: Primitives, salt: Salt, now: Time)
    requires CompareAcceptsOwnHash(crypto)
    requires RegistrationCheck(req).None? && !EmailTaken(docs, req.email.value)
    ensures
      var saved := User(nextId, req.name.value, req.email.value,
                        Some(crypto.hash(req.password.value, salt)), req.phone.value, req.address.value);
      LoginResponse(docs + [saved], LoginRequest(req.email, req.password), crypto, now, false)
        == Response(200, LoggedIn(crypto.sign(nextId, now), WithoutPassword(saved)))
  {
    var saved := User(nextId, req.name.value, req.email.value,
                      Some(crypto.hash(req.password.value, salt)), req.phone.value, req.address.value);
    assert !Violates(req, EmailShape);
    FindByEmailAppended(docs, saved);
  }

  /** The token a login hands out, presented under any scheme word before
      it expires, gets the user attached by the guard, without password. */
  lemma IssuedTokenOpensGuard(docs: seq<User>, req: LoginRequest, crypto: Primitives, now: Time, scheme: string)
    requires IdsUnique(docs) && SignedTokensVerify(crypto, now) && ' ' !in scheme
    requires LoginResponse(docs, req, crypto, now, false).status == 200
    ensures var body := LoginResponse(docs, req, crypto, now, false).body;
      Guard(Some(scheme + " " + body.token), crypto.verify, docs, false) == Proceed(Attached(body.user))
  {
    var u := FindByEmail(docs, req.email.value).value;
    var token := crypto.sign(u.id, now);
    assert token != "" && ' ' !in token && crypto.verify(token) == Payload(u.id);
    TokenAfterAnyScheme(scheme, token);
    var j :| 0 <= j < |docs| && docs[j] == u;
    var k := IndexOfId(docs, u.id).value;
    assert docs[k] == u;
  }

  // ---- PUT /edit ----

  /** `req.body` of an edit; anything else in the body is ignored. */
  datatype EditRequest = EditRequest(name: string, phone: string, address: string)

  /** The handler behind the guard, for the identity the guard attached.
      Reading `_id` of an unset or null `req.user`, a failing update, and
      `._doc` of the null an unknown id yields all throw and give 401. */
  method Edit(db: UserCollection, caller: Identity, req: EditRequest, storeFails: bool) returns (resp: Response)
    requires db.Valid()
    modifies db
    ensures db.Valid() && db.nextId == old(db.nextId)
    ensures !caller.Attached? || storeFails ==> resp == Response(401, Thrown) && db.docs == old(db.docs)
    ensures caller.Attached? && !storeFails ==>
      match IndexOfId(old(db.docs), caller.user.id)
      case None => resp == Response(401, Thrown) && db.docs == old(db.docs)
      case Some(k) =>
        && db.docs == old(db.docs)[k := Edited(old(db.docs)[k], req.name, req.phone, req.address)]
        && resp == Response(200, Record(WithoutPassword(db.docs[k]), "profile updates successfully"))
    ensures |db.docs| == |old(db.docs)|
    ensures forall k :: 0 <= k < |db.docs| ==>
      db.docs[k].id == old(db.docs)[k].id && db.docs[k].email == old(db.docs)[k].email &&
      db.docs[k].password == old(db.docs)[k].password
    ensures forall k :: 0 <= k < |db.docs| && db.docs[k] != old(db.docs)[k] ==>
      caller.Attached? && old(db.docs)[k].id == caller.user.id
  {
    if !caller.Attached? {
      return Response(401, Thrown);
    }
    if storeFails {
      return Response(401, Thrown);
    }
    var newData := db.FindByIdAndUpdate(caller.user.id, req.name, req.phone, req.address);
    if newData.None? {
      return Response(401, Thrown);
    }
    var shown := newData.value.(password := None);
    resp := Response(200, Record(shown, "profile updates successfully"));
  }

  /** PUT /edit: the guard, then (when it calls `next`) the handler. Only
      the record of the token's subject can change, and only its name,
      phone and address. */
  method PutEdit(req: Request, body: EditRequest, crypto: Primitives, db: UserCollection,
                 lookupThrows: bool, storeFails: bool)
    requires db.Valid()
    modifies req, db
    ensures db.Valid() && db.nextId == old(db.nextId)
    ensures var d := Guard(req.authorization, crypto.verify, old(db.docs), lookupThrows);
      && (!d.Proceed? ==> req.user == old(req.user) && req.nextCalls == old(req.nextCalls))
      && (d == Forbid ==> req.response == Some(ForbiddenResponse) && db.docs == old(db.docs))
      && (d == Unauthorized ==> req.response == Some(UnauthorizedResponse) && db.docs == old(db.docs))
      && (d == Swallowed ==> req.response == old(req.response) && db.docs == old(db.docs))
      && (d.Proceed? ==> req.user == d.identity && req.nextCalls == old(req.nextCalls) + 1)
      && (d.Proceed? && !(d.identity.Attached? && !storeFails) ==>
            req.response == Some(Response(401, Thrown)) && db.docs == old(db.docs))
      && (d.Proceed? && d.identity.Attached? && !storeFails ==>
            match IndexOfId(old(db.docs), d.identity.user.id)
            case None => req.response == Some(Response(401, Thrown)) && db.docs == old(db.docs)
            case Some(k) =>
              && db.docs == old(db.docs)[k := Edited(old(db.docs)[k], body.name, body.phone, body.address)]
              && req.response == Some(Response(200, Record(WithoutPassword(db.docs[k]), "profile updates successfully"))))
    ensures |db.docs| == |old(db.docs)|
    ensures forall k :: 0 <= k < |db.docs| ==>
      db.docs[k].id == old(db.docs)[k].id && db.docs[k].email == old(db.docs)[k].email &&
      db.docs[k].password == old(db.docs)[k].password
    ensures forall k :: 0 <= k < |db.docs| && db.docs[k] != old(db.docs)[k] ==>
      Truthy(req.authorization) &&
      VerifiedSubject(req.authorization.value, crypto.verify) == Some(old(db.docs)[k].id)
  {
    var before := req.nextCalls;
    Authenticate(req, crypto, db, lookupThrows);
    if req.nextCalls > before {
      var resp := Edit(db, req.user, body, storeFails);
      req.response := Some(resp);
    }
  }

  // ---- GET /users ----

  /** The listing: every document, without its password; a failing `find`
      gives 404. */
  function UsersResponse(docs: seq<User>, storeFails: bool): (r: Response)
    ensures storeFails ==> r == Response(404, Thrown)
    ensures !storeFails ==>
      && r.status == 200 && r.body.UserList? && |r.body.users| == |docs|
      && forall k :: 0 <= k < |docs| ==>
           r.body.users[k].password.None? && r.body.users[k].(password := docs[k].password) == docs[k]
  {
    if storeFails then Response(404, Thrown) else Response(200, UserList(AllWithoutPasswords(docs)))
  }
}
