# User service: request validation, user table and access guard

This project models the logic of a small Express user service: the four
route handlers of `routes/user-routes.js` (register, login, edit, list) and
the token guard of `middlewares/userAuth.js` that sits in front of the edit
route. The MongoDB collection becomes an in-memory table (`UserModel.UserCollection`,
a class holding a `seq` of user documents); `bcrypt` and `jsonwebtoken`
become uninterpreted functions (`Crypto.Primitives`); the salt, the clock
and store failures become parameters. Each handler is one sequential step.

Modules, one per concern:

- `JsString` (js_string.dfy): JavaScript's `split`, `indexOf` and
  `lastIndexOf` for a one-character separator, with `Join` as the inverse of
  `Split` and the two round-trip lemmas.
- `EmailRule` (email_rule.dfy): the e-mail regular expression. The
  `...Pattern` predicates follow the expression's shape (the local part is
  dot-joined atoms or a quoted string; the domain is a bracketed dotted
  quad or dot-joined labels ending in an alphabetic top-level name of at
  least two letters). `IsValidEmail`, the recogniser the handlers call, splits
  at the last `@` and on dots. `EmailAgreement` proves that the two accept
  the same strings.
- `UserModel` (user_model.dfy): the user document and the collection's
  operations that the handlers call.
- `Crypto` (crypto.dfy): hashing, comparing, signing and verifying, as given
  functions. The two assumptions about them are named predicates. A lemma
  relies on an assumption only by listing it in its `requires`.
- `Http` (http.dfy): status code and body of a response, the request object
  the guard works on, and JavaScript truthiness of a possibly-undefined string.
- `UserAuth` (user_auth.dfy): the guard, as the decision function `Guard`
  and as the method `Authenticate`, which sets `req.user`, responds or calls `next`.
- `UserRoutes` (user_routes.dfy): the validation chain, the four handlers,
  the PUT /edit route (guard followed by handler) and the cross-handler lemmas.

Where the code departs from its evident intent, the model follows the code:

- The register handler returns the saved document with its password
  hash. The line that would blank it, routes/user-routes.js:67, is
  commented out, although the comment above it (routes/user-routes.js:66)
  states the intent to hide the stored password.
- When the guard's user lookup throws, the error is only logged. No
  response is sent and `next` is not called (`Decision.Swallowed`), so the
  request is left without an answer.
- The guard never checks that the header's first segment is "Bearer"
  (`UserAuth.SchemeNotChecked`).
- A password of exactly six characters is refused, although the message
  says "at least 6" (`UserRoutes.SixCharacterPasswordRejected`).
- When the token's subject has no document, `req.user` becomes `null` and
  `next` is still called. The edit handler then throws on `req.user._id`
  and answers 401 (`UserRoutes.Edit`).

## Model

| member | source | states |
|---|---|---|
| `JsString.Split` | middlewares/userAuth.js:11 | `split(" ")` yields at least one piece, and no piece contains the separator |
| `JsString.SplitJoin` | middlewares/userAuth.js:11 | splitting pieces that were joined gives back the pieces, provided no piece contains the separator |
| `JsString.JoinSplit` | middlewares/userAuth.js:11 | joining the pieces of a split gives back the original string |
| `JsString.SplitHasSecondPiece` | middlewares/userAuth.js:11 | `split(" ")` has a second piece exactly when the string contains a space |
| `EmailRule.LocalPartSound` | routes/user-routes.js:31 | every local part the recogniser accepts (dot-split atoms, or a quoted string) is a local part of the regular expression |
| `EmailRule.LocalPartComplete` | routes/user-routes.js:31 | every local part of the regular expression is accepted by the recogniser |
| `EmailRule.DomainSound` | routes/user-routes.js:31 | every domain the recogniser accepts is a domain of the expression: a bracketed dotted quad of 1-3 digit groups, or labels followed by a top-level name of 2+ letters |
| `EmailRule.DomainComplete` | routes/user-routes.js:31 | every domain of the expression is accepted by the recogniser |
| `EmailRule.DomainAvoidsAt` | routes/user-routes.js:31 | no accepted domain contains `@`, so the `@` that splits a match is the last one |
| `EmailRule.EmailSound` | routes/user-routes.js:30-34 | every address the recogniser accepts matches the anchored expression `^(local)@(domain)$` |
| `EmailRule.EmailComplete` | routes/user-routes.js:30-34 | every address matching the anchored expression is accepted by the recogniser, split at its last `@` |
| `EmailRule.EmailAgreement` | routes/user-routes.js:30-34 | `IsValidEmail(s)` holds exactly when the anchored expression `^(local)@(domain)$` matches `s` |
| `EmailRule.IsValidEmail` | routes/user-routes.js:34 | `emailReg.test(email)`, the test the register handler applies (the login handler repeats it at line 92). An accepted address has a non-empty local part and a non-empty, `@`-free domain around its last `@`. `EmailAgreement` pins it down exactly |
| `EmailRule.NonEmptyParts` | routes/user-routes.js:31 | the recogniser accepts no empty local part and no empty domain |
| `EmailRule.QuadIsDomain` | routes/user-routes.js:31 | any four digit groups of 1-3 digits in brackets form an accepted domain, whatever their numeric value |
| `EmailRule.RejectsWithoutAt` | routes/user-routes.js:30-34 | a string without `@` is never accepted |
| `EmailRule.AcceptsPlainAddress` | routes/user-routes.js:31 | "user@example.com" is accepted |
| `EmailRule.AcceptsOutOfRangeOctets` | routes/user-routes.js:31 | "a@[999.999.999.999]" is accepted: the expression limits the number of digits in a group, not its value |
| `EmailRule.RejectsOneLetterTld` | routes/user-routes.js:31 | "user@example.c" is refused |
| `EmailRule.RejectsDotlessHost` | routes/user-routes.js:31 | "user@localhost" is refused |
| `UserModel.FindByEmail` | routes/user-routes.js:53 | `findOne({ email })` finds nothing exactly when no document has that email; otherwise it returns a stored document with that email |
| `UserModel.FindByEmailAppended` | routes/user-routes.js:99 | after a document with a fresh email is appended, looking up that email finds exactly that document |
| `UserModel.IndexOfId` | routes/user-routes.js:141 | locates the document with a given `_id`, or reports that none exists |
| `UserModel.FindById` | middlewares/userAuth.js:21 | `findOne({ _id }).select("-password")` returns nothing exactly when no document has that id; otherwise it returns a document with that id whose password is removed and whose other fields are those of a stored document |
| `UserModel.AllWithoutPasswords` | routes/user-routes.js:160 | `find().select("-password")` keeps every document (in insertion order) with the password removed and every other field unchanged |
| `UserModel.UserCollection.Save` | routes/user-routes.js:62-65 | saving appends exactly one document with a fresh id. The collection keeps its invariant: ids unique, emails unique, every document holds a hash |
| `UserModel.UserCollection.FindByIdAndUpdate` | routes/user-routes.js:141 | only name, phone and address of the document with that id change, and the updated document is returned. With no such document nothing changes and null is returned |
| `UserRoutes.RegistrationCheck` | routes/user-routes.js:15-48 | validation reports the first rule the request breaks, in the order presence, name min, name max, email, password, phone. It reports nothing exactly when no rule is broken |
| `UserRoutes.MissingFieldComesFirst` | routes/user-routes.js:15-18 | a missing or empty field among the five gives "please enter all the required fields", and no later check decides |
| `UserRoutes.NameBounds` | routes/user-routes.js:21-29 | with all fields present: name length < 3 gives the first name error, length > 25 the second (a different message); the name passes exactly when 3 <= length <= 25 |
| `UserRoutes.TwoLetterNameRejected` | routes/user-routes.js:21-24 | name "ab" is refused whatever the other fields hold, the email included |
| `UserRoutes.NotAnEmailRejected` | routes/user-routes.js:34-37 | email "not-an-email" is refused with the email message |
| `UserRoutes.SixCharacterPasswordRejected` | routes/user-routes.js:40-43 | a six-character password is refused |
| `UserRoutes.Register` | routes/user-routes.js:10-74 | a failed rule gives 400 with its message and no change. Then a store failure gives 500 and no change. Then an existing email gives 400 "already exists" and no change. Otherwise exactly one document is appended, under the next id, with `hash(password, salt)` and the other four fields as given; the id counter advances by one and 201 returns the document. The collection invariant (unique emails) is kept |
| `UserRoutes.LoginResponse` | routes/user-routes.js:78-130 | a missing field gives 400, and so does a bad email. A failing store gives 500, and so does a stored document without a hash (`compare` throws). 200 happens exactly when the email is known and `compare` accepts the stored hash. The 200 body holds `sign(_id)` and the user with password undefined. An unknown email gives "invalid email or password"; a wrong password gives the same message framed by spaces |
| `UserRoutes.RegisteredUserCanLogIn` | routes/user-routes.js:53-122 | assuming a password matches its own hash: after a successful registration, logging in with the same email and password gives 200 with a token for the new document |
| `UserRoutes.IssuedTokenOpensGuard` | routes/user-routes.js:115-122 | assuming a freshly signed token is one word and verifies to its subject: the token login returns, under any scheme word, makes the guard attach exactly the logged-in user (password removed) and call next |
| `UserRoutes.Edit` | routes/user-routes.js:135-153 | an unset or null `req.user`, a store failure, or an unknown id gives 401 and no change. Otherwise only name, phone and address of the caller's own document change, and 200 returns it with password undefined. Ids, emails, passwords and all other documents stay as they were |
| `UserRoutes.PutEdit` | routes/user-routes.js:135 | through the guard: 403, 401 and a swallowed lookup set only the response (or nothing, when swallowed). The store, `req.user` and the count of `next` calls stay as they were. When the guard calls next (exactly once), `req.user` is its identity. A null identity or a store failure gives 401 and no change. Otherwise the caller's own document gets the new name, phone and address and 200 returns it without password (401 and no change if the id is gone). A document can change only if the request's token verifies to its id, and only in name, phone and address. The id counter never changes |
| `UserRoutes.UsersResponse` | routes/user-routes.js:156-169 | a failing `find` gives 404. Otherwise 200 lists every document (in insertion order) with the password removed and every other field unchanged |
| `UserAuth.TokenIsSecondSegment` | middlewares/userAuth.js:11 | the token is the text after the first space, up to the next space or the end. A header without a space yields none |
| `UserAuth.TokenAfterAnyScheme` | middlewares/userAuth.js:11 | for any space-free first segment, the token is the rest's text up to its first space |
| `UserAuth.ExtractToken` | middlewares/userAuth.js:11 | `authHeader.split(" ")[1]` is undefined exactly when the header has no space, and otherwise holds no space. `TokenIsSecondSegment` pins it down exactly |
| `UserAuth.VerifiedSubject` | middlewares/userAuth.js:12-18 | what `jwt.verify` hands its callback: no subject for a header without a space or with an empty token ("jwt must be provided", without consulting the verifier). Otherwise there is a subject exactly when the verifier accepts the token, and it is the payload's. `Guard`'s 401 if-and-only-if is stated in its terms |
| `UserAuth.Guard` | middlewares/userAuth.js:5-33 | 403 exactly when the header is falsy. 401 exactly when the header is present and no verified subject comes out of it. Swallowed exactly when the subject verifies and the lookup throws. Otherwise next is called and `req.user` is always set: to the subject's document without password, or to null exactly when no document has that id |
| `UserAuth.NoSpaceIsUnauthorized` | middlewares/userAuth.js:11-18 | a present header with no space gives 401 |
| `UserAuth.EmptyTokenIsUnauthorized` | middlewares/userAuth.js:11-18 | a scheme followed by a single space gives 401, because the empty token is refused before verification |
| `UserAuth.SchemeNotChecked` | middlewares/userAuth.js:9-11 | any two space-free first segments lead to the same decision: "Bearer" is never checked |
| `UserAuth.Authenticate` | middlewares/userAuth.js:5-33 | 403 or 401 sets the response, leaves `req.user` alone and does not call next. Attaching sets `req.user` and calls next exactly once, with no response. A swallowed lookup changes nothing |

## Left out

- app.js is not part of this model. It covers server start-up, the database connection, request logging and the port.
- models/userModal.js is not part of this model. Its `required` validators, its unique index on `email` and its `Number` type for `phone` are not modelled. In particular the cast of `phone` to a number, and the save failure for a non-numeric phone, are not modelled; `phone` is stored as given.
- UserModel.UserCollection.Save: requires the email to be free. The register handler checks this first. The duplicate-key error of the schema's unique index is not modelled.
- bcrypt and jsonwebtoken are foreign code. Hashing, comparing, signing and verifying are given functions, and the salt and the clock are parameters. Two properties are only stated as predicates and used as lemma preconditions: a password matches its own hash, and a freshly signed token verifies to its subject. Other properties of the libraries are not proved either: that salted hashes differ, and that a wrong password never matches.
- Token expiry and the signing secret are not modelled. Expiry is part of the given `verify` function: it reflects the time of the request.
- `jwt.verify` on a missing or empty token is modelled as an error ("jwt must be provided") without calling the given verify function. This follows the library's behaviour.
- Asynchrony is not modelled. Promises, `await` and the order of the `jwt.verify` callback are read as one sequential step per handler.
- Store failures are one boolean per handler (`storeFails`, or `lookupThrows` for the guard). Which store call throws is not told apart: none of them has written anything by then.
- Exception messages (`error.message`) are not modelled. Such responses carry `Body.Thrown`, and `console.log` is omitted.
- Request bodies are strings or absent. Non-string JSON values are not modelled, for example a numeric `phone`, whose `.length` is undefined. For the edit route the three fields are taken as strings: what `$set` does with an undefined field is not modelled.
- Strings: a `char` is a Unicode scalar value, while JavaScript's `.length` counts UTF-16 code units. A character outside the Basic Multilingual Plane counts 1 here and 2 in JavaScript. Such input is in the model's domain, and for it the `.length` checks on name, password and phone (routes/user-routes.js:21, 25, 40, 45; `UserRoutes.RegistrationCheck`) can decide differently from the code. The e-mail expression's character classes give the same answer for such a character as for its two surrogate code units.
- UserModel.AllWithoutPasswords: lists the documents in insertion order. `User.find()` without `.sort()` (routes/user-routes.js:160) promises no order; the model fixes this one.
- HTTP and JSON serialisation are not modelled. A response keeps only its status code and body contents.
