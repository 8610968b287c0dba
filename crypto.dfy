/** `bcrypt` and `jsonwebtoken` as the service uses them, left uninterpreted:
    the hashing, comparing, signing and verifying functions are given, not
    defined. The random salt and the clock are parameters. */
module Crypto {
  import opened UserModel

  /** The random salt `bcrypt.hash(password, 12)` draws. */
  type Salt = nat

  /** A clock reading. */
  type Time = int

  /** What `jwt.verify(token, secret, callback)` hands its callback: an
      error, or the payload `{ _id }` signed at login. */
  datatype Verified = Rejected | Payload(subject: UserId)

  datatype Primitives = Primitives(
    hash: (string, Salt) -> string,       // bcrypt.hash(password, 12)
    compare: (string, string) -> bool,    // bcrypt.compare(password, hash)
    sign: (UserId, Time) -> string,       // jwt.sign({ _id }, secret, { expiresIn: '1h' })
    verify: string -> Verified)           // jwt.verify(token, secret), at the time of the request

  /** The one property of bcrypt the model relies on: a password matches
      its own hash, whatever the salt. */
  ghost predicate CompareAcceptsOwnHash(c: Primitives)
  {
    forall p, s :: c.compare(p, c.hash(p, s))
  }

  /** A token signed at `now` is a single non-empty word (as a JWT is) and,
      presented before it expires, verifies to the subject it was signed for. */
  ghost predicate SignedTokensVerify(c: Primitives, now: Time)
  {
    forall id :: c.sign(id, now) != "" && ' ' !in c.sign(id, now) && c.verify(c.sign(id, now)) == Payload(id)
  }
}
