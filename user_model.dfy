/** The user documents and the collection that stores them: the calls the
    handlers make on the model of models/userModal.js (`findOne` by email,
    `new User(...).save()`, `findByIdAndUpdate`, `find().select("-password")`),
    over an in-memory table. */
module UserModel {
  import opened Wrappers

  /** A document identifier (`_id`); the collection hands them out in order. */
  type UserId = nat

  /** A user document. `password` is `None` where the source sets it to
      `undefined` or selects it away; stored documents hold the hash. */
  datatype User = User(id: UserId, name: string, email: string, password: Option<string>,
                       phone: string, address: string)

  /** The document as a response shows it once `password` is removed. */
  function WithoutPassword(u: User): User
  {
    u.(password := None)
  }

  predicate EmailTaken(docs: seq<User>, email: string)
  {
    exists k :: 0 <= k < |docs| && docs[k].email == email
  }

  /** `User.findOne({ email })`: the first document with that email. */
  function FindByEmail(docs: seq<User>, email: string): (r: Option<User>)
    ensures r.None? <==> !EmailTaken(docs, email)
    ensures r.Some? ==> r.value in docs && r.value.email == email
  {
    if docs == [] then None
    else if docs[0].email == email then Some(docs[0])
    else
      var r := FindByEmail(docs[1..], email);
      assert EmailTaken(docs[1..], email) ==> EmailTaken(docs, email);
      assert EmailTaken(docs, email) ==> EmailTaken(docs[1..], email) by {
        if EmailTaken(docs, email) {
          var k :| 0 <= k < |docs| && docs[k].email == email;
          assert docs[1..][k - 1] == docs[k];
        }
      }
      r
  }

  /** Where the document with identifier `id` sits, if any. */
  function IndexOfId(docs: seq<User>, id: UserId): (r: Option<nat>)
    ensures r.None? <==> forall k :: 0 <= k < |docs| ==> docs[k].id != id
    ensures r.Some? ==> r.value < |docs| && docs[r.value].id == id
  {
    if docs == [] then None
    else if docs[0].id == id then Some(0)
    else
      match IndexOfId(docs[1..], id)
      case None => None
      case Some(k) => Some(k + 1)
  }

  /** `User.findOne({ _id: id }).select("-password")`. */
  function FindById(docs: seq<User>, id: UserId): (r: Option<User>)
    ensures r.None? <==> forall k :: 0 <= k < |docs| ==> docs[k].id != id
    ensures r.Some? ==> r.value.id == id && r.value.password.None? &&
                        exists k :: 0 <= k < |docs| && WithoutPassword(docs[k]) == r.value
  {
    match IndexOfId(docs, id)
    case None => None
    case Some(k) => Some(WithoutPassword(docs[k]))
  }

  /** `User.find().select("-password")`: every document, in insertion order, without its password. */
  function AllWithoutPasswords(docs: seq<User>): (r: seq<User>)
    ensures |r| == |docs|
    ensures forall k :: 0 <= k < |r| ==> r[k].password.None?
    ensures forall k :: 0 <= k < |r| ==> r[k].(password := docs[k].password) == docs[k]
  {
    seq(|docs|, k requires 0 <= k < |docs| => WithoutPassword(docs[k]))
  }

  /** The record `$set` leaves after an edit: only name, phone and address change. */
  function Edited(u: User, name: string, phone: string, address: string): User
  {
    u.(name := name, phone := phone, address := address)
  }

  ghost predicate EmailsUnique(docs: seq<User>)
  {
    forall i, j :: 0 <= i < j < |docs| ==> docs[i].email != docs[j].email
  }

  ghost predicate IdsUnique(docs: seq<User>)
  {
    forall i, j :: 0 <= i < j < |docs| ==> docs[i].id != docs[j].id
  }

  /** The users collection. */
  class UserCollection {
    var docs: seq<User>
    var nextId: UserId

    /** Identifiers are unique and below `nextId`, emails are unique, and
        every stored document holds a password hash. */
    ghost predicate Valid()
      reads this
    {
      && (forall k :: 0 <= k < |docs| ==> docs[k].id < nextId && docs[k].password.Some?)
      && IdsUnique(docs)
      && EmailsUnique(docs)
    }

    constructor ()
      ensures Valid() && docs == [] && nextId == 0
    {
      docs := [];
      nextId := 0;
    }

    /** `new User({ ... }).save()`: a document with a fresh identifier is
        appended. The handler has already checked that the email is free. */
    method Save(name: string, email: string, hashed: string, phone: string, address: string)
      returns (saved: User)
      requires Valid() && !EmailTaken(docs, email)
      modifies this
      ensures Valid()
      ensures saved == User(old(nextId), name, email, Some(hashed), phone, address)
      ensures docs == old(docs) + [saved] && nextId == old(nextId) + 1
    {
      saved := User(nextId, name, email, Some(hashed), phone, address);
      docs := docs + [saved];
      nextId := nextId + 1;
    }

    /** `User.findByIdAndUpdate({ _id: id }, { $set: {name, phone, address} }, { new: true })`:
        the updated document, or None when no document has that identifier. */
    method FindByIdAndUpdate(id: UserId, name: string, phone: string, address: string)
      returns (updated: Option<User>)
      requires Valid()
      modifies this
      ensures Valid() && nextId == old(nextId)
      ensures match IndexOfId(old(docs), id)
              case None => updated.None? && docs == old(docs)
              case Some(k) =>
                docs == old(docs)[k := Edited(old(docs)[k], name, phone, address)] &&
                updated == Some(docs[k])
    {
      match IndexOfId(docs, id)
      case None =>
        updated := None;
      case Some(k) =>
        var u := Edited(docs[k], name, phone, address);
        docs := docs[k := u];
        updated := Some(u);
    }
  }

  /** A document appended under a fresh email is what `findOne({ email })` finds. */
  lemma {:induction false} FindByEmailAppended(docs: seq<User>, u: User)
    requires !EmailTaken(docs, u.email)
    ensures FindByEmail(docs + [u], u.email) == Some(u)
  {
    if docs != [] {
      assert forall k :: 0 <= k < |docs| - 1 ==> docs[1..][k] == docs[k + 1];
      FindByEmailAppended(docs[1..], u);
      assert (docs + [u])[1..] == docs[1..] + [u];
    }
  }
}
