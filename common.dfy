/** Shared vocabulary of the NoteHub server model: identifiers, stored
    documents, the authenticated caller, handler responses, and the one
    query primitive the document store offers (an equality or
    array-contains filter over a collection). */
module Common {

  type Id = string
  type UserId = string
  type Email = string
  /** An ISO-8601 instant as `new Date().toISOString()` renders it. */
  type Timestamp = string

  datatype Option<+T> = None | Some(value: T)

  /** A document as a model function hands it back: `{ id: doc.id, ...doc.data() }`. */
  datatype Doc<T> = Doc(id: Id, data: T)

  /** The identity the token middleware puts in `req.user`. */
  datatype Caller = Caller(userId: UserId, email: Email)

  /** What a request handler sends: a success status with its JSON body, an
      error status with its message, or the validator's 400 with its list. */
  datatype Response<T> =
    | Ok(status: nat, value: T)
    | Err(status: nat, error: string)
    | Invalid(errors: seq<string>)

  predicate NoDuplicates<T(==)>(s: seq<T>)
  {
    forall i, j :: 0 <= i < j < |s| ==> s[i] != s[j]
  }

  function Ids<T>(docs: seq<Doc<T>>): seq<Id>
  {
    seq(|docs|, i requires 0 <= i < |docs| => docs[i].id)
  }

  /** A query `collection.where(...).get()` followed by `snapshot.forEach`
      pushing `{ id, ...data }`: every document whose fields satisfy `p`,
      each exactly once, in an order the model leaves open. */
  method Where<T>(coll: map<Id, T>, p: T -> bool) returns (r: seq<Doc<T>>)
    ensures NoDuplicates(Ids(r))
    ensures forall i :: 0 <= i < |r| ==> r[i].id in coll && coll[r[i].id] == r[i].data && p(r[i].data)
    ensures forall id :: id in coll && p(coll[id]) ==> id in Ids(r)
  {
    r := [];
    var rest := coll.Keys;
    while rest != {}
      invariant rest <= coll.Keys
      invariant NoDuplicates(Ids(r))
      invariant forall i :: 0 <= i < |r| ==> r[i].id in coll.Keys - rest && coll[r[i].id] == r[i].data && p(r[i].data)
      invariant forall id :: id in coll.Keys - rest && p(coll[id]) ==> id in Ids(r)
      decreases rest
    {
      var id :| id in rest;
      if p(coll[id]) {
        assert Ids(r + [Doc(id, coll[id])]) == Ids(r) + [id];
        r := r + [Doc(id, coll[id])];
      }
      rest := rest - {id};
    }
  }
}
