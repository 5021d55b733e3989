/** The `notes` collection and the model functions over it
    (server/src/models/Note.js). */
module NoteModel {
  import opened Common

  datatype Note = Note(
    ownerId: UserId,
    title: string,
    content: string,
    tags: seq<string>,
    sharedWith: seq<UserId>,
    createdAt: Timestamp,
    updatedAt: Timestamp)

  /** The `access` tag `findAllAccessibleForUser` puts on each note. */
  datatype Access = Owner | Shared

  datatype AccessibleNote = AccessibleNote(id: Id, note: Note, access: Access)

  /** The fields a note update writes; a field left `None` is not in `updateData`. */
  datatype NotePatch = NotePatch(
    title: Option<string>,
    content: Option<string>,
    tags: Option<seq<string>>,
    updatedAt: Option<Timestamp>)

  /** The membership list is duplicate-free and never names the owner. */
  predicate WellFormed(n: Note)
  {
    NoDuplicates(n.sharedWith) && n.ownerId !in n.sharedWith
  }

  /** The read check of the note handlers: the owner or a member.  The
      owner can always read; anyone else reads through membership alone. */
  predicate CanRead(n: Note, userId: UserId): (b: bool)
    ensures userId == n.ownerId ==> b
    ensures userId != n.ownerId ==> (b <==> userId in n.sharedWith)
  {
    n.ownerId == userId || userId in n.sharedWith
  }

  function AccessibleIds(r: seq<AccessibleNote>): seq<Id>
  {
    seq(|r|, i requires 0 <= i < |r| => r[i].id)
  }

  /** Firestore `arrayUnion(x)`: add `x` at the end unless it is already there. */
  function ArrayUnion(s: seq<UserId>, x: UserId): (r: seq<UserId>)
    ensures forall y :: y in r <==> y in s || y == x
    ensures NoDuplicates(s) ==> NoDuplicates(r)
    ensures x in s ==> r == s
    ensures x !in s ==> r == s + [x]
  {
    if x in s then s else s + [x]
  }

  /** Firestore `arrayRemove(x)`: drop every occurrence of `x`, keep the rest in order. */
  function ArrayRemove(s: seq<UserId>, x: UserId): (r: seq<UserId>)
    ensures |r| <= |s|
    ensures forall y :: y in r <==> y in s && y != x
    ensures NoDuplicates(s) ==> NoDuplicates(r)
    ensures x !in s ==> r == s
  {
    if s == [] then []
    else
      var tail := ArrayRemove(s[1..], x);
      if s[0] == x then tail
      else
        assert NoDuplicates(s) ==> s[0] !in s[1..];
        [s[0]] + tail
  }

  /** `arrayRemove` keeps the order of what it keeps: removing from a
      concatenation is removing from each part. */
  lemma {:induction false} ArrayRemoveAppend(s: seq<UserId>, t: seq<UserId>, x: UserId)
    ensures ArrayRemove(s + t, x) == ArrayRemove(s, x) + ArrayRemove(t, x)
  {
    if s != [] {
      assert (s + t)[1..] == s[1..] + t;
      ArrayRemoveAppend(s[1..], t, x);
    } else {
      assert s + t == t;
    }
  }

  /** Membership writes decide reading for everyone but the owner: after
      `arrayUnion(x)` exactly `x` can read in addition, after
      `arrayRemove(x)` a non-owner `x` can no longer read and nobody else
      loses access. */
  lemma MembershipDecidesRead(n: Note, x: UserId, v: UserId, now: Timestamp)
    ensures CanRead(n.(sharedWith := ArrayUnion(n.sharedWith, x), updatedAt := now), v) <==> CanRead(n, v) || v == x
    ensures x != n.ownerId ==> !CanRead(n.(sharedWith := ArrayRemove(n.sharedWith, x), updatedAt := now), x)
    ensures v != x ==> (CanRead(n.(sharedWith := ArrayRemove(n.sharedWith, x), updatedAt := now), v) <==> CanRead(n, v))
  {
  }

  /** Firestore `update(updateData)` merged into the stored fields. */
  function ApplyPatch(n: Note, p: NotePatch): (r: Note)
    ensures r.ownerId == n.ownerId && r.sharedWith == n.sharedWith && r.createdAt == n.createdAt
    ensures r.title == (if p.title.Some? then p.title.value else n.title)
    ensures r.content == (if p.content.Some? then p.content.value else n.content)
    ensures r.tags == (if p.tags.Some? then p.tags.value else n.tags)
    ensures r.updatedAt == (if p.updatedAt.Some? then p.updatedAt.value else n.updatedAt)
  {
    var n1 := if p.title.Some? then n.(title := p.title.value) else n;
    var n2 := if p.content.Some? then n1.(content := p.content.value) else n1;
    var n3 := if p.tags.Some? then n2.(tags := p.tags.value) else n2;
    if p.updatedAt.Some? then n3.(updatedAt := p.updatedAt.value) else n3
  }

  /** A membership write by a model function or handler keeps the note
      well formed exactly when it does not add the owner. */
  lemma UnionKeepsWellFormed(n: Note, x: UserId, now: Timestamp)
    requires WellFormed(n)
    ensures WellFormed(n.(sharedWith := ArrayUnion(n.sharedWith, x), updatedAt := now)) <==> x != n.ownerId
  {
    assert x in ArrayUnion(n.sharedWith, x);
  }

  /** Leaving undoes accepting: removing a user that a union just added to a
      list that did not hold it gives the list back, order included. */
  lemma {:induction false} RemoveUndoesUnion(s: seq<UserId>, x: UserId)
    requires x !in s
    ensures ArrayRemove(ArrayUnion(s, x), x) == s
  {
    if s == [] {
      assert ArrayUnion(s, x) == [x];
    } else {
      var t := ArrayUnion(s, x);
      assert t == s + [x];
      assert t[1..] == ArrayUnion(s[1..], x);
      RemoveUndoesUnion(s[1..], x);
    }
  }

  /** The merge loops' progress: `seen` is exactly the ids collected so
      far, each collected once, each a stored note the user can read, and
      tagged `Owner` exactly when the user owns it. */
  ghost predicate Collected(r: seq<AccessibleNote>, seen: set<Id>, docs: map<Id, Note>, userId: UserId)
  {
    && (forall id :: id in seen <==> id in AccessibleIds(r))
    && NoDuplicates(AccessibleIds(r))
    && forall k :: 0 <= k < |r| ==>
      && r[k].id in docs && r[k].note == docs[r[k].id]
      && CanRead(r[k].note, userId)
      && (r[k].access == Owner <==> r[k].note.ownerId == userId)
  }

  /** Collecting one more readable note under a new id keeps `Collected`. */
  lemma CollectStep(r: seq<AccessibleNote>, seen: set<Id>, docs: map<Id, Note>, userId: UserId, e: AccessibleNote)
    requires Collected(r, seen, docs, userId)
    requires e.id !in seen && e.id in docs && e.note == docs[e.id] && CanRead(e.note, userId)
    requires e.access == Owner <==> e.note.ownerId == userId
    ensures Collected(r + [e], seen + {e.id}, docs, userId)
  {
    assert AccessibleIds(r + [e]) == AccessibleIds(r) + [e.id];
  }

  /** The owned notes come from a query without repeated ids, so the next
      one is not among those already collected in the same order. */
  lemma OwnedIdIsNew(r: seq<AccessibleNote>, owned: seq<Doc<Note>>, i: nat)
    requires NoDuplicates(Ids(owned)) && |r| == i < |owned|
    requires forall k :: 0 <= k < i ==> r[k].id == owned[k].id
    ensures owned[i].id !in AccessibleIds(r)
  {
    forall k | 0 <= k < i
      ensures AccessibleIds(r)[k] != owned[i].id
    {
      assert Ids(owned)[k] != Ids(owned)[i];
    }
  }

  class NoteStore {
    /** The stored documents by id. */
    var docs: map<Id, Note>
    /** Every id the store has handed out; a deleted id is never handed out again. */
    ghost var issued: set<Id>

    /** Every stored id was handed out, and the empty id never is:
        Firestore generates non-empty ids and refuses `doc('')`. */
    ghost predicate Valid()
      reads this
    {
      docs.Keys <= issued && "" !in issued
    }

    constructor ()
      ensures Valid() && docs == map[] && issued == {}
    {
      docs := map[];
      issued := {};
    }

    /** Exactly the notes whose `ownerId` is `ownerId`, each once. */
    method FindAllByOwner(ownerId: UserId) returns (r: seq<Doc<Note>>)
      ensures NoDuplicates(Ids(r))
      ensures forall i :: 0 <= i < |r| ==> r[i].id in docs && docs[r[i].id] == r[i].data && r[i].data.ownerId == ownerId
      ensures forall id :: id in docs && docs[id].ownerId == ownerId ==> id in Ids(r)
    {
      r := Where(docs, (n: Note) => n.ownerId == ownerId);
    }

    /** The owned notes tagged `Owner`, then the shared ones not already
        present tagged `Shared`: each readable note exactly once, nothing
        else, and the tag is `Owner` exactly when the user owns it. */
    method FindAllAccessibleForUser(userId: UserId) returns (r: seq<AccessibleNote>)
      ensures NoDuplicates(AccessibleIds(r))
      ensures forall i :: 0 <= i < |r| ==>
        && r[i].id in docs && r[i].note == docs[r[i].id]
        && CanRead(r[i].note, userId)
        && (r[i].access == Owner <==> r[i].note.ownerId == userId)
      ensures forall id :: id in docs && CanRead(docs[id], userId) ==> id in AccessibleIds(r)
    {
      var owned := Where(docs, (n: Note) => n.ownerId == userId);
      var shared := Where(docs, (n: Note) => userId in n.sharedWith);

      // The Map keyed by id, read back with Array.from(map.values()):
      // `r` holds the values in insertion order and `seen` the keys.
      var seen;
      r, seen := CollectOwned(userId, owned);
      forall id | id in docs && docs[id].ownerId == userId
        ensures id in seen
      {
        var j :| 0 <= j < |owned| && Ids(owned)[j] == id;
      }
      r, seen := CollectShared(userId, shared, r, seen);
      forall id | id in docs && userId in docs[id].sharedWith
        ensures id in seen
      {
        var j :| 0 <= j < |shared| && Ids(shared)[j] == id;
      }
    }

    /** The first `forEach`: each owned note under its id, tagged `Owner`. */
    method CollectOwned(userId: UserId, owned: seq<Doc<Note>>) returns (r: seq<AccessibleNote>, seen: set<Id>)
      requires NoDuplicates(Ids(owned))
      requires forall i :: 0 <= i < |owned| ==>
        owned[i].id in docs && docs[owned[i].id] == owned[i].data && owned[i].data.ownerId == userId
      ensures Collected(r, seen, docs, userId)
      ensures forall j :: 0 <= j < |owned| ==> owned[j].id in seen
    {
      r := [];
      seen := {};
      for i := 0 to |owned|
        invariant Collected(r, seen, docs, userId)
        invariant |r| == i && forall k :: 0 <= k < i ==> r[k].id == owned[k].id
        invariant forall j :: 0 <= j < i ==> owned[j].id in seen
      {
        OwnedIdIsNew(r, owned, i);
        CollectStep(r, seen, docs, userId, AccessibleNote(owned[i].id, owned[i].data, Owner));
        r := r + [AccessibleNote(owned[i].id, owned[i].data, Owner)];
        seen := seen + {owned[i].id};
      }
    }

    /** The second `forEach`: each shared note whose id is not yet a key,
        tagged `Shared`. */
    method CollectShared(userId: UserId, shared: seq<Doc<Note>>, r0: seq<AccessibleNote>, seen0: set<Id>)
      returns (r: seq<AccessibleNote>, seen: set<Id>)
      requires Collected(r0, seen0, docs, userId)
      requires forall id :: id in docs && docs[id].ownerId == userId ==> id in seen0
      requires forall i :: 0 <= i < |shared| ==>
        shared[i].id in docs && docs[shared[i].id] == shared[i].data && userId in shared[i].data.sharedWith
      ensures Collected(r, seen, docs, userId)
      ensures seen0 <= seen
      ensures forall j :: 0 <= j < |shared| ==> shared[j].id in seen
    {
      r, seen := r0, seen0;
      for i := 0 to |shared|
        invariant Collected(r, seen, docs, userId)
        invariant seen0 <= seen
        invariant forall j :: 0 <= j < i ==> shared[j].id in seen
      {
        if shared[i].id !in seen {
          CollectStep(r, seen, docs, userId, AccessibleNote(shared[i].id, shared[i].data, Shared));
          r := r + [AccessibleNote(shared[i].id, shared[i].data, Shared)];
          seen := seen + {shared[i].id};
        }
      }
    }

    /** The stored note, or `None` (JavaScript's `null`) when there is none. */
    method FindById(id: Id) returns (r: Option<Doc<Note>>)
      ensures r.None? <==> id !in docs
      ensures r.Some? ==> r.value.id == id && r.value.data == docs[id]
    {
      if id in docs {
        r := Some(Doc(id, docs[id]));
      } else {
        r := None;
      }
    }

    /** `add`: stores the note under a fresh generated id. */
    method Create(id: Id, note: Note) returns (newId: Id)
      requires Valid() && id !in issued && id != ""
      modifies this
      ensures Valid()
      ensures newId == id && id !in old(docs)
      ensures docs == old(docs)[id := note] && issued == old(issued) + {id}
    {
      docs := docs[id := note];
      issued := issued + {id};
      newId := id;
    }

    /** `update` then `get`: merges the patch into that one note and returns
        the merged record; updating a missing document fails (`None`) and
        writes nothing. */
    method Update(id: Id, patch: NotePatch) returns (r: Option<Doc<Note>>)
      requires Valid()
      modifies this
      ensures Valid() && issued == old(issued)
      ensures id in old(docs) ==>
        && docs == old(docs)[id := ApplyPatch(old(docs)[id], patch)]
        && r == Some(Doc(id, docs[id]))
      ensures id !in old(docs) ==> docs == old(docs) && r == None
    {
      if id in docs {
        docs := docs[id := ApplyPatch(docs[id], patch)];
        r := Some(Doc(id, docs[id]));
      } else {
        r := None;
      }
    }

    /** `delete`: removes that id, a no-op when it is absent. */
    method Remove(id: Id)
      requires Valid()
      modifies this
      ensures Valid() && issued == old(issued)
      ensures docs == old(docs) - {id}
    {
      docs := docs - {id};
    }

    /** On a missing note returns `false` (JavaScript's `null`) and writes
        nothing; otherwise drops `userId` from `sharedWith`, keeps every other
        member and refreshes `updatedAt`. */
    method RemoveSharedUser(noteId: Id, userId: UserId, now: Timestamp) returns (found: bool)
      requires Valid()
      modifies this
      ensures Valid() && issued == old(issued)
      ensures found <==> noteId in old(docs)
      ensures !found ==> docs == old(docs)
      ensures found ==> docs == old(docs)[noteId := old(docs)[noteId].(
        sharedWith := ArrayRemove(old(docs)[noteId].sharedWith, userId), updatedAt := now)]
    {
      if noteId !in docs {
        return false;
      }
      var n := docs[noteId];
      docs := docs[noteId := n.(sharedWith := ArrayRemove(n.sharedWith, userId), updatedAt := now)];
      return true;
    }

    /** The membership write of an accepted invitation: `arrayUnion(userId)`
        on `sharedWith` and a fresh `updatedAt`; on a missing note the
        document update fails (`false`) and writes nothing. */
    method AddSharedUser(noteId: Id, userId: UserId, now: Timestamp) returns (found: bool)
      requires Valid()
      modifies this
      ensures Valid() && issued == old(issued)
      ensures found <==> noteId in old(docs)
      ensures !found ==> docs == old(docs)
      ensures found ==> docs == old(docs)[noteId := old(docs)[noteId].(
        sharedWith := ArrayUnion(old(docs)[noteId].sharedWith, userId), updatedAt := now)]
    {
      if noteId !in docs {
        return false;
      }
      var n := docs[noteId];
      docs := docs[noteId := n.(sharedWith := ArrayUnion(n.sharedWith, userId), updatedAt := now)];
      return true;
    }
  }
}
