/** The `invitations` collection and the model functions over it
    (server/src/models/Invitation.js). */
module InvitationModel {
  import opened Common

  datatype Status = Pending | Accepted | Declined

  datatype Invitation = Invitation(
    noteId: Id,
    fromUserId: UserId,
    fromEmail: Email,
    toEmail: Email,
    toUserId: Option<UserId>,
    status: Status,
    createdAt: Timestamp,
    respondedAt: Option<Timestamp>)

  /** The fields an invitation update writes; `None` leaves a field out of `updateData`. */
  datatype InvitationPatch = InvitationPatch(
    status: Option<Status>,
    toUserId: Option<UserId>,
    respondedAt: Option<Timestamp>)

  function ApplyPatch(inv: Invitation, p: InvitationPatch): (r: Invitation)
    ensures r.noteId == inv.noteId && r.fromUserId == inv.fromUserId && r.fromEmail == inv.fromEmail
    ensures r.toEmail == inv.toEmail && r.createdAt == inv.createdAt
    ensures r.status == (if p.status.Some? then p.status.value else inv.status)
    ensures r.toUserId == (if p.toUserId.Some? then Some(p.toUserId.value) else inv.toUserId)
    ensures r.respondedAt == (if p.respondedAt.Some? then Some(p.respondedAt.value) else inv.respondedAt)
  {
    var i1 := if p.status.Some? then inv.(status := p.status.value) else inv;
    var i2 := if p.toUserId.Some? then i1.(toUserId := Some(p.toUserId.value)) else i1;
    if p.respondedAt.Some? then i2.(respondedAt := Some(p.respondedAt.value)) else i2
  }

  predicate PendingFor(inv: Invitation, email: Email)
  {
    inv.toEmail == email && inv.status == Pending
  }

  predicate PendingForNote(inv: Invitation, noteId: Id, email: Email)
  {
    inv.noteId == noteId && PendingFor(inv, email)
  }

  /** Some invitation for `noteId` addressed to `email` is still pending. */
  ghost predicate HasPending(invs: map<Id, Invitation>, noteId: Id, email: Email)
  {
    exists id :: id in invs && PendingForNote(invs[id], noteId, email)
  }

  class InvitationStore {
    /** The stored documents by id. */
    var docs: map<Id, Invitation>

    constructor ()
      ensures docs == map[]
    {
      docs := map[];
    }

    /** Exactly the pending invitations addressed to `email`, each once. */
    method FindPendingForEmail(email: Email) returns (r: seq<Doc<Invitation>>)
      ensures NoDuplicates(Ids(r))
      ensures forall i :: 0 <= i < |r| ==> r[i].id in docs && docs[r[i].id] == r[i].data && PendingFor(r[i].data, email)
      ensures forall id :: id in docs && PendingFor(docs[id], email) ==> id in Ids(r)
    {
      r := Where(docs, (inv: Invitation) => PendingFor(inv, email));
    }

    /** `None` (JavaScript's `null`) exactly when no pending invitation for
        that note is addressed to `toEmail`; otherwise one that is. */
    method FindPendingByNoteAndEmail(noteId: Id, toEmail: Email) returns (r: Option<Doc<Invitation>>)
      ensures r.None? <==> !HasPending(docs, noteId, toEmail)
      ensures r.Some? ==> r.value.id in docs && docs[r.value.id] == r.value.data
                          && PendingForNote(r.value.data, noteId, toEmail)
    {
      var snapshot := Where(docs, (inv: Invitation) => PendingForNote(inv, noteId, toEmail));
      if |snapshot| == 0 {
        r := None;
      } else {
        r := Some(snapshot[0]);
      }
    }

    /** The stored invitation, or `None` (JavaScript's `null`) when there is none. */
    method FindById(id: Id) returns (r: Option<Doc<Invitation>>)
      ensures r.None? <==> id !in docs
      ensures r.Some? ==> r.value.id == id && r.value.data == docs[id]
    {
      if id in docs {
        r := Some(Doc(id, docs[id]));
      } else {
        r := None;
      }
    }

    /** `add`: one new invitation under a fresh generated id; the others are untouched. */
    method Create(id: Id, inv: Invitation) returns (newId: Id)
      requires id !in docs
      modifies this
      ensures newId == id
      ensures docs == old(docs)[id := inv]
    {
      docs := docs[id := inv];
      newId := id;
    }

    /** `update` then `get`: merges the patch into that one invitation and
        returns the merged record; updating a missing document fails (`None`)
        and writes nothing. */
    method Update(id: Id, patch: InvitationPatch) returns (r: Option<Doc<Invitation>>)
      modifies this
      ensures id in old(docs) ==>
        && docs == old(docs)[id := ApplyPatch(old(docs)[id], patch)]
        && r == Some(Doc(id, docs[id]))
      ensures id !in old(docs) ==> docs == old(docs) && r == None
    {
      if id in docs {
        docs := docs[id := ApplyPatch(docs[id], patch)];
        r := Some(Doc(id, docs[id]));
      } else {
        r := None;
      }
    }

    /** `delete`: removes that id only, a no-op when it is absent. */
    method Remove(id: Id)
      modifies this
      ensures docs == old(docs) - {id}
    {
      docs := docs - {id};
    }
  }
}
