/** The note request handlers (server/src/controllers/notes.js).  Each
    handler is one sequential step over the notes collection; the caller is
    the identity the token middleware resolved. */
module NotesController {
  import opened Common
  import opened Text
  import opened NoteModel
  import InvitationModel
  import opened Sharing

  /** The `updateData` of an update: title trimmed, content, a fresh
      `updatedAt`, and `tags` only when the request has them. */
  function UpdateData(title: string, content: string, tags: Option<seq<string>>, now: Timestamp): (p: NotePatch)
    ensures p.title == Some(Trim(title))
    ensures p.content == Some(content) && p.updatedAt == Some(now)
    ensures p.tags == tags
  {
    NotePatch(Some(Trim(title)), Some(content), tags, Some(now))
  }

  /** Every note the caller owns or is shared on, each once, tagged with
      the caller's access. */
  method GetAllNotes(notes: NoteStore, caller: Caller) returns (r: Response<seq<AccessibleNote>>)
    ensures r.Ok? && r.status == 200
    ensures NoDuplicates(AccessibleIds(r.value))
    ensures forall i :: 0 <= i < |r.value| ==>
      && r.value[i].id in notes.docs && r.value[i].note == notes.docs[r.value[i].id]
      && CanRead(r.value[i].note, caller.userId)
      && (r.value[i].access == Owner <==> r.value[i].note.ownerId == caller.userId)
    ensures forall id :: id in notes.docs && CanRead(notes.docs[id], caller.userId) ==> id in AccessibleIds(r.value)
  {
    var list := notes.FindAllAccessibleForUser(caller.userId);
    r := Ok(200, list);
  }

  /** 404 for a missing note, the note for its owner or a member, 403 for anyone else. */
  method GetNoteById(notes: NoteStore, caller: Caller, id: Id) returns (r: Response<Doc<Note>>)
    ensures id !in notes.docs ==> r == Err(404, "Note not found")
    ensures id in notes.docs && !CanRead(notes.docs[id], caller.userId) ==> r == Err(403, "Forbidden")
    ensures r.Ok? <==> id in notes.docs && CanRead(notes.docs[id], caller.userId)
    ensures r.Ok? ==> r.status == 200 && r.value == Doc(id, notes.docs[id])
  {
    var note := notes.FindById(id);
    if note.None? {
      return Err(404, "Note not found");
    }
    var isOwner := note.value.data.ownerId == caller.userId;
    var isShared := caller.userId in note.value.data.sharedWith;
    if !isOwner && !isShared {
      return Err(403, "Forbidden");
    }
    return Ok(200, note.value);
  }

  /** Stores a new note owned by the caller: title trimmed, tags defaulting
      to none, nobody shared, both timestamps the same instant. */
  method CreateNote(notes: NoteStore, caller: Caller, validationErrors: seq<string>,
                    title: string, content: string, tags: Option<seq<string>>,
                    now: Timestamp, newId: Id, ghost invs: map<Id, InvitationModel.Invitation>, ghost users: map<UserId, Email>)
    returns (r: Response<Id>)
    requires notes.Valid() && newId !in notes.issued && newId != ""
    modifies notes
    ensures notes.Valid()
    ensures Invariant(old(notes.docs), old(notes.issued), invs, users) ==> Invariant(notes.docs, notes.issued, invs, users)
    ensures NoteEdit(old(notes.docs), old(notes.issued), notes.docs, notes.issued)
    ensures old(AllWellFormed(notes.docs)) ==> AllWellFormed(notes.docs)
    ensures |validationErrors| > 0 ==>
      r == Invalid(validationErrors) && notes.docs == old(notes.docs) && notes.issued == old(notes.issued)
    ensures |validationErrors| == 0 ==>
      && r == Ok(201, newId)
      && newId !in old(notes.docs)
      && newId in notes.docs && notes.docs == old(notes.docs)[newId := notes.docs[newId]]
      && var n := notes.docs[newId];
         && n.ownerId == caller.userId && n.title == Trim(title) && n.content == content
         && n.tags == (if tags.Some? then tags.value else [])
         && n.sharedWith == [] && n.createdAt == now && n.updatedAt == now
  {
    if |validationErrors| > 0 {
      return Invalid(validationErrors);
    }
    var newNote := Note(caller.userId, Trim(title), content,
                        if tags.Some? then tags.value else [], [], now, now);
    ghost var before, issuedBefore := notes.docs, notes.issued;
    var noteId := notes.Create(newId, newNote);
    InsertIsNoteEdit(before, issuedBefore, newId, newNote);
    if AllWellFormed(before) {
      InsertKeepsAllWellFormed(before, newId, newNote);
      if Invariant(before, issuedBefore, invs, users) {
        NoteEditKeepsInvariant(before, issuedBefore, notes.docs, notes.issued, invs, users);
      }
    }
    return Ok(201, noteId);
  }

  /** 404 before 403; only the owner updates, and only title, content,
      tags and `updatedAt` change: owner, members and creation time stay. */
  method UpdateNote(notes: NoteStore, caller: Caller, validationErrors: seq<string>, id: Id,
                    title: string, content: string, tags: Option<seq<string>>,
                    now: Timestamp, ghost invs: map<Id, InvitationModel.Invitation>, ghost users: map<UserId, Email>)
    returns (r: Response<Doc<Note>>)
    requires notes.Valid()
    modifies notes
    ensures notes.Valid() && notes.issued == old(notes.issued)
    ensures Invariant(old(notes.docs), old(notes.issued), invs, users) ==> Invariant(notes.docs, notes.issued, invs, users)
    ensures NoteEdit(old(notes.docs), old(notes.issued), notes.docs, notes.issued)
    ensures old(AllWellFormed(notes.docs)) ==> AllWellFormed(notes.docs)
    ensures |validationErrors| > 0 ==> r == Invalid(validationErrors)
    ensures |validationErrors| == 0 && id !in old(notes.docs) ==> r == Err(404, "Note not found")
    ensures |validationErrors| == 0 && id in old(notes.docs) && old(notes.docs)[id].ownerId != caller.userId
      ==> r == Err(403, "Forbidden")
    ensures !r.Ok? ==> notes.docs == old(notes.docs)
    ensures r.Ok? <==> |validationErrors| == 0 && id in old(notes.docs) && old(notes.docs)[id].ownerId == caller.userId
    ensures r.Ok? ==>
      && notes.docs == old(notes.docs)[id := ApplyPatch(old(notes.docs)[id], UpdateData(title, content, tags, now))]
      && r == Ok(200, Doc(id, notes.docs[id]))
      && notes.docs[id].ownerId == old(notes.docs)[id].ownerId
      && notes.docs[id].sharedWith == old(notes.docs)[id].sharedWith
      && notes.docs[id].title == Trim(title) && notes.docs[id].content == content
      && notes.docs[id].tags == (if tags.Some? then tags.value else old(notes.docs)[id].tags)
      && notes.docs[id].updatedAt == now
  {
    if |validationErrors| > 0 {
      return Invalid(validationErrors);
    }
    var existing := notes.FindById(id);
    if existing.None? {
      return Err(404, "Note not found");
    }
    if existing.value.data.ownerId != caller.userId {
      return Err(403, "Forbidden");
    }
    ghost var before := notes.docs;
    var updated := notes.Update(id, UpdateData(title, content, tags, now));
    if Invariant(before, notes.issued, invs, users) {
      PatchKeepsInvariant(before, notes.issued, invs, users, id, UpdateData(title, content, tags, now));
    }
    return Ok(200, updated.value);
  }

  /** 404 for a missing note, 403 for anyone but the owner, and only the
      owner's request removes it. */
  method DeleteNote(notes: NoteStore, caller: Caller, id: Id, ghost invs: map<Id, InvitationModel.Invitation>, ghost users: map<UserId, Email>)
    returns (r: Response<string>)
    requires notes.Valid()
    modifies notes
    ensures notes.Valid() && notes.issued == old(notes.issued)
    ensures Invariant(old(notes.docs), old(notes.issued), invs, users) ==> Invariant(notes.docs, notes.issued, invs, users)
    ensures NoteEdit(old(notes.docs), old(notes.issued), notes.docs, notes.issued)
    ensures old(AllWellFormed(notes.docs)) ==> AllWellFormed(notes.docs)
    ensures id !in old(notes.docs) ==> r == Err(404, "Note not found")
    ensures id in old(notes.docs) && old(notes.docs)[id].ownerId != caller.userId ==> r == Err(403, "Forbidden")
    ensures !r.Ok? ==> notes.docs == old(notes.docs)
    ensures r.Ok? <==> id in old(notes.docs) && old(notes.docs)[id].ownerId == caller.userId
    ensures r.Ok? ==> r == Ok(200, "Note deleted successfully") && notes.docs == old(notes.docs) - {id}
  {
    var existing := notes.FindById(id);
    if existing.None? {
      return Err(404, "Note not found");
    }
    if existing.value.data.ownerId != caller.userId {
      return Err(403, "Forbidden");
    }
    ghost var before := notes.docs;
    notes.Remove(id);
    if Invariant(before, notes.issued, invs, users) {
      DeleteKeepsInvariant(before, notes.issued, invs, users, id);
    }
    return Ok(200, "Note deleted successfully");
  }

  /** A member takes themself off a note: the owner is always refused with
      400, a non-member succeeds without a write, a member is removed. */
  method LeaveNote(notes: NoteStore, caller: Caller, id: Id, now: Timestamp,
                   ghost invs: map<Id, InvitationModel.Invitation>, ghost users: map<UserId, Email>)
    returns (r: Response<string>)
    requires notes.Valid()
    modifies notes
    ensures notes.Valid() && notes.issued == old(notes.issued)
    ensures Invariant(old(notes.docs), old(notes.issued), invs, users) ==> Invariant(notes.docs, notes.issued, invs, users)
    ensures NoteEdit(old(notes.docs), old(notes.issued), notes.docs, notes.issued)
    ensures old(AllWellFormed(notes.docs)) ==> AllWellFormed(notes.docs)
    ensures id !in old(notes.docs) ==> r == Err(404, "Note not found") && notes.docs == old(notes.docs)
    ensures id in old(notes.docs) && old(notes.docs)[id].ownerId == caller.userId ==>
      r == Err(400, "Owner cannot remove own access") && notes.docs == old(notes.docs)
    ensures id in old(notes.docs) && old(notes.docs)[id].ownerId != caller.userId &&
            caller.userId !in old(notes.docs)[id].sharedWith ==>
      r == Ok(200, "Already removed") && notes.docs == old(notes.docs)
    ensures id in old(notes.docs) && old(notes.docs)[id].ownerId != caller.userId &&
            caller.userId in old(notes.docs)[id].sharedWith ==>
      && r == Ok(200, "Access removed")
      && notes.docs == old(notes.docs)[id := old(notes.docs)[id].(
           sharedWith := ArrayRemove(old(notes.docs)[id].sharedWith, caller.userId), updatedAt := now)]
      && caller.userId !in notes.docs[id].sharedWith
      && (forall u :: u in old(notes.docs)[id].sharedWith && u != caller.userId ==> u in notes.docs[id].sharedWith)
  {
    var existing := notes.FindById(id);
    if existing.None? {
      return Err(404, "Note not found");
    }
    if existing.value.data.ownerId == caller.userId {
      return Err(400, "Owner cannot remove own access");
    }
    var isShared := caller.userId in existing.value.data.sharedWith;
    if !isShared {
      return Ok(200, "Already removed");
    }
    ghost var before := notes.docs;
    var _ := notes.RemoveSharedUser(id, caller.userId, now);
    if Invariant(before, notes.issued, invs, users) {
      LeaveKeepsInvariant(before, notes.issued, invs, users, id, caller.userId, now);
    }
    return Ok(200, "Access removed");
  }
}
