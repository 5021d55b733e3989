/** The invariants that tie the two collections together, and the identity
    assumption they rest on.  Stated over the stored values so that the
    lemmas about them are about data, not about objects. */
module Sharing {
  import opened Common
  import opened NoteModel
  import opened InvitationModel

  /** The caller's token pairs its user id with that user's one email.
      Logins and registrations sign `{ id, email }` from the stored user, and
      nothing in the server changes a user's email afterwards. */
  ghost predicate Registered(caller: Caller, users: map<UserId, Email>)
  {
    caller.userId in users && users[caller.userId] == caller.email
  }

  predicate AllWellFormed(notes: map<Id, Note>)
  {
    forall id :: id in notes ==> WellFormed(notes[id])
  }

  /** What the send guards leave true of a pending invitation: the sender
      was a registered user, was not its addressee, and owns the note if it
      still exists. */
  ghost predicate PendingSound(inv: Invitation, notes: map<Id, Note>, users: map<UserId, Email>)
  {
    && inv.fromUserId in users && users[inv.fromUserId] == inv.fromEmail
    && inv.toEmail != inv.fromEmail
    && (inv.noteId in notes ==> notes[inv.noteId].ownerId == inv.fromUserId)
  }

  /** For each (note, addressee) pair, at most one invitation is pending. */
  ghost predicate AtMostOnePending(invs: map<Id, Invitation>)
  {
    forall a, b :: a in invs && b in invs && a != b && invs[a].status == Pending && invs[b].status == Pending
      ==> invs[a].noteId != invs[b].noteId || invs[a].toEmail != invs[b].toEmail
  }

  ghost predicate Invariant(notes: map<Id, Note>, issued: set<Id>, invs: map<Id, Invitation>, users: map<UserId, Email>)
  {
    && notes.Keys <= issued
    && AllWellFormed(notes)
    && (forall id :: id in invs ==> invs[id].noteId in issued)
    && (forall id :: id in invs && invs[id].status == Pending ==> PendingSound(invs[id], notes, users))
    && AtMostOnePending(invs)
  }

  /** A change to the notes alone that keeps every owner and hands out
      only fresh ids. */
  ghost predicate NoteEdit(n0: map<Id, Note>, iss0: set<Id>, n1: map<Id, Note>, iss1: set<Id>)
  {
    && iss0 <= iss1
    && n1.Keys <= iss1
    && forall id :: id in n1 && id in iss0 ==> id in n0 && n1[id].ownerId == n0[id].ownerId
  }

  /** Storing a note under an id never handed out is a note edit. */
  lemma InsertIsNoteEdit(n0: map<Id, Note>, iss0: set<Id>, id: Id, n: Note)
    requires n0.Keys <= iss0 && id !in iss0
    ensures NoteEdit(n0, iss0, n0[id := n], iss0 + {id})
  {
  }

  /** Storing a well-formed note keeps every note well formed. */
  lemma InsertKeepsAllWellFormed(n0: map<Id, Note>, id: Id, n: Note)
    requires AllWellFormed(n0) && WellFormed(n)
    ensures AllWellFormed(n0[id := n])
  {
  }

  /** An owner's update merges title, content, tags and time into one note
      and so keeps the invariant. */
  lemma PatchKeepsInvariant(notes: map<Id, Note>, issued: set<Id>, invs: map<Id, Invitation>,
                            users: map<UserId, Email>, id: Id, p: NotePatch)
    requires Invariant(notes, issued, invs, users) && id in notes
    ensures Invariant(notes[id := NoteModel.ApplyPatch(notes[id], p)], issued, invs, users)
  {
    assert WellFormed(notes[id]);
    NoteEditKeepsInvariant(notes, issued, notes[id := NoteModel.ApplyPatch(notes[id], p)], issued, invs, users);
  }

  /** A member leaving keeps the invariant. */
  lemma LeaveKeepsInvariant(notes: map<Id, Note>, issued: set<Id>, invs: map<Id, Invitation>,
                            users: map<UserId, Email>, id: Id, userId: UserId, now: Timestamp)
    requires Invariant(notes, issued, invs, users) && id in notes
    ensures Invariant(notes[id := notes[id].(sharedWith := ArrayRemove(notes[id].sharedWith, userId), updatedAt := now)],
                      issued, invs, users)
  {
    assert WellFormed(notes[id]);
    NoteEditKeepsInvariant(notes, issued,
      notes[id := notes[id].(sharedWith := ArrayRemove(notes[id].sharedWith, userId), updatedAt := now)], issued, invs, users);
  }

  /** Deleting a note keeps the invariant: its pending invitations stay
      sound because the id is never handed out again. */
  lemma DeleteKeepsInvariant(notes: map<Id, Note>, issued: set<Id>, invs: map<Id, Invitation>,
                             users: map<UserId, Email>, id: Id)
    requires Invariant(notes, issued, invs, users)
    ensures Invariant(notes - {id}, issued, invs, users)
  {
    NoteEditKeepsInvariant(notes, issued, notes - {id}, issued, invs, users);
  }

  /** An accepted or declined invitation never changes again. */
  ghost predicate TerminalKept(before: map<Id, Invitation>, after: map<Id, Invitation>)
  {
    forall id :: id in before && before[id].status != Pending ==> id in after && after[id] == before[id]
  }

  /** The accept handler never checks that the caller is not the owner; the
      self-invite guard at send time and the identity assumption make it so. */
  lemma AcceptingCallerIsNotOwner(notes: map<Id, Note>, issued: set<Id>, invs: map<Id, Invitation>,
                                  users: map<UserId, Email>, id: Id, caller: Caller)
    requires Invariant(notes, issued, invs, users)
    requires id in invs && invs[id].status == Pending && invs[id].toEmail == caller.email
    requires Registered(caller, users)
    requires invs[id].noteId in notes
    ensures caller.userId != notes[invs[id].noteId].ownerId
  {
    assert PendingSound(invs[id], notes, users);
  }

  /** Creating, editing, deleting or leaving notes keeps the invariant,
      whatever the invitations are. */
  lemma NoteEditKeepsInvariant(n0: map<Id, Note>, iss0: set<Id>, n1: map<Id, Note>, iss1: set<Id>,
                               invs: map<Id, Invitation>, users: map<UserId, Email>)
    requires Invariant(n0, iss0, invs, users)
    requires NoteEdit(n0, iss0, n1, iss1)
    requires AllWellFormed(n1)
    ensures Invariant(n1, iss1, invs, users)
  {
    forall id | id in invs && invs[id].status == Pending
      ensures PendingSound(invs[id], n1, users)
    {
      assert PendingSound(invs[id], n0, users);
      assert invs[id].noteId in iss0;
    }
  }
}
