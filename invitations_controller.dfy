/** The invitation request handlers (server/src/controllers/invitations.js):
    listing the caller's pending invitations with a preview of each note,
    sending one, and the two ways out of `Pending`. */
module InvitationsController {
  import opened Common
  import opened Text
  import opened NoteModel
  import opened InvitationModel
  import opened Sharing

  const PreviewLimit: nat := 160
  const Ellipsis: string := "..."
  const UntitledTitle: string := "Untitled"

  /** The note projection attached to a listed invitation. */
  datatype NoteSummary = NoteSummary(title: string, preview: string, tags: seq<string>)

  /** An invitation as listed: its fields plus `note`, which is `None`
      (JavaScript's `null`) when the note is gone. */
  datatype EnrichedInvitation = EnrichedInvitation(invitation: Doc<Invitation>, note: Option<NoteSummary>)

  /** The trimmed content, cut at `PreviewLimit` characters with an ellipsis
      when it is longer. */
  function Preview(content: string): (p: string)
    ensures |p| <= PreviewLimit + |Ellipsis|
    ensures |Trim(content)| <= PreviewLimit ==> p == Trim(content)
    ensures |Trim(content)| > PreviewLimit ==>
      |p| == PreviewLimit + |Ellipsis| && p[..PreviewLimit] == Trim(content)[..PreviewLimit] && p[PreviewLimit..] == Ellipsis
  {
    var trimmed := Trim(content);
    if |trimmed| <= PreviewLimit then trimmed else trimmed[..PreviewLimit] + Ellipsis
  }

  /** An empty title shows as "Untitled"; the preview is never longer than
      163 characters; tags pass through. */
  function Summarize(n: Note): (s: NoteSummary)
    ensures s.title != [] && (n.title != [] ==> s.title == n.title)
    ensures |s.preview| <= PreviewLimit + |Ellipsis|
    ensures s.tags == n.tags
  {
    NoteSummary(if n.title == "" then UntitledTitle else n.title, Preview(n.content), n.tags)
  }

  /** What a listed invitation carries as `note`: the summary of the note
      it names, or `None` when that id is empty or names no stored note. */
  function NoteFor(notes: map<Id, Note>, noteId: Id): (r: Option<NoteSummary>)
    ensures r.Some? <==> noteId != "" && noteId in notes
    ensures r.Some? ==>
      && r.value.title != [] && (notes[noteId].title != [] ==> r.value.title == notes[noteId].title)
      && |r.value.preview| <= PreviewLimit + |Ellipsis|
      && r.value.tags == notes[noteId].tags
  {
    if noteId != "" && noteId in notes then Some(Summarize(notes[noteId])) else None
  }

  function NoteIdsOf(invites: seq<Doc<Invitation>>): seq<Id>
  {
    seq(|invites|, i requires 0 <= i < |invites| => invites[i].data.noteId)
  }

  function InvitationIds(es: seq<EnrichedInvitation>): seq<Id>
  {
    seq(|es|, i requires 0 <= i < |es| => es[i].invitation.id)
  }

  /** `filter(Boolean)` on ids: drops the empty ones, keeps the order. */
  function NonEmptyIds(s: seq<Id>): (r: seq<Id>)
    ensures forall x :: x in r <==> x in s && x != ""
  {
    if s == [] then []
    else
      var tail := NonEmptyIds(s[1..]);
      if s[0] == "" then tail else [s[0]] + tail
  }

  /** `Array.from(new Set(s))`: each element of `s` once. */
  function Distinct(s: seq<Id>): (r: seq<Id>)
    ensures NoDuplicates(r)
    ensures forall x :: x in r <==> x in s
  {
    if s == [] then []
    else
      var init := Distinct(s[..|s| - 1]);
      assert forall x :: x in s <==> x in s[..|s| - 1] || x == s[|s| - 1];
      if s[|s| - 1] in init then init else init + [s[|s| - 1]]
  }

  /** A list with no repeats passes through `Distinct` unchanged. */
  lemma {:induction false} DistinctOfDuplicateFree(s: seq<Id>)
    requires NoDuplicates(s)
    ensures Distinct(s) == s
  {
    if s != [] {
      var init := s[..|s| - 1];
      assert NoDuplicates(init);
      DistinctOfDuplicateFree(init);
      assert s[|s| - 1] !in init;
      assert s == init + [s[|s| - 1]];
    }
  }

  /** The distinct non-empty note ids of the invitations. */
  function ReferencedNoteIds(invites: seq<Doc<Invitation>>): (r: seq<Id>)
    ensures NoDuplicates(r)
    ensures forall x :: x in r <==> x != "" && x in NoteIdsOf(invites)
  {
    Distinct(NonEmptyIds(NoteIdsOf(invites)))
  }

  /** `x` is the non-empty note id of some invitation pending for `email`. */
  ghost predicate Referenced(invs: map<Id, Invitation>, email: Email, x: Id)
  {
    x != "" && exists id :: id in invs && PendingFor(invs[id], email) && invs[id].noteId == x
  }

  /** Given exactly the pending invitations for `email`, the deduplicated
      non-empty note ids are each referenced id once and nothing else. */
  lemma ReferencedNoteIdsExact(invs: map<Id, Invitation>, email: Email, invites: seq<Doc<Invitation>>)
    requires forall i :: 0 <= i < |invites| ==>
      invites[i].id in invs && invs[invites[i].id] == invites[i].data && PendingFor(invites[i].data, email)
    requires forall id :: id in invs && PendingFor(invs[id], email) ==> id in Ids(invites)
    ensures NoDuplicates(ReferencedNoteIds(invites))
    ensures forall x :: x in ReferencedNoteIds(invites) <==> Referenced(invs, email, x)
  {
    forall x | Referenced(invs, email, x)
      ensures x in NoteIdsOf(invites)
    {
      var id :| id in invs && PendingFor(invs[id], email) && invs[id].noteId == x;
      var j :| 0 <= j < |invites| && Ids(invites)[j] == id;
      assert NoteIdsOf(invites)[j] == x;
    }
    forall x | x in NoteIdsOf(invites) && x != ""
      ensures Referenced(invs, email, x)
    {
      var j :| 0 <= j < |invites| && NoteIdsOf(invites)[j] == x;
      assert invs[invites[j].id].noteId == x;
    }
  }

  /** The caller's pending invitations, each once, each with the summary of
      its note or `None`; `fetched` is the sequence of note reads, which
      visits every referenced note id exactly once. */
  method ListMyInvitations(notes: NoteStore, invs: InvitationStore, caller: Caller)
    returns (r: Response<seq<EnrichedInvitation>>, ghost fetched: seq<Id>)
    ensures r.Ok? && r.status == 200
    ensures NoDuplicates(InvitationIds(r.value))
    ensures forall i :: 0 <= i < |r.value| ==>
      var e := r.value[i];
      && e.invitation.id in invs.docs && invs.docs[e.invitation.id] == e.invitation.data
      && PendingFor(e.invitation.data, caller.email)
      && e.note == NoteFor(notes.docs, e.invitation.data.noteId)
    ensures forall id :: id in invs.docs && PendingFor(invs.docs[id], caller.email) ==> id in InvitationIds(r.value)
    ensures NoDuplicates(fetched)
    ensures forall x :: x in fetched <==> Referenced(invs.docs, caller.email, x)
  {
    var invites := invs.FindPendingForEmail(caller.email);
    var noteIds := ReferencedNoteIds(invites);

    var noteMap: map<Id, NoteSummary> := map[];
    fetched := [];
    for i := 0 to |noteIds|
      invariant |fetched| == i && forall k :: 0 <= k < i ==> fetched[k] == noteIds[k]
      invariant forall x :: x in noteMap ==> x in noteIds && x in notes.docs && noteMap[x] == Summarize(notes.docs[x])
      invariant forall k :: 0 <= k < i && noteIds[k] in notes.docs ==> noteIds[k] in noteMap
    {
      var doc := notes.FindById(noteIds[i]);
      fetched := fetched + [noteIds[i]];
      if doc.Some? {
        noteMap := noteMap[doc.value.id := Summarize(doc.value.data)];
      }
    }
    assert fetched == noteIds;
    ReferencedNoteIdsExact(invs.docs, caller.email, invites);

    var enriched := seq(|invites|, i requires 0 <= i < |invites| =>
      EnrichedInvitation(invites[i], if invites[i].data.noteId in noteMap then Some(noteMap[invites[i].data.noteId]) else None));
    assert InvitationIds(enriched) == Ids(invites);
    forall i | 0 <= i < |enriched|
      ensures enriched[i].note == NoteFor(notes.docs, invites[i].data.noteId)
    {
      var x := invites[i].data.noteId;
      if x != "" && x in notes.docs {
        assert Referenced(invs.docs, caller.email, x) by {
          assert invs.docs[invites[i].id].noteId == x;
        }
        var k :| 0 <= k < |noteIds| && noteIds[k] == x;
      }
    }
    r := Ok(200, enriched);
  }

  /** Guards in order (note missing 404, caller not owner 403, self-invite
      400, already pending 409), the first failure answering with nothing
      written; otherwise exactly one new pending invitation from the caller.
      The notes are never written. */
  method SendInvitation(notes: NoteStore, invs: InvitationStore, caller: Caller, validationErrors: seq<string>,
                        noteId: Id, toEmail: Email, now: Timestamp, newId: Id, ghost users: map<UserId, Email>)
    returns (r: Response<Id>)
    requires newId !in invs.docs
    modifies invs
    ensures |validationErrors| > 0 ==> r == Invalid(validationErrors)
    ensures |validationErrors| == 0 && noteId !in notes.docs ==> r == Err(404, "Note not found")
    ensures |validationErrors| == 0 && noteId in notes.docs && notes.docs[noteId].ownerId != caller.userId
      ==> r == Err(403, "Forbidden")
    ensures |validationErrors| == 0 && noteId in notes.docs && notes.docs[noteId].ownerId == caller.userId &&
            toEmail == caller.email
      ==> r == Err(400, "You cannot invite yourself")
    ensures |validationErrors| == 0 && noteId in notes.docs && notes.docs[noteId].ownerId == caller.userId &&
            toEmail != caller.email &&
            old(HasPending(invs.docs, noteId, toEmail))
      ==> r == Err(409, "Invitation already sent")
    ensures !r.Ok? ==> invs.docs == old(invs.docs)
    ensures r.Ok? <==>
      && |validationErrors| == 0 && noteId in notes.docs && notes.docs[noteId].ownerId == caller.userId
      && toEmail != caller.email
      && !old(HasPending(invs.docs, noteId, toEmail))
    ensures r.Ok? ==>
      && r == Ok(201, newId)
      && invs.docs == old(invs.docs)[newId := Invitation(noteId, caller.userId, caller.email, toEmail, None, Pending, now, None)]
    ensures TerminalKept(old(invs.docs), invs.docs)
    ensures old(Invariant(notes.docs, notes.issued, invs.docs, users)) && Registered(caller, users) ==>
      Invariant(notes.docs, notes.issued, invs.docs, users)
  {
    if |validationErrors| > 0 {
      return Invalid(validationErrors);
    }
    var note := notes.FindById(noteId);
    if note.None? {
      return Err(404, "Note not found");
    }
    if note.value.data.ownerId != caller.userId {
      return Err(403, "Forbidden");
    }
    if toEmail == caller.email {
      return Err(400, "You cannot invite yourself");
    }
    var existingPending := invs.FindPendingByNoteAndEmail(noteId, toEmail);
    if existingPending.Some? {
      return Err(409, "Invitation already sent");
    }
    var invitation := Invitation(noteId, caller.userId, caller.email, toEmail, None, Pending, now, None);
    var invitationId := invs.Create(newId, invitation);
    return Ok(201, invitationId);
  }

  /** The patch both responses write: the new status, the responder, the time. */
  function Answer(status: Status, caller: Caller, now: Timestamp): (p: InvitationPatch)
    ensures p.status == Some(status) && p.toUserId == Some(caller.userId) && p.respondedAt == Some(now)
  {
    InvitationPatch(Some(status), Some(caller.userId), Some(now))
  }

  /** Answering an invitation sets its status, responder and response time
      and keeps everything else. */
  lemma AnswerSettles(inv: Invitation, status: Status, caller: Caller, now: Timestamp)
    ensures InvitationModel.ApplyPatch(inv, Answer(status, caller, now))
      == inv.(status := status, toUserId := Some(caller.userId), respondedAt := Some(now))
  {
  }

  /** 404, then 400 if no longer pending, then 403 unless addressed to the
      caller, each with nothing written.  Otherwise the caller joins the
      note's members first; if that note is gone the write fails (500) and
      the invitation stays pending; else the invitation becomes `Accepted`
      by the caller. */
  method AcceptInvitation(notes: NoteStore, invs: InvitationStore, caller: Caller, id: Id, now: Timestamp,
                          ghost users: map<UserId, Email>)
    returns (r: Response<Doc<Invitation>>)
    requires notes.Valid()
    modifies notes, invs
    ensures notes.Valid() && notes.issued == old(notes.issued)
    ensures id !in old(invs.docs) ==> r == Err(404, "Invitation not found")
    ensures id in old(invs.docs) && old(invs.docs)[id].status != Pending ==> r == Err(400, "Invitation already processed")
    ensures id in old(invs.docs) && old(invs.docs)[id].status == Pending && old(invs.docs)[id].toEmail != caller.email
      ==> r == Err(403, "Forbidden")
    ensures id in old(invs.docs) && old(invs.docs)[id].status == Pending && old(invs.docs)[id].toEmail == caller.email &&
            old(invs.docs)[id].noteId !in old(notes.docs)
      ==> r == Err(500, "Failed to accept invitation")
    ensures !r.Ok? ==> notes.docs == old(notes.docs) && invs.docs == old(invs.docs)
    ensures r.Ok? <==>
      id in old(invs.docs) && old(invs.docs)[id].status == Pending && old(invs.docs)[id].toEmail == caller.email &&
      old(invs.docs)[id].noteId in old(notes.docs)
    ensures r.Ok? ==>
      var inv := old(invs.docs)[id];
      var n := old(notes.docs)[inv.noteId];
      && notes.docs == old(notes.docs)[inv.noteId := n.(sharedWith := ArrayUnion(n.sharedWith, caller.userId), updatedAt := now)]
      && caller.userId in notes.docs[inv.noteId].sharedWith
      && (NoDuplicates(n.sharedWith) ==> NoDuplicates(notes.docs[inv.noteId].sharedWith))
      && invs.docs == old(invs.docs)[id := inv.(status := Accepted, toUserId := Some(caller.userId), respondedAt := Some(now))]
      && r == Ok(200, Doc(id, invs.docs[id]))
    ensures TerminalKept(old(invs.docs), invs.docs)
    ensures old(Invariant(notes.docs, notes.issued, invs.docs, users)) && Registered(caller, users) ==>
      Invariant(notes.docs, notes.issued, invs.docs, users)
  {
    var inv := invs.FindById(id);
    if inv.None? {
      return Err(404, "Invitation not found");
    }
    if inv.value.data.status != Pending {
      return Err(400, "Invitation already processed");
    }
    if inv.value.data.toEmail != caller.email {
      return Err(403, "Forbidden");
    }
    ghost var notes0, invs0 := notes.docs, invs.docs;
    var noteId := inv.value.data.noteId;
    var found := notes.AddSharedUser(noteId, caller.userId, now);
    if !found {
      return Err(500, "Failed to accept invitation");
    }
    var updated := invs.Update(id, Answer(Accepted, caller, now));
    r := Ok(200, updated.value);

    if Invariant(notes0, notes.issued, invs0, users) && Registered(caller, users) {
      AcceptingCallerIsNotOwner(notes0, notes.issued, invs0, users, id, caller);
      UnionKeepsWellFormed(notes0[noteId], caller.userId, now);
      assert forall k :: k in invs.docs && invs.docs[k].status == Pending ==> k in invs0 && invs.docs[k] == invs0[k];
    }
  }

  /** The same three guards as accepting, each with nothing written;
      otherwise the invitation becomes `Declined` by the caller and no note
      is touched. */
  method DeclineInvitation(notes: NoteStore, invs: InvitationStore, caller: Caller, id: Id, now: Timestamp,
                           ghost users: map<UserId, Email>)
    returns (r: Response<Doc<Invitation>>)
    modifies invs
    ensures id !in old(invs.docs) ==> r == Err(404, "Invitation not found")
    ensures id in old(invs.docs) && old(invs.docs)[id].status != Pending ==> r == Err(400, "Invitation already processed")
    ensures id in old(invs.docs) && old(invs.docs)[id].status == Pending && old(invs.docs)[id].toEmail != caller.email
      ==> r == Err(403, "Forbidden")
    ensures !r.Ok? ==> invs.docs == old(invs.docs)
    ensures r.Ok? <==> id in old(invs.docs) && old(invs.docs)[id].status == Pending && old(invs.docs)[id].toEmail == caller.email
    ensures r.Ok? ==>
      var inv := old(invs.docs)[id];
      && invs.docs == old(invs.docs)[id := inv.(status := Declined, toUserId := Some(caller.userId), respondedAt := Some(now))]
      && r == Ok(200, Doc(id, invs.docs[id]))
    ensures TerminalKept(old(invs.docs), invs.docs)
    ensures old(Invariant(notes.docs, notes.issued, invs.docs, users)) ==>
      Invariant(notes.docs, notes.issued, invs.docs, users)
  {
    var inv := invs.FindById(id);
    if inv.None? {
      return Err(404, "Invitation not found");
    }
    if inv.value.data.status != Pending {
      return Err(400, "Invitation already processed");
    }
    if inv.value.data.toEmail != caller.email {
      return Err(403, "Forbidden");
    }
    ghost var invs0 := invs.docs;
    var updated := invs.Update(id, Answer(Declined, caller, now));
    r := Ok(200, updated.value);
    assert forall k :: k in invs.docs && invs.docs[k].status == Pending ==> k in invs0 && invs.docs[k] == invs0[k];
  }
}
