/** Request sequences on fresh stores: the sharing lifecycle end
    to end, an update by a stranger, a repeated invitation, and what the accept handler does when
    a user id appears with an email that is not its own. */
module Scenarios {
  import opened Common
  import opened NoteModel
  import opened InvitationModel
  import opened Sharing
  import opened NotesController
  import opened InvitationsController

  /** Owner creates a note, invites a student, the student accepts and later
      leaves: membership comes and goes, the invitation stays accepted. */
  method SharingLifecycle() returns (afterAccept: seq<UserId>, afterLeave: seq<UserId>, status: Status)
    ensures afterAccept == ["student"]
    ensures afterLeave == []
    ensures status == Accepted
  {
    var owner := Caller("owner", "owner@ase.ro");
    var student := Caller("student", "student@ase.ro");
    ghost var users := map["owner" := "owner@ase.ro", "student" := "student@ase.ro"];
    var notes := new NoteStore();
    var invs := new InvitationStore();
    assert Invariant(notes.docs, notes.issued, invs.docs, users);

    var created := CreateNote(notes, owner, [], "Algo notes", "Sorting and searching", None, "t0", "N1", invs.docs, users);
    assert created == Ok(201, "N1");
    var sent := SendInvitation(notes, invs, owner, [], "N1", "student@ase.ro", "t1", "I1", users);
    assert sent == Ok(201, "I1");
    var accepted := AcceptInvitation(notes, invs, student, "I1", "t2", users);
    assert accepted.Ok?;
    afterAccept := notes.docs["N1"].sharedWith;

    var left := LeaveNote(notes, student, "N1", "t3", invs.docs, users);
    assert left == Ok(200, "Access removed");
    afterLeave := notes.docs["N1"].sharedWith;
    status := invs.docs["I1"].status;
  }

  /** A user who neither owns nor shares a note cannot update it: 403, and
      the note is as it was. */
  method StrangerUpdate() returns (r: Response<Doc<Note>>, untouched: bool)
    ensures r == Err(403, "Forbidden")
    ensures untouched
  {
    var owner := Caller("owner", "owner@ase.ro");
    var stranger := Caller("u", "u@ase.ro");
    var notes := new NoteStore();
    var created := CreateNote(notes, owner, [], "Algo notes", "Trees", None, "t0", "N1", map[], map[]);
    var before := notes.docs;
    r := UpdateNote(notes, stranger, [], "N1", "Mine now", "Overwritten", None, "t1", map[], map[]);
    untouched := notes.docs == before;
  }

  /** Sending the same invitation twice: the first send creates it, the
      second finds it still pending and answers 409 without writing. */
  method RepeatedInvite() returns (first: Response<Id>, second: Response<Id>, count: nat)
    ensures first == Ok(201, "I1")
    ensures second == Err(409, "Invitation already sent")
    ensures count == 1
  {
    var owner := Caller("owner", "owner@ase.ro");
    ghost var users := map["owner" := "owner@ase.ro"];
    var notes := new NoteStore();
    var invs := new InvitationStore();
    var noteId := notes.Create("N1", Note("owner", "Algo notes", "Graphs", [], [], "t0", "t0"));
    first := SendInvitation(notes, invs, owner, [], "N1", "student@ase.ro", "t1", "I1", users);
    assert HasPending(invs.docs, "N1", "student@ase.ro") by {
      assert PendingForNote(invs.docs["I1"], "N1", "student@ase.ro");
    }
    second := SendInvitation(notes, invs, owner, [], "N1", "student@ase.ro", "t2", "I2", users);
    assert invs.docs.Keys == {"I1"};
    count := |invs.docs|;
  }

  /** The accept handler compares emails only.  If the owner's user id ever
      came with the invitee's email, accepting would put the owner into the
      note's own member list: the owner-exclusion invariant rests on each
      user id having one email. */
  method OwnerSharedWithItself() returns (after: Note)
    ensures after.ownerId in after.sharedWith
  {
    var owner := Caller("owner", "owner@ase.ro");
    var ownerUnderOtherEmail := Caller("owner", "x@ase.ro");
    ghost var users := map["owner" := "owner@ase.ro"];
    var notes := new NoteStore();
    var invs := new InvitationStore();

    var created := CreateNote(notes, owner, [], "Algo notes", "Heaps", None, "t0", "N1", invs.docs, users);
    var sent := SendInvitation(notes, invs, owner, [], "N1", "x@ase.ro", "t1", "I1", users);
    assert sent.Ok?;
    var accepted := AcceptInvitation(notes, invs, ownerUnderOtherEmail, "I1", "t2", users);
    assert accepted.Ok?;
    after := notes.docs["N1"];
  }
}
