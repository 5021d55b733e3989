# NoteHub sharing core in Dafny

NoteHub is a note-taking server. Owners create notes and share them by
e-mail invitation. An invitation is `pending` until its addressee accepts it,
which adds them to the note's `sharedWith` members, or declines it. This
project models the server's sharing and access-control logic over the two
document collections, `notes` and `invitations`, and proves what the request
handlers promise.

- `common.dfy` (`Common`): ids, documents `{ id, ...data }`, the caller
  identity, handler responses. Also `Where`, the one query shape the store
  offers: a filter over a collection whose matches are pushed one by one.
- `text.dfy` (`Text`): `String.prototype.trim`, with the ECMAScript
  whitespace set written out.
- `note_model.dfy` (`NoteModel`): the note record, Firestore `arrayUnion` and
  `arrayRemove`, the merge done by `update`, and the `NoteStore` class. The
  class holds the collection as a `map` and its methods change it in place.
- `invitation_model.dfy` (`InvitationModel`): the invitation record and the
  `InvitationStore` class.
- `sharing.dfy` (`Sharing`): the invariant that links the two collections,
  and the identity assumption it rests on.
- `notes_controller.dfy`, `invitations_controller.dfy`: the request handlers.
  Each handler is one sequential step over the stores. Its contract gives
  the response of every guard in the source's order, the write it makes
  (none on any error), and that the invariant is kept.
- `scenarios.dfy` (`Scenarios`): short request sequences on fresh stores.

The invariant (`Sharing.Invariant`) says:

- every stored note's `sharedWith` is duplicate-free and never names the owner;
- every pending invitation was sent by its note's owner, from a registered
  address, to a different address;
- at most one invitation is pending per note and addressee.

The accept handler never compares the caller with the note's owner. It relies
on two things instead:

- the self-invite guard at send time;
- the identity assumption: a token carries a user id together with that
  user's one e-mail (`Sharing.Registered`, over a ghost map from user id to
  e-mail).

Only that functional direction is needed, not a one-to-one correspondence.
`Scenarios.OwnerSharedWithItself` shows what goes wrong without it: the
owner's id arriving with another e-mail makes the owner a member of their own
note. This is why the handlers promise the invariant only when the caller is
registered.

Clock readings and generated document ids are parameters (`now`, `newId`).
The ghost set `NoteStore.issued` records every note id ever handed out, so a
deleted note's id is never reused, as with Firestore's generated ids. The
result of the request validators is a parameter, `validationErrors`; a
non-empty list gives the validator's 400 (`Invalid`).

## Model

| member | source | states |
|---|---|---|
| Common.Where | server/src/models/Note.js:6-19 | a query returns every stored document matching the filter, exactly once, with its id and stored data, and nothing else |
| Text.TrimStart | server/src/controllers/notes.js:63 | leading trim: the result is a suffix of the input, what was cut is all whitespace, and the result does not start with whitespace |
| Text.TrimEnd | server/src/controllers/notes.js:63 | trailing trim: the result is a prefix, what was cut is all whitespace, and the result does not end with whitespace |
| Text.Trim | server/src/controllers/notes.js:63 | `trim()` returns the infix of its input that starts after the leading whitespace, with only whitespace before and after it, and that neither starts nor ends with whitespace; these facts fix the result uniquely |
| Text.TrimIdempotent | server/src/controllers/notes.js:102 | trimming an already trimmed title changes nothing |
| NoteModel.ArrayUnion | server/src/controllers/invitations.js:121 | `arrayUnion(x)`: the members afterwards are the old ones plus `x`; the list stays duplicate-free; nothing changes when `x` is present |
| NoteModel.ArrayRemove | server/src/models/Note.js:85-88 | `arrayRemove(x)`: the members afterwards are exactly the old ones other than `x`; the list never grows and stays duplicate-free; nothing changes when `x` is absent |
| NoteModel.ArrayRemoveAppend | server/src/models/Note.js:85-88 | `arrayRemove` keeps the order of the members it keeps: removing from a concatenation removes from each part |
| NoteModel.RemoveUndoesUnion | server/src/models/Note.js:85-88 | leaving after accepting gives back the member list as it was, order included, when the user was not a member before |
| NoteModel.CanRead | server/src/controllers/notes.js:33-37 | the read check: the owner can always read, and anyone else reads exactly when they are in `sharedWith` |
| NoteModel.MembershipDecidesRead | server/src/controllers/notes.js:157-158 | after `arrayUnion(x)` exactly `x` gains read access; after `arrayRemove(x)` a non-owner `x` has lost it and nobody else has |
| NoteModel.ApplyPatch | server/src/models/Note.js:60-70 | a note update changes exactly the fields in `updateData`; owner, members and creation time are never written |
| NoteModel.UnionKeepsWellFormed | server/src/controllers/invitations.js:120-123 | the accept membership write keeps a note well formed if and only if the joining user is not the owner |
| NoteModel.NoteStore.FindAllByOwner | server/src/models/Note.js:6-19 | exactly the notes with that `ownerId`, each once |
| NoteModel.NoteStore.FindAllAccessibleForUser | server/src/models/Note.js:21-40 | every note the user owns or is a member of, each id once, nothing else; tagged `Owner` exactly when the user owns it, so an owner who is also a member still sees `Owner` |
| NoteModel.NoteStore.CollectOwned | server/src/models/Note.js:29-31 | the first `forEach` puts each owned note in the map once, under its id, tagged `Owner` |
| NoteModel.NoteStore.CollectShared | server/src/models/Note.js:33-37 | the second `forEach` adds every shared note whose id is not already a key, tagged `Shared`, and keeps what is there |
| NoteModel.NoteStore.FindById | server/src/models/Note.js:42-53 | `null` exactly when no note has that id, otherwise that note |
| NoteModel.NoteStore.Create | server/src/models/Note.js:55-58 | the note is stored under a fresh id and every other note is kept |
| NoteModel.NoteStore.Update | server/src/models/Note.js:60-70 | the patch is merged into that one note, the merged record is returned, and the other notes are unchanged; on a missing id nothing is written |
| NoteModel.NoteStore.Remove | server/src/models/Note.js:72-75 | only that id is removed |
| NoteModel.NoteStore.RemoveSharedUser | server/src/models/Note.js:77-91 | on a missing note, `null` and no write; otherwise `sharedWith` loses that user, keeps every other member, and `updatedAt` is refreshed |
| NoteModel.NoteStore.AddSharedUser | server/src/controllers/invitations.js:120-123 | on a missing note the update fails with no write; otherwise `arrayUnion` of the user into `sharedWith` and a fresh `updatedAt` |
| InvitationModel.ApplyPatch | server/src/models/Invitation.js:51-60 | an invitation update changes exactly the fields given; note, sender, addressee and creation time are kept |
| InvitationModel.InvitationStore.FindPendingForEmail | server/src/models/Invitation.js:5-20 | exactly the pending invitations addressed to that e-mail, each once |
| InvitationModel.InvitationStore.FindPendingByNoteAndEmail | server/src/models/Invitation.js:22-33 | `null` if and only if no pending invitation for that note is addressed to that e-mail; otherwise a stored one that matches all three conditions |
| InvitationModel.InvitationStore.FindById | server/src/models/Invitation.js:36-44 | `null` exactly when the id is absent, otherwise that invitation |
| InvitationModel.InvitationStore.Create | server/src/models/Invitation.js:46-49 | one invitation added under the new id; the others are unchanged |
| InvitationModel.InvitationStore.Update | server/src/models/Invitation.js:51-60 | the fields are merged into that one invitation, the merged record is returned, and the others are unchanged |
| InvitationModel.InvitationStore.Remove | server/src/models/Invitation.js:62-65 | only that id is removed |
| Sharing.AcceptingCallerIsNotOwner | server/src/controllers/invitations.js:76-78 | under the invariant and the identity assumption, a registered caller addressed by a pending invitation is never the owner of its note |
| Sharing.NoteEditKeepsInvariant | server/src/controllers/notes.js:48-172 | creating, updating, deleting or leaving notes keeps the invariant, whatever the invitations are |
| Sharing.PatchKeepsInvariant | server/src/models/Note.js:60-70 | merging an update into one note keeps the invariant |
| Sharing.LeaveKeepsInvariant | server/src/models/Note.js:85-88 | removing a member from one note keeps the invariant |
| Sharing.DeleteKeepsInvariant | server/src/models/Note.js:72-75 | deleting a note keeps the invariant, since its id is never handed out again |
| NotesController.UpdateData | server/src/controllers/notes.js:101-109 | the update patch writes the trimmed title, the content and the new time, and `tags` exactly when the request has it; it never names owner, members or creation time |
| NotesController.GetAllNotes | server/src/controllers/notes.js:11-20 | 200 with every note the caller can read, each once, each tagged with the caller's access |
| NotesController.GetNoteById | server/src/controllers/notes.js:22-46 | 404 when the note is missing; 200 with the note if and only if the caller owns it or is a member; 403 otherwise |
| NotesController.CreateNote | server/src/controllers/notes.js:48-78 | validator errors give 400 with no write; otherwise 201 with the new id; the stored note has the caller as owner, a trimmed title, tags defaulting to `[]`, no members, and `createdAt == updatedAt`; the invariant is kept |
| NotesController.UpdateNote | server/src/controllers/notes.js:80-118 | 400, then 404 before 403; only the owner updates; the write sets the trimmed title, the content, `updatedAt`, and tags only when given; owner and members are kept; no write on any error; the invariant is kept |
| NotesController.DeleteNote | server/src/controllers/notes.js:120-140 | 404, then 403 for anyone but the owner; only the owner's request removes the note, and only that note; the invariant is kept |
| NotesController.LeaveNote | server/src/controllers/notes.js:142-172 | the owner always gets 400; a non-member gets 200 "Already removed" with no write; a member is removed, all other members kept, and gets 200 "Access removed"; the invariant is kept |
| InvitationsController.Preview | server/src/controllers/invitations.js:35-38 | the trimmed content when it has at most 160 characters; otherwise its first 160 characters followed by `...`; never longer than 163 |
| InvitationsController.Summarize | server/src/controllers/invitations.js:34-42 | the listed title is never empty and falls back to `Untitled` only when the note's title is empty; the preview bound; tags unchanged |
| InvitationsController.NonEmptyIds | server/src/controllers/invitations.js:22 | `filter(Boolean)` keeps exactly the non-empty ids |
| InvitationsController.Distinct | server/src/controllers/invitations.js:21-23 | `Array.from(new Set(...))` is duplicate-free and has the same elements |
| InvitationsController.DistinctOfDuplicateFree | server/src/controllers/invitations.js:21-23 | a list without repeats comes through deduplication unchanged |
| InvitationsController.ReferencedNoteIds | server/src/controllers/invitations.js:21-23 | the ids to fetch are duplicate-free and are exactly the non-empty note ids of the invitations |
| InvitationsController.ReferencedNoteIdsExact | server/src/controllers/invitations.js:21-27 | the note ids looked up are exactly the non-empty note ids of the caller's pending invitations, each once |
| InvitationsController.NoteFor | server/src/controllers/invitations.js:47 | a listed invitation carries a summary exactly when its note id is non-empty and names a stored note, and then the summary has a non-empty title, the note's title when that is non-empty, a bounded preview and the note's tags; otherwise `null` |
| InvitationsController.ListMyInvitations | server/src/controllers/invitations.js:16-55 | 200 with every pending invitation addressed to the caller, each once; each carries its note's summary, or `null` when the note is missing; each distinct non-empty note id is fetched exactly once, and no other id is fetched |
| InvitationsController.SendInvitation | server/src/controllers/invitations.js:57-104 | guards in order: 400 validation, 404, 403 not owner, 400 self-invite, 409 already pending; the first failure writes nothing; success if and only if all pass, and it creates exactly one pending invitation from the caller with no responder and no response time; no note is touched; the invariant is kept |
| InvitationsController.Answer | server/src/controllers/invitations.js:125-129 | the response patch names the new status, the responding user and the response time |
| InvitationsController.AnswerSettles | server/src/controllers/invitations.js:152-156 | applying the response patch sets status, responder and response time and keeps note, sender, addressee and creation time |
| InvitationsController.AcceptInvitation | server/src/controllers/invitations.js:106-136 | 404, 400 if no longer pending, 403 unless addressed to the caller, each with no write; 500 with no write when the note is gone; otherwise the caller becomes a member, exactly once when the list had no repeats, and the invitation becomes accepted by the caller; a decided invitation never changes; the invariant is kept |
| InvitationsController.DeclineInvitation | server/src/controllers/invitations.js:138-163 | the same three guards with no write; otherwise the invitation becomes declined by the caller and no note changes; a decided invitation never changes; the invariant is kept |
| Scenarios.SharingLifecycle | server/src/controllers/invitations.js:57-136 | create, invite, accept, leave: the student is the only member after accepting, there are no members after leaving, and the invitation stays accepted |
| Scenarios.StrangerUpdate | server/src/controllers/notes.js:80-118 | a user who neither owns nor shares a note gets 403 on update, and the notes are unchanged |
| Scenarios.RepeatedInvite | server/src/controllers/invitations.js:80-83 | sending the same invitation twice: the first send answers 201, the second 409, and one invitation is stored |
| Scenarios.OwnerSharedWithItself | server/src/controllers/invitations.js:106-136 | without the identity assumption, accepting can put the owner into the note's own `sharedWith` |

## Left out

- Request validators: `isEmail`, `normalizeEmail` and the length bounds. The validators' outcome is the `validationErrors` parameter.
- Users, password hashing and tokens: the caller `{ userId, email }` is trusted input, and user records appear only as the ghost identity map.
- Route wiring: `leaveNote` and `sendInvitation` are modelled as handlers, whether or not a route reaches them.
- Concurrency is not modelled; each handler is one sequential step. This covers:
  - the `Promise.all` parallel reads;
  - the race between the 409 check and the create in `sendInvitation`;
  - the two separate writes of `acceptInvitation`.
- The clock and Firestore id generation are parameters. The two clock reads in `acceptInvitation` are one `now`.
- The `catch` → 500 paths and logging are left out. The one exception is accepting an invitation whose note is gone: that update fails, so the model answers 500 with no write.
- A note id is never empty in the store (`NoteStore.Valid`), as Firestore generates non-empty ids. A request naming the empty id makes Firestore's `doc('')` throw, so the source answers 500 from its `catch`; the model answers 404, as the id is not stored.
- Common.Where: the order of query results is left open. Firestore returns documents in id order, and the model does not order strings.
- NoteModel.NoteStore.FindAllAccessibleForUser: states which notes come back, each once and with which tag, but not their order.
- InvitationsController.ListMyInvitations: states which invitations are listed and what each carries, but not their order.
- InvitationsController.Preview: counts characters as code points. JavaScript counts UTF-16 code units, so the two differ on characters outside the Basic Multilingual Plane.
- Field types are fixed: title, content and tags are always strings and a string list. So the source's fallbacks for a missing or non-string field are not modelled. The one exception is the `Untitled` fallback, which applies to an empty title.
- A note update writes only title, content, tags and `updatedAt`, the only fields the handlers send to it.
- InvitationsController.SendInvitation: keeps the invariant only when the caller is registered under the identity assumption.
- InvitationsController.AcceptInvitation: keeps the invariant only when the caller is registered under the identity assumption.
- The client application (stores, router) is not part of this model.
