# vrcontacts: the App component's record store and selection state, in Dafny

The application is a contact and meeting manager shown as floating panels in a 3D/VR scene.
Its only state logic lives in the top-level `App` component (`App.tsx`), which holds:

- two ordered record lists, `contacts` and `meetings`. A meeting lists its attendees as an
  ordered sequence of contact ids;
- the active view (Contacts or Meetings) and one selected contact id and one selected meeting id;
- for each of the contact form and the meeting form, an "open" flag and an "editing" record.

Its handlers add records (append with a fresh id), update them (merge the form's fields onto
every record with the same id) and delete them. Deleting a contact also removes its id from
every meeting's attendees. Deletes run only when the user confirms. Selecting a record of one
kind clears the selection of the other kind and switches the view. The scene reads back the
selected contact, the selected meeting and the selected meeting's attendees resolved to contacts.

The model has three modules:

- `Records` (`records.dfy`): contacts, meetings, the drafts the two forms save, and the
  record built by a create or a merge. Descriptive fields stay opaque (`ContactDetails`,
  `MeetingDetails`).
- `Crud` (`crud.dfy`): the side-effect-free collection transforms the handlers apply:
  `map` with a spread-merge, `filter`, the nested `map`/`filter` cascade and the
  `find`/`map`/`filter` look-ups. Each is a recursive function over a sequence. The module
  also holds the lemmas about them: create/delete round trip, idempotent update, order kept
  by filters, a well-formedness invariant kept by each operation, and a consistent resolved
  attendee list after the cascade.
- `AppState` (`app.dfy`): the class `App`, with one field per piece of component state and
  one method per handler. Each method states the whole new state in terms of the old state and
  the `Crud` functions. Every method keeps `Valid()`: at most one of the two selections is
  set. The constructor establishes it, so it holds after any sequence of handler calls,
  including `SetActiveView`.

Inputs from the environment become parameters. `crypto.randomUUID()` is a caller-supplied
`freshId`, with a precondition that it is non-empty and not already used. It is needed only
when the save creates a record. The random avatar seed is a caller-supplied string.
`window.confirm` is the boolean `confirmed`.

Behaviour of the code worth noting, since it differs from what one might expect:

- creating a record does not select it;
- the view setter handed to the scene changes only the view and keeps both selections;
- cancelling or closing a form only closes it and keeps its editing record;
- the save is an update only when the draft's id is truthy, so a missing or empty id creates a
  record;
- the initial meeting selection is the first meeting's id, or none if that id is empty or there
  are no meetings;
- there is no attendee-manager handler: attendees change only through a meeting save, since the
  merge includes `attendees`, and through the contact-delete cascade.

## Model

| member | source | states |
|---|---|---|
| `Crud.UpdateContacts` | App.tsx:38-39 | length and order kept; every contact keeps its id and avatar URL; contacts with the id take the draft's fields, all others are unchanged; no contact with the id leaves the list unchanged |
| `Crud.UpdateMeetings` | App.tsx:78-79 | length and order kept; ids kept; meetings with the id take the draft's attendees and fields, all others are unchanged; no meeting with the id leaves the list unchanged |
| `Crud.WithoutId` | App.tsx:57 | the result holds exactly the ids other than x that were there, each as many times as before; it never contains x; it is no longer; without x the list is unchanged |
| `Crud.RemoveContact` | App.tsx:54 | a contact survives if and only if its id differs from x; the list is no longer; deleting an id no contact has changes nothing |
| `Crud.RemoveMeeting` | App.tsx:93 | a meeting survives if and only if its id differs from x; the list is no longer; deleting an id no meeting has changes nothing |
| `Crud.PruneAttendees` | App.tsx:55-58 | meeting count, ids and other fields unchanged; each attendee list is filtered of x; afterwards no meeting lists x |
| `Crud.FindContact` | App.tsx:114 | a contact is found if and only if some contact has the id; the one found is in the list and has that id |
| `Crud.FindMeeting` | App.tsx:115 | a meeting is found if and only if some meeting has the id; the one found is in the list and has that id |
| `Crud.LiveAttendees` | App.tsx:116 | the attendee ids that name a listed contact, each as often as it is listed, and no others; all attendees when all are live |
| `Crud.ResolveAttendees` | App.tsx:116 | the resolved contacts' ids are exactly the live attendees in attendee order, so dangling ids are dropped and every live one is kept; each resolved contact is the one find returns for its id |
| `Crud.RemoveContactAppended` | App.tsx:54 | filtering out the id of a contact appended under an unused id gives back the list before the append |
| `Crud.CreateThenDeleteContact` | App.tsx:40-54 | creating a contact with a fresh id and then deleting that id gives back the original list, order included |
| `Crud.RemoveMeetingAppended` | App.tsx:93 | filtering out the id of a meeting appended under an unused id gives back the list before the append |
| `Crud.CreateThenDeleteMeeting` | App.tsx:80-93 | creating a meeting with a fresh id and then deleting that id gives back the original list, order included |
| `Crud.CreateContactKeepsWellFormed` | App.tsx:40-46 | appending a contact with a fresh id keeps ids unique and every attendee pointing at a live contact |
| `Crud.CreateMeetingKeepsWellFormed` | App.tsx:80-85 | appending a meeting with a fresh id whose attendees are live contacts keeps the lists well-formed |
| `Crud.UpdateContactsIdempotent` | App.tsx:39 | saving the same contact draft twice equals saving it once |
| `Crud.UpdateMeetingsIdempotent` | App.tsx:79 | saving the same meeting draft twice equals saving it once |
| `Crud.UpdateContactKeepsWellFormed` | App.tsx:38-39 | a contact update keeps the lists well-formed, since no id changes |
| `Crud.UpdateMeetingKeepsWellFormed` | App.tsx:78-79 | a meeting update whose draft attendees are live contacts keeps the lists well-formed |
| `Crud.WithoutIdKeepsOrder` | App.tsx:57 | the surviving attendees keep their relative order |
| `Crud.RemoveContactKeepsOrder` | App.tsx:54 | the surviving contacts keep their relative order |
| `Crud.RemoveMeetingKeepsOrder` | App.tsx:93 | the surviving meetings keep their relative order |
| `Crud.RemoveContactKeepsCounts` | App.tsx:54 | a contact whose id is not x is listed after the delete exactly as many times as before; one with id x not at all |
| `Crud.RemoveMeetingKeepsCounts` | App.tsx:93 | a meeting whose id is not x is listed after the delete exactly as many times as before; one with id x not at all |
| `Crud.RemoveContactKeepsUnique` | App.tsx:54 | deleting contacts keeps contact ids unique |
| `Crud.RemoveMeetingKeepsUnique` | App.tsx:93 | deleting meetings keeps meeting ids unique |
| `Crud.SurvivorIdListed` | App.tsx:54 | a contact whose id differs from the deleted one is still listed afterwards |
| `Crud.CascadeDeleteKeepsAttendeesKnown` | App.tsx:54-58 | after the cascade every remaining attendee still names a live contact |
| `Crud.PrunedAttendeeStillLive` | App.tsx:54-57 | an attendee id that survives the cascade names a contact that survives the delete |
| `Crud.CascadeDeleteKeepsWellFormed` | App.tsx:52-58 | the contact delete with its cascade keeps ids unique and attendees pointing at live contacts |
| `Crud.DeleteMeetingKeepsWellFormed` | App.tsx:93 | deleting a meeting keeps the lists well-formed |
| `Crud.FindContactIsFirst` | App.tsx:114 | find returns the first contact, in list order, with the id |
| `Crud.FindMeetingIsFirst` | App.tsx:115 | find returns the first meeting, in list order, with the id |
| `Crud.FindContactAfterRemove` | App.tsx:114 | deleting contact x does not change what any other id resolves to |
| `Crud.LiveAttendeesKeepOrder` | App.tsx:116 | the live attendees keep their relative order |
| `Crud.ResolvedIdsFollowAttendees` | App.tsx:116 | the resolved contacts' ids are the attendee ids with some dropped, in attendee order |
| `Crud.ResolveKeepsKnownAttendees` | App.tsx:116 | when every attendee names a live contact nothing is dropped: the resolved ids are exactly the attendees |
| `Crud.ResolveDropsOnlyDangling` | App.tsx:116 | a dangling id before a live one is dropped and the live one's contact is still returned |
| `Crud.CascadeDeleteResolvesConsistently` | App.tsx:116 | after the cascade, a meeting resolves to the contacts it resolved to before, minus the deleted one |
| `AppState.App.constructor` | App.tsx:14-24 | initial lists as given; Meetings view; no contact selected; the first meeting selected when its id is truthy; both forms closed with no editing record; selection invariant holds |
| `AppState.App.AddContact` | App.tsx:27-30 | contact form open with no editing record; nothing else changes |
| `AppState.App.EditContact` | App.tsx:32-35 | contact form open with the given contact as editing record; nothing else changes |
| `AppState.App.SaveContact` | App.tsx:37-50 | update merges onto the list, create appends the new contact with the fresh id; meetings and selection unchanged (the new contact is not selected); the form closes and its record is cleared; well-formedness kept |
| `AppState.App.DeleteContact` | App.tsx:52-63 | if confirmed: contacts filtered, attendees cascaded, the contact selection cleared exactly when it was this id; if declined nothing changes; view, meeting selection and forms never change; well-formedness kept |
| `AppState.App.CloseContactModal` | App.tsx:149-152 | only the contact form's open flag changes, to closed; the editing record is kept |
| `AppState.App.AddMeeting` | App.tsx:67-70 | meeting form open with no editing record; nothing else changes |
| `AppState.App.EditMeeting` | App.tsx:72-75 | meeting form open with the given meeting as editing record; nothing else changes |
| `AppState.App.SaveMeeting` | App.tsx:77-89 | update merges onto the list, attendees included; create appends the new meeting with the fresh id; contacts and selection unchanged; the form closes and its record is cleared; well-formedness kept when the draft's attendees are live contacts |
| `AppState.App.DeleteMeeting` | App.tsx:91-98 | if confirmed, meetings filtered and the meeting selection cleared exactly when it was this id; otherwise nothing changes; contacts never change |
| `AppState.App.CloseMeetingModal` | App.tsx:157-160 | only the meeting form's open flag changes, to closed; the editing record is kept |
| `AppState.App.SelectContact` | App.tsx:102-106 | Contacts view, that contact selected, no meeting selected; lists and forms unchanged |
| `AppState.App.SelectMeeting` | App.tsx:108-112 | Meetings view, that meeting selected, no contact selected; lists and forms unchanged |
| `AppState.App.SetActiveView` | App.tsx:130 | only the view changes; both selections are kept, and the selection invariant still holds |
| `AppState.App.SelectedContact` | App.tsx:114 | some contact exactly when a contact id is selected and listed; the result is in the list and carries the selected id |
| `AppState.App.SelectedMeeting` | App.tsx:115 | some meeting exactly when a meeting id is selected and listed; the result is in the list and carries the selected id |
| `AppState.App.MeetingContacts` | App.tsx:116 | empty when no meeting is selected; otherwise the selected meeting's attendees resolved: ids exactly the live attendees in order, each entry the listed contact find returns for its id; when all attendees are live, exactly the attendees |

## Left out

- components/Scene.tsx and components/ListItemWrapper.tsx are not part of this model. They are presentation: 3D scene layout, spring animation with floating-point positions, and conditional rendering. They only forward user intents to the handlers above.
- The VR button, canvas and XR controller setup (App.tsx:120-146) and the rendering of the two modals are not modelled. The Modal, ContactForm and MeetingForm components are not part of this model. Any validation those forms perform is therefore left out too.
- `crypto.randomUUID()` and the random avatar seed are caller-supplied parameters. Freshness of the id is a precondition of the create branch and is not derived from randomness.
- `window.confirm` is the boolean parameter `confirmed`. The dialog itself is left out.
- The fixture contents of `CONTACTS` and `MEETINGS` are not part of this model. The constructor takes the initial lists as parameters. The full `Contact` and `Meeting` field sets are not part of this model either. All fields other than `id`, `avatarUrl` and `attendees` are one opaque value per record, replaced as a whole by a merge. The form types declare every such field, so a merge that keeps some of the record's old fields is not modelled.
- React's asynchronous state batching and stale closures are not modelled. Each handler runs to completion on the state it reads, as one step.
- There is no attendee-manager operation to model. The scene declares a `handleManageAttendees` property, but `App.tsx` defines no such handler and does not pass one.
- Referential integrity after a meeting save: the handler stores whatever attendee ids the form supplies, so the model proves well-formedness after a meeting save only when the draft's attendees are live contacts.
