/** The records held by the contact/meeting manager and the drafts its two forms save. */
module Records {

  datatype Option<T> = None | Some(value: T)

  /** Record identifiers (UUID strings in practice). */
  type Id = string

  /** The descriptive fields of a contact other than `id` and `avatarUrl` (name, title, email, ...).
      They are only ever copied, so the model keeps them opaque. */
  type ContactDetails(==, !new)

  /** The descriptive fields of a meeting other than `id` and `attendees` (title, time, ...). */
  type MeetingDetails(==, !new)

  /** The two top-level views of the scene. */
  datatype View = ContactsView | MeetingsView

  datatype Contact = Contact(id: Id, avatarUrl: string, details: ContactDetails)

  /** A meeting lists its attendees as an ordered sequence of contact ids. */
  datatype Meeting = Meeting(id: Id, attendees: seq<Id>, details: MeetingDetails)

  /** What the contact form saves: every contact field except `id` and `avatarUrl`, plus an optional id. */
  datatype ContactDraft = ContactDraft(id: Option<Id>, details: ContactDetails)
  {
    /** The save is an update exactly when the id is truthy: a missing or empty id creates a contact. */
    predicate IsUpdate() { id.Some? && id.value != "" }
  }

  /** What the meeting form saves: every meeting field except `id` (attendees included), plus an optional id. */
  datatype MeetingDraft = MeetingDraft(id: Option<Id>, attendees: seq<Id>, details: MeetingDetails)
  {
    predicate IsUpdate() { id.Some? && id.value != "" }
  }

  /** The avatar URL a new contact gets, built from a random seed. */
  function AvatarUrl(seed: string): string
  {
    "https://picsum.photos/seed/" + seed + "/200"
  }

  /** The contact a create-save appends: the draft's fields, a fresh id and a seeded avatar URL. */
  function NewContact(d: ContactDraft, freshId: Id, avatarSeed: string): Contact
  {
    Contact(freshId, AvatarUrl(avatarSeed), d.details)
  }

  /** The meeting a create-save appends: the draft's fields (attendees included) and a fresh id. */
  function NewMeeting(d: MeetingDraft, freshId: Id): Meeting
  {
    Meeting(freshId, d.attendees, d.details)
  }

  /** The draft's fields spread over the record. The draft carries no avatar URL, and its id
      equals the record's wherever a merge happens, so both survive. */
  function MergeContact(c: Contact, d: ContactDraft): Contact
  {
    c.(details := d.details)
  }

  /** The draft's fields, attendees included, spread over the record; the id survives. */
  function MergeMeeting(m: Meeting, d: MeetingDraft): Meeting
  {
    m.(attendees := d.attendees, details := d.details)
  }
}
