/** The state held by the top-level App component and the handlers that update it. */
module AppState {
  import opened Records
  import opened Crud

  /** The App component's state: the two record lists, the view and selections, and one
      open flag and one editing payload per form modal. Each handler updates these fields. */
  class App {
    var contacts: seq<Contact>
    var meetings: seq<Meeting>
    var activeView: View
    var selectedContactId: Option<Id>
    var selectedMeetingId: Option<Id>
    var isContactModalOpen: bool
    var isMeetingModalOpen: bool
    var editingContact: Option<Contact>
    var editingMeeting: Option<Meeting>

    /** The selection invariant: at most one kind of record is selected. */
    predicate Valid()
      reads this
    {
      selectedContactId.None? || selectedMeetingId.None?
    }

    function Selection(): (View, Option<Id>, Option<Id>)
      reads this
    {
      (activeView, selectedContactId, selectedMeetingId)
    }

    function ContactModal(): (bool, Option<Contact>)
      reads this
    {
      (isContactModalOpen, editingContact)
    }

    function MeetingModal(): (bool, Option<Meeting>)
      reads this
    {
      (isMeetingModalOpen, editingMeeting)
    }

    /** The initial state: the fixture lists, the Meetings view, no contact selected and the
        first meeting selected when it has a (truthy) id; both modals closed and empty. */
    constructor (initialContacts: seq<Contact>, initialMeetings: seq<Meeting>)
      ensures Valid()
      ensures contacts == initialContacts && meetings == initialMeetings
      ensures activeView == MeetingsView && selectedContactId == None
      ensures selectedMeetingId ==
                if |initialMeetings| > 0 && initialMeetings[0].id != "" then Some(initialMeetings[0].id) else None
      ensures ContactModal() == (false, None) && MeetingModal() == (false, None)
    {
      contacts := initialContacts;
      meetings := initialMeetings;
      activeView := MeetingsView;
      selectedContactId := None;
      selectedMeetingId :=
        if |initialMeetings| > 0 && initialMeetings[0].id != "" then Some(initialMeetings[0].id) else None;
      isContactModalOpen := false;
      isMeetingModalOpen := false;
      editingContact := None;
      editingMeeting := None;
    }

    // -------------------------------------------------------------------------------------------
    // Contact handlers

    /** Opens the contact form empty, for a create. */
    method AddContact()
      requires Valid()
      modifies this
      ensures Valid()
      ensures ContactModal() == (true, None)
      ensures contacts == old(contacts) && meetings == old(meetings)
      ensures Selection() == old(Selection()) && MeetingModal() == old(MeetingModal())
    {
      editingContact := None;
      isContactModalOpen := true;
    }

    /** Opens the contact form prefilled with the given contact. */
    method EditContact(c: Contact)
      requires Valid()
      modifies this
      ensures Valid()
      ensures ContactModal() == (true, Some(c))
      ensures contacts == old(contacts) && meetings == old(meetings)
      ensures Selection() == old(Selection()) && MeetingModal() == old(MeetingModal())
    {
      editingContact := Some(c);
      isContactModalOpen := true;
    }

    /** Saves the contact form: merges the draft onto every contact with its id, or, when the
        draft has no id, appends a new contact with the supplied fresh id and avatar seed. The
        new contact is not selected. Either way the modal closes and its payload is cleared. */
    method SaveContact(d: ContactDraft, freshId: Id, avatarSeed: string)
      requires Valid()
      requires !d.IsUpdate() ==> freshId != "" && freshId !in ContactIds(contacts)
      modifies this
      ensures Valid()
      ensures d.IsUpdate() ==> contacts == UpdateContacts(old(contacts), d.id.value, d)
      ensures !d.IsUpdate() ==> contacts == old(contacts) + [NewContact(d, freshId, avatarSeed)]
      ensures meetings == old(meetings)
      ensures old(WellFormed(contacts, meetings)) ==> WellFormed(contacts, meetings)
      ensures ContactModal() == (false, None)
      ensures Selection() == old(Selection()) && MeetingModal() == old(MeetingModal())
    {
      if d.IsUpdate() {
        if WellFormed(contacts, meetings) {
          UpdateContactKeepsWellFormed(contacts, meetings, d.id.value, d);
        }
        contacts := UpdateContacts(contacts, d.id.value, d);
      } else {
        if WellFormed(contacts, meetings) {
          CreateContactKeepsWellFormed(contacts, meetings, d, freshId, avatarSeed);
        }
        contacts := contacts + [NewContact(d, freshId, avatarSeed)];
      }
      isContactModalOpen := false;
      editingContact := None;
    }

    /** Deletes a contact once the user confirms: drops every contact with the id, removes the
        id from every meeting's attendees and clears the contact selection if it was this id.
        Declining changes nothing. */
    method DeleteContact(x: Id, confirmed: bool)
      requires Valid()
      modifies this
      ensures Valid()
      ensures confirmed ==> contacts == RemoveContact(old(contacts), x)
      ensures confirmed ==> meetings == PruneAttendees(old(meetings), x)
      ensures selectedContactId ==
                if confirmed && old(selectedContactId) == Some(x) then None else old(selectedContactId)
      ensures !confirmed ==> contacts == old(contacts) && meetings == old(meetings)
      ensures old(WellFormed(contacts, meetings)) ==> WellFormed(contacts, meetings)
      ensures activeView == old(activeView) && selectedMeetingId == old(selectedMeetingId)
      ensures ContactModal() == old(ContactModal()) && MeetingModal() == old(MeetingModal())
    {
      if confirmed {
        if WellFormed(contacts, meetings) {
          CascadeDeleteKeepsWellFormed(contacts, meetings, x);
        }
        contacts := RemoveContact(contacts, x);
        meetings := PruneAttendees(meetings, x);
        if selectedContactId == Some(x) {
          selectedContactId := None;
        }
      }
    }

    /** The contact form's cancel and close actions: only the open flag changes. */
    method CloseContactModal()
      requires Valid()
      modifies this
      ensures Valid()
      ensures !isContactModalOpen && editingContact == old(editingContact)
      ensures contacts == old(contacts) && meetings == old(meetings)
      ensures Selection() == old(Selection()) && MeetingModal() == old(MeetingModal())
    {
      isContactModalOpen := false;
    }

    // -------------------------------------------------------------------------------------------
    // Meeting handlers

    /** Opens the meeting form empty, for a create. */
    method AddMeeting()
      requires Valid()
      modifies this
      ensures Valid()
      ensures MeetingModal() == (true, None)
      ensures contacts == old(contacts) && meetings == old(meetings)
      ensures Selection() == old(Selection()) && ContactModal() == old(ContactModal())
    {
      editingMeeting := None;
      isMeetingModalOpen := true;
    }

    /** Opens the meeting form prefilled with the given meeting. */
    method EditMeeting(m: Meeting)
      requires Valid()
      modifies this
      ensures Valid()
      ensures MeetingModal() == (true, Some(m))
      ensures contacts == old(contacts) && meetings == old(meetings)
      ensures Selection() == old(Selection()) && ContactModal() == old(ContactModal())
    {
      editingMeeting := Some(m);
      isMeetingModalOpen := true;
    }

    /** Saves the meeting form: merges the draft, attendees included, onto every meeting with its
        id, or appends a new meeting with the supplied fresh id. The new meeting is not selected.
        Either way the modal closes and its payload is cleared. */
    method SaveMeeting(d: MeetingDraft, freshId: Id)
      requires Valid()
      requires !d.IsUpdate() ==> freshId != "" && freshId !in MeetingIds(meetings)
      modifies this
      ensures Valid()
      ensures d.IsUpdate() ==> meetings == UpdateMeetings(old(meetings), d.id.value, d)
      ensures !d.IsUpdate() ==> meetings == old(meetings) + [NewMeeting(d, freshId)]
      ensures contacts == old(contacts)
      ensures old(WellFormed(contacts, meetings)) ==>
                (forall a :: a in d.attendees ==> a in ContactIds(contacts)) ==> WellFormed(contacts, meetings)
      ensures MeetingModal() == (false, None)
      ensures Selection() == old(Selection()) && ContactModal() == old(ContactModal())
    {
      if WellFormed(contacts, meetings) && (forall a :: a in d.attendees ==> a in ContactIds(contacts)) {
        if d.IsUpdate() {
          UpdateMeetingKeepsWellFormed(contacts, meetings, d.id.value, d);
        } else {
          CreateMeetingKeepsWellFormed(contacts, meetings, d, freshId);
        }
      }
      if d.IsUpdate() {
        meetings := UpdateMeetings(meetings, d.id.value, d);
      } else {
        meetings := meetings + [NewMeeting(d, freshId)];
      }
      isMeetingModalOpen := false;
      editingMeeting := None;
    }

    /** Deletes a meeting once the user confirms, clearing the meeting selection if it was this
        id. Contacts are never touched; declining changes nothing. */
    method DeleteMeeting(x: Id, confirmed: bool)
      requires Valid()
      modifies this
      ensures Valid()
      ensures meetings == if confirmed then RemoveMeeting(old(meetings), x) else old(meetings)
      ensures selectedMeetingId ==
                if confirmed && old(selectedMeetingId) == Some(x) then None else old(selectedMeetingId)
      ensures contacts == old(contacts)
      ensures old(WellFormed(contacts, meetings)) ==> WellFormed(contacts, meetings)
      ensures activeView == old(activeView) && selectedContactId == old(selectedContactId)
      ensures ContactModal() == old(ContactModal()) && MeetingModal() == old(MeetingModal())
    {
      if confirmed {
        if WellFormed(contacts, meetings) {
          DeleteMeetingKeepsWellFormed(contacts, meetings, x);
        }
        meetings := RemoveMeeting(meetings, x);
        if selectedMeetingId == Some(x) {
          selectedMeetingId := None;
        }
      }
    }

    /** The meeting form's cancel and close actions: only the open flag changes. */
    method CloseMeetingModal()
      requires Valid()
      modifies this
      ensures Valid()
      ensures !isMeetingModalOpen && editingMeeting == old(editingMeeting)
      ensures contacts == old(contacts) && meetings == old(meetings)
      ensures Selection() == old(Selection()) && ContactModal() == old(ContactModal())
    {
      isMeetingModalOpen := false;
    }

    // -------------------------------------------------------------------------------------------
    // Selection handlers

    /** Selects a contact: the Contacts view, that contact, and no selected meeting. */
    method SelectContact(id: Id)
      requires Valid()
      modifies this
      ensures Valid()
      ensures Selection() == (ContactsView, Some(id), None)
      ensures contacts == old(contacts) && meetings == old(meetings)
      ensures ContactModal() == old(ContactModal()) && MeetingModal() == old(MeetingModal())
    {
      selectedContactId := Some(id);
      selectedMeetingId := None;
      activeView := ContactsView;
    }

    /** Selects a meeting: the Meetings view, that meeting, and no selected contact. */
    method SelectMeeting(id: Id)
      requires Valid()
      modifies this
      ensures Valid()
      ensures Selection() == (MeetingsView, None, Some(id))
      ensures contacts == old(contacts) && meetings == old(meetings)
      ensures ContactModal() == old(ContactModal()) && MeetingModal() == old(MeetingModal())
    {
      selectedMeetingId := Some(id);
      selectedContactId := None;
      activeView := MeetingsView;
    }

    /** The raw view setter the scene's navigation buttons call: only the view changes,
        both selections are kept. */
    method SetActiveView(v: View)
      requires Valid()
      modifies this
      ensures Valid()
      ensures activeView == v
      ensures selectedContactId == old(selectedContactId) && selectedMeetingId == old(selectedMeetingId)
      ensures contacts == old(contacts) && meetings == old(meetings)
      ensures ContactModal() == old(ContactModal()) && MeetingModal() == old(MeetingModal())
    {
      activeView := v;
    }

    // -------------------------------------------------------------------------------------------
    // Derived read-outs

    /** The selected contact: the first contact whose id is the selected id, if any. */
    function SelectedContact(): (r: Option<Contact>)
      reads this
      ensures r.Some? <==> selectedContactId.Some? && selectedContactId.value in ContactIds(contacts)
      ensures r.Some? ==> r.value in contacts && selectedContactId == Some(r.value.id)
    {
      if selectedContactId.None? then None else FindContact(contacts, selectedContactId.value)
    }

    /** The selected meeting: the first meeting whose id is the selected id, if any. */
    function SelectedMeeting(): (r: Option<Meeting>)
      reads this
      ensures r.Some? <==> selectedMeetingId.Some? && selectedMeetingId.value in MeetingIds(meetings)
      ensures r.Some? ==> r.value in meetings && selectedMeetingId == Some(r.value.id)
    {
      if selectedMeetingId.None? then None else FindMeeting(meetings, selectedMeetingId.value)
    }

    /** The selected meeting's attendees resolved to contacts, in attendee order, dangling ids
        dropped; empty when no meeting is selected. */
    function MeetingContacts(): (r: seq<Contact>)
      reads this
      ensures SelectedMeeting().None? ==> r == []
      ensures SelectedMeeting().Some? ==> r == ResolveAttendees(SelectedMeeting().value.attendees, contacts)
      ensures SelectedMeeting().Some? ==> ContactIds(r) == LiveAttendees(SelectedMeeting().value.attendees, contacts)
      ensures forall c :: c in r ==> c in contacts && FindContact(contacts, c.id) == Some(c)
      ensures SelectedMeeting().Some? && AttendeesKnown(contacts, meetings) ==>
                ContactIds(r) == SelectedMeeting().value.attendees
    {
      match SelectedMeeting()
      case None => []
      case Some(m) =>
        ResolveAttendees(m.attendees, contacts)
    }
  }
}
