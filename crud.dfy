/** The collection transforms of the App component: append, merge-update, delete with the
    attendee cascade, and the look-ups behind the selected records and the attendee list. */
module Crud {
  import opened Records

  // ---------------------------------------------------------------------------------------------
  // Ids, order and well-formedness

  /** The ids of a contact list, in list order. */
  function ContactIds(cs: seq<Contact>): (ids: seq<Id>)
    ensures |ids| == |cs|
    ensures forall i :: 0 <= i < |cs| ==> ids[i] == cs[i].id
  {
    if cs == [] then [] else [cs[0].id] + ContactIds(cs[1..])
  }

  /** The ids of a meeting list, in list order. */
  function MeetingIds(ms: seq<Meeting>): (ids: seq<Id>)
    ensures |ids| == |ms|
    ensures forall i :: 0 <= i < |ms| ==> ids[i] == ms[i].id
  {
    if ms == [] then [] else [ms[0].id] + MeetingIds(ms[1..])
  }

  /** `a` is `b` with some elements dropped, the rest in their original relative order. */
  ghost predicate IsSubsequence<T>(a: seq<T>, b: seq<T>)
    decreases |b|
  {
    if b == [] then a == []
    else (a != [] && a[0] == b[0] && IsSubsequence(a[1..], b[1..])) || IsSubsequence(a, b[1..])
  }

  ghost predicate UniqueContactIds(cs: seq<Contact>)
  {
    forall i, j :: 0 <= i < j < |cs| ==> cs[i].id != cs[j].id
  }

  ghost predicate UniqueMeetingIds(ms: seq<Meeting>)
  {
    forall i, j :: 0 <= i < j < |ms| ==> ms[i].id != ms[j].id
  }

  /** Every attendee of every meeting names a contact of the list. */
  ghost predicate AttendeesKnown(cs: seq<Contact>, ms: seq<Meeting>)
  {
    forall m, a :: m in ms && a in m.attendees ==> a in ContactIds(cs)
  }

  /** Ids are unique in both lists and attendee lists only name live contacts. */
  ghost predicate WellFormed(cs: seq<Contact>, ms: seq<Meeting>)
  {
    UniqueContactIds(cs) && UniqueMeetingIds(ms) && AttendeesKnown(cs, ms)
  }

  // ---------------------------------------------------------------------------------------------
  // Update: map with spread-merge

  /** Contact update: every contact with the id takes the draft's fields; the rest stay as they are. */
  function UpdateContacts(cs: seq<Contact>, id: Id, d: ContactDraft): (r: seq<Contact>)
    ensures |r| == |cs|
    ensures forall i :: 0 <= i < |cs| ==> r[i].id == cs[i].id && r[i].avatarUrl == cs[i].avatarUrl
    ensures forall i :: 0 <= i < |cs| && cs[i].id == id ==> r[i].details == d.details
    ensures forall i :: 0 <= i < |cs| && cs[i].id != id ==> r[i] == cs[i]
    ensures id !in ContactIds(cs) ==> r == cs
  {
    if cs == [] then []
    else [if cs[0].id == id then MergeContact(cs[0], d) else cs[0]] + UpdateContacts(cs[1..], id, d)
  }

  /** Meeting update: every meeting with the id takes the draft's attendees and fields. */
  function UpdateMeetings(ms: seq<Meeting>, id: Id, d: MeetingDraft): (r: seq<Meeting>)
    ensures |r| == |ms|
    ensures forall i :: 0 <= i < |ms| ==> r[i].id == ms[i].id
    ensures forall i :: 0 <= i < |ms| && ms[i].id == id ==>
              r[i].attendees == d.attendees && r[i].details == d.details
    ensures forall i :: 0 <= i < |ms| && ms[i].id != id ==> r[i] == ms[i]
    ensures id !in MeetingIds(ms) ==> r == ms
  {
    if ms == [] then []
    else [if ms[0].id == id then MergeMeeting(ms[0], d) else ms[0]] + UpdateMeetings(ms[1..], id, d)
  }

  // ---------------------------------------------------------------------------------------------
  // Delete: filter, and the attendee cascade

  /** An attendee list with every occurrence of `x` filtered out. */
  function WithoutId(ids: seq<Id>, x: Id): (r: seq<Id>)
    ensures |r| <= |ids|
    ensures forall y :: y in r <==> y in ids && y != x
    ensures multiset(r) == multiset(ids)[x := 0]
    ensures x !in ids ==> r == ids
  {
    assert ids != [] ==> ids == [ids[0]] + ids[1..];
    if ids == [] then []
    else if ids[0] == x then WithoutId(ids[1..], x)
    else [ids[0]] + WithoutId(ids[1..], x)
  }

  /** Contact delete: the contacts whose id is not `x`, in list order. */
  function RemoveContact(cs: seq<Contact>, x: Id): (r: seq<Contact>)
    ensures |r| <= |cs|
    ensures forall c :: c in r <==> c in cs && c.id != x
    ensures x !in ContactIds(cs) ==> r == cs
  {
    if cs == [] then []
    else if cs[0].id == x then RemoveContact(cs[1..], x)
    else [cs[0]] + RemoveContact(cs[1..], x)
  }

  /** Meeting delete: the meetings whose id is not `x`, in list order. */
  function RemoveMeeting(ms: seq<Meeting>, x: Id): (r: seq<Meeting>)
    ensures |r| <= |ms|
    ensures forall m :: m in r <==> m in ms && m.id != x
    ensures x !in MeetingIds(ms) ==> r == ms
  {
    if ms == [] then []
    else if ms[0].id == x then RemoveMeeting(ms[1..], x)
    else [ms[0]] + RemoveMeeting(ms[1..], x)
  }

  /** The contact-delete cascade: `x` filtered out of every meeting's attendees. */
  function PruneAttendees(ms: seq<Meeting>, x: Id): (r: seq<Meeting>)
    ensures |r| == |ms|
    ensures forall i :: 0 <= i < |ms| ==>
              r[i].id == ms[i].id && r[i].details == ms[i].details &&
              r[i].attendees == WithoutId(ms[i].attendees, x)
    ensures forall m :: m in r ==> x !in m.attendees
  {
    if ms == [] then []
    else [ms[0].(attendees := WithoutId(ms[0].attendees, x))] + PruneAttendees(ms[1..], x)
  }

  // ---------------------------------------------------------------------------------------------
  // Look-ups: find, and the resolved attendee list

  /** The first contact with the id, if any. */
  function FindContact(cs: seq<Contact>, id: Id): (r: Option<Contact>)
    ensures r.Some? <==> id in ContactIds(cs)
    ensures r.Some? ==> r.value in cs && r.value.id == id
  {
    if cs == [] then None
    else if cs[0].id == id then Some(cs[0])
    else FindContact(cs[1..], id)
  }

  /** The first meeting with the id, if any. */
  function FindMeeting(ms: seq<Meeting>, id: Id): (r: Option<Meeting>)
    ensures r.Some? <==> id in MeetingIds(ms)
    ensures r.Some? ==> r.value in ms && r.value.id == id
  {
    if ms == [] then None
    else if ms[0].id == id then Some(ms[0])
    else FindMeeting(ms[1..], id)
  }

  /** The attendee ids that name a listed contact, in attendee order, repeats included. */
  function LiveAttendees(attendees: seq<Id>, cs: seq<Contact>): (r: seq<Id>)
    ensures |r| <= |attendees|
    ensures forall y :: y in r <==> y in attendees && y in ContactIds(cs)
    ensures forall y :: multiset(r)[y] == if y in ContactIds(cs) then multiset(attendees)[y] else 0
    ensures (forall y :: y in attendees ==> y in ContactIds(cs)) ==> r == attendees
  {
    assert attendees != [] ==> attendees == [attendees[0]] + attendees[1..];
    if attendees == [] then []
    else if attendees[0] in ContactIds(cs) then [attendees[0]] + LiveAttendees(attendees[1..], cs)
    else LiveAttendees(attendees[1..], cs)
  }

  /** Each attendee resolved to the first contact with its id, in attendee order; ids that
      resolve to no contact are dropped and the others are all kept. */
  function ResolveAttendees(attendees: seq<Id>, cs: seq<Contact>): (r: seq<Contact>)
    ensures |r| <= |attendees|
    ensures forall c :: c in r ==> c in cs && c.id in attendees
    ensures ContactIds(r) == LiveAttendees(attendees, cs)
    ensures forall c :: c in r ==> FindContact(cs, c.id) == Some(c)
  {
    if attendees == [] then []
    else
      match FindContact(cs, attendees[0])
      case Some(c) =>
        var rest := ResolveAttendees(attendees[1..], cs);
        assert ContactIds([c] + rest) == [c.id] + ContactIds(rest);
        [c] + rest
      case None => ResolveAttendees(attendees[1..], cs)
  }

  // ---------------------------------------------------------------------------------------------
  // Lemmas: create

  lemma {:induction false} RemoveContactAppended(cs: seq<Contact>, c: Contact)
    requires c.id !in ContactIds(cs)
    ensures RemoveContact(cs + [c], c.id) == cs
  {
    if cs != [] {
      assert (cs + [c])[1..] == cs[1..] + [c];
      assert ContactIds(cs) == [cs[0].id] + ContactIds(cs[1..]);
      RemoveContactAppended(cs[1..], c);
    }
  }

  /** Deleting a freshly created contact gives back the list as it was before the create. */
  lemma CreateThenDeleteContact(cs: seq<Contact>, d: ContactDraft, freshId: Id, avatarSeed: string)
    requires freshId !in ContactIds(cs)
    ensures RemoveContact(cs + [NewContact(d, freshId, avatarSeed)], freshId) == cs
  {
    RemoveContactAppended(cs, NewContact(d, freshId, avatarSeed));
  }

  lemma {:induction false} RemoveMeetingAppended(ms: seq<Meeting>, m: Meeting)
    requires m.id !in MeetingIds(ms)
    ensures RemoveMeeting(ms + [m], m.id) == ms
  {
    if ms != [] {
      assert (ms + [m])[1..] == ms[1..] + [m];
      assert MeetingIds(ms) == [ms[0].id] + MeetingIds(ms[1..]);
      RemoveMeetingAppended(ms[1..], m);
    }
  }

  /** Deleting a freshly created meeting gives back the list as it was before the create. */
  lemma CreateThenDeleteMeeting(ms: seq<Meeting>, d: MeetingDraft, freshId: Id)
    requires freshId !in MeetingIds(ms)
    ensures RemoveMeeting(ms + [NewMeeting(d, freshId)], freshId) == ms
  {
    RemoveMeetingAppended(ms, NewMeeting(d, freshId));
  }

  /** Creating a contact with a fresh id keeps the lists well-formed. */
  lemma CreateContactKeepsWellFormed(cs: seq<Contact>, ms: seq<Meeting>, d: ContactDraft, freshId: Id, avatarSeed: string)
    requires WellFormed(cs, ms)
    requires freshId !in ContactIds(cs)
    ensures WellFormed(cs + [NewContact(d, freshId, avatarSeed)], ms)
  {
    var cs' := cs + [NewContact(d, freshId, avatarSeed)];
    forall m, a | m in ms && a in m.attendees ensures a in ContactIds(cs') {
      assert a in ContactIds(cs);
      var i :| 0 <= i < |cs| && ContactIds(cs)[i] == a;
      assert ContactIds(cs')[i] == a;
    }
  }

  /** Creating a meeting with a fresh id whose attendees are live contacts keeps the lists well-formed. */
  lemma CreateMeetingKeepsWellFormed(cs: seq<Contact>, ms: seq<Meeting>, d: MeetingDraft, freshId: Id)
    requires WellFormed(cs, ms)
    requires freshId !in MeetingIds(ms)
    requires forall a :: a in d.attendees ==> a in ContactIds(cs)
    ensures WellFormed(cs, ms + [NewMeeting(d, freshId)])
  {
  }

  // ---------------------------------------------------------------------------------------------
  // Lemmas: update

  /** Saving the same contact draft twice is the same as saving it once. This follows from the
      per-index contract of UpdateContacts alone. */
  lemma UpdateContactsIdempotent(cs: seq<Contact>, id: Id, d: ContactDraft)
    ensures UpdateContacts(UpdateContacts(cs, id, d), id, d) == UpdateContacts(cs, id, d)
  {
  }

  /** Saving the same meeting draft twice is the same as saving it once. This follows from the
      per-index contract of UpdateMeetings alone. */
  lemma UpdateMeetingsIdempotent(ms: seq<Meeting>, id: Id, d: MeetingDraft)
    ensures UpdateMeetings(UpdateMeetings(ms, id, d), id, d) == UpdateMeetings(ms, id, d)
  {
  }

  /** Updating a contact keeps the lists well-formed: no id changes. */
  lemma UpdateContactKeepsWellFormed(cs: seq<Contact>, ms: seq<Meeting>, id: Id, d: ContactDraft)
    requires WellFormed(cs, ms)
    ensures WellFormed(UpdateContacts(cs, id, d), ms)
  {
    assert ContactIds(UpdateContacts(cs, id, d)) == ContactIds(cs);
  }

  /** Updating a meeting keeps the lists well-formed when the draft's attendees are live contacts. */
  lemma UpdateMeetingKeepsWellFormed(cs: seq<Contact>, ms: seq<Meeting>, id: Id, d: MeetingDraft)
    requires WellFormed(cs, ms)
    requires forall a :: a in d.attendees ==> a in ContactIds(cs)
    ensures WellFormed(cs, UpdateMeetings(ms, id, d))
  {
  }

  // ---------------------------------------------------------------------------------------------
  // Lemmas: delete

  /** Filtering attendees keeps the survivors in their original relative order. */
  lemma {:induction false} WithoutIdKeepsOrder(ids: seq<Id>, x: Id)
    ensures IsSubsequence(WithoutId(ids, x), ids)
  {
    if ids != [] {
      WithoutIdKeepsOrder(ids[1..], x);
    }
  }

  /** Deleting contacts keeps the surviving contacts in their original relative order. */
  lemma {:induction false} RemoveContactKeepsOrder(cs: seq<Contact>, x: Id)
    ensures IsSubsequence(RemoveContact(cs, x), cs)
  {
    if cs != [] {
      RemoveContactKeepsOrder(cs[1..], x);
    }
  }

  /** Deleting meetings keeps the surviving meetings in their original relative order. */
  lemma {:induction false} RemoveMeetingKeepsOrder(ms: seq<Meeting>, x: Id)
    ensures IsSubsequence(RemoveMeeting(ms, x), ms)
  {
    if ms != [] {
      RemoveMeetingKeepsOrder(ms[1..], x);
    }
  }

  /** Every contact whose id is not `x` survives the delete as many times as it was listed. */
  lemma {:induction false} RemoveContactKeepsCounts(cs: seq<Contact>, x: Id, c: Contact)
    ensures multiset(RemoveContact(cs, x))[c] == if c.id == x then 0 else multiset(cs)[c]
  {
    if cs != [] {
      assert cs == [cs[0]] + cs[1..];
      RemoveContactKeepsCounts(cs[1..], x, c);
    }
  }

  /** Every meeting whose id is not `x` survives the delete as many times as it was listed. */
  lemma {:induction false} RemoveMeetingKeepsCounts(ms: seq<Meeting>, x: Id, m: Meeting)
    ensures multiset(RemoveMeeting(ms, x))[m] == if m.id == x then 0 else multiset(ms)[m]
  {
    if ms != [] {
      assert ms == [ms[0]] + ms[1..];
      RemoveMeetingKeepsCounts(ms[1..], x, m);
    }
  }

  lemma {:induction false} RemoveContactKeepsUnique(cs: seq<Contact>, x: Id)
    requires UniqueContactIds(cs)
    ensures UniqueContactIds(RemoveContact(cs, x))
  {
    if cs != [] {
      RemoveContactKeepsUnique(cs[1..], x);
      var rest := RemoveContact(cs[1..], x);
      forall j | 0 <= j < |rest| ensures rest[j].id != cs[0].id {
        assert rest[j] in cs[1..];
      }
    }
  }

  lemma {:induction false} RemoveMeetingKeepsUnique(ms: seq<Meeting>, x: Id)
    requires UniqueMeetingIds(ms)
    ensures UniqueMeetingIds(RemoveMeeting(ms, x))
  {
    if ms != [] {
      RemoveMeetingKeepsUnique(ms[1..], x);
      var rest := RemoveMeeting(ms[1..], x);
      forall j | 0 <= j < |rest| ensures rest[j].id != ms[0].id {
        assert rest[j] in ms[1..];
      }
    }
  }

  /** The contact-delete cascade keeps the lists well-formed: every attendee that survives the
      cascade still names a live contact. */
  lemma CascadeDeleteKeepsWellFormed(cs: seq<Contact>, ms: seq<Meeting>, x: Id)
    requires WellFormed(cs, ms)
    ensures WellFormed(RemoveContact(cs, x), PruneAttendees(ms, x))
  {
    RemoveContactKeepsUnique(cs, x);
    CascadeDeleteKeepsAttendeesKnown(cs, ms, x);
  }

  lemma CascadeDeleteKeepsAttendeesKnown(cs: seq<Contact>, ms: seq<Meeting>, x: Id)
    requires AttendeesKnown(cs, ms)
    ensures AttendeesKnown(RemoveContact(cs, x), PruneAttendees(ms, x))
  {
    var ms' := PruneAttendees(ms, x);
    forall m, a | m in ms' && a in m.attendees ensures a in ContactIds(RemoveContact(cs, x)) {
      var i :| 0 <= i < |ms'| && ms'[i] == m;
      assert ms[i] in ms;
      PrunedAttendeeStillLive(cs, ms[i].attendees, x, a);
    }
  }

  /** An attendee that survives the cascade names a contact that survives the delete. */
  lemma PrunedAttendeeStillLive(cs: seq<Contact>, attendees: seq<Id>, x: Id, a: Id)
    requires forall b :: b in attendees ==> b in ContactIds(cs)
    requires a in WithoutId(attendees, x)
    ensures a in ContactIds(RemoveContact(cs, x))
  {
    var k :| 0 <= k < |cs| && ContactIds(cs)[k] == a;
    SurvivorIdListed(cs, x, cs[k]);
  }

  /** A contact that survives a delete still has its id listed. */
  lemma SurvivorIdListed(cs: seq<Contact>, x: Id, c: Contact)
    requires c in cs && c.id != x
    ensures c.id in ContactIds(RemoveContact(cs, x))
  {
  }

  /** Deleting a meeting keeps the lists well-formed. */
  lemma DeleteMeetingKeepsWellFormed(cs: seq<Contact>, ms: seq<Meeting>, x: Id)
    requires WellFormed(cs, ms)
    ensures WellFormed(cs, RemoveMeeting(ms, x))
  {
    RemoveMeetingKeepsUnique(ms, x);
  }

  // ---------------------------------------------------------------------------------------------
  // Lemmas: look-ups

  /** `find` returns the first record with the id. */
  lemma {:induction false} FindContactIsFirst(cs: seq<Contact>, id: Id, k: nat)
    requires k < |cs| && cs[k].id == id
    requires forall j :: 0 <= j < k ==> cs[j].id != id
    ensures FindContact(cs, id) == Some(cs[k])
  {
    if k > 0 {
      FindContactIsFirst(cs[1..], id, k - 1);
    }
  }

  /** `find` returns the first meeting with the id. */
  lemma {:induction false} FindMeetingIsFirst(ms: seq<Meeting>, id: Id, k: nat)
    requires k < |ms| && ms[k].id == id
    requires forall j :: 0 <= j < k ==> ms[j].id != id
    ensures FindMeeting(ms, id) == Some(ms[k])
  {
    if k > 0 {
      FindMeetingIsFirst(ms[1..], id, k - 1);
    }
  }

  /** Deleting contact `x` does not change which contact any other id resolves to. */
  lemma {:induction false} FindContactAfterRemove(cs: seq<Contact>, x: Id, y: Id)
    requires y != x
    ensures FindContact(RemoveContact(cs, x), y) == FindContact(cs, y)
  {
    if cs != [] {
      FindContactAfterRemove(cs[1..], x, y);
    }
  }

  /** The live attendees keep their relative order. */
  lemma {:induction false} LiveAttendeesKeepOrder(attendees: seq<Id>, cs: seq<Contact>)
    ensures IsSubsequence(LiveAttendees(attendees, cs), attendees)
  {
    if attendees != [] {
      LiveAttendeesKeepOrder(attendees[1..], cs);
    }
  }

  /** The resolved attendees' ids are the meeting's attendee ids, some dropped, in attendee order. */
  lemma ResolvedIdsFollowAttendees(attendees: seq<Id>, cs: seq<Contact>)
    ensures IsSubsequence(ContactIds(ResolveAttendees(attendees, cs)), attendees)
  {
    LiveAttendeesKeepOrder(attendees, cs);
  }

  /** When every attendee names a live contact nothing is dropped: the resolved list has
      exactly the attendee ids, in order. A corollary of ResolveAttendees' contract. */
  lemma ResolveKeepsKnownAttendees(attendees: seq<Id>, cs: seq<Contact>)
    requires forall a :: a in attendees ==> a in ContactIds(cs)
    ensures ContactIds(ResolveAttendees(attendees, cs)) == attendees
  {
  }

  /** A dangling attendee id is dropped without affecting the live ones around it. */
  lemma ResolveDropsOnlyDangling(live: Id, dangling: Id, c: Contact)
    requires c.id == live && dangling != live
    ensures ResolveAttendees([dangling, live], [c]) == [c]
  {
    assert [dangling, live][1..] == [live];
    assert [live][1..] == [];
  }

  /** After the contact-delete cascade a meeting resolves to the contacts it resolved to
      before, minus the deleted one. */
  lemma {:induction false} CascadeDeleteResolvesConsistently(attendees: seq<Id>, cs: seq<Contact>, x: Id)
    ensures ResolveAttendees(WithoutId(attendees, x), RemoveContact(cs, x))
         == RemoveContact(ResolveAttendees(attendees, cs), x)
  {
    if attendees != [] {
      CascadeDeleteResolvesConsistently(attendees[1..], cs, x);
      var a := attendees[0];
      if a != x {
        FindContactAfterRemove(cs, x, a);
        assert WithoutId(attendees, x)[0] == a;
        assert WithoutId(attendees, x)[1..] == WithoutId(attendees[1..], x);
      }
    }
  }
}
