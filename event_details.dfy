/**
 * The event details screen (src/pages/EventDetails.tsx): resolving the event
 * to show from the bundled catalog and the locally stored overrides, deriving
 * the volunteer status label, and the volunteer action that appends the
 * current user to the event and persists the whole record.
 */
module EventDetails {
  import opened Events
  import opened Decimal

  // ---------------------------------------------------------------------------
  // Status derivation (render-time expressions)
  // ---------------------------------------------------------------------------

  /** The current user, if any, is in the event's volunteer list. */
  predicate IsUserVolunteered(e: Event, currentUser: Option<User>)
  {
    match currentUser
    case None => false
    case Some(u) => u.id in e.volunteersIds
  }

  /** The team has at least as many volunteers as it needs. */
  predicate IsFull(e: Event)
  {
    |e.volunteersIds| >= e.volunteersNeeded
  }

  /** The label shown under the event: membership first, then fullness, then the counts. */
  function StatusText(e: Event, currentUser: Option<User>): string
  {
    if IsUserVolunteered(e, currentUser) then "Volunteered"
    else if IsFull(e) then "Team is full"
    else NatToString(|e.volunteersIds|) + " / " + IntToString(e.volunteersNeeded) + " volunteers"
  }

  /** A member sees "Volunteered", even when the list is longer than the capacity. */
  lemma StatusMemberSeesVolunteered(e: Event, u: User)
    requires u.id in e.volunteersIds
    ensures StatusText(e, Some(u)) == "Volunteered"
    ensures |e.volunteersIds| > e.volunteersNeeded ==> StatusText(e, Some(u)) != "Team is full"
  {
  }

  /** The label is "Volunteered" exactly when the current user is a member. */
  lemma StatusVolunteeredIff(e: Event, currentUser: Option<User>)
    ensures StatusText(e, currentUser) == "Volunteered" <==> IsUserVolunteered(e, currentUser)
  {
  }

  /**
   * For a non-member the label is "Team is full" exactly when the list has
   * reached the capacity; otherwise it reads "{count} / {needed} volunteers"
   * and the count read back from its head is the length of the list.
   */
  lemma StatusForNonMember(e: Event, currentUser: Option<User>)
    requires !IsUserVolunteered(e, currentUser)
    ensures StatusText(e, currentUser) == "Team is full" <==> |e.volunteersIds| >= e.volunteersNeeded
    ensures |e.volunteersIds| < e.volunteersNeeded ==>
      StatusText(e, currentUser)
        == NatToString(|e.volunteersIds|) + " / " + IntToString(e.volunteersNeeded) + " volunteers"
      && LeadingNumber(StatusText(e, currentUser)) == |e.volunteersIds|
  {
    var s := StatusText(e, currentUser);
    if !IsFull(e) {
      var rest := " / " + IntToString(e.volunteersNeeded) + " volunteers";
      assert s == NatToString(|e.volunteersIds|) + rest;
      assert s[0] == NatToString(|e.volunteersIds|)[0];
      assert IsDigit(s[0]) && !IsDigit("Team is full"[0]);
      LeadingNumberOfRendered(|e.volunteersIds|, rest);
    }
  }

  // ---------------------------------------------------------------------------
  // The volunteer action
  // ---------------------------------------------------------------------------

  /** Why a volunteer action changed nothing. */
  datatype Rejection = NoUserLoggedIn | TeamIsFull | AlreadyVolunteered

  datatype VolunteerOutcome = Rejected(reason: Rejection) | Joined(updated: Event)

  /** The decision of the volunteer action: its checks in the order they are made, then the append. */
  function Volunteer(e: Event, currentUser: Option<User>): VolunteerOutcome
  {
    if currentUser.None? then Rejected(NoUserLoggedIn)
    else if IsFull(e) then Rejected(TeamIsFull)
    else if IsUserVolunteered(e, currentUser) then Rejected(AlreadyVolunteered)
    else Joined(e.(volunteersIds := e.volunteersIds + [currentUser.value.id]))
  }

  /** The event shown after one volunteer action. */
  function AfterVolunteer(e: Event, currentUser: Option<User>): Event
  {
    match Volunteer(e, currentUser)
    case Joined(updated) => updated
    case Rejected(_) => e
  }

  /** The event shown after a series of volunteer actions, in order. */
  function AfterVolunteers(e: Event, users: seq<Option<User>>): Event
    decreases |users|
  {
    if users == [] then e else AfterVolunteers(AfterVolunteer(e, users[0]), users[1..])
  }

  /** The dialog the action pops up, if any. */
  datatype Alert = Alert(title: string, message: Option<string>)

  function AlertFor(outcome: VolunteerOutcome): Option<Alert>
  {
    match outcome
    case Rejected(NoUserLoggedIn) => Some(Alert("Error", Some("No user logged in")))
    case Rejected(TeamIsFull) => Some(Alert("Team is full", None))
    case Rejected(AlreadyVolunteered) => None
    case Joined(_) => Some(Alert("Success", Some("You have volunteered!")))
  }

  /**
   * The action succeeds exactly when a user is logged in, the team is not
   * full and the user is not a member; otherwise the first failing check
   * names the rejection.
   */
  lemma VolunteerDecision(e: Event, currentUser: Option<User>)
    ensures Volunteer(e, currentUser).Joined? <==>
      currentUser.Some? && |e.volunteersIds| < e.volunteersNeeded
      && currentUser.value.id !in e.volunteersIds
    ensures currentUser.None? ==> Volunteer(e, currentUser) == Rejected(NoUserLoggedIn)
    ensures currentUser.Some? && IsFull(e) ==> Volunteer(e, currentUser) == Rejected(TeamIsFull)
    ensures currentUser.Some? && !IsFull(e) && currentUser.value.id in e.volunteersIds ==>
      Volunteer(e, currentUser) == Rejected(AlreadyVolunteered)
  {
  }

  /**
   * On success the user's id is appended at the end of the list, the list
   * grows by exactly one, and every other field is as before.
   */
  lemma VolunteerAppends(e: Event, currentUser: Option<User>)
    requires Volunteer(e, currentUser).Joined?
    ensures var r := Volunteer(e, currentUser).updated;
      && r.volunteersIds == e.volunteersIds + [currentUser.value.id]
      && |r.volunteersIds| == |e.volunteersIds| + 1
      && r.volunteersIds[|e.volunteersIds|] == currentUser.value.id
      && r.id == e.id && r.name == e.name && r.description == e.description
      && r.dateTime == e.dateTime && r.imageUrl == e.imageUrl
      && r.organizerId == e.organizerId && r.position == e.position
      && r.volunteersNeeded == e.volunteersNeeded
  {
  }

  /** A rejected action leaves the event exactly as it was. */
  lemma VolunteerRejectedUnchanged(e: Event, currentUser: Option<User>)
    requires currentUser.None? || IsFull(e) || IsUserVolunteered(e, currentUser)
    ensures Volunteer(e, currentUser).Rejected?
    ensures AfterVolunteer(e, currentUser) == e
  {
  }

  /**
   * One action keeps the list duplicate-free, never lengthens a full list,
   * and never takes the list past the capacity.
   */
  lemma VolunteerKeepsInvariant(e: Event, currentUser: Option<User>)
    ensures var r := AfterVolunteer(e, currentUser);
      && (NoDuplicates(e.volunteersIds) ==> NoDuplicates(r.volunteersIds))
      && (IsFull(e) ==> r.volunteersIds == e.volunteersIds)
      && (r != e ==> |r.volunteersIds| <= r.volunteersNeeded)
      && r.id == e.id && r.volunteersNeeded == e.volunteersNeeded
  {
  }

  /**
   * Volunteering twice gives the same list as volunteering once; the second
   * action is always rejected (the team has become full or the user is a member).
   */
  lemma VolunteerIdempotent(e: Event, currentUser: Option<User>)
    ensures Volunteer(AfterVolunteer(e, currentUser), currentUser).Rejected?
    ensures AfterVolunteer(AfterVolunteer(e, currentUser), currentUser) == AfterVolunteer(e, currentUser)
  {
  }

  /**
   * However many users act, in whatever order, a duplicate-free list within
   * capacity stays duplicate-free and within capacity, and the rest of the
   * record is never touched.
   */
  lemma {:induction false} VolunteersKeepInvariant(e: Event, users: seq<Option<User>>)
    requires NoDuplicates(e.volunteersIds)
    requires |e.volunteersIds| <= e.volunteersNeeded
    decreases |users|
    ensures var r := AfterVolunteers(e, users);
      && NoDuplicates(r.volunteersIds)
      && |r.volunteersIds| <= r.volunteersNeeded
      && r == e.(volunteersIds := r.volunteersIds)
      && e.volunteersIds <= r.volunteersIds
  {
    if users != [] {
      var next := AfterVolunteer(e, users[0]);
      VolunteerKeepsInvariant(e, users[0]);
      VolunteersKeepInvariant(next, users[1..]);
    }
  }

  /** Once the list has reached the capacity, no series of actions changes the event. */
  lemma {:induction false} VolunteersNeverGrowFull(e: Event, users: seq<Option<User>>)
    requires IsFull(e)
    ensures AfterVolunteers(e, users) == e
    decreases |users|
  {
    if users != [] {
      VolunteerRejectedUnchanged(e, users[0]);
      VolunteersNeverGrowFull(e, users[1..]);
    }
  }

  // ---------------------------------------------------------------------------
  // Catalog lookup and override resolution
  // ---------------------------------------------------------------------------

  /** Index `k` holds the first catalog event with the given id. */
  predicate FirstMatchAt(catalog: seq<Event>, id: string, k: int)
  {
    0 <= k < |catalog| && catalog[k].id == id && forall j :: 0 <= j < k ==> catalog[j].id != id
  }

  /** The first catalog event with the given id (Array.prototype.find). */
  function FindById(catalog: seq<Event>, id: string): (r: Option<Event>)
    ensures r.None? <==> forall k :: 0 <= k < |catalog| ==> catalog[k].id != id
    ensures r.Some? ==> exists k :: FirstMatchAt(catalog, id, k) && catalog[k] == r.value
  {
    if catalog == [] then None
    else if catalog[0].id == id then
      assert FirstMatchAt(catalog, id, 0);
      Some(catalog[0])
    else
      var r := FindById(catalog[1..], id);
      if r.Some? then
        var k :| FirstMatchAt(catalog[1..], id, k) && catalog[1..][k] == r.value;
        assert FirstMatchAt(catalog, id, k + 1) by {
          forall j | 0 <= j < k + 1 ensures catalog[j].id != id {
            if j > 0 { assert catalog[j] == catalog[1..][j - 1]; }
          }
        }
        r
      else
        assert forall k :: 0 <= k < |catalog| ==> catalog[k].id != id by {
          forall k | 0 <= k < |catalog| ensures catalog[k].id != id {
            if k > 0 { assert catalog[k] == catalog[1..][k - 1]; }
          }
        }
        r
  }

  /** The storage key of an event's override. */
  function OverrideKey(id: string): string
  {
    "event-" + id
  }

  /** Different events never share an override key. */
  lemma OverrideKeyInjective(a: string, b: string)
    ensures OverrideKey(a) == OverrideKey(b) <==> a == b
  {
    if OverrideKey(a) == OverrideKey(b) {
      assert a == OverrideKey(a)[6..];
      assert b == OverrideKey(b)[6..];
    }
  }

  /** Every stored override is the record of the event whose key it sits under. */
  ghost predicate WellKeyed(entries: map<string, Event>)
  {
    forall id :: OverrideKey(id) in entries ==> entries[OverrideKey(id)].id == id
  }

  /**
   * The event the details screen loads: nothing when the catalog has no such
   * id; otherwise the stored override under its key if there is one, else
   * the catalog entry.
   */
  function Resolve(catalog: seq<Event>, entries: map<string, Event>, id: string): Option<Event>
  {
    match FindById(catalog, id)
    case None => None
    case Some(original) =>
      if OverrideKey(original.id) in entries then Some(entries[OverrideKey(original.id)])
      else Some(original)
  }

  /** Nothing is loaded exactly when the catalog lacks the id, whatever the store holds. */
  lemma ResolveNotFound(catalog: seq<Event>, entries: map<string, Event>, id: string)
    ensures Resolve(catalog, entries, id).None? <==> forall k :: 0 <= k < |catalog| ==> catalog[k].id != id
  {
  }

  /** Without an override the loaded event is the first catalog entry with that id. */
  lemma ResolveWithoutOverride(catalog: seq<Event>, entries: map<string, Event>, id: string)
    requires OverrideKey(id) !in entries
    ensures Resolve(catalog, entries, id) == FindById(catalog, id)
    ensures Resolve(catalog, entries, id).Some? ==> Resolve(catalog, entries, id).value in catalog
  {
  }

  /** A stored override takes precedence over the catalog entry. */
  lemma ResolveWithOverride(catalog: seq<Event>, entries: map<string, Event>, id: string)
    requires FindById(catalog, id).Some? && OverrideKey(id) in entries
    ensures Resolve(catalog, entries, id) == Some(entries[OverrideKey(id)])
  {
  }

  /** In a well-keyed store the loaded event carries the requested id. */
  lemma ResolveKeepsId(catalog: seq<Event>, entries: map<string, Event>, id: string)
    requires WellKeyed(entries)
    ensures Resolve(catalog, entries, id).Some? ==> Resolve(catalog, entries, id).value.id == id
  {
  }

  /** Saving an event's record makes later loads of that id return it. */
  lemma ResolveAfterSave(catalog: seq<Event>, entries: map<string, Event>, saved: Event)
    requires FindById(catalog, saved.id).Some?
    ensures Resolve(catalog, entries[OverrideKey(saved.id) := saved], saved.id) == Some(saved)
  {
  }

  /** Saving one event's record does not change what another id loads. */
  lemma ResolveAfterSaveOfOther(catalog: seq<Event>, entries: map<string, Event>, saved: Event, id: string)
    requires saved.id != id
    ensures Resolve(catalog, entries[OverrideKey(saved.id) := saved], id) == Resolve(catalog, entries, id)
  {
    OverrideKeyInjective(saved.id, id);
  }

  /** Storing a record under its own id's key keeps the store well keyed. */
  lemma WellKeyedAfterSave(entries: map<string, Event>, saved: Event)
    requires WellKeyed(entries)
    ensures WellKeyed(entries[OverrideKey(saved.id) := saved])
  {
    forall id | OverrideKey(id) in entries[OverrideKey(saved.id) := saved]
      ensures entries[OverrideKey(saved.id) := saved][OverrideKey(id)].id == id
    {
      OverrideKeyInjective(saved.id, id);
    }
  }

  /**
   * The end-to-end scenario of the volunteer flow: a one-place event is joined by
   * one user, the saved record is what a reload shows, and a second user is
   * then turned away with the list unchanged.
   */
  lemma JoinSaveReloadThenFull(e: Event, first: User, second: User)
    requires e.volunteersNeeded == 1 && e.volunteersIds == []
    ensures Volunteer(e, Some(first)) == Joined(e.(volunteersIds := [first.id]))
    ensures var saved := AfterVolunteer(e, Some(first));
      var entries := map[OverrideKey(e.id) := saved];
      && Resolve([e], entries, e.id) == Some(saved)
      && Volunteer(saved, Some(second)) == Rejected(TeamIsFull)
      && AfterVolunteer(saved, Some(second)).volunteersIds == [first.id]
  {
  }

  // ---------------------------------------------------------------------------
  // State: the key-value store and the screen
  // ---------------------------------------------------------------------------

  /** The device's key-value storage, holding decoded event records. */
  class KeyValueStore {
    var entries: map<string, Event>

    constructor ()
      ensures entries == map[]
    {
      entries := map[];
    }

    method GetItem(key: string) returns (v: Option<Event>)
      ensures v.Some? <==> key in entries
      ensures v.Some? ==> v.value == entries[key]
    {
      if key in entries {
        v := Some(entries[key]);
      } else {
        v := None;
      }
    }

    /** A whole-record write: whatever was stored under `key` is replaced. */
    method SetItem(key: string, value: Event)
      modifies this
      ensures entries == old(entries)[key := value]
    {
      entries := entries[key := value];
    }
  }

  /** One details screen, opened on `eventId`, holding the event it shows. */
  class EventDetailsScreen {
    const catalog: seq<Event>
    const eventId: string
    const storage: KeyValueStore
    var event: Option<Event>

    ghost predicate Valid()
      reads this, storage
    {
      WellKeyed(storage.entries) && (event.Some? ==> event.value.id == eventId)
    }

    constructor (catalog: seq<Event>, eventId: string, storage: KeyValueStore)
      requires WellKeyed(storage.entries)
      ensures Valid() && event == None
      ensures this.catalog == catalog && this.eventId == eventId && this.storage == storage
    {
      this.catalog := catalog;
      this.eventId := eventId;
      this.storage := storage;
      event := None;
    }

    /**
     * Loads the event: does nothing when the catalog has no such id,
     * otherwise shows the stored override or the catalog entry.
     */
    method LoadEvent()
      requires Valid()
      modifies this
      ensures Valid()
      ensures FindById(catalog, eventId).Some? ==> event == Resolve(catalog, storage.entries, eventId)
      ensures FindById(catalog, eventId).None? ==> event == old(event)
    {
      var original := FindById(catalog, eventId);
      if original.None? {
        return;
      }
      var saved := storage.GetItem(OverrideKey(original.value.id));
      if saved.Some? {
        event := saved;
      } else {
        event := original;
      }
      ResolveKeepsId(catalog, storage.entries, eventId);
    }

    /**
     * The volunteer button: rejects with no user or a full team, does
     * nothing for a member, otherwise shows the event with the user appended
     * and writes the whole record under the event's key.
     */
    method HandleVolunteer(currentUser: Option<User>) returns (alert: Option<Alert>)
      requires Valid() && event.Some?
      modifies this, storage
      ensures Valid()
      ensures alert == AlertFor(Volunteer(old(event.value), currentUser))
      ensures match Volunteer(old(event.value), currentUser)
        case Joined(updated) =>
          event == Some(updated)
          && storage.entries == old(storage.entries)[OverrideKey(eventId) := updated]
        case Rejected(_) =>
          event == old(event) && storage.entries == old(storage.entries)
    {
      var e := event.value;
      var isUserVolunteered := currentUser.Some? && currentUser.value.id in e.volunteersIds;
      var isFull := |e.volunteersIds| >= e.volunteersNeeded;
      if currentUser.None? {
        return Some(Alert("Error", Some("No user logged in")));
      }
      if isFull {
        return Some(Alert("Team is full", None));
      }
      if isUserVolunteered {
        return None;
      }
      var updated := e.(volunteersIds := e.volunteersIds + [currentUser.value.id]);
      event := Some(updated);
      WellKeyedAfterSave(storage.entries, updated);
      storage.SetItem(OverrideKey(e.id), updated);
      alert := Some(Alert("Success", Some("You have volunteered!")));
    }
  }
}
