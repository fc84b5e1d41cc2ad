# Volunteer events: event resolution, volunteer status and the upcoming list

A Dafny model of the logic inside the two screens of a small volunteer-events
mobile app. The events map screen shows the bundled catalog's upcoming events,
or the whole catalog when none is upcoming. The event details screen loads one
event, preferring a locally stored override over the catalog entry. It shows a
status label derived from the volunteer list and the capacity. Its volunteer
button appends the logged-in user to the event and stores the whole record
under `"event-" + id`.

Files:

- `events.dfy` (module `Events`): the `Event` record of `src/types/Events.ts`,
  the logged-in `User`, `Option`, and the no-duplicates predicate on volunteer lists.
- `decimal.dfy` (module `Decimal`): how a template literal prints an integer
  (`${n}`) of magnitude below 10^21, and reading a leading number back out of a text.
- `event_details.dfy` (module `EventDetails`): status derivation, the volunteer
  decision, catalog lookup and override resolution as functions. The key-value
  store and the screen are classes whose methods are proved against those functions.
- `events_map.dfy` (module `EventsMap`): the upcoming filter, the fallback
  to the whole catalog, and the footer count.

Modelling choices:

- `dateTime` is an integer timestamp and "now" is a parameter.
- `position` is carried along but never computed with.
- The key-value store holds decoded records. Writing `JSON.stringify` and reading
  `JSON.parse` are taken as identity.
- The current user is an explicit `Option<User>` argument rather than a context read.
- Status and footer texts are modelled as strings. The numbers in them are rendered in decimal.
- `handleVolunteer` exists only once an event is loaded, since the screen returns
  early while `event` is null. `HandleVolunteer` therefore requires `event.Some?`.
- The store invariant `WellKeyed` says the record under `"event-" + k` has id `k`.
  The volunteer action is the only code that writes `event-` keys, and it keeps the invariant.
  Loading reads under the catalog entry's id (`src/pages/EventDetails.tsx:41`) and the
  volunteer action writes under the loaded record's id (`:86`); the two keys agree only
  under `WellKeyed`, which is why the `EventDetailsScreen` constructor requires it.
- The code looks the id up in the catalog first. With no catalog entry nothing is
  loaded, even if an override is stored. An override is only consulted for an id the catalog has.
- The code has no fallback for an undecodable override (`JSON.parse` would throw),
  so none is modelled.

## Model

| member | source | states |
|---|---|---|
| `EventDetails.IsUserVolunteered` | src/pages/EventDetails.tsx:60-62 | true iff a user is logged in and its id is in the list; meaning used by `StatusVolunteeredIff` and `VolunteerDecision` |
| `EventDetails.IsFull` | src/pages/EventDetails.tsx:63 | length >= needed; meaning used by `StatusForNonMember`, `VolunteerDecision` and `VolunteersNeverGrowFull` |
| `EventDetails.StatusText` | src/pages/EventDetails.tsx:65-72 | the status label; meaning given by `StatusMemberSeesVolunteered`, `StatusVolunteeredIff` and `StatusForNonMember` |
| `EventDetails.Volunteer` | src/pages/EventDetails.tsx:74-82 | the volunteer decision; meaning given by `VolunteerDecision`, `VolunteerAppends` and `VolunteerRejectedUnchanged` |
| `EventDetails.AfterVolunteer` | src/pages/EventDetails.tsx:74-84 | the event shown after one action; meaning given by `VolunteerKeepsInvariant` and `VolunteerIdempotent` |
| `EventDetails.AfterVolunteers` | src/pages/EventDetails.tsx:74-84 | the event shown after a series of actions; meaning given by `VolunteersKeepInvariant` and `VolunteersNeverGrowFull` |
| `EventDetails.AlertFor` | src/pages/EventDetails.tsx:75-89 | the alert of each outcome: "Error"/"No user logged in", "Team is full", none for a member, "Success"/"You have volunteered!"; tied to the action by `EventDetailsScreen.HandleVolunteer` |
| `EventDetails.OverrideKey` | src/pages/EventDetails.tsx:41 | the key `"event-" + id` used for both reading and writing; injective by `OverrideKeyInjective` |
| `EventDetails.Resolve` | src/pages/EventDetails.tsx:33-46 | the event the screen loads; meaning given by `ResolveNotFound`, `ResolveWithoutOverride`, `ResolveWithOverride` and `ResolveAfterSave` |
| `EventsMap.IsUpcoming` | src/pages/EventsMap.tsx:34 | dateTime strictly after now; strictness stated by `StartingNowNotShown` |
| `EventsMap.FooterText` | src/pages/EventsMap.tsx:135 | "{count} event(s) found"; the count is read back by `FooterShowsCount` |
| `EventDetails.StatusMemberSeesVolunteered` | src/pages/EventDetails.tsx:60-67 | a member sees "Volunteered", and never "Team is full" even when the list is longer than the capacity |
| `EventDetails.StatusVolunteeredIff` | src/pages/EventDetails.tsx:60-72 | the label is "Volunteered" exactly when a user is logged in and in the volunteer list (both directions) |
| `EventDetails.StatusForNonMember` | src/pages/EventDetails.tsx:63-72 | for a non-member the label is "Team is full" iff length >= needed; otherwise it is "{length} / {needed} volunteers" and the count read back from it is the list length |
| `EventDetails.VolunteerDecision` | src/pages/EventDetails.tsx:74-77 | the action succeeds iff a user is logged in, length < needed and the user is absent; otherwise the first failing check, in the order no user, team full, already a member, gives the rejection |
| `EventDetails.VolunteerAppends` | src/pages/EventDetails.tsx:79-82 | on success the list is the old list with the user's id appended at the end, one longer, and every other field is unchanged |
| `EventDetails.VolunteerRejectedUnchanged` | src/pages/EventDetails.tsx:75-77 | with no user, a full team or a member, the action is rejected and the event is unchanged |
| `EventDetails.VolunteerKeepsInvariant` | src/pages/EventDetails.tsx:63-82 | one action keeps the list duplicate-free, leaves a full list as it is, never takes a changed list past the capacity, and keeps id and capacity |
| `EventDetails.VolunteerIdempotent` | src/pages/EventDetails.tsx:74-82 | a second action by the same user is always rejected, so volunteering twice gives the same event as volunteering once |
| `EventDetails.VolunteersKeepInvariant` | src/pages/EventDetails.tsx:74-88 | over any series of actions a duplicate-free list within capacity stays so, only grows by appends, and no other field changes |
| `EventDetails.VolunteersNeverGrowFull` | src/pages/EventDetails.tsx:76 | once length >= needed, no series of actions changes the event |
| `EventDetails.FindById` | src/pages/EventDetails.tsx:33 | returns nothing iff no catalog event has the id; otherwise the event at the first index with that id |
| `EventDetails.OverrideKeyInjective` | src/pages/EventDetails.tsx:85-86 | two ids share the key `"event-" + id` only when they are equal |
| `EventDetails.ResolveNotFound` | src/pages/EventDetails.tsx:39-46 | nothing is loaded exactly when the catalog lacks the id, whatever overrides are stored |
| `EventDetails.ResolveWithoutOverride` | src/pages/EventDetails.tsx:41-45 | with no stored override the loaded event is the catalog's first entry with that id |
| `EventDetails.ResolveWithOverride` | src/pages/EventDetails.tsx:41-43 | for a catalog id with a stored override, the override is loaded, not the catalog entry |
| `EventDetails.ResolveKeepsId` | src/pages/EventDetails.tsx:33-46 | in a well-keyed store, the loaded event carries the requested id |
| `EventDetails.ResolveAfterSave` | src/pages/EventDetails.tsx:84-88 | after a record is written under its own key, loading its id returns that record and not the catalog version |
| `EventDetails.ResolveAfterSaveOfOther` | src/pages/EventDetails.tsx:85-88 | writing one event's record leaves what every other id loads unchanged |
| `EventDetails.WellKeyedAfterSave` | src/pages/EventDetails.tsx:85-88 | writing a record under its own id's key keeps every stored record under its own key |
| `EventDetails.JoinSaveReloadThenFull` | src/pages/EventDetails.tsx:74-89 | on a one-place empty event a first user joins, reloading shows the saved record, and a second user is then refused as "team full" with the list unchanged |
| `EventDetails.KeyValueStore.GetItem` | src/pages/EventDetails.tsx:41 | returns the stored record under the key, or nothing when the key is absent |
| `EventDetails.KeyValueStore.SetItem` | src/pages/EventDetails.tsx:85-88 | replaces the whole record under the key and leaves all other keys |
| `EventDetails.EventDetailsScreen.constructor` | src/pages/EventDetails.tsx:35 | a screen starts with no event loaded |
| `EventDetails.EventDetailsScreen.LoadEvent` | src/pages/EventDetails.tsx:37-50 | for a catalog id the shown event becomes the resolved event (override or catalog entry); otherwise the state is untouched; the store is never written |
| `EventDetails.EventDetailsScreen.HandleVolunteer` | src/pages/EventDetails.tsx:74-90 | on success the shown event and the record under `"event-" + id` both become the appended event; on rejection neither changes; the alert matches the outcome; the store stays well keyed |
| `Decimal.NatToString` | src/pages/EventDetails.tsx:71 | a count is rendered as a non-empty string of decimal digits with no leading zero (its value is given by `NatToStringRoundTrip`) |
| `Decimal.IntToString` | src/pages/EventDetails.tsx:71 | an integer renders with a leading digit iff it is non-negative; the digits spell the integer, or after a "-" its magnitude when negative |
| `Decimal.NatToStringRoundTrip` | src/pages/EventDetails.tsx:71 | reading back a rendered count gives the count |
| `Decimal.LeadingNumberOfRendered` | src/pages/EventsMap.tsx:135 | a rendered count followed by a non-digit is read back from the head of the text |
| `EventsMap.Upcoming` | src/pages/EventsMap.tsx:33-35 | each event occurs in the result as often as in the catalog if its dateTime is strictly after now, otherwise not at all |
| `EventsMap.ListUpcoming` | src/pages/EventsMap.tsx:36 | if some event is upcoming the result is exactly the upcoming events; if none is, it is the whole catalog; never empty for a non-empty catalog; only catalog events |
| `EventsMap.UpcomingKeepsOrder` | src/pages/EventsMap.tsx:33-35 | the filtered list is a subsequence of the catalog |
| `EventsMap.ListUpcomingKeepsOrder` | src/pages/EventsMap.tsx:33-36 | the shown list keeps the catalog's relative order |
| `EventsMap.StartingNowNotShown` | src/pages/EventsMap.tsx:34 | an event whose dateTime equals now is not upcoming and, when some other event is, is not shown |
| `EventsMap.FooterShowsCount` | src/pages/EventsMap.tsx:135 | the count in the footer text is the length of the shown list (the catalog size in the fallback) |

## Left out

- Rendering (JSX, styles, button visibility, the map, markers and `fitToCoordinates`): presentation only.
- The dial, SMS, share and route actions (`Linking.openURL`, `Share.share`): calls into the operating system. The route URL is also built from floating-point coordinates.
- Date parsing and `toLocaleString`: timestamps are integers and "now" is a parameter.
- EventsMap.Upcoming: the source reads the clock anew for each event (`new Date()` inside the filter callback, `src/pages/EventsMap.tsx:34`); the model compares every event with one `now`, so a clock tick during the filter (two events with the same `dateTime` landing on opposite sides) is not captured.
- The asynchrony of the key-value store: its reads and writes are synchronous map operations. A failed write is not modelled, so the case where the shown event is ahead of the store is not covered.
- JSON encoding and decoding: taken as identity. The exception `JSON.parse` would raise on a corrupt stored value is not modelled.
- Navigation, logout (`multiRemove` of the user keys) and the authentication context: the current user is a parameter.
- The events map screen's state write (`setEvents`): modelled as the value `ListUpcoming` computes, without a class around it.
- `volunteersNeeded` may be any JavaScript number; it is modelled as an integer.
- Decimal.IntToString: matches JavaScript's printing only for magnitudes below 10^21; larger integral numbers are printed in exponent form (`1e+21`), which is not modelled.
