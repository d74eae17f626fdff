# Carpool seat reservation — a verified Dafny model

This project models the seat-reservation core of a carpool matcher. Drivers
publish trip offers with a fixed number of seats, and passengers reserve
seats on them. Each driver owns one record in a document store, keyed by the
driver's user id. The record holds `seatsTotal`, `seatsAvailable`, the
passenger roster (`{userId, lineId}` entries), a status (`active`, `full`,
`departed`), the descriptive fields and an optional position.

The model has five modules:

- `CarpoolTypes` (`carpool_types.dfy`): the records and the record invariant
  `ValidOffer`. The invariant is `0 <= seatsAvailable` and
  `seatsAvailable + |passengers| == seatsTotal`, plus "no userId twice on the roster".
- `Reservation` (`reservation.dfy`): the body of each store transaction, as a
  pure function from the record it read to the record it writes or the error
  it throws. `Reserve` is `requestRide`, `Release` is `cancelPassengerBooking`
  and `Publish` is the merge write of `addOrUpdateDriver`. Firestore's
  `arrayUnion` and `arrayRemove` are modelled as written. Lemmas cover
  invariant preservation, no oversell over any serial run of requests, the
  reserve/release round trip and a worked booking scenario.
- `OfferStore` (`offer_store.dfy`): `class Store` holds `drivers: map<string, Driver>`.
  Each transaction or single-document write is one atomic method. The
  duplicate LINE ID check is the query-and-flag loop of the source. The
  roster view is the query filter of `listenToDrivers`.
- `JsText` (`js_text.dfy`): `trim` and base-10 `parseInt`, which the card and
  the form rely on.
- `DriverCard` (`driver_card.dfy`): the passenger-facing card. It shows a
  departed, full or seats-left badge, a book button, the remarks line and
  the passenger tags.
- `DriverView` (`driver_view.dfy`): the driver's own screen.
  - Which actions are offered in which state.
  - The seat-count input fallback (`parseInt(value) || 1`).
  - The 15-second location throttle, measured from the last completed write.
  - `class DriverSession`, holding the dirty-form flag machine and the
    location-sharing refs, and the confirmed action handlers (submit, depart,
    cancel/arrive, cancel a passenger) run against a `Store`.

"Full" is never written by any operation. It is derived from
`seatsAvailable <= 0` wherever it is shown. The store methods state that a
store without a stored `Full` status keeps having none. The only exception
is an edit whose patch explicitly carries `Full`, which the driver screen
never sends.

Behaviour of the code that the model keeps, and that a reader
might not expect:

- `requestRide` does not look at the status. A departed offer with a free
  seat accepts bookings. The screens make this unreachable: depart is
  offered only at `seatsAvailable <= 0`, and cancelling a passenger is
  disabled once departed.
- `cancelPassengerBooking` searches the roster by userId but removes the
  whole `{userId, lineId}` value. A call whose lineId differs from the stored
  entry frees a seat and removes nobody (`ReleaseStaleEntryBreaksInvariant`).
  The driver screen only passes entries taken from the roster, and for those
  the invariant is kept (`ReleaseExactEntryPreservesValid`,
  `DriverSession.CancelPassenger`).
- An edit that leaves out `seatsTotal` counts it as 0. On an existing record
  with an empty roster this zeroes `seatsAvailable` and keeps the old
  capacity (`PublishWithoutCapacityDrifts`). The driver screen always sends
  a seat count.
- A non-positive typed seat count other than 0 (such as `-3`) passes the
  fallback unchanged (`SeatsInputKeepsTypedCount`). Such a form cannot be
  submitted: the browser's constraint validation of the seat input (`min` 1,
  `max` 6) and of the six `required` text inputs blocks it
  (`DriverView.FormSubmittable`, the precondition of `DriverSession.Submit`). A form
  that passes it publishes a valid record with at most six seats
  (`SubmittableFormPublishesValid`).
- The location throttle compares each fix with the time of the last
  *completed* write. The callback is asynchronous, so a fix that arrives
  while a write is still in flight writes again. Two fixes one second apart
  can both be written (`OverlappingWritesBothGoOut`). What the throttle does
  guarantee is spacing from every write that had completed
  (`PublishedWritesAreSpaced`).
- Deleting an absent record is not an error. Updating the status or the
  position of an absent record fails.

## Model

| member | source | states |
|---|---|---|
| `Reservation.ArrayUnion` | src/services/firebase.ts:81 | the entry is on the result; an entry already present leaves the array unchanged; an entry not yet present is appended at the end |
| `Reservation.ArrayRemove` | src/services/firebase.ts:98 | the result holds every entry except those equal to the removed value as a whole (multiset with that value's count set to 0) |
| `Reservation.Reserve` | src/services/firebase.ts:69-86 | succeeds iff the userId is not on the roster and a seat is free; a booked userId gives AlreadyBooked even with free seats; no free seat gives SoldOut; on success exactly one seat is taken, never going below 0, the passenger is appended and no other field changes |
| `Reservation.Release` | src/services/firebase.ts:89-104 | succeeds iff the userId is on the roster, otherwise BookingNotFound; on success exactly one seat is freed, exactly the entries equal to the given value leave the roster, and no other field changes |
| `Reservation.ReservePreservesValid` | src/services/firebase.ts:78-82 | a successful reservation on a valid record yields a valid record |
| `Reservation.ReleaseExactEntryPreservesValid` | src/services/firebase.ts:95-99 | releasing an exact roster entry of a valid record succeeds, shortens the roster by one and keeps the record valid |
| `Reservation.ArrayRemoveKeepsOrder` | src/services/firebase.ts:98 | removing from a concatenation removes from each part, so the entries that stay keep their order |
| `Reservation.ReleaseRemovesThatEntry` | src/services/firebase.ts:95-99 | on a roster with unique riders, releasing the entry stored at position i succeeds and leaves exactly the roster without position i, the others in their order |
| `Reservation.ReleaseStaleEntryBreaksInvariant` | src/services/firebase.ts:95-99 | releasing a booked userId with a lineId that differs from the stored entry succeeds, leaves the roster unchanged and breaks the seat invariant |
| `Reservation.ReserveThenReleaseRestores` | src/services/firebase.ts:69-104 | cancelling a booking right after it was made restores the record exactly |
| `Reservation.NoOversell` | src/services/firebase.ts:78-85 | over any serial run of booking requests on a valid record, the successes never exceed the free seats; the free seats drop by exactly the successes; the record stays valid |
| `Reservation.FreshRequestsFillSeats` | src/services/firebase.ts:75-85 | requests from distinct passengers not yet booked succeed exactly min(requests, free seats) times |
| `Reservation.NoOversellOnSoldOut` | src/services/firebase.ts:83-85 | once no seat is free, every further request fails and the record is unchanged |
| `Reservation.BookingScenarioFillsUp` | src/services/firebase.ts:69-86 | with three seats: two bookings leave 1 free; a repeat booking is AlreadyBooked; a third booking leaves 0; the next is SoldOut |
| `Reservation.BookingScenarioFreedSeat` | src/services/firebase.ts:89-104 | on the full three-seat record, cancelling the middle passenger frees one seat and a new passenger then takes it |
| `Reservation.Publish` | src/services/firebase.ts:122-144 | a missing seatsTotal counts as 0; an existing record whose roster exceeds it is refused with CapacityBelowBooked; otherwise the roster and position are kept and seatsAvailable = seatsTotal − roster size; a new record is active, empty and has every seat free |
| `Reservation.PublishEstablishesValid` | src/services/firebase.ts:135-141 | a publish with a non-negative capacity gives a valid new record; an accepted edit with a capacity keeps an existing record valid |
| `Reservation.PublishMovesFreeSeatsByDelta` | src/services/firebase.ts:135-137 | an accepted capacity change moves the free seats by the same amount |
| `Reservation.PublishWithoutCapacityDrifts` | src/services/firebase.ts:124-137 | an edit without seatsTotal on a record with an empty roster and a positive capacity sets seatsAvailable to 0 and breaks the seat invariant |
| `OfferStore.RosterView` | src/services/firebase.ts:53-60 | the roster contains every stored record (all three statuses pass the filter), and each roster entry is the record stored under its own id |
| `OfferStore.SampleDriver` | src/services/firebase.ts:171-188 | the sample record is valid, active, has 3 seats and an empty roster |
| `OfferStore.Store.RequestRide` | src/services/firebase.ts:69-87 | a missing record fails with OfferNotFound; otherwise the store holds exactly what `Reserve` decides, or is unchanged on failure; validity, absence of a stored `full` status and LINE ID uniqueness are preserved |
| `OfferStore.Store.CancelPassengerBooking` | src/services/firebase.ts:89-104 | a missing record fails with OfferNotFound; otherwise the store holds exactly what `Release` decides; validity is preserved whenever the given entry is an exact roster entry or its userId is absent |
| `OfferStore.Store.HasDuplicateLineId` | src/services/firebase.ts:110-120 | the loop over the records holding the LINE ID flags a duplicate iff a driver other than the caller holds it |
| `OfferStore.Store.AddOrUpdateDriver` | src/services/firebase.ts:106-145 | a non-empty LINE ID held by another driver fails with DuplicateLineId and writes nothing; an empty one skips the check; otherwise the store holds what `Publish` decides; non-empty LINE IDs stay unique; validity is kept when a capacity is sent |
| `OfferStore.Store.DeleteDriver` | src/services/firebase.ts:147-150 | the record and its roster are gone from the store and from the roster view; nothing else changes; an absent record is no error |
| `OfferStore.Store.UpdateDriverStatus` | src/services/firebase.ts:152-155 | only the status changes, to departed; seats and roster are untouched; a missing record fails |
| `OfferStore.Store.UpdateDriverLocation` | src/services/firebase.ts:157-163 | only the position changes, and None clears it; a missing record fails |
| `OfferStore.Store.SeedInitialData` | src/services/firebase.ts:165-190 | an empty store receives exactly the valid sample record; a non-empty store is unchanged |
| `JsText.Trim` | components/DriverCard.tsx:63 | the trimmed string is a slice of the input with only whitespace before and after it, neither starts nor ends with ECMAScript whitespace, and is empty exactly when every character is whitespace |
| `JsText.ParseInt` | src/components/DriverView.tsx:155 | NaN (None) exactly when, after leading whitespace and an optional sign, no digit follows; a negative result only after a leading '-' |
| `JsText.ParseIntRoundTrip` | src/components/DriverView.tsx:155 | parseInt reads back every integer written in decimal |
| `DriverCard.RenderStatusAndButton` | components/DriverCard.tsx:18-43 | departed shows the departed badge first; otherwise `seatsAvailable <= 0` shows full; otherwise the badge shows seatsAvailable / seatsTotal; a book button appears exactly in that last case with onBook given, and is disabled exactly while booking |
| `DriverCard.ShowsRemarks` | components/DriverCard.tsx:63-67 | remarks are shown iff present and not entirely whitespace |
| `DriverCard.RenderPassengers` | components/DriverCard.tsx:69-76 | the passenger section appears iff the roster is non-empty, with one LINE ID tag per passenger in roster order |
| `DriverCard.RenderCard` | components/DriverCard.tsx:21-79 | the card is dimmed exactly when the record is departed, which is exactly when it shows the departed badge; its status area, remarks line (shown iff the remarks are present and not blank) and passenger tags are those of the record |
| `DriverCard.StoredFullStatusIgnored` | components/DriverCard.tsx:18-19 | a record stored as `full` renders exactly like the same record stored as `active` |
| `DriverCard.BookButtonOnlyBelowCapacity` | components/DriverCard.tsx:27-41 | on a consistent record a book button implies a roster below capacity, and the full badge implies a roster at capacity |
| `DriverView.StatusOf` | src/components/DriverView.tsx:246 | `new` exactly when there is no record, otherwise the stored status |
| `DriverView.FormTitle` | src/components/DriverView.tsx:246-261 | no record gives the new-trip title; departed gives the in-progress title; active or full gives the full title iff `seatsAvailable <= 0` |
| `DriverView.ControlsFor` | src/components/DriverView.tsx:246-302 | the form is disabled iff departed; submit is offered iff not departed; depart iff active/full with `seatsAvailable <= 0`; arrive iff departed; cancel-ride and the location panel iff active/full; the passenger list iff a record exists; cancelling a passenger is disabled iff departed or submitting |
| `DriverView.DepartOfferedIffAtCapacity` | src/components/DriverView.tsx:288 | on a consistent, not departed record, depart is offered iff every seat is booked |
| `DriverView.TitleAgreesWithCard` | src/components/DriverView.tsx:249-261 | the driver's full and in-progress titles appear exactly when the passengers' card shows the full and departed badges |
| `DriverView.SeatsInput` | src/components/DriverView.tsx:155 | the seat count is never 0: unparsable text and 0 become 1, any other parsed value is kept |
| `DriverView.SeatsInputKeepsTypedCount` | src/components/DriverView.tsx:155 | a typed integer is kept as it is, except 0, which becomes 1 |
| `DriverView.SeatsInputWithoutDigits` | src/components/DriverView.tsx:155 | text without any digit, the empty string included, becomes 1 |
| `DriverView.ApplyEdit` | src/components/DriverView.tsx:152-156 | a seat-count edit sets the seat count through the fallback, so it is never 0; every other edit keeps the seat count and sets exactly its own profile field (the plate and remarks as present values) |
| `DriverView.SubmitPatch` | src/components/DriverView.tsx:162 | a submit sends the form's fields, its seat count and status active |
| `DriverView.ShownSeats` | src/components/DriverView.tsx:282 | the seat input shows the form's count, or 1 for a count of 0; it never shows 0 |
| `DriverView.SubmittableFormPublishesValid` | src/components/DriverView.tsx:276-282 | a form passing the browser's validation publishes a valid record with 0 to 6 seats, creating one or editing a valid one |
| `DriverView.SubmitWritesActiveRecord` | src/components/DriverView.tsx:162 | an accepted submit leaves the record active with the form's fields and seat count, whether it created or edited the record |
| `DriverView.AnchorAt` | src/components/DriverView.tsx:106-109 | the last-write time a callback reads at time t is the latest completion time not after t among the successful writes issued so far, or the starting time when none has completed |
| `DriverView.PublishedWrites` | src/components/DriverView.tsx:102-113 | the successful writes of a stream of fixes are among its fixes, each one successful |
| `DriverView.PublishedWritesStep` | src/components/DriverView.tsx:102-113 | the last fix of a stream is written exactly when its write succeeds and it arrives more than 15 000 ms after the start and after every earlier write completed by then |
| `DriverView.PublishedWritesGrow` | src/components/DriverView.tsx:102-113 | later fixes never take back a write: the writes of a prefix of the stream are a prefix of the stream's writes |
| `DriverView.AllowedFixIsWritten` | src/components/DriverView.tsx:102-113 | a fix past the throttle whose write succeeds is written, directly after the writes before it, whatever fixes follow |
| `DriverView.PublishedWritesAreSpaced` | src/components/DriverView.tsx:102-113 | over any stream of fixes, each successful write starts more than 15 000 ms after the starting time and after every earlier successful write that had completed when it started |
| `DriverView.OverlappingWritesBothGoOut` | src/components/DriverView.tsx:102-113 | fixes at 20 000 ms and 21 000 ms are both written when the first write completes only at 25 000 ms |
| `DriverView.DriverSession.constructor` | src/components/DriverView.tsx:20-49 | the session starts with the initial form, not dirty, not sharing, and last-write time 0 |
| `DriverView.DriverSession.OnSnapshot` | src/components/DriverView.tsx:58-76 | a live record overwrites the form only when it is not dirty; a deleted record resets the form and clears the dirty flag |
| `DriverView.DriverSession.Edit` | src/components/DriverView.tsx:152-156 | any edit sets the dirty flag and applies the edit |
| `DriverView.DriverSession.Submit` | src/components/DriverView.tsx:158-172 | callable only on a form passing the browser's validation; all records stay valid if they were; an accepted submit stores 0 to 6 seats, clears the dirty flag and leaves the driver's record active with the form's contents; a refused one changes neither flag nor store; a duplicate LINE ID is refused exactly when another driver holds the non-empty ID; otherwise the store receives exactly the record `Publish` makes of the stored one and the form (roster kept, free seats moved by the capacity change), or stays unchanged with `Publish`'s error |
| `DriverView.DriverSession.StartSharing` | src/components/DriverView.tsx:94-101 | without geolocation an error is recorded and nothing starts; otherwise the error clears and a watch starts |
| `DriverView.DriverSession.StopSharing` | src/components/DriverView.tsx:79-92 | the watch ends; the stored position is cleared only when asked and the record exists |
| `DriverView.DriverSession.OnPosition` | src/components/DriverView.tsx:103-108 | a write is attempted iff more than 15 000 ms have passed since the last completed write; it stores the position exactly when attempted on an existing record, and otherwise leaves the store unchanged |
| `DriverView.DriverSession.OnLocationWritten` | src/components/DriverView.tsx:109 | a completed write sets the last-write time to its completion time |
| `DriverView.DriverSession.OnWatchError` | src/components/DriverView.tsx:115-123 | a watch error is recorded and sharing stops without touching the store |
| `DriverView.DriverSession.ToggleSharing` | src/components/DriverView.tsx:134-140 | stopping ends the watch, keeps the error, and clears the stored position of an existing record (an absent one leaves the store unchanged); starting leaves the store unchanged, and either clears the error and starts the watch or, without geolocation, records the unsupported error and starts nothing |
| `DriverView.DriverSession.Depart` | src/components/DriverView.tsx:192-208 | sharing stops and the position is cleared before the status becomes departed; seats and roster are untouched |
| `DriverView.DriverSession.EndTrip` | src/components/DriverView.tsx:174-226 | cancel and arrive both stop sharing without clearing the position, then delete the record with its roster |
| `DriverView.DriverSession.CancelPassenger` | src/components/DriverView.tsx:229-244 | the store changes exactly as `Release` decides, and not at all on failure; cancelling the entry at position i of a valid record frees exactly one seat, leaves the roster without position i, the rest in order, and keeps the record valid |

## Left out

- Firebase configuration, app initialisation and anonymous sign-in (src/services/firebase.ts:19-48), and the environment-variable types. These are I/O against a foreign SDK.
- Transaction contention, retries and linearizability. Each `runTransaction` is one atomic method.
- OfferStore.Store.AddOrUpdateDriver: the duplicate LINE ID query, the read of the record (src/services/firebase.ts:122) and the merge write (src/services/firebase.ts:144) run in no transaction, but the model takes them as one atomic step. In the source a booking or cancellation committed between that read and the write is silently overwritten, because `passengers` and `seatsAvailable` are written as absolute values. Two drivers can also take the same LINE ID at once. The model's roster and LINE ID guarantees for this method are therefore stronger than the source's.
- DriverView.DriverSession.OnPosition: the position write is applied to the store when it is issued, and its completion is the separate `OnLocationWritten` step. The interleaving of the two across callbacks is modelled on values by `AnchorAt` and `PublishedWrites`, not by the session object.
- `onSnapshot` delivery and unsubscribe. The roster is modelled only as its filter (`RosterView`). The single-record subscription is modelled as the input of `DriverSession.OnSnapshot`.
- `serverTimestamp` / `updatedAt`. This is a server clock and is not modelled.
- Latitude and longitude values. They are floats, and are kept as an opaque pair that is only stored or cleared.
- Geolocation failures of `updateDriverLocation` other than a missing record (network errors). The model fails a location write only when the record is absent.
- Modal confirmations, alert texts, `switchToPassengerView` and the transient `isSubmitting` flag. Only the confirmed path of each handler is modelled. `isSubmitting` is an input of `ControlsFor`.
- React rendering, the Modal component, the map view and App view switching. They are UI with no invariants.
- The passenger screen's trimming and blank check of the typed LINE ID before booking (components/PassengerView.tsx:45, 51). `requestRide` itself accepts any passenger value.
- The duplicate `types.ts` at the repository root. It mirrors src/types.ts, which is modelled once.
- `seedInitialData`'s logging and error swallowing.
- Patches are modelled with all descriptive fields present. `Partial<Driver>` keys absent from a patch, and `undefined` values, are not modelled; the driver screen always sends every form field.
- Reservation.Publish: when a new record is created from a patch without `seatsTotal`, the source leaves the field absent, but the model stores 0. This cannot be observed, because `seatsAvailable` is 0 and the card shows the full badge without the capacity.
- JsText.ParseIntRoundTrip: `parseInt`'s radix-16 `0x` prefix and double-precision rounding of very long digit strings are not modelled. A number input never produces the former.
- Integer width. JavaScript numbers are doubles; counts and times are unbounded integers here.
- Error messages are modelled as the `Error` constructors, not as their texts.
