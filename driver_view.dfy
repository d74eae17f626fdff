/**
 * The driver's screen: which actions are offered in which state of the
 * driver's own record, the seat-count input fallback, the location-publish
 * throttle, and the form that live updates must not overwrite while the
 * driver is editing it.
 */
module DriverView {
  import opened CarpoolTypes
  import opened Reservation
  import opened OfferStore
  import opened JsText
  import DriverCard

  // ---------------------------------------------------------------------
  // Status derivation and action gating
  // ---------------------------------------------------------------------

  /** `driver?.status ?? 'new'` */
  datatype ViewStatus = New | Stored(status: Status)

  function StatusOf(driver: Option<Driver>): (v: ViewStatus)
    ensures v == New <==> driver.None?
    ensures driver.Some? ==> v == Stored(driver.value.status)
  {
    match driver
    case None => New
    case Some(d) => Stored(d.status)
  }

  /**
   * The form heading. The source's fallback heading is only reachable with a
   * status outside the three stored values or an active status without a
   * record, neither of which a status read from the record can produce.
   */
  datatype Title = ShareTrip | TripUnderway | VehicleFull | EditTrip

  function FormTitle(driver: Option<Driver>): (t: Title)
    ensures t == ShareTrip <==> driver.None?
    ensures t == TripUnderway <==> driver.Some? && driver.value.status == Departed
    ensures t == VehicleFull <==> driver.Some? && driver.value.status != Departed && driver.value.seatsAvailable <= 0
  {
    match StatusOf(driver)
    case New => ShareTrip
    case Stored(Departed) => TripUnderway
    case Stored(_) => if driver.value.seatsAvailable <= 0 then VehicleFull else EditTrip
  }

  /** Which controls are rendered, and which are disabled, for a record and the submitting flag. */
  datatype Controls = Controls(
    formDisabled: bool,
    inputsDisabled: bool,
    submitShown: bool,
    departShown: bool,
    arriveShown: bool,
    cancelRideShown: bool,
    passengerListShown: bool,
    cancelPassengerDisabled: bool,
    locationPanelShown: bool,
    actionsDisabled: bool)

  function ControlsFor(driver: Option<Driver>, submitting: bool): (c: Controls)
    ensures c.formDisabled <==> driver.Some? && driver.value.status == Departed
    ensures c.inputsDisabled <==> c.formDisabled || submitting
    ensures c.submitShown <==> !c.formDisabled
    ensures c.departShown <==> driver.Some? && driver.value.status != Departed && driver.value.seatsAvailable <= 0
    ensures c.arriveShown <==> c.formDisabled
    ensures c.cancelRideShown <==> driver.Some? && driver.value.status != Departed
    ensures c.passengerListShown <==> driver.Some?
    ensures c.cancelPassengerDisabled <==> c.formDisabled || submitting
    ensures c.locationPanelShown <==> c.cancelRideShown
    ensures c.actionsDisabled <==> submitting
    ensures c.departShown ==> c.cancelRideShown && !c.arriveShown
  {
    var status := StatusOf(driver);
    var formDisabled := status == Stored(Departed);
    var activeOrFull := status == Stored(Active) || status == Stored(Full);
    var seatsLeft := match driver case Some(d) => d.seatsAvailable case None => 0;
    assert status.Stored? ==> status.status.Active? || status.status.Full? || status.status.Departed?;
    Controls(
      formDisabled,
      formDisabled || submitting,
      (status == New || activeOrFull) && !formDisabled,
      activeOrFull && seatsLeft <= 0,
      status == Stored(Departed),
      activeOrFull,
      status != New,
      status == Stored(Departed) || submitting,
      activeOrFull,
      submitting)
  }

  /** On a consistent record, depart is offered exactly when every seat is booked. */
  lemma DepartOfferedIffAtCapacity(d: Driver, submitting: bool)
    requires SeatsConsistent(d) && d.status != Departed
    ensures ControlsFor(Some(d), submitting).departShown <==> |d.passengers| == d.seatsTotal
  {
  }

  /** The driver's heading says full exactly when the passengers' card shows the full badge. */
  lemma TitleAgreesWithCard(d: Driver, hasOnBook: bool, isBooking: bool)
    ensures FormTitle(Some(d)) == VehicleFull
        <==> DriverCard.RenderStatusAndButton(d, hasOnBook, isBooking).badge == DriverCard.FullBadge
    ensures FormTitle(Some(d)) == TripUnderway
        <==> DriverCard.RenderStatusAndButton(d, hasOnBook, isBooking).badge == DriverCard.DepartedBadge
  {
  }

  // ---------------------------------------------------------------------
  // The form contents and the seat-count fallback
  // ---------------------------------------------------------------------

  /** `parseInt(value) || 1`: NaN and 0 both fall back to one seat. */
  function SeatsInput(value: string): (n: int)
    ensures n != 0
    ensures ParseInt(value).None? ==> n == 1
    ensures ParseInt(value).Some? ==> n == if ParseInt(value).value == 0 then 1 else ParseInt(value).value
  {
    match ParseInt(value)
    case None => 1
    case Some(v) => if v == 0 then 1 else v
  }

  /** A typed non-zero seat count is taken as it is; zero and unparsable text become one seat. */
  lemma SeatsInputKeepsTypedCount(n: int)
    ensures SeatsInput(IntToString(n)) == if n == 0 then 1 else n
  {
    ParseIntRoundTrip(n);
  }

  /** Text without a single digit, the empty string included, falls back to one seat. */
  lemma SeatsInputWithoutDigits(value: string)
    requires forall i :: 0 <= i < |value| ==> !IsDigit(value[i])
    ensures SeatsInput(value) == 1
  {
    var t := TrimStart(value);
    var body := SignedBody(t).1;
    assert body == t || body == t[1..];
    if body != [] {
      assert body[0] == value[|value| - |body|];
    }
  }

  /** The form's fields: the descriptive fields and the seat count. */
  datatype FormData = FormData(profile: Profile, seatsTotal: int)

  datatype FormField =
    | NameField | LineIdField | CarModelField | LicensePlateField
    | StartLocationField | EndLocationField | SeatsTotalField | RemarksField

  function InitialForm(): FormData {
    FormData(Profile("", "", "", Some(""), "", "", Some("")), 1)
  }

  /** The form as copied from a live record. */
  function FormFromDriver(d: Driver): FormData {
    FormData(d.profile, d.seatsTotal)
  }

  /** `handleChange`: set one field; the seat count goes through the fallback. */
  function ApplyEdit(f: FormData, field: FormField, value: string): (g: FormData)
    ensures field == SeatsTotalField ==> g == f.(seatsTotal := SeatsInput(value)) && g.seatsTotal != 0
    ensures field != SeatsTotalField ==> g.seatsTotal == f.seatsTotal
    ensures field == NameField ==> g.profile == f.profile.(name := value)
    ensures field == LineIdField ==> g.profile == f.profile.(lineId := value)
    ensures field == CarModelField ==> g.profile == f.profile.(carModel := value)
    ensures field == LicensePlateField ==> g.profile == f.profile.(licensePlate := Some(value))
    ensures field == StartLocationField ==> g.profile == f.profile.(startLocation := value)
    ensures field == EndLocationField ==> g.profile == f.profile.(endLocation := value)
    ensures field == RemarksField ==> g.profile == f.profile.(remarks := Some(value))
  {
    var p := f.profile;
    match field
    case NameField => f.(profile := p.(name := value))
    case LineIdField => f.(profile := p.(lineId := value))
    case CarModelField => f.(profile := p.(carModel := value))
    case LicensePlateField => f.(profile := p.(licensePlate := Some(value)))
    case StartLocationField => f.(profile := p.(startLocation := value))
    case EndLocationField => f.(profile := p.(endLocation := value))
    case SeatsTotalField => f.(seatsTotal := SeatsInput(value))
    case RemarksField => f.(profile := p.(remarks := Some(value)))
  }

  /** `{ ...formData, status: 'active' }`: what a submit sends. */
  function SubmitPatch(f: FormData): (p: Patch)
    ensures p.status == Some(Active) && p.seatsTotal == Some(f.seatsTotal) && p.profile == f.profile
  {
    Patch(f.profile, Some(f.seatsTotal), Some(Active))
  }

  /** The seat count the number input shows: `formData.seatsTotal || 1`. */
  function ShownSeats(f: FormData): (n: int)
    ensures n != 0
    ensures f.seatsTotal != 0 ==> n == f.seatsTotal
  {
    if f.seatsTotal == 0 then 1 else f.seatsTotal
  }

  /**
   * The browser's constraint validation, without which the form never
   * submits: the six descriptive inputs marked `required` are non-empty and
   * the shown seat count lies within the input's `min` 1 and `max` 6. The
   * remarks are optional.
   */
  predicate FormSubmittable(f: FormData) {
    && f.profile.name != "" && f.profile.lineId != "" && f.profile.carModel != ""
    && f.profile.licensePlate.GetOr("") != ""
    && f.profile.startLocation != "" && f.profile.endLocation != ""
    && 1 <= ShownSeats(f) <= 6
  }

  /**
   * A form that passes validation publishes a valid record with at most six
   * seats, whether it creates the record or edits a valid one.
   */
  lemma SubmittableFormPublishesValid(existing: Option<Driver>, id: string, f: FormData)
    requires existing.Some? ==> existing.value.id == id && ValidOffer(existing.value)
    requires FormSubmittable(f)
    requires Publish(existing, id, SubmitPatch(f)).Ok?
    ensures ValidOffer(Publish(existing, id, SubmitPatch(f)).value)
    ensures 0 <= Publish(existing, id, SubmitPatch(f)).value.seatsTotal <= 6
  {
    PublishEstablishesValid(existing, id, SubmitPatch(f));
  }

  /** An accepted submit leaves the record active with the form's contents, whether new or edited. */
  lemma SubmitWritesActiveRecord(existing: Option<Driver>, id: string, f: FormData)
    requires existing.Some? ==> existing.value.id == id
    requires Publish(existing, id, SubmitPatch(f)).Ok?
    ensures Publish(existing, id, SubmitPatch(f)).value.status == Active
    ensures Publish(existing, id, SubmitPatch(f)).value.profile == f.profile
    ensures Publish(existing, id, SubmitPatch(f)).value.seatsTotal == f.seatsTotal
  {
  }

  // ---------------------------------------------------------------------
  // The location-publish throttle
  // ---------------------------------------------------------------------

  const LocationThrottleMs: int := 15000

  /** A write is attempted only when more than 15 s have passed since the last completed one. */
  predicate ShouldPublish(now: int, lastWrite: int) {
    now - lastWrite > LocationThrottleMs
  }

  /**
   * A position fix delivered at `now`. The write it may trigger completes at
   * `doneAt`, and succeeds when `written` holds.
   */
  datatype Fix = Fix(now: int, doneAt: int, written: bool)

  /**
   * The last-write time a callback reads at time `t`. The callback awaits its
   * write and moves the time only once the write has completed, to the
   * completion time. Completions happen in time order, so at `t` the time is
   * the latest completion not after `t` among the successful writes issued
   * so far; before any has completed it is `start`, the completion time of
   * the last write before the stream.
   */
  function AnchorAt(start: int, writes: seq<Fix>, t: int): (a: int)
    ensures a >= start
    ensures forall i :: 0 <= i < |writes| && writes[i].doneAt <= t ==> a >= writes[i].doneAt
    ensures a == start || exists i :: 0 <= i < |writes| && writes[i].doneAt <= t && a == writes[i].doneAt
  {
    if writes == [] then start
    else
      var earlier := writes[..|writes| - 1];
      var a := AnchorAt(start, earlier, t);
      var w := writes[|writes| - 1];
      assert forall i :: 0 <= i < |earlier| ==> writes[i] == earlier[i];
      if w.doneAt <= t && w.doneAt > a then w.doneAt else a
  }

  /**
   * The fixes, in arrival order, whose position was written successfully.
   * Each callback compares its arrival time with the last-write time it
   * reads, which only the writes completed by then have moved.
   */
  function PublishedWrites(start: int, fixes: seq<Fix>): (w: seq<Fix>)
    ensures |w| <= |fixes|
    ensures forall i :: 0 <= i < |w| ==> w[i] in fixes && w[i].written
    decreases |fixes|
  {
    if fixes == [] then []
    else
      var earlier := fixes[..|fixes| - 1];
      var prev := PublishedWrites(start, earlier);
      var f := fixes[|fixes| - 1];
      assert forall x :: x in earlier ==> x in fixes;
      if f.written && ShouldPublish(f.now, AnchorAt(start, prev, f.now)) then prev + [f] else prev
  }

  /**
   * Writes spaced from the anchor and from every earlier write that had
   * completed when they started: more than 15 s after each.
   */
  predicate Spaced(start: int, w: seq<Fix>) {
    && (forall j :: 0 <= j < |w| ==> w[j].now - start > LocationThrottleMs)
    && (forall i, j :: 0 <= i < j < |w| && w[i].doneAt <= w[j].now ==>
          w[j].now - w[i].doneAt > LocationThrottleMs)
  }

  /**
   * Successful location writes are spaced from every earlier one that had
   * completed when they started, and from the starting anchor, whatever the
   * stream of fixes.
   */
  lemma {:induction false} PublishedWritesAreSpaced(start: int, fixes: seq<Fix>)
    ensures Spaced(start, PublishedWrites(start, fixes))
    decreases |fixes|
  {
    if fixes != [] {
      var earlier := fixes[..|fixes| - 1];
      var prev := PublishedWrites(start, earlier);
      var f := fixes[|fixes| - 1];
      PublishedWritesAreSpaced(start, earlier);
      if f.written && ShouldPublish(f.now, AnchorAt(start, prev, f.now)) {
        var w := prev + [f];
        var anchor := AnchorAt(start, prev, f.now);
        forall j | 0 <= j < |w| ensures w[j].now - start > LocationThrottleMs {
          if j < |prev| { assert w[j] == prev[j]; }
        }
        forall i, j | 0 <= i < j < |w| && w[i].doneAt <= w[j].now
          ensures w[j].now - w[i].doneAt > LocationThrottleMs
        {
          assert w[i] == prev[i];
          if j < |prev| {
            assert w[j] == prev[j];
          } else {
            assert w[j] == f && anchor >= prev[i].doneAt;
          }
        }
      }
    }
  }

  /**
   * The last fix of a stream is written exactly when its write succeeds and
   * it arrives more than 15 s after the start and after every earlier write
   * that had completed by then.
   */
  lemma PublishedWritesStep(start: int, fixes: seq<Fix>)
    requires fixes != []
    ensures
      var prev := PublishedWrites(start, fixes[..|fixes| - 1]);
      var f := fixes[|fixes| - 1];
      PublishedWrites(start, fixes)
        == if f.written && f.now - start > LocationThrottleMs
              && (forall i :: 0 <= i < |prev| && prev[i].doneAt <= f.now ==> f.now - prev[i].doneAt > LocationThrottleMs)
           then prev + [f] else prev
  {
  }

  /** Later fixes never take back a write: the writes of a prefix of the stream begin the writes of the stream. */
  lemma {:induction false} PublishedWritesGrow(start: int, fixes: seq<Fix>, n: nat)
    requires n <= |fixes|
    ensures PublishedWrites(start, fixes[..n]) <= PublishedWrites(start, fixes)
    decreases |fixes|
  {
    if n < |fixes| {
      var earlier := fixes[..|fixes| - 1];
      assert earlier[..n] == fixes[..n];
      PublishedWritesGrow(start, earlier, n);
    } else {
      assert fixes[..n] == fixes;
    }
  }

  /**
   * A fix past the throttle whose write succeeds is written, whatever
   * arrives after it: it follows the writes before it in the result.
   */
  lemma AllowedFixIsWritten(start: int, fixes: seq<Fix>, k: nat)
    requires k < |fixes| && fixes[k].written && fixes[k].now - start > LocationThrottleMs
    requires forall i :: 0 <= i < |PublishedWrites(start, fixes[..k])|
                         && PublishedWrites(start, fixes[..k])[i].doneAt <= fixes[k].now ==>
                         fixes[k].now - PublishedWrites(start, fixes[..k])[i].doneAt > LocationThrottleMs
    ensures PublishedWrites(start, fixes[..k]) + [fixes[k]] <= PublishedWrites(start, fixes)
    ensures fixes[k] in PublishedWrites(start, fixes)
  {
    var upTo := fixes[..k + 1];
    var prev := PublishedWrites(start, fixes[..k]);
    assert upTo[..k] == fixes[..k] && upTo[k] == fixes[k];
    PublishedWritesStep(start, upTo);
    assert PublishedWrites(start, upTo) == prev + [fixes[k]];
    PublishedWritesGrow(start, fixes, k + 1);
    assert PublishedWrites(start, fixes)[|prev|] == fixes[k];
  }

  /**
   * The throttle does not stop overlapping writes: a fix that arrives while
   * an earlier write is still in flight reads the old last-write time and
   * writes again, here one second after the first.
   */
  lemma OverlappingWritesBothGoOut()
    ensures PublishedWrites(0, [Fix(20000, 25000, true), Fix(21000, 26000, true)])
         == [Fix(20000, 25000, true), Fix(21000, 26000, true)]
  {
    var first := [Fix(20000, 25000, true)];
    var both := first + [Fix(21000, 26000, true)];
    assert both[..1] == first;
    assert first[..0] == [];
    assert PublishedWrites(0, first) == first;
    assert AnchorAt(0, first, 21000) == 0 by { assert first[..0] == []; }
  }

  // ---------------------------------------------------------------------
  // The driver session: form sync, location sharing and the action handlers
  // ---------------------------------------------------------------------

  datatype GeoError = Unsupported | PermissionDenied | PositionUnavailable | GeoTimeout | UnknownGeoError

  /**
   * The state the driver screen keeps across renders: the form and its dirty
   * flag, whether a position watch is running, and the time of the last
   * successful location write.
   */
  class DriverSession {
    const uid: string
    var form: FormData
    var dirty: bool
    var sharing: bool
    var watching: bool
    var lastLocationWrite: int
    var locationError: Option<GeoError>

    constructor (uid: string)
      ensures this.uid == uid
      ensures form == InitialForm() && !dirty
      ensures !sharing && !watching && lastLocationWrite == 0 && locationError == None
    {
      this.uid := uid;
      form := InitialForm();
      dirty := false;
      sharing := false;
      watching := false;
      lastLocationWrite := 0;
      locationError := None;
    }

    /**
     * A live snapshot of the driver's own record: copied into the form only
     * while the form is untouched; a deleted record resets the form.
     */
    method OnSnapshot(driver: Option<Driver>)
      modifies this`form, this`dirty
      ensures driver.Some? && !old(dirty) ==> form == FormFromDriver(driver.value) && !dirty
      ensures driver.Some? && old(dirty) ==> form == old(form) && dirty
      ensures driver.None? ==> form == InitialForm() && !dirty
    {
      if driver.Some? && !dirty {
        form := FormFromDriver(driver.value);
      } else if driver.None? {
        form := InitialForm();
        dirty := false;
      }
    }

    /** `handleChange`: any edit marks the form dirty. */
    method Edit(field: FormField, value: string)
      modifies this`form, this`dirty
      ensures dirty && form == ApplyEdit(old(form), field, value)
    {
      dirty := true;
      form := ApplyEdit(form, field, value);
    }

    /**
     * `handleSubmit`, which the browser fires only for a form that passes its
     * constraint validation: send the form with status active; an accepted
     * write clears the dirty flag.
     */
    method Submit(store: Store) returns (r: Outcome)
      requires store.Valid() && FormSubmittable(form)
      modifies this`dirty, store
      ensures store.Valid()
      ensures AllValid(old(store.drivers)) ==> AllValid(store.drivers)
      ensures r == Pass ==> uid in store.drivers && 0 <= store.drivers[uid].seatsTotal <= 6
      ensures r == Pass ==> !dirty && uid in store.drivers
      ensures r == Pass ==>
        && store.drivers[uid].status == Active
        && store.drivers[uid].profile == form.profile
        && store.drivers[uid].seatsTotal == form.seatsTotal
      ensures r == Pass ==> forall k :: k in old(store.drivers) && k != uid ==>
                              k in store.drivers && store.drivers[k] == old(store.drivers)[k]
      ensures r.Fail? ==> dirty == old(dirty) && store.drivers == old(store.drivers)
      ensures r == Fail(DuplicateLineId) <==>
                form.profile.lineId != "" && LineIdTakenByOther(old(store.drivers), uid, form.profile.lineId)
      ensures !(form.profile.lineId != "" && LineIdTakenByOther(old(store.drivers), uid, form.profile.lineId)) ==>
        var existing := if uid in old(store.drivers) then Some(old(store.drivers)[uid]) else None;
        match Publish(existing, uid, SubmitPatch(form))
        case Ok(d) => r == Pass && store.drivers == old(store.drivers)[uid := d]
        case Err(e) => r == Fail(e) && store.drivers == old(store.drivers)
    {
      r := store.AddOrUpdateDriver(uid, SubmitPatch(form));
      if r == Pass {
        dirty := false;
      }
    }

    /** `startSharingLocation` */
    method StartSharing(geolocationSupported: bool)
      modifies this`sharing, this`watching, this`locationError
      ensures !geolocationSupported ==>
        locationError == Some(Unsupported) && sharing == old(sharing) && watching == old(watching)
      ensures geolocationSupported ==> locationError == None && sharing && watching
    {
      if !geolocationSupported {
        locationError := Some(Unsupported);
        return;
      }
      locationError := None;
      sharing := true;
      watching := true;
    }

    /**
     * `stopSharingLocation(clearFromDb)`: end the watch; optionally clear the
     * stored position, ignoring a failed clear.
     */
    method StopSharing(store: Store, clearFromDb: bool)
      requires store.Valid()
      modifies this`sharing, this`watching, store
      ensures store.Valid()
      ensures !sharing && !watching
      ensures !clearFromDb || uid !in old(store.drivers) ==> store.drivers == old(store.drivers)
      ensures clearFromDb && uid in old(store.drivers) ==>
        store.drivers == old(store.drivers)[uid := old(store.drivers)[uid].(location := None)]
    {
      watching := false;
      sharing := false;
      if clearFromDb {
        var _ := store.UpdateDriverLocation(uid, None);
      }
    }

    /**
     * The position watch calls back with a fix at time `now`: the write is
     * issued only past the throttle and is applied to the store here. The
     * last-write time is left alone; it moves when the write completes.
     */
    method OnPosition(store: Store, coords: Coords, now: int) returns (attempted: bool, written: bool)
      requires store.Valid() && watching
      modifies store
      ensures store.Valid()
      ensures attempted == ShouldPublish(now, lastLocationWrite)
      ensures written <==> attempted && uid in old(store.drivers)
      ensures written ==>
        store.drivers == old(store.drivers)[uid := old(store.drivers)[uid].(location := Some(coords))]
      ensures !written ==> store.drivers == old(store.drivers)
    {
      attempted := ShouldPublish(now, lastLocationWrite);
      written := false;
      if attempted {
        var r := store.UpdateDriverLocation(uid, Some(coords));
        written := r == Pass;
      }
    }

    /**
     * A successful location write completes at `doneAt`: the last-write time
     * becomes that time. Called in completion order, this keeps the time
     * equal to `AnchorAt` of the writes issued so far.
     */
    method OnLocationWritten(doneAt: int)
      modifies this`lastLocationWrite
      ensures lastLocationWrite == doneAt
    {
      lastLocationWrite := doneAt;
    }

    /** The position watch reports an error: record it and stop without clearing. */
    method OnWatchError(store: Store, e: GeoError)
      requires store.Valid() && e != Unsupported
      modifies this`sharing, this`watching, this`locationError, store
      ensures store.Valid()
      ensures locationError == Some(e) && !sharing && !watching
      ensures store.drivers == old(store.drivers)
    {
      locationError := Some(e);
      StopSharing(store, false);
    }

    /** `handleToggleLocationSharing`: a stop clears the stored position. */
    method ToggleSharing(store: Store, geolocationSupported: bool)
      requires store.Valid()
      modifies this`sharing, this`watching, this`locationError, store
      ensures store.Valid()
      ensures old(sharing) ==> !sharing && !watching && locationError == old(locationError)
      ensures old(sharing) && uid in old(store.drivers) ==>
        store.drivers == old(store.drivers)[uid := old(store.drivers)[uid].(location := None)]
      ensures old(sharing) && uid !in old(store.drivers) ==> store.drivers == old(store.drivers)
      ensures !old(sharing) ==> store.drivers == old(store.drivers)
      ensures !old(sharing) && geolocationSupported ==> locationError == None && sharing && watching
      ensures !old(sharing) && !geolocationSupported ==>
        locationError == Some(Unsupported) && !sharing && watching == old(watching)
    {
      if sharing {
        StopSharing(store, true);
      } else {
        StartSharing(geolocationSupported);
      }
    }

    /** `handleDepart` (confirmed): stop sharing and clear the position, then mark the record departed. */
    method Depart(store: Store) returns (r: Outcome)
      requires store.Valid()
      modifies this`sharing, this`watching, store
      ensures store.Valid()
      ensures !sharing && !watching
      ensures uid !in old(store.drivers) ==> r == Fail(OfferNotFound) && store.drivers == old(store.drivers)
      ensures uid in old(store.drivers) ==>
        r == Pass &&
        store.drivers == old(store.drivers)[uid := old(store.drivers)[uid].(location := None, status := Departed)]
    {
      StopSharing(store, true);
      r := store.UpdateDriverStatus(uid);
    }

    /**
     * `handleCancelRide` and `handleArrive` (confirmed): both stop sharing
     * without clearing the position, then delete the record with its roster.
     */
    method EndTrip(store: Store)
      requires store.Valid()
      modifies this`sharing, this`watching, store
      ensures store.Valid()
      ensures !sharing && !watching
      ensures store.drivers == old(store.drivers) - {uid}
    {
      StopSharing(store, false);
      store.DeleteDriver(uid);
    }

    /**
     * `handleCancelPassenger` (confirmed): release a passenger taken from the
     * driver's own roster, which frees exactly one seat.
     */
    method CancelPassenger(store: Store, p: PassengerInfo) returns (r: Outcome)
      requires store.Valid()
      modifies store
      ensures store.Valid()
      ensures uid !in old(store.drivers) ==> r == Fail(OfferNotFound) && store.drivers == old(store.drivers)
      ensures uid in old(store.drivers) ==>
        match Release(old(store.drivers)[uid], p)
        case Ok(d) => r == Pass && store.drivers == old(store.drivers)[uid := d]
        case Err(e) => r == Fail(e) && store.drivers == old(store.drivers)
      ensures uid in old(store.drivers) && ValidOffer(old(store.drivers)[uid])
              && p in old(store.drivers)[uid].passengers ==>
        && r == Pass && uid in store.drivers
        && ValidOffer(store.drivers[uid])
        && store.drivers[uid].seatsAvailable == old(store.drivers)[uid].seatsAvailable + 1
        && |store.drivers[uid].passengers| == |old(store.drivers)[uid].passengers| - 1
        && (forall i :: 0 <= i < |old(store.drivers)[uid].passengers| && old(store.drivers)[uid].passengers[i] == p ==>
              store.drivers[uid].passengers
                == old(store.drivers)[uid].passengers[..i] + old(store.drivers)[uid].passengers[i + 1..])
    {
      if uid in store.drivers && ValidOffer(store.drivers[uid]) && p in store.drivers[uid].passengers {
        var d := store.drivers[uid];
        ReleaseExactEntryPreservesValid(d, p);
        forall i | 0 <= i < |d.passengers| && d.passengers[i] == p
          ensures Release(d, p).value.passengers == d.passengers[..i] + d.passengers[i + 1..]
        {
          ReleaseRemovesThatEntry(d, p, i);
        }
      }
      r := store.CancelPassengerBooking(uid, p);
    }
  }
}
