/**
 * The driver-record store: a keyed document collection holding one offer
 * per driver id. Every Firestore transaction or single-document write of the
 * service layer is one atomic method here.
 */
module OfferStore {
  import opened CarpoolTypes
  import opened Reservation

  /** The roster query's `status in [...]` filter. */
  predicate InRosterQuery(s: Status) {
    s == Active || s == Full || s == Departed
  }

  /** Every record is stored under its own id. */
  predicate KeysMatch(drivers: map<string, Driver>) {
    forall k :: k in drivers ==> drivers[k].id == k
  }

  /** Every record satisfies the seat invariant and has unique riders. */
  predicate AllValid(drivers: map<string, Driver>) {
    forall k :: k in drivers ==> ValidOffer(drivers[k])
  }

  /** No stored record carries the status `Full`. */
  predicate NoFullStatus(drivers: map<string, Driver>) {
    forall k :: k in drivers ==> drivers[k].status != Full
  }

  /** No two drivers share a non-empty LINE ID. */
  predicate UniqueLineIds(drivers: map<string, Driver>) {
    forall a, b :: a in drivers && b in drivers && a != b && drivers[a].profile.lineId != "" ==>
      drivers[a].profile.lineId != drivers[b].profile.lineId
  }

  /** Some driver other than `userId` holds `lineId`. */
  predicate LineIdTakenByOther(drivers: map<string, Driver>, userId: string, lineId: string) {
    exists k :: k in drivers && k != userId && drivers[k].profile.lineId == lineId
  }

  /**
   * The roster that `listenToDrivers` delivers: the records whose status
   * passes the query filter, each carrying its document id.
   */
  function RosterView(drivers: map<string, Driver>): (r: set<Driver>)
    requires KeysMatch(drivers)
    ensures forall k :: k in drivers ==> drivers[k] in r
    ensures forall d :: d in r ==> d.id in drivers && drivers[d.id] == d
  {
    set k | k in drivers && InRosterQuery(drivers[k].status) :: drivers[k]
  }

  /** The record `seedInitialData` inserts into an empty store. */
  function SampleDriver(): (d: Driver)
    ensures d.id == SampleDriverId && ValidOffer(d) && d.status == Active
    ensures d.seatsTotal == 3 && d.passengers == []
  {
    Driver(SampleDriverId,
           Profile("陳師傅 (教學範例)", "carpool-demo", "Toyota RAV4", Some("ABC-1234"),
                   "台北101", "桃園國際機場", Some("可放大件行李，車內禁菸，謝謝。")),
           3, 3, [], Active, Some(Coords(25.033964, 121.564468)))
  }

  const SampleDriverId: string := "sample-driver-01"

  class Store {
    var drivers: map<string, Driver>

    ghost predicate Valid()
      reads this
    {
      KeysMatch(drivers)
    }

    constructor ()
      ensures Valid() && drivers == map[]
    {
      drivers := map[];
    }

    /** `requestRide`: one transaction reserving a seat on `driverId`'s offer. */
    method RequestRide(driverId: string, passenger: PassengerInfo) returns (r: Outcome)
      requires Valid()
      modifies this
      ensures Valid()
      ensures driverId !in old(drivers) ==> r == Fail(OfferNotFound) && drivers == old(drivers)
      ensures driverId in old(drivers) ==>
        match Reserve(old(drivers)[driverId], passenger)
        case Ok(d) => r == Pass && drivers == old(drivers)[driverId := d]
        case Err(e) => r == Fail(e) && drivers == old(drivers)
      ensures AllValid(old(drivers)) ==> AllValid(drivers)
      ensures NoFullStatus(old(drivers)) ==> NoFullStatus(drivers)
      ensures UniqueLineIds(old(drivers)) ==> UniqueLineIds(drivers)
    {
      if driverId !in drivers {
        return Fail(OfferNotFound);
      }
      var data := drivers[driverId];
      match Reserve(data, passenger)
      case Ok(d) =>
        if ValidOffer(data) {
          ReservePreservesValid(data, passenger);
        }
        drivers := drivers[driverId := d];
        r := Pass;
      case Err(e) =>
        r := Fail(e);
    }

    /**
     * `cancelPassengerBooking`: one transaction releasing the seat of
     * `passenger` on `driverId`'s offer.
     */
    method CancelPassengerBooking(driverId: string, passenger: PassengerInfo) returns (r: Outcome)
      requires Valid()
      modifies this
      ensures Valid()
      ensures driverId !in old(drivers) ==> r == Fail(OfferNotFound) && drivers == old(drivers)
      ensures driverId in old(drivers) ==>
        match Release(old(drivers)[driverId], passenger)
        case Ok(d) => r == Pass && drivers == old(drivers)[driverId := d]
        case Err(e) => r == Fail(e) && drivers == old(drivers)
      ensures AllValid(old(drivers)) && (driverId in old(drivers) ==>
                (passenger in old(drivers)[driverId].passengers ||
                 !Booked(old(drivers)[driverId].passengers, passenger.userId)))
              ==> AllValid(drivers)
      ensures NoFullStatus(old(drivers)) ==> NoFullStatus(drivers)
      ensures UniqueLineIds(old(drivers)) ==> UniqueLineIds(drivers)
    {
      if driverId !in drivers {
        return Fail(OfferNotFound);
      }
      var data := drivers[driverId];
      match Release(data, passenger)
      case Ok(d) =>
        if ValidOffer(data) && passenger in data.passengers {
          ReleaseExactEntryPreservesValid(data, passenger);
        }
        drivers := drivers[driverId := d];
        r := Pass;
      case Err(e) =>
        r := Fail(e);
    }

    /**
     * The query-and-loop duplicate check of `addOrUpdateDriver`: query the
     * records holding `lineId` and flag any whose id is not `userId`.
     */
    method HasDuplicateLineId(userId: string, lineId: string) returns (isDuplicate: bool)
      ensures isDuplicate <==> LineIdTakenByOther(drivers, userId, lineId)
    {
      var matches := set k | k in drivers && drivers[k].profile.lineId == lineId;
      isDuplicate := false;
      var pending := matches;
      while pending != {}
        invariant pending <= matches
        invariant isDuplicate <==> exists k :: k in matches && k !in pending && k != userId
        decreases pending
      {
        var k :| k in pending;
        if k != userId {
          isDuplicate := true;
        }
        pending := pending - {k};
      }
      if LineIdTakenByOther(drivers, userId, lineId) {
        var k :| k in drivers && k != userId && drivers[k].profile.lineId == lineId;
        assert k in matches;
      }
    }

    /**
     * `addOrUpdateDriver`: refuse a non-empty LINE ID held by another
     * driver, then merge-write the record `Publish` computes.
     */
    method AddOrUpdateDriver(userId: string, patch: Patch) returns (r: Outcome)
      requires Valid()
      modifies this
      ensures Valid()
      ensures patch.profile.lineId != "" && LineIdTakenByOther(old(drivers), userId, patch.profile.lineId) ==>
        r == Fail(DuplicateLineId) && drivers == old(drivers)
      ensures !(patch.profile.lineId != "" && LineIdTakenByOther(old(drivers), userId, patch.profile.lineId)) ==>
        var existing := if userId in old(drivers) then Some(old(drivers)[userId]) else None;
        match Publish(existing, userId, patch)
        case Ok(d) => r == Pass && drivers == old(drivers)[userId := d]
        case Err(e) => r == Fail(e) && drivers == old(drivers)
      ensures r == Pass ==> userId in drivers
      ensures UniqueLineIds(old(drivers)) ==> UniqueLineIds(drivers)
      ensures NoFullStatus(old(drivers)) && patch.status != Some(Full) ==> NoFullStatus(drivers)
      ensures AllValid(old(drivers)) && patch.seatsTotal.GetOr(0) >= 0
              && (userId in old(drivers) ==> patch.seatsTotal.Some?)
              ==> AllValid(drivers)
    {
      if patch.profile.lineId != "" {
        var isDuplicate := HasDuplicateLineId(userId, patch.profile.lineId);
        if isDuplicate {
          return Fail(DuplicateLineId);
        }
      }
      var existing := if userId in drivers then Some(drivers[userId]) else None;
      if AllValid(drivers) && patch.seatsTotal.GetOr(0) >= 0 && (userId in drivers ==> patch.seatsTotal.Some?) {
        PublishEstablishesValid(existing, userId, patch);
      }
      match Publish(existing, userId, patch)
      case Ok(d) =>
        drivers := drivers[userId := d];
        r := Pass;
      case Err(e) =>
        r := Fail(e);
    }

    /** `deleteDriver`: removes the record together with its roster; absent is not an error. */
    method DeleteDriver(userId: string)
      requires Valid()
      modifies this
      ensures Valid()
      ensures drivers == old(drivers) - {userId}
      ensures forall d :: d in RosterView(drivers) ==> d.id != userId
      ensures AllValid(old(drivers)) ==> AllValid(drivers)
      ensures NoFullStatus(old(drivers)) ==> NoFullStatus(drivers)
      ensures UniqueLineIds(old(drivers)) ==> UniqueLineIds(drivers)
    {
      drivers := drivers - {userId};
    }

    /** `updateDriverStatus(userId, 'departed')`: changes only the status; fails on a missing record. */
    method UpdateDriverStatus(userId: string) returns (r: Outcome)
      requires Valid()
      modifies this
      ensures Valid()
      ensures userId !in old(drivers) ==> r == Fail(OfferNotFound) && drivers == old(drivers)
      ensures userId in old(drivers) ==>
        r == Pass && drivers == old(drivers)[userId := old(drivers)[userId].(status := Departed)]
      ensures AllValid(old(drivers)) ==> AllValid(drivers)
      ensures NoFullStatus(old(drivers)) ==> NoFullStatus(drivers)
      ensures UniqueLineIds(old(drivers)) ==> UniqueLineIds(drivers)
    {
      if userId !in drivers {
        return Fail(OfferNotFound);
      }
      drivers := drivers[userId := drivers[userId].(status := Departed)];
      r := Pass;
    }

    /**
     * `updateDriverLocation`: writes latitude and longitude, or clears both
     * for None; fails on a missing record.
     */
    method UpdateDriverLocation(userId: string, coords: Option<Coords>) returns (r: Outcome)
      requires Valid()
      modifies this
      ensures Valid()
      ensures userId !in old(drivers) ==> r == Fail(OfferNotFound) && drivers == old(drivers)
      ensures userId in old(drivers) ==>
        r == Pass && drivers == old(drivers)[userId := old(drivers)[userId].(location := coords)]
      ensures AllValid(old(drivers)) ==> AllValid(drivers)
      ensures NoFullStatus(old(drivers)) ==> NoFullStatus(drivers)
      ensures UniqueLineIds(old(drivers)) ==> UniqueLineIds(drivers)
    {
      if userId !in drivers {
        return Fail(OfferNotFound);
      }
      drivers := drivers[userId := drivers[userId].(location := coords)];
      r := Pass;
    }

    /** `seedInitialData`: inserts the sample offer when the collection is empty. */
    method SeedInitialData()
      requires Valid()
      modifies this
      ensures Valid()
      ensures old(drivers) == map[] ==> drivers == map[SampleDriverId := SampleDriver()]
      ensures old(drivers) != map[] ==> drivers == old(drivers)
      ensures AllValid(old(drivers)) ==> AllValid(drivers)
      ensures NoFullStatus(old(drivers)) ==> NoFullStatus(drivers)
    {
      if drivers == map[] {
        drivers := map[SampleDriverId := SampleDriver()];
      }
    }
  }
}
