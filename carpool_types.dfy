/**
 * The records of the carpool offer store: one `Driver` record per driver,
 * keyed by the driver's user id, holding the seat counters, the passenger
 * roster and the offer's status.
 */
module CarpoolTypes {

  datatype Option<+T> = None | Some(value: T) {
    /** `x ?? fallback` */
    function GetOr(fallback: T): T {
      match this
      case Some(v) => v
      case None => fallback
    }
  }

  datatype Result<+T, +E> = Ok(value: T) | Err(error: E)

  /** The outcome of a store write that returns nothing on success. */
  datatype Outcome = Pass | Fail(error: Error)

  /** Every error the store operations can raise. */
  datatype Error =
    | OfferNotFound        // the driver record does not exist
    | AlreadyBooked        // the passenger's userId is already on the roster
    | SoldOut              // seatsAvailable <= 0
    | BookingNotFound      // release of a userId that is not on the roster
    | DuplicateLineId      // another driver holds the same non-empty LINE ID
    | CapacityBelowBooked  // seatsTotal below the number of booked passengers

  /** The stored status. `Full` is a legal value of the field, but no write ever stores it. */
  datatype Status = Active | Full | Departed

  /** One reservation: the passenger's user id and LINE contact handle. */
  datatype PassengerInfo = PassengerInfo(userId: string, lineId: string)

  /** Latitude and longitude. Floating point in the source; only stored and cleared here. */
  datatype Coords = Coords(latitude: real, longitude: real)

  /** The descriptive fields of an offer; no invariant relates them to the seats. */
  datatype Profile = Profile(
    name: string,
    lineId: string,
    carModel: string,
    licensePlate: Option<string>,
    startLocation: string,
    endLocation: string,
    remarks: Option<string>)

  /** A stored offer. `location` is None when latitude/longitude are absent or null. */
  datatype Driver = Driver(
    id: string,
    profile: Profile,
    seatsTotal: int,
    seatsAvailable: int,
    passengers: seq<PassengerInfo>,
    status: Status,
    location: Option<Coords>)

  /** `passengers.some(p => p.userId === userId)` */
  predicate Booked(ps: seq<PassengerInfo>, userId: string) {
    exists i :: 0 <= i < |ps| && ps[i].userId == userId
  }

  /** No passenger holds two seats on one offer. */
  predicate UniqueRiders(ps: seq<PassengerInfo>) {
    forall i, j :: 0 <= i < j < |ps| ==> ps[i].userId != ps[j].userId
  }

  /** The seat invariant: the free seats and the roster add up to the capacity. */
  predicate SeatsConsistent(d: Driver) {
    0 <= d.seatsAvailable && d.seatsAvailable + |d.passengers| == d.seatsTotal
  }

  /** A record every reader can rely on. */
  predicate ValidOffer(d: Driver) {
    SeatsConsistent(d) && UniqueRiders(d.passengers)
  }
}
