/**
 * The per-record transaction bodies of the offer store: reserve a seat,
 * release a seat, and the merge write that publishes or edits an offer.
 * Each function takes the record the transaction read and returns the record
 * it writes, or the error it throws; the store applies them atomically.
 */
module Reservation {
  import opened CarpoolTypes

  // ---------------------------------------------------------------------
  // Firestore array field transforms
  // ---------------------------------------------------------------------

  /** `arrayUnion(p)`: appends `p` unless an equal element is already present. */
  function ArrayUnion(ps: seq<PassengerInfo>, p: PassengerInfo): (r: seq<PassengerInfo>)
    ensures p in r
    ensures multiset(ps) <= multiset(r)
    ensures p !in ps ==> r == ps + [p]
    ensures p in ps ==> r == ps
  {
    if p in ps then ps else ps + [p]
  }

  /** The entries of `ps` that differ from `p` as a whole value, in their order. */
  function Without(ps: seq<PassengerInfo>, p: PassengerInfo): seq<PassengerInfo> {
    if ps == [] then []
    else (if ps[0] == p then [] else [ps[0]]) + Without(ps[1..], p)
  }

  lemma {:induction false} WithoutCounts(ps: seq<PassengerInfo>, p: PassengerInfo)
    ensures multiset(Without(ps, p)) == multiset(ps)[p := 0]
  {
    if ps != [] {
      assert ps == [ps[0]] + ps[1..];
      WithoutCounts(ps[1..], p);
    }
  }

  /** `arrayRemove(p)`: drops every element equal to `p` as a whole value. */
  function ArrayRemove(ps: seq<PassengerInfo>, p: PassengerInfo): (r: seq<PassengerInfo>)
    ensures multiset(r) == multiset(ps)[p := 0]
  {
    WithoutCounts(ps, p);
    Without(ps, p)
  }

  lemma {:induction false} ArrayRemoveAbsent(ps: seq<PassengerInfo>, p: PassengerInfo)
    requires p !in ps
    ensures ArrayRemove(ps, p) == ps
  {
    if ps != [] {
      ArrayRemoveAbsent(ps[1..], p);
    }
  }

  /**
   * The removal works entry by entry: removing from a concatenation removes
   * from each part, so the entries that stay keep their roster order.
   */
  lemma ArrayRemoveKeepsOrder(a: seq<PassengerInfo>, b: seq<PassengerInfo>, p: PassengerInfo)
    ensures ArrayRemove(a + b, p) == ArrayRemove(a, p) + ArrayRemove(b, p)
  {
    WithoutSplits(a, b, p);
  }

  lemma {:induction false} WithoutSplits(a: seq<PassengerInfo>, b: seq<PassengerInfo>, p: PassengerInfo)
    ensures Without(a + b, p) == Without(a, p) + Without(b, p)
  {
    if a == [] {
      assert a + b == b;
    } else {
      assert (a + b)[0] == a[0] && (a + b)[1..] == a[1..] + b;
      WithoutSplits(a[1..], b, p);
    }
  }

  /** The removal keeps the remaining entries in their order, so it keeps them unique. */
  lemma {:induction false} ArrayRemoveKeepsUnique(ps: seq<PassengerInfo>, p: PassengerInfo)
    requires UniqueRiders(ps)
    ensures UniqueRiders(ArrayRemove(ps, p))
  {
    if ps != [] {
      ArrayRemoveKeepsUnique(ps[1..], p);
      var rest := ArrayRemove(ps[1..], p);
      if ps[0] != p {
        forall q | q in rest ensures q.userId != ps[0].userId {
          assert q in multiset(rest);
          assert q in multiset(ps[1..]);
          var k :| 0 <= k < |ps[1..]| && ps[1..][k] == q;
          assert ps[k + 1] == q;
        }
      }
    }
  }

  /** With unique user ids, an entry occurs exactly once on the roster. */
  lemma {:induction false} UniqueEntryOccursOnce(ps: seq<PassengerInfo>, p: PassengerInfo)
    requires UniqueRiders(ps) && p in ps
    ensures multiset(ps)[p] == 1
  {
    assert ps == [ps[0]] + ps[1..];
    if ps[0] == p {
      assert forall k :: 0 <= k < |ps[1..]| ==> ps[1..][k] != p by {
        forall k | 0 <= k < |ps[1..]| ensures ps[1..][k] != p {
          assert ps[1..][k] == ps[k + 1];
        }
      }
      assert multiset(ps[1..])[p] == 0;
    } else {
      UniqueEntryOccursOnce(ps[1..], p);
    }
  }

  // ---------------------------------------------------------------------
  // requestRide and cancelPassengerBooking
  // ---------------------------------------------------------------------

  /**
   * The transaction of `requestRide` on the record it read: a passenger
   * already on the roster is refused even when seats are free; otherwise one
   * seat is taken if one is free.
   */
  function Reserve(d: Driver, p: PassengerInfo): (r: Result<Driver, Error>)
    ensures r.Ok? <==> !Booked(d.passengers, p.userId) && d.seatsAvailable > 0
    ensures r == Err(AlreadyBooked) <==> Booked(d.passengers, p.userId)
    ensures r == Err(SoldOut) <==> !Booked(d.passengers, p.userId) && d.seatsAvailable <= 0
    ensures r.Ok? ==> r.value.seatsAvailable == d.seatsAvailable - 1 && r.value.seatsAvailable >= 0
    ensures r.Ok? ==> r.value.passengers == d.passengers + [p]
    ensures r.Ok? ==> r.value.(seatsAvailable := d.seatsAvailable, passengers := d.passengers) == d
  {
    if Booked(d.passengers, p.userId) then Err(AlreadyBooked)
    else if d.seatsAvailable > 0 then
      NotBookedNotOnRoster(d.passengers, p);
      Ok(d.(seatsAvailable := d.seatsAvailable - 1, passengers := ArrayUnion(d.passengers, p)))
    else Err(SoldOut)
  }

  /**
   * The transaction of `cancelPassengerBooking`: the roster is searched by
   * userId, but the removal matches the whole {userId, lineId} value.
   */
  function Release(d: Driver, p: PassengerInfo): (r: Result<Driver, Error>)
    ensures r.Ok? <==> Booked(d.passengers, p.userId)
    ensures r.Err? ==> r.error == BookingNotFound
    ensures r.Ok? ==> r.value.seatsAvailable == d.seatsAvailable + 1
    ensures r.Ok? ==> multiset(r.value.passengers) == multiset(d.passengers)[p := 0]
    ensures r.Ok? ==> r.value.(seatsAvailable := d.seatsAvailable, passengers := d.passengers) == d
  {
    if Booked(d.passengers, p.userId) then
      Ok(d.(seatsAvailable := d.seatsAvailable + 1, passengers := ArrayRemove(d.passengers, p)))
    else Err(BookingNotFound)
  }

  lemma ReservePreservesValid(d: Driver, p: PassengerInfo)
    requires ValidOffer(d)
    ensures Reserve(d, p).Ok? ==> ValidOffer(Reserve(d, p).value)
  {
  }

  /** Releasing an exact roster entry frees exactly one seat and keeps the invariant. */
  lemma ReleaseExactEntryPreservesValid(d: Driver, p: PassengerInfo)
    requires ValidOffer(d) && p in d.passengers
    ensures Release(d, p).Ok?
    ensures |Release(d, p).value.passengers| == |d.passengers| - 1
    ensures ValidOffer(Release(d, p).value)
  {
    var i :| 0 <= i < |d.passengers| && d.passengers[i] == p;
    assert d.passengers[i].userId == p.userId;
    UniqueEntryOccursOnce(d.passengers, p);
    var rest := ArrayRemove(d.passengers, p);
    calc {
      |rest|;
      |multiset(rest)|;
      |multiset(d.passengers)[p := 0]|;
      { assert multiset(d.passengers) == multiset(d.passengers)[p := 0] + multiset{p}; }
      |multiset(d.passengers)| - 1;
      |d.passengers| - 1;
    }
    ArrayRemoveKeepsUnique(d.passengers, p);
  }

  /**
   * Releasing the entry stored at position `i` of a roster with unique
   * riders removes that entry and nothing else; the others keep their order.
   */
  lemma ReleaseRemovesThatEntry(d: Driver, p: PassengerInfo, i: int)
    requires UniqueRiders(d.passengers) && 0 <= i < |d.passengers| && d.passengers[i] == p
    ensures Release(d, p).Ok?
    ensures Release(d, p).value.passengers == d.passengers[..i] + d.passengers[i + 1..]
  {
    var ps := d.passengers;
    assert Booked(ps, p.userId);
    OnlyAtItsIndex(ps, i);
    RemoveSingleOccurrence(ps[..i], p, ps[i + 1..]);
    assert ps == ps[..i] + [p] + ps[i + 1..];
  }

  /** On a roster with unique riders, the entry at `i` occurs nowhere before or after `i`. */
  lemma OnlyAtItsIndex(ps: seq<PassengerInfo>, i: int)
    requires UniqueRiders(ps) && 0 <= i < |ps|
    ensures ps[i] !in ps[..i] && ps[i] !in ps[i + 1..]
  {
    var before, after := ps[..i], ps[i + 1..];
    forall k | 0 <= k < |before| ensures before[k] != ps[i] {
      assert before[k] == ps[k];
    }
    forall k | 0 <= k < |after| ensures after[k] != ps[i] {
      assert after[k] == ps[i + 1 + k];
    }
  }

  lemma ArrayRemoveSingleton(p: PassengerInfo)
    ensures ArrayRemove([p], p) == []
  {
    var one: seq<PassengerInfo> := [p];
    assert one[1..] == [];
    assert Without(one, p) == [] + Without([], p);
  }

  /** Removing a value that occurs once drops exactly that occurrence. */
  lemma RemoveSingleOccurrence(a: seq<PassengerInfo>, p: PassengerInfo, b: seq<PassengerInfo>)
    requires p !in a && p !in b
    ensures ArrayRemove(a + [p] + b, p) == a + b
  {
    ArrayRemoveSingleton(p);
    ArrayRemoveAbsent(a, p);
    ArrayRemoveAbsent(b, p);
    RemoveBetweenKept(a, p, b);
  }

  lemma {:induction false} RemoveBetweenKept(a: seq<PassengerInfo>, p: PassengerInfo, b: seq<PassengerInfo>)
    requires ArrayRemove(a, p) == a && ArrayRemove(b, p) == b && ArrayRemove([p], p) == []
    ensures ArrayRemove(a + [p] + b, p) == a + b
  {
    var front := a + [p];
    ArrayRemoveKeepsOrder(a, [p], p);
    assert ArrayRemove(front, p) == a;
    ArrayRemoveKeepsOrder(front, b, p);
  }

  /**
   * A release whose userId is on the roster but whose lineId differs from
   * the stored entry frees a seat without removing anyone, so the seat
   * invariant no longer holds.
   */
  lemma ReleaseStaleEntryBreaksInvariant(d: Driver, p: PassengerInfo)
    requires SeatsConsistent(d) && Booked(d.passengers, p.userId) && p !in d.passengers
    ensures Release(d, p).Ok?
    ensures Release(d, p).value.passengers == d.passengers
    ensures !SeatsConsistent(Release(d, p).value)
  {
    ArrayRemoveAbsent(d.passengers, p);
  }

  /** Cancelling a booking right after making it restores the record exactly. */
  lemma ReserveThenReleaseRestores(d: Driver, p: PassengerInfo)
    requires Reserve(d, p).Ok?
    ensures Release(Reserve(d, p).value, p) == Ok(d)
  {
    NotBookedNotOnRoster(d.passengers, p);
    ArrayRemoveAppended(d.passengers, p);
  }

  lemma ArrayRemoveAppended(ps: seq<PassengerInfo>, p: PassengerInfo)
    requires p !in ps
    ensures ArrayRemove(ps + [p], p) == ps
  {
    ArrayRemoveKeepsOrder(ps, [p], p);
    ArrayRemoveAbsent(ps, p);
    ArrayRemoveSingleton(p);
  }

  /** A passenger whose userId is not on the roster is not on it as a whole entry either. */
  lemma NotBookedNotOnRoster(ps: seq<PassengerInfo>, p: PassengerInfo)
    requires !Booked(ps, p.userId)
    ensures p !in ps
  {
    assert forall i :: 0 <= i < |ps| ==> ps[i].userId != p.userId;
  }

  /** Appending an entry books exactly that entry's userId in addition. */
  lemma BookedAfterAppend(ps: seq<PassengerInfo>, p: PassengerInfo, userId: string)
    ensures Booked(ps + [p], userId) <==> Booked(ps, userId) || p.userId == userId
  {
    if Booked(ps, userId) {
      var i :| 0 <= i < |ps| && ps[i].userId == userId;
      assert (ps + [p])[i] == ps[i];
    }
    if p.userId == userId {
      assert (ps + [p])[|ps|] == p;
    }
    if Booked(ps + [p], userId) && p.userId != userId {
      var i :| 0 <= i < |ps + [p]| && (ps + [p])[i].userId == userId;
      assert i < |ps| && (ps + [p])[i] == ps[i];
    }
  }

  // ---------------------------------------------------------------------
  // A serial run of booking requests
  // ---------------------------------------------------------------------

  /**
   * Booking requests applied one after another to one record (each request
   * one transaction); a refused request leaves the record as it was.
   * Returns the final record and the number of bookings that succeeded.
   */
  function ReserveEach(d: Driver, requests: seq<PassengerInfo>): (Driver, nat)
    decreases |requests|
  {
    if requests == [] then (d, 0)
    else
      match Reserve(d, requests[0])
      case Ok(d') =>
        var (last, n) := ReserveEach(d', requests[1..]);
        (last, n + 1)
      case Err(_) => ReserveEach(d, requests[1..])
  }

  /** No oversell: however many requests arrive, at most `seatsAvailable` succeed. */
  lemma {:induction false} NoOversell(d: Driver, requests: seq<PassengerInfo>)
    requires ValidOffer(d)
    ensures ReserveEach(d, requests).1 <= d.seatsAvailable
    ensures ReserveEach(d, requests).0.seatsAvailable == d.seatsAvailable - ReserveEach(d, requests).1
    ensures ReserveEach(d, requests).0.seatsTotal == d.seatsTotal
    ensures ValidOffer(ReserveEach(d, requests).0)
    decreases |requests|
  {
    if requests != [] {
      match Reserve(d, requests[0])
      case Ok(d') =>
        ReservePreservesValid(d, requests[0]);
        NoOversell(d', requests[1..]);
      case Err(_) =>
        NoOversell(d, requests[1..]);
    }
  }

  /** Requests by distinct passengers not yet on the roster: exactly min(k, N) succeed. */
  lemma {:induction false} FreshRequestsFillSeats(d: Driver, requests: seq<PassengerInfo>)
    requires ValidOffer(d)
    requires UniqueRiders(requests)
    requires forall i :: 0 <= i < |requests| ==> !Booked(d.passengers, requests[i].userId)
    ensures ReserveEach(d, requests).1 == if |requests| <= d.seatsAvailable then |requests| else d.seatsAvailable
    decreases |requests|
  {
    if requests != [] {
      var p := requests[0];
      if d.seatsAvailable > 0 {
        var d' := Reserve(d, p).value;
        ReservePreservesValid(d, p);
        forall i | 0 <= i < |requests[1..]|
          ensures !Booked(d'.passengers, requests[1..][i].userId)
        {
          assert requests[1..][i] == requests[i + 1];
          assert requests[i + 1].userId != p.userId;
          BookedAfterAppend(d.passengers, p, requests[i + 1].userId);
        }
        FreshRequestsFillSeats(d', requests[1..]);
      } else {
        NoOversellOnSoldOut(d, requests);
      }
    }
  }

  /** Once no seat is free, every further request fails and the record stays. */
  lemma {:induction false} NoOversellOnSoldOut(d: Driver, requests: seq<PassengerInfo>)
    requires d.seatsAvailable <= 0
    ensures ReserveEach(d, requests) == (d, 0)
    decreases |requests|
  {
    if requests != [] {
      NoOversellOnSoldOut(d, requests[1..]);
    }
  }

  /**
   * Three seats: p1 and p2 book, p1 is refused a second seat, p3 takes the
   * last seat and p4 is refused.
   */
  lemma BookingScenarioFillsUp(d: Driver, p1: PassengerInfo, p2: PassengerInfo, p3: PassengerInfo, p4: PassengerInfo)
    requires d.seatsTotal == 3 && d.seatsAvailable == 3 && d.passengers == []
    requires p1.userId != p2.userId && p1.userId != p3.userId && p2.userId != p3.userId
    requires p4.userId != p1.userId && p4.userId != p2.userId && p4.userId != p3.userId
    ensures Reserve(d, p1).Ok?
    ensures Reserve(Reserve(d, p1).value, p2).Ok?
    ensures Reserve(Reserve(d, p1).value, p2).value.seatsAvailable == 1
    ensures Reserve(Reserve(Reserve(d, p1).value, p2).value, p1) == Err(AlreadyBooked)
    ensures Reserve(Reserve(Reserve(d, p1).value, p2).value, p3).Ok?
    ensures Reserve(Reserve(Reserve(d, p1).value, p2).value, p3).value
         == d.(seatsAvailable := 0, passengers := [p1, p2, p3])
    ensures Reserve(d.(seatsAvailable := 0, passengers := [p1, p2, p3]), p4) == Err(SoldOut)
  {
    var d1 := Reserve(d, p1).value;
    assert d1.passengers == [p1];
    assert !Booked(d1.passengers, p2.userId) by { assert d1.passengers[0] == p1; }
    var d2 := Reserve(d1, p2).value;
    assert d2.passengers == [p1, p2];
    assert Booked(d2.passengers, p1.userId) by { assert d2.passengers[0] == p1; }
    assert !Booked(d2.passengers, p3.userId) by { assert d2.passengers[0] == p1 && d2.passengers[1] == p2; }
    var d3 := Reserve(d2, p3).value;
    assert d3.passengers == [p1, p2, p3];
    var full := d.(seatsAvailable := 0, passengers := [p1, p2, p3]);
    assert !Booked(full.passengers, p4.userId) by {
      assert full.passengers[0] == p1 && full.passengers[1] == p2 && full.passengers[2] == p3;
    }
  }

  /**
   * Continuing the scenario: p2 cancels, which frees one seat, and p4, not
   * booked yet, then takes it.
   */
  lemma BookingScenarioFreedSeat(full: Driver, p1: PassengerInfo, p2: PassengerInfo, p3: PassengerInfo, p4: PassengerInfo)
    requires full.seatsTotal == 3 && full.seatsAvailable == 0 && full.passengers == [p1, p2, p3]
    requires p1 != p2 && p3 != p2
    requires p4.userId != p1.userId && p4.userId != p3.userId
    ensures Release(full, p2) == Ok(full.(seatsAvailable := 1, passengers := [p1, p3]))
    ensures Reserve(full.(seatsAvailable := 1, passengers := [p1, p3]), p4)
         == Ok(full.(seatsAvailable := 0, passengers := [p1, p3, p4]))
  {
    assert Booked(full.passengers, p2.userId) by { assert full.passengers[1] == p2; }
    RemoveMiddleEntry(p1, p2, p3);
    var freed := full.(seatsAvailable := 1, passengers := [p1, p3]);
    assert !Booked(freed.passengers, p4.userId) by { assert freed.passengers[0] == p1 && freed.passengers[1] == p3; }
    assert [p1, p3] + [p4] == [p1, p3, p4];
  }

  lemma RemoveMiddleEntry(p1: PassengerInfo, p2: PassengerInfo, p3: PassengerInfo)
    requires p1 != p2 && p3 != p2
    ensures ArrayRemove([p1, p2, p3], p2) == [p1, p3]
  {
    assert [p1] + [p2] + [p3] == [p1, p2, p3] && [p1] + [p3] == [p1, p3];
    RemoveSingleOccurrence([p1], p2, [p3]);
  }

  // ---------------------------------------------------------------------
  // addOrUpdateDriver: the merge write
  // ---------------------------------------------------------------------

  /**
   * The fields a publish or edit sends (`Partial<Driver>`): the descriptive
   * fields, the requested capacity (possibly missing) and possibly a status.
   */
  datatype Patch = Patch(profile: Profile, seatsTotal: Option<int>, status: Option<Status>)

  /**
   * The record `addOrUpdateDriver` writes for `id`, given the record it read
   * (None when the document does not exist). A missing seatsTotal counts as 0.
   * An existing roster is kept and the free seats are recomputed from it; a
   * capacity below the roster size is refused. A new record starts empty and
   * active with all seats free.
   */
  function Publish(existing: Option<Driver>, id: string, patch: Patch): (r: Result<Driver, Error>)
    requires existing.Some? ==> existing.value.id == id
    ensures r.Err? <==> existing.Some? && patch.seatsTotal.GetOr(0) < |existing.value.passengers|
    ensures r.Err? ==> r.error == CapacityBelowBooked
    ensures r.Ok? ==> r.value.id == id && r.value.profile == patch.profile
    ensures r.Ok? && existing.Some? ==>
      && r.value.passengers == existing.value.passengers
      && r.value.seatsAvailable == patch.seatsTotal.GetOr(0) - |existing.value.passengers|
      && r.value.location == existing.value.location
      && r.value.seatsTotal == patch.seatsTotal.GetOr(existing.value.seatsTotal)
      && r.value.status == patch.status.GetOr(existing.value.status)
    ensures r.Ok? && existing.None? ==>
      && r.value.passengers == []
      && r.value.seatsAvailable == r.value.seatsTotal == patch.seatsTotal.GetOr(0)
      && r.value.status == Active
      && r.value.location == None
  {
    var newTotal := patch.seatsTotal.GetOr(0);
    match existing
    case Some(d) =>
      if newTotal < |d.passengers| then Err(CapacityBelowBooked)
      else Ok(d.(profile := patch.profile,
                 seatsTotal := patch.seatsTotal.GetOr(d.seatsTotal),
                 seatsAvailable := newTotal - |d.passengers|,
                 status := patch.status.GetOr(d.status)))
    case None =>
      Ok(Driver(id, patch.profile, newTotal, newTotal, [], Active, None))
  }

  /**
   * Publishing with a capacity establishes the seat invariant: on a new
   * record when the capacity is not negative, on an existing valid record
   * whenever the write is accepted.
   */
  lemma PublishEstablishesValid(existing: Option<Driver>, id: string, patch: Patch)
    requires existing.Some? ==> existing.value.id == id && ValidOffer(existing.value)
    requires existing.Some? ==> patch.seatsTotal.Some?
    requires existing.None? ==> patch.seatsTotal.GetOr(0) >= 0
    ensures Publish(existing, id, patch).Ok? ==> ValidOffer(Publish(existing, id, patch).value)
  {
  }

  /**
   * Changing the capacity of an accepted edit moves the free seats by the
   * same amount, up or down.
   */
  lemma PublishMovesFreeSeatsByDelta(d: Driver, patch: Patch)
    requires ValidOffer(d) && patch.seatsTotal.Some?
    requires patch.seatsTotal.value >= |d.passengers|
    ensures Publish(Some(d), d.id, patch).Ok?
    ensures Publish(Some(d), d.id, patch).value.seatsAvailable - d.seatsAvailable
         == patch.seatsTotal.value - d.seatsTotal
  {
  }

  /**
   * An edit of a record with an empty roster that leaves out seatsTotal
   * zeroes the free seats but keeps the old capacity, so the seat invariant
   * no longer holds when that capacity was positive.
   */
  lemma PublishWithoutCapacityDrifts(d: Driver, patch: Patch)
    requires SeatsConsistent(d) && d.passengers == [] && d.seatsTotal > 0
    requires patch.seatsTotal.None?
    ensures Publish(Some(d), d.id, patch).Ok?
    ensures Publish(Some(d), d.id, patch).value.seatsAvailable == 0
    ensures !SeatsConsistent(Publish(Some(d), d.id, patch).value)
  {
  }
}
