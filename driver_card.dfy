/**
 * What one offer card on the passenger roster shows: a status badge and
 * possibly a booking button, the remarks line and the passenger tags. Pure
 * decisions over the record and the two rendering flags.
 */
module DriverCard {
  import opened CarpoolTypes
  import opened JsText

  /** `isFull`: derived from the free seats; the stored status is not consulted. */
  predicate IsFull(d: Driver) {
    d.seatsAvailable <= 0
  }

  /** `isDeparted` */
  predicate IsDeparted(d: Driver) {
    d.status == Departed
  }

  datatype Badge = DepartedBadge | FullBadge | SeatsLeft(available: int, total: int)

  /** The book button; while a booking is in flight it is disabled (and labelled as booking). */
  datatype BookButton = BookButton(disabled: bool)

  datatype StatusArea = StatusArea(badge: Badge, book: Option<BookButton>)

  /**
   * `renderStatusAndButton`: departed wins over full; only an offer that is
   * neither shows the free seats, and a book button when `onBook` is given.
   */
  function RenderStatusAndButton(d: Driver, hasOnBook: bool, isBooking: bool): (s: StatusArea)
    ensures s.badge == DepartedBadge <==> d.status == Departed
    ensures s.badge == FullBadge <==> d.status != Departed && d.seatsAvailable <= 0
    ensures s.badge.SeatsLeft? ==> s.badge == SeatsLeft(d.seatsAvailable, d.seatsTotal) && s.badge.available > 0
    ensures s.book.Some? <==> hasOnBook && d.status != Departed && d.seatsAvailable > 0
    ensures s.book.Some? ==> s.book.value.disabled == isBooking
  {
    if IsDeparted(d) then StatusArea(DepartedBadge, None)
    else if IsFull(d) then StatusArea(FullBadge, None)
    else StatusArea(SeatsLeft(d.seatsAvailable, d.seatsTotal),
                    if hasOnBook then Some(BookButton(isBooking)) else None)
  }

  /** The remarks line appears only for remarks that are not blank once trimmed. */
  function ShowsRemarks(remarks: Option<string>): (shown: bool)
    ensures shown <==> remarks.Some? && !AllWhitespace(remarks.value)
  {
    match remarks
    case None => false
    case Some(text) => text != "" && Trim(text) != ""
  }

  datatype PassengerSection = NoPassengerSection | PassengerTags(tags: seq<string>)

  /** One LINE ID tag per booked passenger, in roster order; no section for an empty roster. */
  function RenderPassengers(ps: seq<PassengerInfo>): (r: PassengerSection)
    ensures r.PassengerTags? <==> |ps| > 0
    ensures r.PassengerTags? ==>
      |r.tags| == |ps| && forall i :: 0 <= i < |ps| ==> r.tags[i] == ps[i].lineId
  {
    if |ps| > 0 then PassengerTags(seq(|ps|, i requires 0 <= i < |ps| => ps[i].lineId))
    else NoPassengerSection
  }

  /** The whole card: dimmed when departed, with the status area, remarks line and tags of the record. */
  datatype CardView = CardView(dimmed: bool, status: StatusArea, remarksShown: bool, passengers: PassengerSection)

  function RenderCard(d: Driver, hasOnBook: bool, isBooking: bool): (c: CardView)
    ensures c.dimmed <==> d.status == Departed
    ensures c.dimmed <==> c.status.badge == DepartedBadge
    ensures c.status == RenderStatusAndButton(d, hasOnBook, isBooking)
    ensures c.remarksShown <==> d.profile.remarks.Some? && !AllWhitespace(d.profile.remarks.value)
    ensures c.passengers == RenderPassengers(d.passengers)
  {
    CardView(IsDeparted(d), RenderStatusAndButton(d, hasOnBook, isBooking),
             ShowsRemarks(d.profile.remarks), RenderPassengers(d.passengers))
  }

  /** A stored `full` status renders exactly like `active`: only the free seats decide. */
  lemma StoredFullStatusIgnored(d: Driver, hasOnBook: bool, isBooking: bool)
    requires d.status == Full
    ensures RenderCard(d, hasOnBook, isBooking) == RenderCard(d.(status := Active), hasOnBook, isBooking)
  {
  }

  /** On a consistent record, a book button is offered only while the roster is below capacity. */
  lemma BookButtonOnlyBelowCapacity(d: Driver, hasOnBook: bool, isBooking: bool)
    requires SeatsConsistent(d)
    ensures RenderStatusAndButton(d, hasOnBook, isBooking).book.Some? ==> |d.passengers| < d.seatsTotal
    ensures RenderStatusAndButton(d, hasOnBook, isBooking).badge == FullBadge ==> |d.passengers| == d.seatsTotal
  {
  }
}
