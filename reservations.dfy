/** The reservations service: the append-only reservation ledger, the
    reservation saga that turns a listing into a paid reservation by calling
    the availability and payments services, and the two queries over the
    ledger. */
module Reservations {
  import opened Common
  import Payments
  import Availability

  /** One reservation row. `id` is the table's autoincrement key and
      `createdAt` its creation timestamp. */
  datatype Reservation = Reservation(id: nat, listingId: int, passenger: string, driver: string, price: real, createdAt: int)

  /** Whether the row names `user` on the side `view` reads: the driver side
      for a driver, the passenger side otherwise. */
  predicate Involves(x: Reservation, user: string, asDriver: bool) {
    if asDriver then x.driver == user else x.passenger == user
  }

  /** `a` sorts before `b` under `ORDER BY created_at DESC, id DESC`. */
  predicate Later(a: Reservation, b: Reservation) {
    a.createdAt > b.createdAt || (a.createdAt == b.createdAt && a.id > b.id)
  }

  /** The first row of the rows involving `user`, ordered newest first. */
  function Latest(rows: seq<Reservation>, user: string, asDriver: bool): (r: Option<Reservation>)
    ensures r.None? <==> forall k :: 0 <= k < |rows| ==> !Involves(rows[k], user, asDriver)
    ensures r.Some? ==> r.value in rows && Involves(r.value, user, asDriver)
    ensures r.Some? ==> forall k :: 0 <= k < |rows| && Involves(rows[k], user, asDriver) ==> !Later(rows[k], r.value)
  {
    if rows == [] then None
    else
      var rest := Latest(rows[1..], user, asDriver);
      if !Involves(rows[0], user, asDriver) then rest
      else if rest.None? || !Later(rest.value, rows[0]) then Some(rows[0])
      else rest
  }

  /** Whether the row pairs `a` and `b`, one as passenger and one as driver. */
  predicate Between(x: Reservation, a: string, b: string) {
    (x.passenger == a && x.driver == b) || (x.passenger == b && x.driver == a)
  }

  function AnyBetween(rows: seq<Reservation>, a: string, b: string): (found: bool)
    ensures found <==> exists k :: 0 <= k < |rows| && Between(rows[k], a, b)
  {
    if rows == [] then false
    else Between(rows[0], a, b) || AnyBetween(rows[1..], a, b)
  }

  /** The `data` object of a `view` reply: the listing, the price and the
      other party with that party's rating. */
  datatype ViewData = ViewData(listingId: int, price: real, user: string, rating: string)

  /** A `view` reply; `data` is None where the reply says "NULL". */
  datatype ViewReply = ViewReply(status: nat, data: Option<ViewData>)

  /** The party on the other side of the row from the viewer. */
  function Counterpart(x: Reservation, viewerIsDriver: bool): string {
    if viewerIsDriver then x.passenger else x.driver
  }

  /** How each of the saga's four calls to a peer service went. */
  datatype Network = Network(getListing: Delivery, checkBalance: Delivery, transfer: Delivery, deleteListing: Delivery)

  /** Everything the saga checks before it asks for the transfer holds, in the
      state of the two peer services when the saga starts: the caller is an
      authenticated passenger, the id is an integer, the listing was fetched
      and names a driver, and the balance check was answered and reported
      enough funds. */
  ghost predicate ReadyToPay(token: string, auth: Auth, listingId: Param<int>, net: Network,
                             ledger: Payments.Ledger, table: Availability.ListingTable)
    reads ledger, table
  {
    && token != "" && auth.Valid? && !auth.isDriver
    && listingId.Given?
    && net.getListing == Delivered
    && table.GetListing(listingId).Found?
    && table.GetListing(listingId).driver != ""
    && net.checkBalance == Delivered
    && ledger.CheckBalance(auth.username, Given(table.GetListing(listingId).price)).status == 1
    && ledger.CheckBalance(auth.username, Given(table.GetListing(listingId).price)).hasEnough
  }

  class ReservationBook {
    /** The reservations table, in insertion order. */
    var rows: seq<Reservation>
    /** The id the next row receives. */
    var nextId: nat

    ghost predicate Valid()
      reads this
    {
      && (forall i, j :: 0 <= i < j < |rows| ==> rows[i].id < rows[j].id)
      && (forall k :: 0 <= k < |rows| ==> rows[k].id < nextId)
    }

    constructor ()
      ensures Valid() && rows == [] && nextId == 0
    {
      rows := [];
      nextId := 0;
    }

    /** `make_reservation`: the reservation saga. Each peer call's reply is
        what the peer's handler computes on its own store, unless `net` says
        the call went astray, and `now` is the clock reading the new row
        receives. The steps run in a fixed order and the first failure ends
        the saga; once the transfer has been sent nothing is undone, and the
        outcome of the listing delete is ignored. */
    method Reserve(token: string, auth: Auth, listingId: Param<int>, now: int, net: Network,
                   ledger: Payments.Ledger, table: Availability.ListingTable)
      returns (status: nat)
      requires Valid() && ledger.Valid() && table.Valid()
      modifies this, ledger, table
      ensures Valid() && ledger.Valid() && table.Valid()
      // Authentication: 2 for a missing or rejected token, 3 for a driver.
      ensures status == 2 <==> token == "" || !auth.Valid?
      ensures status == 1 || status == 2 || status == 3
      // Success exactly when every check passed and the transfer's reply came back.
      ensures status == 1 <==> old(ReadyToPay(token, auth, listingId, net, ledger, table)) && net.transfer == Delivered
      // Nothing is written to any store unless the transfer was sent after every check passed.
      ensures !(old(ReadyToPay(token, auth, listingId, net, ledger, table)) && net.transfer != NotDelivered) ==>
        ledger.balances == old(ledger.balances) && table.rows == old(table.rows) && rows == old(rows) && nextId == old(nextId)
      // A sent transfer moved the price from the passenger to the driver, whatever the reply.
      ensures old(ReadyToPay(token, auth, listingId, net, ledger, table)) && net.transfer != NotDelivered ==>
        var listing := old(table.GetListing(listingId));
        && auth.username in old(ledger.balances)
        && ledger.balances == Payments.AfterTransfer(old(ledger.balances), auth.username, listing.driver, listing.price)
      // The listing is deleted once the delete request reaches the availability service.
      ensures status == 1 && net.deleteListing != NotDelivered ==> table.rows == Availability.Remove(old(table.rows), listingId.value)
      ensures status == 1 && net.deleteListing == NotDelivered ==> table.rows == old(table.rows)
      // Success appends exactly one row; every other outcome appends none.
      ensures status == 1 ==>
        var listing := old(table.GetListing(listingId));
        && rows == old(rows) + [Reservation(old(nextId), listingId.value, auth.username, listing.driver, listing.price, now)]
        && nextId == old(nextId) + 1
      ensures status != 1 ==> rows == old(rows) && nextId == old(nextId)
      // The listing is deleted only after a successful transfer.
      ensures status != 1 ==> table.rows == old(table.rows)
      // The saga's gap: a transfer whose reply is lost leaves money moved and no reservation.
      ensures old(ReadyToPay(token, auth, listingId, net, ledger, table)) && net.transfer == ReplyLost ==>
        && status == 3 && rows == old(rows) && table.rows == old(table.rows)
        && Payments.Total(ledger.balances) == Payments.Total(old(ledger.balances))
    {
      if token == "" || !auth.Valid? {
        return 2;
      }
      if auth.isDriver {
        return 3;
      }
      var passenger := auth.username;
      if listingId.Absent? || listingId.Malformed? {
        return 3;
      }
      if net.getListing != Delivered {
        return 3;
      }
      var listing := table.GetListing(listingId);
      if listing.NotFound? || listing.driver == "" {
        return 3;
      }
      var driver, price := listing.driver, listing.price;
      if net.checkBalance != Delivered {
        return 3;
      }
      var check := ledger.CheckBalance(passenger, Given(price));
      if check.status != 1 || !check.hasEnough {
        return 3;
      }
      if net.transfer == NotDelivered {
        return 3;
      }
      assert Availability.Listing(listingId.value, driver, listing.day, price) in table.rows;
      assert ReadyToPay(token, auth, listingId, net, ledger, table);
      ghost var before := ledger.balances;
      Payments.CheckedTransferAllowed(ledger, passenger, driver, Given(price));
      var moved := ledger.Transfer(passenger, driver, Given(price));
      assert moved == 1 && ledger.balances == Payments.AfterTransfer(before, passenger, driver, price);
      if net.transfer == ReplyLost {
        return 3;
      }
      if net.deleteListing != NotDelivered {
        var _ := table.DeleteListing(listingId);
      }
      rows := rows + [Reservation(nextId, listingId.value, passenger, driver, price, now)];
      nextId := nextId + 1;
      status := 1;
    }

    /** `view_reservation`: the caller's newest reservation, seen from the
        caller's side. `rating` stands for the identity service's `get_rating`
        answer ("0.00" when the call fails). */
    function View(token: string, auth: Auth, rating: string -> string): (r: ViewReply)
      reads this
      ensures r.status == 1 <==>
        token != "" && auth.Valid? && exists k :: 0 <= k < |rows| && Involves(rows[k], auth.username, auth.isDriver)
      ensures r.status != 1 ==> r.status == 2 && r.data == None
      ensures r.status == 1 ==>
        exists k :: 0 <= k < |rows| && Involves(rows[k], auth.username, auth.isDriver)
          && (forall j :: 0 <= j < |rows| && Involves(rows[j], auth.username, auth.isDriver) ==> !Later(rows[j], rows[k]))
          && r.data == Some(ViewData(rows[k].listingId, rows[k].price, Counterpart(rows[k], auth.isDriver),
                                     rating(Counterpart(rows[k], auth.isDriver))))
    {
      if token == "" || !auth.Valid? then ViewReply(2, None)
      else match Latest(rows, auth.username, auth.isDriver)
        case None => ViewReply(2, None)
        case Some(x) =>
          var other := Counterpart(x, auth.isDriver);
          ViewReply(1, Some(ViewData(x.listingId, x.price, other, rating(other))))
    }

    /** `check_reservation`: whether some reservation pairs the two users, in
        either role. */
    function CheckReservation(rater: string, rated: string): (status: nat)
      reads this
      ensures status == 1 <==> rater != "" && rated != "" && exists k :: 0 <= k < |rows| && Between(rows[k], rater, rated)
      ensures status != 1 ==> status == 2
    {
      if rater == "" || rated == "" then 2
      else if AnyBetween(rows, rater, rated) then 1
      else 2
    }
  }

  /** With distinct row ids, no two different rows can both be newest:
      `view` picks a single row. */
  lemma LatestIsUnique(rows: seq<Reservation>, user: string, asDriver: bool, x: Reservation, y: Reservation)
    requires forall i, j :: 0 <= i < j < |rows| ==> rows[i].id < rows[j].id
    requires x in rows && y in rows && Involves(x, user, asDriver) && Involves(y, user, asDriver)
    requires forall k :: 0 <= k < |rows| && Involves(rows[k], user, asDriver) ==> !Later(rows[k], x)
    requires forall k :: 0 <= k < |rows| && Involves(rows[k], user, asDriver) ==> !Later(rows[k], y)
    ensures x == y
  {
  }

  /** `check_reservation` does not depend on which party asks. */
  lemma CheckReservationSymmetric(book: ReservationBook, a: string, b: string)
    ensures book.CheckReservation(a, b) == book.CheckReservation(b, a)
  {
  }
}
