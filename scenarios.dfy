/** Client code over the services' contracts: a paid reservation, one refused
    for lack of funds, and one whose transfer reply is lost, each settled from
    the handlers' specifications alone. */
module Scenarios {
  import opened Common
  import Payments
  import Availability
  import Reservations

  const AllDelivered := Reservations.Network(Delivered, Delivered, Delivered, Delivered)

  /** Driver D lists id 7 at 10.00; passenger P holds 20.00 and reserves it.
      Afterwards P holds 10.00, D 10.00, the listing is gone and one row links
      P, D and listing 7. */
  method ReservationSucceeds() {
    var ledger := new Payments.Ledger();
    var s := ledger.Initialize("P", Given(20.0));
    assert s == 1;
    var table := new Availability.ListingTable();
    s := table.CreateListing("tD", Auth.Valid("D", true, 1), "Monday", Given(10.0), Given(7), true);
    assert s == 1;
    assert table.rows == [Availability.Listing(7, "D", "Monday", 10.0)] by {
      assert |table.rows| == 1 && table.rows[0] in table.rows;
    }
    var book := new Reservations.ReservationBook();
    s := book.Reserve("tP", Auth.Valid("P", false, 2), Given(7), 100, AllDelivered, ledger, table);
    assert s == 1;
    assert ledger.balances["P"] == 10.0;
    assert ledger.balances["D"] == 10.0;
    assert table.rows == [];
    assert table.GetListing(Given(7)) == Availability.NotFound;
    assert book.rows == [Reservations.Reservation(0, 7, "P", "D", 10.0, 100)];
    assert book.CheckReservation("D", "P") == 1;
  }

  /** The same listing, but P holds only 5.00: the reservation fails and no
      store changes. */
  method ReservationLacksFunds() {
    var ledger := new Payments.Ledger();
    var s := ledger.Initialize("P", Given(5.0));
    assert s == 1;
    var table := new Availability.ListingTable();
    s := table.CreateListing("tD", Auth.Valid("D", true, 1), "Monday", Given(10.0), Given(7), true);
    assert s == 1;
    assert table.rows == [Availability.Listing(7, "D", "Monday", 10.0)] by {
      assert |table.rows| == 1 && table.rows[0] in table.rows;
    }
    var book := new Reservations.ReservationBook();
    s := book.Reserve("tP", Auth.Valid("P", false, 2), Given(7), 100, AllDelivered, ledger, table);
    assert s == 3;
    assert ledger.balances == map["P" := 5.0];
    assert table.rows == [Availability.Listing(7, "D", "Monday", 10.0)];
    assert book.rows == [];
  }

  /** Enough funds, but the transfer's reply never comes back: the money has
      moved, the reply is 3, the listing stays and no reservation is made. */
  method ReservationLosesTransferReply() {
    var ledger := new Payments.Ledger();
    var s := ledger.Initialize("P", Given(20.0));
    assert s == 1;
    var table := new Availability.ListingTable();
    s := table.CreateListing("tD", Auth.Valid("D", true, 1), "Monday", Given(10.0), Given(7), true);
    assert s == 1;
    assert table.rows == [Availability.Listing(7, "D", "Monday", 10.0)] by {
      assert |table.rows| == 1 && table.rows[0] in table.rows;
    }
    var book := new Reservations.ReservationBook();
    var net := Reservations.Network(Delivered, Delivered, ReplyLost, Delivered);
    s := book.Reserve("tP", Auth.Valid("P", false, 2), Given(7), 100, net, ledger, table);
    assert s == 3;
    assert ledger.balances["P"] == 10.0 && ledger.balances["D"] == 10.0;
    assert table.rows == [Availability.Listing(7, "D", "Monday", 10.0)];
    assert book.rows == [];
  }
}
