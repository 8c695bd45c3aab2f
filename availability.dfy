/** The availability service: drivers' listings, keyed by a caller-chosen
    integer listing id. The table is held as its rows in ascending listing id,
    the order in which the service's queries return them. */
module Availability {
  import opened Common

  /** The seven day names a listing may carry, exact case. */
  const Weekdays: seq<string> := ["Monday", "Tuesday", "Wednesday", "Thursday", "Friday", "Saturday", "Sunday"]

  predicate IsWeekday(day: string) {
    day in Weekdays
  }

  datatype Listing = Listing(id: int, driver: string, day: string, price: real)

  /** Ids strictly increase along the rows, so no id occurs twice. */
  ghost predicate Ascending(rows: seq<Listing>) {
    forall i, j :: 0 <= i < j < |rows| ==> rows[i].id < rows[j].id
  }

  /** The row with id `id`, if there is one. */
  function Lookup(rows: seq<Listing>, id: int): (r: Option<Listing>)
    ensures r.Some? ==> r.value in rows && r.value.id == id
    ensures r.None? ==> forall k :: 0 <= k < |rows| ==> rows[k].id != id
  {
    if rows == [] then None
    else if rows[0].id == id then Some(rows[0])
    else Lookup(rows[1..], id)
  }

  /** In an ascending table, a row with the id is the one Lookup finds: at
      most one row exists per listing id. */
  lemma LookupUnique(rows: seq<Listing>, x: Listing)
    requires Ascending(rows) && x in rows
    ensures Lookup(rows, x.id) == Some(x)
  {
    var r := Lookup(rows, x.id);
    var i :| 0 <= i < |rows| && rows[i] == x;
    var j :| 0 <= j < |rows| && rows[j] == r.value;
    assert i == j;
  }

  /** The table after inserting a row whose id is not yet present. */
  function Insert(rows: seq<Listing>, x: Listing): (r: seq<Listing>)
    requires Ascending(rows)
    requires forall k :: 0 <= k < |rows| ==> rows[k].id != x.id
    ensures Ascending(r)
    ensures |r| == |rows| + 1
    ensures forall y :: y in r <==> y in rows || y == x
  {
    if rows == [] || x.id < rows[0].id then [x] + rows
    else
      var rest := Insert(rows[1..], x);
      assert forall k :: 0 <= k < |rest| ==> rows[0].id < rest[k].id by {
        forall k | 0 <= k < |rest| ensures rows[0].id < rest[k].id {
          assert rest[k] in rest;
          if rest[k] != x {
            var j :| 0 <= j < |rows| - 1 && rows[1..][j] == rest[k];
            assert rows[j + 1] == rest[k];
          }
        }
      }
      [rows[0]] + rest
  }

  /** The table after deleting every row with id `id`. */
  function Remove(rows: seq<Listing>, id: int): (r: seq<Listing>)
    ensures forall y :: y in r <==> y in rows && y.id != id
    ensures |r| <= |rows|
    ensures Ascending(rows) ==> Ascending(r)
  {
    if rows == [] then []
    else if rows[0].id == id then Remove(rows[1..], id)
    else [rows[0]] + Remove(rows[1..], id)
  }

  /** Deleting an id twice is the same as deleting it once. */
  lemma {:induction false} RemoveIdempotent(rows: seq<Listing>, id: int)
    ensures Remove(Remove(rows, id), id) == Remove(rows, id)
  {
    if rows != [] {
      RemoveIdempotent(rows[1..], id);
    }
  }

  /** The rows whose day is `day`, in table order. */
  function Matching(rows: seq<Listing>, day: string): (r: seq<Listing>)
    ensures forall y :: y in r <==> y in rows && y.day == day
    ensures Ascending(rows) ==> Ascending(r)
  {
    if rows == [] then []
    else
      var front := Matching(rows[..|rows| - 1], day);
      var last := rows[|rows| - 1];
      assert forall y :: y in rows <==> y in rows[..|rows| - 1] || y == last;
      if last.day == day then front + [last] else front
  }

  /** Extending the scanned prefix by one row extends the matches by that row
      exactly when its day matches. */
  lemma MatchingStep(rows: seq<Listing>, i: nat, day: string)
    requires i < |rows|
    ensures Matching(rows[..i + 1], day) == Matching(rows[..i], day) + (if rows[i].day == day then [rows[i]] else [])
  {
    assert rows[..i + 1][..i] == rows[..i];
  }

  /** One element of the `data` list of a search reply. `rating` is the
      driver's average rating as the identity service reports it. */
  datatype Entry = Entry(listingId: int, price: real, driver: string, rating: string)

  function EntryOf(x: Listing, rating: string -> string): Entry {
    Entry(x.id, x.price, x.driver, rating(x.driver))
  }

  /** Answer of `get_listing`; NotFound is the reply whose fields are null. */
  datatype ListingReply = Found(day: string, price: real, driver: string) | NotFound {
    function Status(): nat {
      if Found? then 1 else 2
    }
  }

  /** A reply whose entries are those of the day's matches, one by one, lists
      every listing of the day, in ascending listing id. */
  lemma EntriesCoverMatches(rows: seq<Listing>, day: string, rating: string -> string, data: seq<Entry>)
    requires Ascending(rows)
    requires |data| == |Matching(rows, day)|
    requires forall k :: 0 <= k < |data| ==> data[k] == EntryOf(Matching(rows, day)[k], rating)
    ensures forall x :: x in rows && x.day == day ==> EntryOf(x, rating) in data
    ensures forall i, j :: 0 <= i < j < |data| ==> data[i].listingId < data[j].listingId
  {
    var m := Matching(rows, day);
    forall x | x in rows && x.day == day
      ensures EntryOf(x, rating) in data
    {
      var k :| 0 <= k < |m| && m[k] == x;
      assert data[k] == EntryOf(x, rating);
    }
  }

  class ListingTable {
    /** The listings table, in ascending listing id. */
    var rows: seq<Listing>

    ghost predicate Valid()
      reads this
    {
      && Ascending(rows)
      && forall x :: x in rows ==> x.price >= 0.0 && IsWeekday(x.day)
    }

    constructor ()
      ensures Valid() && rows == []
    {
      rows := [];
    }

    /** `create_listing`: a driver adds a listing under a listing id not yet
        in use. `confirmed` is the identity service's `get_user_info` answer
        (status 1 and is_driver), false when the call fails. */
    method CreateListing(token: string, auth: Auth, day: string, price: Param<real>, listingId: Param<int>, confirmed: bool)
      returns (status: nat)
      requires Valid()
      modifies this
      ensures Valid()
      ensures status == 1 <==>
        && token != "" && auth.Valid? && auth.isDriver
        && IsWeekday(day) && price.Given? && price.value >= 0.0 && listingId.Given?
        && confirmed
        && Lookup(old(rows), listingId.value).None?
      ensures status != 1 ==> status == 2 && rows == old(rows)
      ensures status == 1 ==> |rows| == |old(rows)| + 1
      ensures status == 1 ==>
        forall y :: y in rows <==> y in old(rows) || y == Listing(listingId.value, auth.username, day, price.value)
    {
      if token == "" || !auth.Valid? || !auth.isDriver {
        return 2;
      }
      var username := auth.username;
      if day == "" || price.Absent? || listingId.Absent? {
        return 2;
      }
      if !IsWeekday(day) {
        return 2;
      }
      if price.Malformed? || price.value < 0.0 {
        return 2;
      }
      if listingId.Malformed? {
        return 2;
      }
      if !confirmed {
        return 2;
      }
      if Lookup(rows, listingId.value).Some? {
        return 2;
      }
      rows := Insert(rows, Listing(listingId.value, username, day, price.value));
      status := 1;
    }

    /** `search_listings`: a passenger lists the listings for one day, in
        ascending listing id, each with its driver's rating (`rating` stands
        for the identity service's `get_rating` answer, "0.00" on failure). */
    method Search(token: string, auth: Auth, day: string, rating: string -> string)
      returns (status: nat, data: seq<Entry>)
      requires Valid()
      ensures status == 1 <==> token != "" && auth.Valid? && !auth.isDriver && IsWeekday(day)
      ensures status != 1 ==> status == 2 && data == []
      ensures status == 1 ==> |data| == |Matching(rows, day)|
      ensures status == 1 ==> forall k :: 0 <= k < |data| ==> data[k] == EntryOf(Matching(rows, day)[k], rating)
      ensures status == 1 ==> forall x :: x in rows && x.day == day ==> EntryOf(x, rating) in data
      ensures status == 1 ==> forall i, j :: 0 <= i < j < |data| ==> data[i].listingId < data[j].listingId
    {
      if token == "" || !auth.Valid? || auth.isDriver {
        return 2, [];
      }
      if day == "" || !IsWeekday(day) {
        return 2, [];
      }
      data := [];
      for i := 0 to |rows|
        invariant |data| == |Matching(rows[..i], day)|
        invariant forall k :: 0 <= k < |data| ==> data[k] == EntryOf(Matching(rows[..i], day)[k], rating)
      {
        MatchingStep(rows, i, day);
        if rows[i].day == day {
          data := data + [EntryOf(rows[i], rating)];
        }
      }
      assert rows[..|rows|] == rows;
      EntriesCoverMatches(rows, day, rating, data);
      status := 1;
    }

    /** `get_listing`: the stored day, price and driver of one listing. */
    function GetListing(listingId: Param<int>): (r: ListingReply)
      reads this
      ensures r.Found? <==> listingId.Given? && exists k :: 0 <= k < |rows| && rows[k].id == listingId.value
      ensures r.Found? ==> Listing(listingId.value, r.driver, r.day, r.price) in rows
      ensures r.Status() == 1 <==> r.Found?
    {
      if !listingId.Given? then NotFound
      else match Lookup(rows, listingId.value)
        case None => NotFound
        case Some(x) => Found(x.day, x.price, x.driver)
    }

    /** `delete_listing`: removes the listing with this id; deleting an id
        that is not present succeeds too. */
    method DeleteListing(listingId: Param<int>) returns (status: nat)
      requires Valid()
      modifies this
      ensures Valid()
      ensures status == 1 <==> listingId.Given?
      ensures status != 1 ==> status == 2 && rows == old(rows)
      ensures status == 1 ==> rows == Remove(old(rows), listingId.value)
      ensures status == 1 ==> forall y :: y in rows <==> y in old(rows) && y.id != listingId.value
    {
      if listingId.Absent? || listingId.Malformed? {
        return 2;
      }
      rows := Remove(rows, listingId.value);
      status := 1;
    }
  }
}
