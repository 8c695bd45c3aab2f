# Ride-sharing services: a Dafny model

This project models the four small HTTP services of a ride-sharing back end
and proves what their handlers promise.

- **payments** keeps one balance per username. Its handlers are
  `initialize`, `add`, `view`, `check_balance` and `transfer`.
- **availability** keeps drivers' listings under a caller-chosen integer
  listing id. Its handlers are `listing`, `search`, `get_listing` and
  `delete_listing`.
- **reservations** keeps an append-only table of paid reservations.
  - `reserve` is a saga: get the listing, check the balance, transfer the
    price, delete the listing, then record the reservation.
  - `view` returns the caller's newest reservation.
  - `check_reservation` says whether two users share a reservation.
- **users** handles sign-up, login and ratings. It issues HS256-style tokens
  and answers the other services' token checks through
  `internal/verify_jwt`.

Each service's table is a class whose field the handlers reassign:

- `Payments.Ledger.balances` is a map.
- `Availability.ListingTable.rows` is a sequence in ascending listing id,
  the order the table's queries return.
- `Reservations.ReservationBook.rows` is a sequence in insertion order.
- `Users.Directory` holds the users, the password history and the ratings.

Each class has a `Valid()` invariant that every handler preserves:

- no negative balance;
- listing ids unique, prices non-negative and days among the seven weekday
  names;
- reservation ids ascending;
- user ids and emails distinct, every user's hash recorded in the history,
  and every rating between 0 and 5 and between two different users.

A handler's reply status is its result. Request parameters arrive already
classified:

- A text parameter is a string, with "" standing for a missing value.
- A numeric parameter is a `Param`: `Absent`, `Malformed` (not a number) or
  `Given(value)`.
- The `verify_token` answer from the users service is an `Auth` value.

Calls from one service to another have a `Delivery` outcome:

- `Delivered` means the request arrived and the reply came back.
- `NotDelivered` means the request never arrived.
- `ReplyLost` means the peer acted but the caller saw a failure.

Where a peer's store is in the model, the peer's handler runs on it. The
reservation saga really calls `Ledger.Transfer` and
`ListingTable.DeleteListing`, so its contract can state the saga's gap: a
transfer whose reply is lost leaves the money moved and no reservation
recorded.

HMAC-SHA256, URL-safe base64 and JSON are foreign primitives. They are the
fields of a `Users.Crypto` value. What the token round trip needs from them
is stated as the hypothesis `Users.CodecsInvert`.

`Scenarios` shows that the contracts alone settle three reservation scenarios:

- A passenger with 20.00 reserves a 10.00 listing: each party ends with
  10.00, the listing is gone and one reservation row links them.
- A passenger with 5.00 tries the same: the reply is status 3 and nothing
  changes.
- A passenger with 20.00 tries the same, but the transfer's reply is lost:
  the reply is status 3, the money has moved, the listing stays and no
  reservation is recorded.

## Model

| member | source | states |
|---|---|---|
| Payments.TotalWithout | payments/app.py:279-337 | Removing one user's row takes exactly that user's balance out of the sum of all balances, whichever row the sum was built from. |
| Payments.TotalAfterSet | payments/app.py:104-139 | Overwriting or creating one row changes the sum of all balances by the new value minus the old one (nothing for a new row). |
| Payments.Ledger.Initialize | payments/app.py:104-139 | Succeeds exactly for a named user and a non-negative numeric amount. On success the user's balance becomes the amount, an existing balance is overwritten, and the total moves by the difference. On failure nothing changes. |
| Payments.Ledger.AddMoney | payments/app.py:141-192 | Succeeds exactly for a verified caller and a non-negative amount. The caller's row is created at 0 if missing and credited. Every other balance is unchanged and the total grows by the amount. |
| Payments.Ledger.ViewBalance | payments/app.py:194-235 | A verified caller gets status 1 and their balance, or 0 when they have no row. Otherwise status 2 and no balance. |
| Payments.Ledger.CheckBalance | payments/app.py:237-277 | Status 1 exactly for a known user and a numeric amount. `has_enough` then says whether the balance covers the amount, and a negative amount is not rejected. On status 2, `has_enough` is false. |
| Payments.CheckedTransferAllowed | reservations/app.py:153-174 | A balance check that reported enough funds for a non-negative amount, followed by a transfer of that amount to a named receiver on the same ledger, passes every check the transfer makes. |
| Payments.AfterTransfer | payments/app.py:315-327 | The table after the debit and the credit read back after it. The sender loses the amount and the receiver gains it, the receiver's row is created if missing, a self-transfer changes nothing, nobody else changes and the total is kept. |
| Payments.Ledger.Transfer | payments/app.py:279-337 | Succeeds exactly when both names are given, the amount is a non-negative number and the sender holds at least that much. Then the sender is debited, the receiver is credited (its row created if missing), nobody else changes and the total is conserved. A self-transfer changes nothing. A refusal changes nothing. |
| Availability.Lookup | availability/app.py:266-307 | Finds a row carrying the requested id, or reports that no row carries it. |
| Availability.LookupUnique | availability/app.py:160-170 | In a table with unique ids, the row Lookup returns for an id is the only row with that id. |
| Availability.Insert | availability/app.py:160-181 | Inserting a listing whose id is unused adds exactly that row, keeps ids unique and ascending, and grows the table by one. |
| Availability.Remove | availability/app.py:309-336 | Deleting an id removes every row with that id and keeps all other rows. The order of the rest is kept, and deleting an absent id changes nothing. |
| Availability.RemoveIdempotent | availability/app.py:309-336 | Deleting the same listing twice leaves the same table as deleting it once. |
| Availability.Matching | availability/app.py:205-240 | The rows of one day are exactly the stored rows carrying that day, in ascending listing id. |
| Availability.EntriesCoverMatches | availability/app.py:218-252 | Entries built one by one from the day's matches list every listing of that day, in strictly ascending listing id. |
| Availability.ListingTable.CreateListing | availability/app.py:105-186 | Succeeds exactly for a verified driver, a weekday name in exact case, a non-negative price, an integer id that is not yet used, and a confirmed driver record. Then exactly that listing is added under the driver's name. Any failure leaves the table unchanged. |
| Availability.ListingTable.Search | availability/app.py:188-264 | A verified passenger asking for a weekday gets one entry per listing of that day, in ascending listing id, each with that driver's rating. Every listing of the day appears. Drivers and non-weekday names get status 2 and an empty list. |
| Availability.ListingTable.GetListing | availability/app.py:266-307 | Found, with status 1, exactly when the id is an integer present in the table. The reply then carries that row's day, price and driver. |
| Availability.ListingTable.DeleteListing | availability/app.py:309-336 | Succeeds for any integer id, present or not, and removes exactly the rows with that id. Otherwise nothing changes. |
| Reservations.Latest | reservations/app.py:222-246 | The caller's newest reservation on their side (driver or passenger) under newest-timestamp-then-highest-id order. None exactly when the caller has no reservation. |
| Reservations.LatestIsUnique | reservations/app.py:222-246 | With distinct ids, two rows that are both newest for the caller are the same row, so `view` has only one answer. |
| Reservations.AnyBetween | reservations/app.py:290-307 | True exactly when some reservation pairs the two users, in either role. |
| Reservations.ReservationBook.Reserve | reservations/app.py:104-201 | The status is 2 exactly for a missing or rejected token, and otherwise 1 or 3. It is 1 exactly when every check passed and the transfer's reply came back. The checks are: a passenger caller, an integer listing id, a listing found with a driver, and a balance check that reports enough money. Nothing is written unless the transfer was sent. A sent transfer debits the passenger, credits the driver, changes no other balance and keeps the total. A self-transfer leaves every balance as it was. The listing is deleted once that request arrives, and never when the status is not 1. Success appends exactly one row with the next id and the passenger, driver, price and time. A lost transfer reply returns 3 with the money already moved and the listing still stored. |
| Reservations.ReservationBook.View | reservations/app.py:203-277 | A verified caller with a reservation gets status 1. The data is the newest reservation on the caller's side, with the other party and that party's rating. Otherwise status 2 and no data. |
| Reservations.ReservationBook.CheckReservation | reservations/app.py:279-312 | Status 1 exactly when both names are given and some reservation has one as passenger and the other as driver. Otherwise status 2. |
| Reservations.CheckReservationSymmetric | reservations/app.py:293-299 | The answer does not depend on which of the two users is named first. |
| Users.HashSeesSaltedText | users/app.py:47-50 | The stored hash depends only on the salt followed directly by the password, so two salt and password pairs that run together to the same text hash alike. |
| Users.GenerateJwt | users/app.py:52-65 | When no segment contains a dot, the issued token splits on dots into exactly the encoded header, the encoded claims and the MAC of those two joined by a dot. |
| Users.Split | users/app.py:67-87 | Splitting on a separator yields at least one part, and no part contains the separator. |
| Users.JoinSplit | users/app.py:67-87 | Joining the parts of a split with the separator gives back the original text. |
| Users.SplitWhole | users/app.py:67-87 | Text without the separator splits into itself alone. |
| Users.SplitFirst | users/app.py:67-87 | Text made of a separator-free piece, the separator and a rest splits into that piece followed by the rest's parts. |
| Users.SplitThree | users/app.py:52-87 | Three separator-free segments joined by dots split back into exactly those three segments. |
| Users.VerifyJwt | users/app.py:67-87 | A token is accepted only when it has three dot-separated segments and its third segment is the MAC of the first two, joined by a dot. |
| Users.VerifyRejectsWrongTag | users/app.py:67-87 | A token whose tag differs from the MAC of its header and payload is refused. |
| Users.VerifyGenerated | users/app.py:52-87 | A token that `generate_jwt` issued verifies back to its username, given that the codecs invert each other. |
| Users.AnyChar | users/app.py:95-105 | True exactly when some character of the text has the property. |
| Users.Contains | users/app.py:107-117 | True exactly when the needle occurs as a contiguous piece of the text, the empty needle included. |
| Users.ValidatePassword | users/app.py:89-119 | Accepts exactly when the password has at least 8 characters, a lowercase letter, an uppercase letter and a digit, and contains none of the username, first name or last name, ignoring case. |
| Users.DriverFlagIgnoresCase | users/app.py:213-219 | Two `driver` values that lowercase to the same text give the same driver flag. |
| Users.DriverFlagSpellings | users/app.py:213-219 | "True", "YES" and "1" make a driver. A missing value, "false", "0" and "y" make a passenger. |
| Users.SignupKeepsValid | users/app.py:230-265 | Storing a new username with an unused email under the next id, and recording its hash in the history, keeps ids and emails distinct and every user's hash in the history. |
| Users.Directory.CreateUser | users/app.py:187-279 | Status 4 exactly when a field is missing or longer than 254 characters, the password breaks a rule, or the deposit is not a non-negative number. Then 2 for a taken username, then 3 for a taken email. On success the user is stored with the next id, the salted hash and the driver flag, its hash is added to the history, the deposit initializes the payments balance once that call arrives, and the hash is returned, and a login with that username and password then succeeds. On failure nothing changes. |
| Users.Directory.Login | users/app.py:281-321 | Status 1 exactly when the user exists and the password, hashed under the stored salt, gives the stored hash. The reply then carries the token issued for that username. Otherwise status 2 and "NULL". |
| Users.Directory.InternalVerifyJwt | users/app.py:503-523 | Valid exactly when the token verifies to a non-empty username that is still stored. The answer then carries that user's stored driver flag and id. |
| Users.Directory.Rate | users/app.py:323-418 | Succeeds exactly when the token verifies, the rated user exists and differs from the rater, the two have opposite roles, the score is an integer from 0 to 5, and the reservations service confirms a shared reservation. Then exactly one rating row is appended. Otherwise nothing changes. |
| Users.LoginTokenAccepted | users/app.py:281-321 | A token that `login` hands out is accepted by `internal/verify_jwt` with the user's stored role and id, given that the codecs invert each other. |

## Left out

- HTTP routing, JSON request bodies and `get_post_param` are not modelled. Each handler receives its parameters already read: "" for a missing text parameter, and `Param` for a numeric one whose `int()`/`float()` parse is not modelled. A numeric parameter that Python reads as false, such as the JSON number 0 or `false`, arrives as `Absent`, as the handlers' `not amount` tests treat it. The form text "0" arrives as `Given(0)`.
- A non-string JSON value in a text parameter is not modelled.
- Opening and closing SQLite connections, `create_db`, the `/clear` endpoints and storage exceptions are not modelled. Each table is a field, and a write always succeeds.
- HTTP transport between services is not modelled. Each peer call has a `Delivery` outcome, and timeouts and HTTP error codes fall under `NotDelivered` or `ReplyLost`.
- `get_user_info` and `get_rating` are not modelled as handlers. Their answers are inputs: `confirmed` for the driver check in `create_listing`, and a rating function for `search` and `view`.
- Average ratings (`AVG`) are not modelled; ratings are stored but never averaged.
- HMAC-SHA256, base64 and JSON encoding are the fields of a `Crypto` value and are not defined here. Constant-time comparison (`hmac.compare_digest`) is plain equality.
- Money is a real number. There is no floating-point rounding, NaN or infinity, and no two-decimal formatting of prices and balances in replies.
- `str.lower`, `islower`, `isupper` and `isdigit` cover ASCII letters and digits only.
- Concurrent requests are not modelled: each handler runs alone. The saga's balance check and transfer therefore see the same ledger.
- Availability.ListingTable.Search: `rating` is one function for the whole search, so two lookups of the same driver always agree.
- Reservations.ReservationBook.Reserve: the `created_at` timestamp is the `now` argument.
