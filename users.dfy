/** The identity service: password rules, the signed bearer token, and the
    users, password-history and ratings tables. */
module Users {
  import opened Common
  import Payments
  import Reservations

  /** The foreign primitives the service builds on, as functions:
      - mac: HMAC-SHA256 under the service's secret key, as a hex digest;
      - encode/decode: URL-safe base64 of the UTF-8 bytes (padding kept) and
        its inverse, None when the text is not base64 or not UTF-8;
      - claimsJson: the JSON text of the claims object `{"username": u}`;
      - claimsUsername: the `username` member of parsed JSON text, None when
        the text does not parse or has no such member. */
  datatype Crypto = Crypto(
    mac: string -> string,
    encode: string -> string,
    decode: string -> Option<string>,
    claimsJson: string -> string,
    claimsUsername: string -> Option<string>)

  /** The JSON text of the token header: HS256 as named by section 3.2 of
      RFC 7518. */
  const HeaderJson: string := "{\"alg\": \"HS256\", \"typ\": \"JWT\"}"

  /** `hash_password`: the MAC of the salt followed by the password. */
  function HashPassword(c: Crypto, password: string, salt: string): string {
    c.mac(salt + password)
  }

  /** The hash sees only the salt and the password run together, with nothing
      between them: two sign-ups whose salt followed by password read the same
      store the same hash. */
  lemma HashSeesSaltedText(c: Crypto, password: string, salt: string, password': string, salt': string)
    requires salt + password == salt' + password'
    ensures HashPassword(c, password, salt) == HashPassword(c, password', salt')
  {
  }

  // ---------------------------------------------------------------------------
  // Splitting on a separator, as Python's str.split(sep)

  function Split(s: string, sep: char): (parts: seq<string>)
    ensures |parts| >= 1
    ensures forall k :: 0 <= k < |parts| ==> sep !in parts[k]
  {
    if s == [] then [""]
    else
      var rest := Split(s[1..], sep);
      if s[0] == sep then [""] + rest
      else [[s[0]] + rest[0]] + rest[1..]
  }

  /** The parts with the separator between each two neighbours. */
  function Join(parts: seq<string>, sep: char): string
    requires |parts| >= 1
  {
    if |parts| == 1 then parts[0] else parts[0] + [sep] + Join(parts[1..], sep)
  }

  /** Splitting loses nothing: joining the parts gives the text back. */
  lemma {:induction false} JoinSplit(s: string, sep: char)
    ensures Join(Split(s, sep), sep) == s
  {
    if s != [] {
      JoinSplit(s[1..], sep);
      var rest := Split(s[1..], sep);
      if s[0] != sep {
        if |rest| == 1 {
          assert Join(Split(s, sep), sep) == [s[0]] + rest[0];
        } else {
          assert Join(Split(s, sep), sep) == ([s[0]] + rest[0]) + [sep] + Join(rest[1..], sep);
        }
      }
      assert s == [s[0]] + s[1..];
    }
  }

  /** A text without the separator is one part. */
  lemma {:induction false} SplitWhole(a: string, sep: char)
    requires sep !in a
    ensures Split(a, sep) == [a]
  {
    if a != [] {
      SplitWhole(a[1..], sep);
      assert a == [a[0]] + a[1..];
    }
  }

  /** A separator-free prefix followed by the separator is the first part. */
  lemma {:induction false} SplitFirst(a: string, sep: char, rest: string)
    requires sep !in a
    ensures Split(a + [sep] + rest, sep) == [a] + Split(rest, sep)
  {
    if a == [] {
      assert a + [sep] + rest == [sep] + rest;
      assert ([sep] + rest)[1..] == rest;
    } else {
      assert (a + [sep] + rest)[1..] == a[1..] + [sep] + rest;
      SplitFirst(a[1..], sep, rest);
      assert [a[0]] + a[1..] == a;
    }
  }

  /** Three separator-free segments joined by the separator split back into
      those three segments. */
  lemma SplitThree(h: string, p: string, s: string)
    requires '.' !in h && '.' !in p && '.' !in s
    ensures Split(h + "." + p + "." + s, '.') == [h, p, s]
  {
    assert h + "." + p + "." + s == h + ['.'] + (p + ['.'] + s);
    SplitFirst(h, '.', p + ['.'] + s);
    SplitFirst(p, '.', s);
    SplitWhole(s, '.');
  }

  // ---------------------------------------------------------------------------
  // The bearer token: the compact layout of section 7.1 of RFC 7515 with a
  // hex tag and padded base64 segments.

  /** `generate_jwt`: header segment, claims segment and the MAC of the two,
      separated by dots. */
  function GenerateJwt(c: Crypto, username: string): (token: string)
    ensures
      var header := c.encode(HeaderJson);
      var payload := c.encode(c.claimsJson(username));
      '.' !in header && '.' !in payload && '.' !in c.mac(header + "." + payload) ==>
        Split(token, '.') == [header, payload, c.mac(header + "." + payload)]
  {
    var header := c.encode(HeaderJson);
    var payload := c.encode(c.claimsJson(username));
    var tag := c.mac(header + "." + payload);
    assert '.' !in header && '.' !in payload && '.' !in tag ==>
      Split(header + "." + payload + "." + tag, '.') == [header, payload, tag] by {
      if '.' !in header && '.' !in payload && '.' !in tag {
        SplitThree(header, payload, tag);
      }
    }
    header + "." + payload + "." + tag
  }

  /** `verify_jwt`: the username inside a well-formed token whose tag is the
      MAC of its first two segments. An accepted token is always of the form
      `h.p.MAC(h.p)`. */
  function VerifyJwt(c: Crypto, token: string): (r: Option<string>)
    ensures r.Some? ==>
      var parts := Split(token, '.');
      && |parts| == 3
      && token == parts[0] + "." + parts[1] + "." + c.mac(parts[0] + "." + parts[1])
  {
    var parts := Split(token, '.');
    if |parts| != 3 then None
    else if parts[2] != c.mac(parts[0] + "." + parts[1]) then None
    else
      JoinSplit(token, '.');
      assert Join(parts[1..], '.') == parts[1] + "." + parts[2];
      assert Join(parts, '.') == parts[0] + "." + (parts[1] + "." + parts[2]);
      match c.decode(parts[1])
      case None => None
      case Some(json) => c.claimsUsername(json)
  }

  /** A token whose tag is not the MAC of its first two segments is refused. */
  lemma VerifyRejectsWrongTag(c: Crypto, h: string, p: string, tag: string)
    requires '.' !in h && '.' !in p && '.' !in tag
    requires tag != c.mac(h + "." + p)
    ensures VerifyJwt(c, h + "." + p + "." + tag) == None
  {
    SplitThree(h, p, tag);
  }

  /** What the round trip needs of the foreign primitives for one username:
      no segment or tag contains a dot, base64 decoding inverts encoding, and
      the claims parse back to the username. */
  ghost predicate CodecsInvert(c: Crypto, username: string) {
    var header := c.encode(HeaderJson);
    var payload := c.encode(c.claimsJson(username));
    && '.' !in header && '.' !in payload && '.' !in c.mac(header + "." + payload)
    && c.decode(payload) == Some(c.claimsJson(username))
    && c.claimsUsername(c.claimsJson(username)) == Some(username)
  }

  /** Round trip: a token the service issued verifies to its username. */
  lemma VerifyGenerated(c: Crypto, username: string)
    requires CodecsInvert(c, username)
    ensures VerifyJwt(c, GenerateJwt(c, username)) == Some(username)
  {
    var header := c.encode(HeaderJson);
    var payload := c.encode(c.claimsJson(username));
    SplitThree(header, payload, c.mac(header + "." + payload));
  }

  // ---------------------------------------------------------------------------
  // Password rules

  predicate IsLowerChar(ch: char) { 'a' <= ch <= 'z' }
  predicate IsUpperChar(ch: char) { 'A' <= ch <= 'Z' }
  predicate IsDigitChar(ch: char) { '0' <= ch <= '9' }

  function LowerChar(ch: char): char {
    if IsUpperChar(ch) then (ch as int + 32) as char else ch
  }

  /** Python's str.lower(), on ASCII letters. */
  function Lower(s: string): string {
    seq(|s|, k requires 0 <= k < |s| => LowerChar(s[k]))
  }

  /** Python's `any(p(c) for c in s)`. */
  function AnyChar(s: string, p: char -> bool): (b: bool)
    ensures b <==> exists k :: 0 <= k < |s| && p(s[k])
  {
    if s == [] then false
    else p(s[0]) || AnyChar(s[1..], p)
  }

  /** `needle` is the piece of `hay` that starts at index `k`. */
  ghost predicate OccursAt(needle: string, hay: string, k: int) {
    0 <= k && k + |needle| <= |hay| && hay[k..k + |needle|] == needle
  }

  /** `needle` is a contiguous piece of `hay`. */
  ghost predicate Occurs(needle: string, hay: string) {
    exists k :: OccursAt(needle, hay, k)
  }

  /** Python's `needle in hay` on strings. */
  function Contains(hay: string, needle: string): (b: bool)
    ensures b <==> Occurs(needle, hay)
    decreases |hay|
  {
    if |hay| < |needle| then false
    else if hay[..|needle|] == needle then
      assert OccursAt(needle, hay, 0);
      true
    else
      var b := Contains(hay[1..], needle);
      assert b ==> Occurs(needle, hay) by {
        if b {
          var k :| OccursAt(needle, hay[1..], k);
          assert hay[1..][k..k + |needle|] == hay[k + 1..k + 1 + |needle|];
          assert OccursAt(needle, hay, k + 1);
        }
      }
      assert Occurs(needle, hay) ==> b by {
        if Occurs(needle, hay) {
          var k :| OccursAt(needle, hay, k);
          assert k != 0;
          assert hay[1..][k - 1..k - 1 + |needle|] == hay[k..k + |needle|];
          assert OccursAt(needle, hay[1..], k - 1);
        }
      }
      b
  }

  /** `validate_password`: at least eight characters, a lowercase letter, an
      uppercase letter and a digit, and none of the username, first name or
      last name inside it, ignoring case. */
  function ValidatePassword(password: string, username: string, firstName: string, lastName: string): (ok: bool)
    ensures ok <==>
      && |password| >= 8
      && (exists k :: 0 <= k < |password| && IsLowerChar(password[k]))
      && (exists k :: 0 <= k < |password| && IsUpperChar(password[k]))
      && (exists k :: 0 <= k < |password| && IsDigitChar(password[k]))
      && !Occurs(Lower(username), Lower(password))
      && !Occurs(Lower(firstName), Lower(password))
      && !Occurs(Lower(lastName), Lower(password))
  {
    && |password| >= 8
    && AnyChar(password, IsLowerChar)
    && AnyChar(password, IsUpperChar)
    && AnyChar(password, IsDigitChar)
    && !Contains(Lower(password), Lower(username))
    && !Contains(Lower(password), Lower(firstName))
    && !Contains(Lower(password), Lower(lastName))
  }

  // ---------------------------------------------------------------------------
  // The tables and their handlers

  datatype User = User(id: nat, firstName: string, lastName: string, email: string,
                       passHash: string, salt: string, isDriver: bool)

  /** One row of the password history: a hash once set for a user. */
  datatype PasswordRecord = PasswordRecord(userId: nat, passHash: string)

  datatype Rating = Rating(raterId: nat, ratedId: nat, score: int)

  /** A `login` reply; `jwt` is "NULL" on failure. */
  datatype LoginReply = LoginReply(status: nat, jwt: string)

  /** The longest accepted text field. */
  const MaxFieldLength := 254

  /** Every check `create_user` makes before it reads the store. */
  predicate SignupWellFormed(firstName: string, lastName: string, username: string, email: string,
                             password: string, salt: string, deposit: Param<real>)
  {
    && firstName != "" && lastName != "" && username != "" && email != "" && password != "" && salt != ""
    && !deposit.Absent?
    && |firstName| <= MaxFieldLength && |lastName| <= MaxFieldLength && |username| <= MaxFieldLength
    && |email| <= MaxFieldLength && |password| <= MaxFieldLength && |salt| <= MaxFieldLength
    && ValidatePassword(password, username, firstName, lastName)
    && deposit.Given? && deposit.value >= 0.0
  }

  /** The `driver` parameter read as a flag: "true", "1" or "yes" in any case. */
  predicate DriverFlag(driver: string) {
    driver != "" && Lower(driver) in ["true", "1", "yes"]
  }

  /** The flag ignores the case of the parameter. */
  lemma DriverFlagIgnoresCase(driver: string, driver': string)
    requires Lower(driver) == Lower(driver')
    ensures DriverFlag(driver) == DriverFlag(driver')
  {
  }

  /** Some spellings the flag accepts and some it refuses; a missing
      parameter makes a passenger. */
  lemma DriverFlagSpellings()
    ensures DriverFlag("True") && DriverFlag("YES") && DriverFlag("1")
    ensures !DriverFlag("") && !DriverFlag("false") && !DriverFlag("0") && !DriverFlag("y")
  {
    assert Lower("True") == "true";
    assert Lower("YES") == "yes";
    assert Lower("1") == "1";
    assert Lower("0") == "0";
    assert Lower("y") == "y";
  }

  predicate EmailTaken(users: map<string, User>, email: string) {
    exists u :: u in users && users[u].email == email
  }

  /** Every check `rate` makes once it knows the rater's username, with
      `confirmed` the reservations service's answer that the two share a
      reservation. */
  ghost predicate MayRate(users: map<string, User>, rater: string, rated: string, score: Param<int>, confirmed: bool) {
    && rated != "" && score.Given? && 0 <= score.value <= 5
    && rater in users && rated in users
    && users[rater].id != users[rated].id
    && users[rater].isDriver != users[rated].isDriver
    && confirmed
  }

  /** The invariant of the identity tables: ids below the next id, distinct
      ids and emails, each user's hash recorded in the password history, and
      each rating between two different users with a score from 0 to 5. */
  ghost predicate TablesValid(users: map<string, User>, history: seq<PasswordRecord>, ratings: seq<Rating>, nextId: nat) {
    && (forall u :: u in users ==> users[u].id < nextId)
    && (forall u, v :: u in users && v in users && u != v ==>
          users[u].id != users[v].id && users[u].email != users[v].email)
    && (forall u :: u in users ==> PasswordRecord(users[u].id, users[u].passHash) in history)
    && (forall r :: r in ratings ==> r.raterId != r.ratedId && 0 <= r.score <= 5)
  }

  /** Signing up a new username with an unused email under the next id, and
      recording its hash, keeps the tables valid. */
  lemma SignupKeepsValid(users: map<string, User>, history: seq<PasswordRecord>, ratings: seq<Rating>, nextId: nat,
                         username: string, user: User)
    requires TablesValid(users, history, ratings, nextId)
    requires username !in users && !EmailTaken(users, user.email) && user.id == nextId
    ensures TablesValid(users[username := user], history + [PasswordRecord(user.id, user.passHash)], ratings, nextId + 1)
  {
  }

  class Directory {
    var users: map<string, User>
    var history: seq<PasswordRecord>
    var ratings: seq<Rating>
    /** The id the next user receives. */
    var nextId: nat

    ghost predicate Valid()
      reads this
    {
      TablesValid(users, history, ratings, nextId)
    }

    constructor ()
      ensures Valid() && users == map[] && history == [] && ratings == [] && nextId == 0
    {
      users, history, ratings, nextId := map[], [], [], 0;
    }

    /** `create_user`: validates the form, refuses a taken username (2), then a
        taken email (3), stores the user and the first password-history
        record, and forwards the deposit to the payments service's
        `initialize`, ignoring how that call went. */
    method CreateUser(firstName: string, lastName: string, username: string, email: string, password: string,
                      salt: string, driver: string, deposit: Param<real>, c: Crypto,
                      ledger: Payments.Ledger, initialize: Delivery)
      returns (status: nat, passHash: string)
      requires Valid() && ledger.Valid()
      modifies this, ledger
      ensures Valid() && ledger.Valid()
      ensures status in {1, 2, 3, 4}
      ensures status == 4 <==> !SignupWellFormed(firstName, lastName, username, email, password, salt, deposit)
      ensures status == 2 <==>
        SignupWellFormed(firstName, lastName, username, email, password, salt, deposit) && username in old(users)
      ensures status == 3 <==>
        && SignupWellFormed(firstName, lastName, username, email, password, salt, deposit)
        && username !in old(users) && EmailTaken(old(users), email)
      ensures status != 1 ==>
        && passHash == "NULL"
        && users == old(users) && history == old(history) && nextId == old(nextId)
        && ledger.balances == old(ledger.balances)
      ensures status == 1 ==> passHash == HashPassword(c, password, salt)
      // The new user can log in with the password just set.
      ensures status == 1 ==> Login(username, password, c) == LoginReply(1, GenerateJwt(c, username))
      ensures status == 1 ==>
        users == old(users)[username := User(old(nextId), firstName, lastName, email, passHash, salt, DriverFlag(driver))]
      ensures status == 1 ==> history == old(history) + [PasswordRecord(old(nextId), passHash)]
      ensures status == 1 ==> nextId == old(nextId) + 1
      ensures status == 1 && initialize != NotDelivered ==> ledger.balances == old(ledger.balances)[username := deposit.value]
      ensures status == 1 && initialize == NotDelivered ==> ledger.balances == old(ledger.balances)
      ensures ratings == old(ratings)
    {
      if firstName == "" || lastName == "" || username == "" || email == "" || password == "" || salt == "" || deposit.Absent? {
        return 4, "NULL";
      }
      if |firstName| > MaxFieldLength || |lastName| > MaxFieldLength || |username| > MaxFieldLength
        || |email| > MaxFieldLength || |password| > MaxFieldLength || |salt| > MaxFieldLength
      {
        return 4, "NULL";
      }
      if !ValidatePassword(password, username, firstName, lastName) {
        return 4, "NULL";
      }
      var isDriver := DriverFlag(driver);
      if deposit.Malformed? || deposit.value < 0.0 {
        return 4, "NULL";
      }
      if username in users {
        return 2, "NULL";
      }
      if EmailTaken(users, email) {
        return 3, "NULL";
      }
      passHash := HashPassword(c, password, salt);
      var user := User(nextId, firstName, lastName, email, passHash, salt, isDriver);
      SignupKeepsValid(users, history, ratings, nextId, username, user);
      users := users[username := user];
      history := history + [PasswordRecord(user.id, passHash)];
      nextId := nextId + 1;
      if initialize != NotDelivered {
        var _ := ledger.Initialize(username, deposit);
      }
      status := 1;
    }

    /** `login`: a token for the user when the password hashes, under the
        stored salt, to the stored hash. */
    function Login(username: string, password: string, c: Crypto): (r: LoginReply)
      reads this
      ensures r.status == 1 <==>
        && username != "" && password != "" && username in users
        && HashPassword(c, password, users[username].salt) == users[username].passHash
      ensures r.status == 1 ==> r.jwt == GenerateJwt(c, username)
      ensures r.status != 1 ==> r.status == 2 && r.jwt == "NULL"
    {
      if username == "" || password == "" then LoginReply(2, "NULL")
      else if username !in users then LoginReply(2, "NULL")
      else if HashPassword(c, password, users[username].salt) != users[username].passHash then LoginReply(2, "NULL")
      else LoginReply(1, GenerateJwt(c, username))
    }

    /** `internal_verify_jwt`: the verification answer other services rely
        on. A token is valid only while its user exists. */
    function InternalVerifyJwt(token: string, c: Crypto): (r: Auth)
      reads this
      ensures r.Valid? <==>
        token != "" && VerifyJwt(c, token).Some? && VerifyJwt(c, token).value != "" && VerifyJwt(c, token).value in users
      ensures r.Valid? ==>
        && Some(r.username) == VerifyJwt(c, token)
        && r.username in users
        && r.isDriver == users[r.username].isDriver
        && r.userId == users[r.username].id
    {
      if token == "" then Invalid
      else match VerifyJwt(c, token)
        case None => Invalid
        case Some(username) =>
          if username == "" || username !in users then Invalid
          else Auth.Valid(username, users[username].isDriver, users[username].id)
    }

    /** `rate`: records a score from the token's user for another user of the
        opposite role with whom the reservations service confirms a shared
        reservation. `check` says how the call to `check_reservation` went. */
    method Rate(token: string, ratedUsername: string, rating: Param<int>, c: Crypto,
                book: Reservations.ReservationBook, check: Delivery)
      returns (status: nat)
      requires Valid()
      modifies this
      ensures Valid()
      ensures users == old(users) && history == old(history) && nextId == old(nextId)
      ensures status == 1 <==>
        && token != "" && VerifyJwt(c, token).Some? && VerifyJwt(c, token).value != ""
        && MayRate(users, VerifyJwt(c, token).value, ratedUsername, rating,
                   check == Delivered && book.CheckReservation(VerifyJwt(c, token).value, ratedUsername) == 1)
      ensures status != 1 ==> status == 2 && ratings == old(ratings)
      ensures status == 1 ==>
        var rater := VerifyJwt(c, token).value;
        && rater != ratedUsername
        && (exists k :: 0 <= k < |book.rows| && Reservations.Between(book.rows[k], rater, ratedUsername))
        && ratings == old(ratings) + [Rating(users[rater].id, users[ratedUsername].id, rating.value)]
    {
      if token == "" {
        return 2;
      }
      var verified := VerifyJwt(c, token);
      if verified.None? || verified.value == "" {
        return 2;
      }
      var rater := verified.value;
      if ratedUsername == "" || rating.Absent? {
        return 2;
      }
      if rating.Malformed? || rating.value < 0 || rating.value > 5 {
        return 2;
      }
      if rater !in users {
        return 2;
      }
      var raterRow := users[rater];
      if ratedUsername !in users {
        return 2;
      }
      var ratedRow := users[ratedUsername];
      if raterRow.id == ratedRow.id {
        return 2;
      }
      if raterRow.isDriver && ratedRow.isDriver {
        return 2;
      }
      if !raterRow.isDriver && !ratedRow.isDriver {
        return 2;
      }
      if check != Delivered || book.CheckReservation(rater, ratedUsername) != 1 {
        return 2;
      }
      ratings := ratings + [Rating(raterRow.id, ratedRow.id, rating.value)];
      status := 1;
    }
  }

  /** A token handed out by `login` is accepted by `internal_verify_jwt`
      while the user exists, with the user's stored role and id. */
  lemma LoginTokenAccepted(d: Directory, username: string, password: string, c: Crypto)
    requires d.Login(username, password, c).status == 1
    requires CodecsInvert(c, username)
    ensures d.InternalVerifyJwt(d.Login(username, password, c).jwt, c)
         == Auth.Valid(username, d.users[username].isDriver, d.users[username].id)
  {
    VerifyGenerated(c, username);
  }
}
