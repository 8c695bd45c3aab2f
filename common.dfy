/** Values shared by the four services: optional results, request parameters
    after extraction and number parsing, the identity service's verification
    answer, and the outcome of a call to a peer service. */
module Common {

  datatype Option<+T> = None | Some(value: T)

  /** A numeric request parameter once it has been read from the body and
      given to Python's int() or float(): absent, not a number, or a number.
      Absent covers a missing or empty value and also any value Python reads
      as false, such as the JSON number 0 or `false`; the form text "0" is
      not absent and parses as the number 0. */
  datatype Param<+T> = Absent | Malformed | Given(value: T)

  /** What `verify_token` (a call to the identity service's internal
      verification endpoint) answers. A call that fails in transport reads as
      Invalid, just as `{"valid": 0}` does. */
  datatype Auth = Invalid | Valid(username: string, isDriver: bool, userId: nat)

  /** How a synchronous call to a peer service went: the peer never received
      it, the peer handled it and its reply came back, or the peer handled it
      but the caller timed out before the reply came back. */
  datatype Delivery = NotDelivered | Delivered | ReplyLost
}
