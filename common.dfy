/** Shared result types of the STOMP frame engine, and a few facts about sequences. */
module Common {

  datatype Option<+T> = None | Some(value: T)

  /** The exceptions the frame engine lets escape to its caller. */
  datatype Error =
      /** `UnknownBrokerResponseError("Received: (...)")`: the header part of a frame is empty. */
    | UnknownBrokerResponse(message: string)
      /** `ValueError` raised by `dict(...)` for a header line that has no colon. */
    | MalformedHeaderLine(line: string)
      /** `AttributeError`: a receipt was requested while `session` is still `None`. */
    | NoSession
      /** `TypeError`: `len(None)` when `bytes_message` is set on a frame without a body. */
    | BodyMissing
      /** `AttributeError`: a blocking accessor read no frame and then asked for its `command`. */
    | ReplyMissing

  datatype Result<+T> = Ok(value: T) | Err(error: Error)

  /** Concatenation is associative (stated once, so that proofs can cite it cheaply). */
  lemma Assoc<T>(a: seq<T>, b: seq<T>, c: seq<T>)
    ensures (a + b) + c == a + (b + c)
  {
  }

  /** Moving the first element of `s` to the end of `a` leaves `a + s` as it was. */
  lemma ShiftFirst<T>(a: seq<T>, s: seq<T>)
    requires s != []
    ensures (a + [s[0]]) + s[1..] == a + s
  {
    assert [s[0]] + s[1..] == s;
    Assoc(a, [s[0]], s[1..]);
  }

  /** Dropping the first element of a concatenation whose left part is not empty. */
  lemma DropFirst<T>(a: seq<T>, b: seq<T>)
    requires a != []
    ensures (a + b)[1..] == a[1..] + b
  {
  }

  /** A split of the tail of `s` before `rest` extends to a split of `s` one element longer. */
  lemma PrefixAfterFirst<T>(s: seq<T>, rest: seq<T>, n: nat)
    requires 1 <= n <= |s| && |rest| == |s| - n
    requires s[1..] == s[1..][..n - 1] + rest
    ensures s == s[..n] + rest && s[..n][1..] == s[1..][..n - 1] && s[..n] != []
  {
    assert s[..n] == [s[0]] + s[1..][..n - 1];
  }
}
