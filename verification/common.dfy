/**
  Shared vocabulary of the three services: fixed-width integers, an optional
  value, the outcome of one remote call, the error a remote call reports, the
  reply of an HTTP handler, and the two list operations every handler uses
  (find the first element that matches, remove one element keeping order).
*/
module Common {

  /** A Go `int32`. */
  newtype Int32 = x: int | -0x8000_0000 <= x < 0x8000_0000

  datatype Option<T> = None | Some(value: T)

  /**
    What happened on the wire to one remote call. `RequestLost`: the callee never
    ran (connection refused, deadline hit before delivery). `ReplyLost`: the callee
    ran to completion but the caller saw a transport error (deadline hit after the
    callee acted). Either way the caller gets an error and no reply.
  */
  datatype Link = Delivered | RequestLost | ReplyLost

  /** The link of the call at position `i` of a sequence of calls; calls not listed are delivered. */
  function LinkAt(links: map<nat, Link>, i: nat): Link
  {
    if i in links then links[i] else Delivered
  }

  /** The error a caller sees from a remote call: a transport failure, or the callee's own error text. */
  datatype RemoteError = Transport | Remote(message: string)

  const TransportMessage := "transport failure"

  function Describe(e: RemoteError): string
  {
    match e
    case Transport => TransportMessage
    case Remote(m) => m
  }

  const StatusBadRequest: nat := 400
  const StatusNotFound: nat := 404
  const StatusInternalServerError: nat := 500

  /**
    What an HTTP handler writes: a 200 JSON body, a 204 with no body, an error
    status with its plain-text message, or nothing at all because the handler
    panicked.
  */
  datatype HttpReply<T> = Ok(body: T) | NoContent | Error(status: nat, message: string) | Crash

  /** Index of the first element of `s` satisfying `p`, if any. */
  function FirstIndex<T>(s: seq<T>, p: T -> bool): (r: Option<nat>)
    ensures r.Some? ==> r.value < |s| && p(s[r.value])
    ensures r.Some? ==> forall k | 0 <= k < r.value :: !p(s[k])
    ensures r.None? ==> forall k | 0 <= k < |s| :: !p(s[k])
  {
    if s == [] then None
    else if p(s[0]) then Some(0)
    else match FirstIndex(s[1..], p)
      case None => None
      case Some(k) => Some(k + 1)
  }

  /** The linear scan `for i, item := range s { if match { ... } }` of every handler. */
  method FindFirst<T>(s: seq<T>, p: T -> bool) returns (r: Option<nat>)
    ensures r == FirstIndex(s, p)
  {
    var i := 0;
    while i < |s|
      invariant 0 <= i <= |s|
      invariant forall k | 0 <= k < i :: !p(s[k])
    {
      if p(s[i]) {
        return Some(i);
      }
      i := i + 1;
    }
    return None;
  }

  /** Go's `append(s[:i], s[i+1:]...)`: drop element `i`, keep the others in order. */
  function RemoveAt<T>(s: seq<T>, i: nat): (r: seq<T>)
    requires i < |s|
    ensures |r| == |s| - 1
    ensures forall k | 0 <= k < i :: r[k] == s[k]
    ensures forall k | i <= k < |r| :: r[k] == s[k + 1]
  {
    s[..i] + s[i + 1..]
  }
}
