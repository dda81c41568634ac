/**
 * `get_ntp_time`: asks the servers of a fixed pool, in order, for the current
 * time and returns the first answer as a UTC-tagged datetime. The network
 * request is replaced by `ask`, the reply each server would give.
 */
module Ntp {
  import opened Wrappers
  import opened UtcTime

  const Pool: seq<string> := ["0.pool.ntp.org", "1.pool.ntp.org", "2.pool.ntp.org", "3.pool.ntp.org"]

  /**
   * What one `client.request(server, ...)` call yields: the transmit timestamp,
   * in microseconds since the epoch as `utcfromtimestamp` rounds it, an
   * `NTPException` with its message, or any other exception (a failed DNS
   * lookup, say), which the loop does not catch.
   */
  datatype Reply = Answer(txMicros: int) | NtpFailure(message: string) | Raised(exception: string)

  datatype NtpError =
    | AllServersFailed(errors: seq<string>)  // the `NTPException` raised after the last server
    | TimestampOutOfRange(txMicros: int)     // `utcfromtimestamp` cannot represent the answer
    | RequestRaised(exception: string)       // an exception other than `NTPException` escaping the request

  /** `datetime.utcfromtimestamp(tx).replace(tzinfo=timezone.utc)` on a timestamp in microseconds. */
  function FromTimestamp(txMicros: int): (r: Result<DateTime, NtpError>)
    ensures r.Success? ==> Valid(r.value) && r.value.zone == Utc
    ensures r.Success? ==> r.value.seconds * MicrosPerSecond + r.value.micro == txMicros
    ensures r.Failure? <==> (txMicros < MinSeconds * MicrosPerSecond || txMicros >= (MaxSeconds + 1) * MicrosPerSecond)
  {
    var seconds := txMicros / MicrosPerSecond;
    if MinSeconds <= seconds <= MaxSeconds
    then Success(DateTime(seconds, txMicros % MicrosPerSecond, Utc))
    else Failure(TimestampOutOfRange(txMicros))
  }

  /** The messages of the failures of the first `n` pool servers, in pool order. */
  function Errors(ask: string -> Reply, n: nat): (es: seq<string>)
    requires n <= |Pool| && forall k :: 0 <= k < n ==> ask(Pool[k]).NtpFailure?
    ensures |es| == n
    ensures forall k :: 0 <= k < n ==> es[k] == ask(Pool[k]).message
  {
    if n == 0 then [] else Errors(ask, n - 1) + [ask(Pool[n - 1]).message]
  }

  /**
   * Asks the pool servers in order until one answers; `asked` lists the servers
   * queried. The first answer decides the result and no later server is asked;
   * an exception other than `NTPException` propagates at once, also leaving the
   * later servers unasked; when every server fails with `NTPException`, the
   * error carries one message per server.
   */
  method GetNtpTime(ask: string -> Reply) returns (asked: seq<string>, r: Result<DateTime, NtpError>)
    ensures 1 <= |asked| <= |Pool| && asked == Pool[..|asked|]
    ensures forall k :: 0 <= k < |asked| - 1 ==> ask(asked[k]).NtpFailure?
    ensures ask(asked[|asked| - 1]).Answer? ==> r == FromTimestamp(ask(asked[|asked| - 1]).txMicros)
    ensures ask(asked[|asked| - 1]).Raised? ==> r == Failure(RequestRaised(ask(asked[|asked| - 1]).exception))
    ensures ask(asked[|asked| - 1]).NtpFailure? ==>
      && asked == Pool
      && r == Failure(AllServersFailed(Errors(ask, |Pool|)))
  {
    var errors: seq<string> := [];
    var i := 0;
    while i < |Pool|
      invariant 0 <= i <= |Pool|
      invariant forall k :: 0 <= k < i ==> ask(Pool[k]).NtpFailure?
      invariant errors == Errors(ask, i)
    {
      asked := Pool[..i + 1];
      match ask(Pool[i]) {
        case NtpFailure(message) =>
          errors := errors + [message];
        case Answer(txMicros) =>
          r := FromTimestamp(txMicros);
          return;
        case Raised(exception) =>
          r := Failure(RequestRaised(exception));
          return;
      }
      i := i + 1;
    }
    asked := Pool;
    r := Failure(AllServersFailed(errors));
  }
}
