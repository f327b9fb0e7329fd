/** `send_to_esp8266`: push a text to the LCD behind the ESP8266, trying up
    to three times. Each attempt's HTTP exchange is an input. */
module Notifier {

  /** `max_retries`. */
  const MaxRetries: nat := 3

  /** What one `requests.get` attempt gives. */
  datatype Reply =
    | Status200    // a response with status code 200
    | OtherStatus  // a response with any other status code
    | Raised       // the call raised (connection error, timeout, ...)

  /** What the attempts write to the logger. */
  datatype LogRecord =
    | Sent                    // info: "Sent to ESP8266: ..."
    | AttemptFailed(n: nat)   // warning: "ESP8266 send attempt n failed: ..."
    | GaveUp                  // error: "Failed to send to ESP8266 after 3 attempts"

  /** The records written by attempt `i` (counted from 0) when it gets `reply`. */
  function AttemptRecords(i: nat, reply: Reply): seq<LogRecord> {
    match reply
    case Status200 => [Sent]
    case OtherStatus => []
    case Raised => [AttemptFailed(i + 1)] + (if i == MaxRetries - 1 then [GaveUp] else [])
  }

  /** The records of the first `k` attempts, in order. */
  function AttemptLog(replies: seq<Reply>, k: nat): seq<LogRecord>
    requires k <= |replies|
  {
    if k == 0 then [] else AttemptLog(replies, k - 1) + AttemptRecords(k - 1, replies[k - 1])
  }

  /** The error record appears only when the last of the three attempts
      raised; a final non-200 answer leaves no error behind. */
  lemma {:induction false} GaveUpOnlyOnLastRaise(replies: seq<Reply>, k: nat)
    requires k <= |replies| && k <= MaxRetries
    ensures GaveUp in AttemptLog(replies, k) <==> k == MaxRetries && replies[MaxRetries - 1] == Raised
  {
    if k > 0 {
      GaveUpOnlyOnLastRaise(replies, k - 1);
      assert GaveUp !in AttemptLog(replies, k - 1) || k - 1 == MaxRetries;
    }
  }

  /** One call of `send_to_esp8266`, where `replies[i]` is what attempt `i`
      would get. Returns the function's result, the number of requests made
      and what was logged. */
  method SendToDisplay(replies: seq<Reply>) returns (sent: bool, attempts: nat, log: seq<LogRecord>)
    requires |replies| >= MaxRetries
    ensures 1 <= attempts <= MaxRetries
    ensures sent <==> exists i :: 0 <= i < MaxRetries && replies[i] == Status200
    ensures forall i :: 0 <= i < attempts - 1 ==> replies[i] != Status200
    ensures sent ==> replies[attempts - 1] == Status200
    ensures !sent ==> attempts == MaxRetries
    ensures log == AttemptLog(replies, attempts)
    ensures GaveUp in log <==> !sent && replies[MaxRetries - 1] == Raised
  {
    sent, attempts, log := false, 0, [];
    for attempt := 0 to MaxRetries
      invariant attempts == attempt
      invariant forall i :: 0 <= i < attempt ==> replies[i] != Status200
      invariant log == AttemptLog(replies, attempt)
    {
      attempts := attempt + 1;
      log := log + AttemptRecords(attempt, replies[attempt]);
      if replies[attempt] == Status200 {
        sent := true;
        GaveUpOnlyOnLastRaise(replies, attempts);
        return;
      }
    }
    GaveUpOnlyOnLastRaise(replies, attempts);
  }
}
