/** The host as the runtime sees it: it may answer anything at any time. */
module Hosts {
  import opened Bytes
  import opened Values

  type U32 = x: int | 0 <= x < 0x1_0000_0000

  /**
    Statuses of polls. A positive one is cut to a 32-bit `usize` and is then one more than a size.
    Left out are those on which the runtime panics: the cut status is 0, or the size is above what
    a buffer may have, 2^31 - 1 bytes.
   */
  type Status = x: I64 | x <= 0 || 1 <= x % 0x1_0000_0000 <= 0x8000_0000

  /** The size a positive status announces. */
  function SizeOf(s: Status): nat
    requires s > 0
  {
    s % 0x1_0000_0000 - 1
  }

  predicate HasPayload(s: Status) {
    s > 0 && SizeOf(s) > 0
  }

  datatype Key = Key(periph: U32, mid: U32)

  datatype BridgeError =
    | InvalidRequestId | InvalidPeripheral | MethodNotFound | JavaException | Timeout
    | FuelExhausted | ResultBufTooSmall | ModNotAvailable | ResultLost | PeripheralDisconnected
    | UnknownError(code: I32)

  function FromCode(code: I32): BridgeError {
    match code
    case -1 => InvalidRequestId
    case -2 => InvalidPeripheral
    case -3 => MethodNotFound
    case -4 => JavaException
    case -5 => Timeout
    case -6 => FuelExhausted
    case -7 => ResultBufTooSmall
    case -8 => ModNotAvailable
    case -9 => ResultLost
    case -10 => PeripheralDisconnected
    case _ => UnknownError(code)
  }

  datatype Outcome = Ok(data: seq<Byte>) | Err(error: BridgeError)

  /** A poll's status and, when there was something to fetch, what fetching returned and wrote. */
  datatype Reply = Reply(status: Status, written: I32, buf: seq<Byte>) {
    /** The buffer has the size announced. */
    predicate Fits() {
      HasPayload(status) ==> |buf| == SizeOf(status)
    }
  }

  /** Keeps at most n bytes. */
  function Truncate(buf: seq<Byte>, n: nat): seq<Byte> {
    if n <= |buf| then buf[..n] else buf
  }

  /** None while pending. */
  function OutcomeOf(r: Reply): Option<Outcome> {
    if r.status == 0 then None
    else if r.status > 0 then
      if SizeOf(r.status) == 0 then Some(Ok([]))
      else if r.written < 0 then Some(Err(FromCode(r.written)))
      else Some(Ok(Truncate(r.buf, r.written)))
    else Some(Err(FromCode(ToI32(r.status))))
  }

  /** The number the host gives an error; an unknown one is its own. */
  function CodeOf(e: BridgeError): I32 {
    match e
    case InvalidRequestId => -1
    case InvalidPeripheral => -2
    case MethodNotFound => -3
    case JavaException => -4
    case Timeout => -5
    case FuelExhausted => -6
    case ResultBufTooSmall => -7
    case ModNotAvailable => -8
    case ResultLost => -9
    case PeripheralDisconnected => -10
    case UnknownError(code) => code
  }

  /** Every code names one error, and different codes different ones. */
  lemma CodesAreErrors(code: I32, e: BridgeError)
    ensures CodeOf(FromCode(code)) == code
    ensures e.UnknownError? || FromCode(CodeOf(e)) == e
  {}

  /**
    What an outcome tells a caller. There is none while the status is 0. It is an error exactly when
    the status is negative, or announces a payload that cannot be fetched; the error is the one with
    the number of that status, cut to 32 bits, or of that failure. Otherwise it is the payload: the
    bytes fetched, up to the size of the buffer, or no bytes if none were announced.
   */
  lemma OutcomeMeans(r: Reply)
    ensures OutcomeOf(r).None? <==> r.status == 0
    ensures r.status < 0 ==>
      OutcomeOf(r).value.Err? && (CodeOf(OutcomeOf(r).value.error) - r.status) % 0x1_0000_0000 == 0
    ensures r.status > 0 && r.status % 0x1_0000_0000 == 1 ==> OutcomeOf(r) == Some(Ok([]))
    ensures r.status > 0 && r.status % 0x1_0000_0000 > 1 && r.written < 0 ==>
      OutcomeOf(r).value.Err? && CodeOf(OutcomeOf(r).value.error) == r.written
    ensures r.status > 0 && r.status % 0x1_0000_0000 > 1 && r.written >= 0 ==>
      OutcomeOf(r).value.Ok? && var data := OutcomeOf(r).value.data;
      |data| == (if r.written < |r.buf| then r.written else |r.buf|) && data == r.buf[..|data|]
  {
    if r.status < 0 {
      CodesAreErrors(ToI32(r.status), Timeout);
    } else if r.written < 0 {
      CodesAreErrors(r.written, Timeout);
    }
  }

  /** A host that announces size plus one and writes the whole payload delivers exactly the payload. */
  lemma PayloadIsDelivered(payload: seq<Byte>, r: Reply)
    requires r.Fits() && r.status == |payload| + 1
    requires payload != [] ==> r.written == |payload| && r.buf == payload
    ensures OutcomeOf(r) == Some(Ok(payload))
  {
    assert payload[..|payload|] == payload;
  }

  /** A call the host received; its position in the host's log is the call's serial number. */
  datatype Call = Call(key: Key, args: seq<Byte>, isAction: bool, requestId: I64)

  /** A poll of a request id, and the status the host answered. */
  datatype Polled = Polled(id: I64, status: Status)

  /** A fetch for a request id, what it returned and what it left in the buffer. */
  datatype Fetched = Fetched(id: I64, written: I32, buf: seq<Byte>)

  /** The host's own logs: calls it received, polls and fetches it answered. */
  class Host {
    ghost var calls: seq<Call>
    ghost var polled: seq<Polled>
    ghost var fetched: seq<Fetched>

    method RequestInfo(key: Key, args: seq<Byte>) returns (id: I64)
      modifies this`calls
      ensures calls == old(calls) + [Call(key, args, false, id)]
    {
      id := *;
      calls := calls + [Call(key, args, false, id)];
    }

    method DoAction(key: Key, args: seq<Byte>) returns (id: I64)
      modifies this`calls
      ensures calls == old(calls) + [Call(key, args, true, id)]
    {
      id := *;
      calls := calls + [Call(key, args, true, id)];
    }

    method PollResult(id: I64) returns (status: Status)
      modifies this`polled
      ensures polled == old(polled) + [Polled(id, status)]
    {
      status := *;
      polled := polled + [Polled(id, status)];
    }

    method FetchResult(id: I64, buf: array<Byte>) returns (written: I32)
      modifies this`fetched, buf
      ensures fetched == old(fetched) + [Fetched(id, written, buf[..])]
    {
      for i := 0 to buf.Length
        invariant fetched == old(fetched)
      {
        buf[i] := *;
      }
      written := *;
      fetched := fetched + [Fetched(id, written, buf[..])];
    }
  }
}
