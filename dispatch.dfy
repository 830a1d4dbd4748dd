/** The send/receive cycle of tecancavro/transport.py: the retry loop of
    `sendRcv` and the byte accumulation of `TecanAPISerial._receiveFrame`.
    Building a frame (`emitFrame`), re-sending the last one (`emitRepeat`) and
    parsing a reply (`parseFrame`) belong to a module that is not part of this
    model: the frame an attempt writes is recorded by kind, and what the
    attempt observes is handed in. */
module Dispatch {
  import Checksum

  /** The two device classes; their loops differ only in what they catch. */
  datatype Variant = SerialPort | Microcontroller

  /** An exception raised inside one attempt, by building, writing, reading or parsing. */
  datatype Exception = SerialException | OtherException

  /** TecanAPISerial catches only `serial.SerialException`; TecanAPIMicro's bare `except` catches all. */
  predicate Catches(v: Variant, e: Exception)
  {
    v == Microcontroller || e == SerialException
  }

  /** What one attempt observes: a falsy parsed reply, a truthy parsed reply,
      or an exception. */
  datatype Attempt<R> = NoData | Frame(reply: R) | Raised(error: Exception)

  /** Which frame-building call an attempt makes: `emitFrame(cmd)` on the
      first attempt, `emitRepeat()` on every later one. It records the call,
      not a write: when building or writing the frame raises an exception that
      is caught, nothing reaches the port, yet the next attempt still calls
      `emitRepeat()`. */
  datatype FrameOut<C> = Emitted(cmd: C) | Repeated

  /** How `sendRcv` ends: returning a reply, raising `TecanAPITimeout`, or
      letting an uncaught exception escape. */
  datatype SendOutcome<R> = Reply(frame: R) | Timeout | Uncaught(error: Exception)

  /** An attempt after which the loop goes on to the next one. */
  predicate Retries<R>(v: Variant, a: Attempt<R>)
  {
    a.NoData? || (a.Raised? && Catches(v, a.error))
  }

  /** The number of attempts the loop allows: `attempt_num < max_attempts` never holds when it is not positive. */
  function AttemptBound(maxAttempts: int): nat
  {
    if maxAttempts > 0 then maxAttempts else 0
  }

  /** `sendRcv(cmd)`, with `transport(k)` what attempt k + 1 observes, an
      exception raised while building, writing, reading or parsing included.
      `sent` lists, in order, the frame-building call each attempt made. */
  method SendRcv<C, R>(v: Variant, maxAttempts: int, cmd: C, transport: nat -> Attempt<R>)
    returns (res: SendOutcome<R>, sent: seq<FrameOut<C>>)
    ensures |sent| <= AttemptBound(maxAttempts)
    ensures forall k :: 0 <= k < |sent| ==> sent[k] == if k == 0 then Emitted(cmd) else Repeated
    ensures forall k :: 0 <= k < |sent| - 1 ==> Retries(v, transport(k))
    ensures res.Reply? ==> |sent| > 0 && transport(|sent| - 1) == Frame(res.frame)
    ensures res.Uncaught? ==>
      |sent| > 0 && transport(|sent| - 1) == Raised(res.error) && !Catches(v, res.error)
    ensures res.Timeout? <==>
      |sent| == AttemptBound(maxAttempts) && forall k :: 0 <= k < |sent| ==> Retries(v, transport(k))
  {
    var attemptNum := 0;
    sent := [];
    while attemptNum < maxAttempts
      invariant attemptNum == |sent| <= AttemptBound(maxAttempts)
      invariant forall k :: 0 <= k < |sent| ==> sent[k] == if k == 0 then Emitted(cmd) else Repeated
      invariant forall k :: 0 <= k < attemptNum ==> Retries(v, transport(k))
    {
      attemptNum := attemptNum + 1;
      var frameOut := if attemptNum == 1 then Emitted(cmd) else Repeated;
      sent := sent + [frameOut];
      match transport(attemptNum - 1)
      case Frame(r) =>
        res := Reply(r);
        return;
      case NoData =>
      case Raised(e) =>
        if !Catches(v, e) {
          res := Uncaught(e);
          return;
        }
    }
    res := Timeout;
  }

  /** The bytes a run of reads delivers, joined in the order they were read. */
  function Concat(chunks: seq<seq<Checksum.Byte>>): seq<Checksum.Byte>
  {
    if chunks == [] then [] else Concat(chunks[..|chunks| - 1]) + chunks[|chunks| - 1]
  }

  /** `TecanAPISerial._receiveFrame`: read until the first empty read and
      parse what came before it. `chunks[k]` is what the (k + 1)-th `read()` returns;
      `count` is the number of reads made, the empty one included. */
  method ReceiveFrame<R>(chunks: seq<seq<Checksum.Byte>>, parse: seq<Checksum.Byte> -> R)
    returns (frame: R, count: nat)
    requires exists k :: 0 <= k < |chunks| && chunks[k] == []
    ensures 1 <= count <= |chunks| && chunks[count - 1] == []
    ensures forall k :: 0 <= k < count - 1 ==> chunks[k] != []
    ensures frame == parse(Concat(chunks[..count - 1]))
  {
    var rawData := [];
    var rawByte := chunks[0];
    count := 1;
    while rawByte != []
      invariant 1 <= count <= |chunks| && rawByte == chunks[count - 1]
      invariant forall k :: 0 <= k < count - 1 ==> chunks[k] != []
      invariant rawData == Concat(chunks[..count - 1])
      invariant exists k :: count - 1 <= k < |chunks| && chunks[k] == []
      decreases |chunks| - count
    {
      assert chunks[..count] == chunks[..count - 1] + [rawByte];
      assert chunks[..count][..count - 1] == chunks[..count - 1];
      rawData := rawData + rawByte;
      rawByte := chunks[count];
      count := count + 1;
    }
    frame := parse(rawData);
  }

  /** When every read delivers one byte (what `read()` of a serial port
      returns short of a timeout), the accumulated data is those bytes in order. */
  lemma {:induction false} ConcatOfSingleBytes(chunks: seq<seq<Checksum.Byte>>)
    requires forall k :: 0 <= k < |chunks| ==> |chunks[k]| == 1
    ensures |Concat(chunks)| == |chunks|
    ensures forall k :: 0 <= k < |chunks| ==> Concat(chunks)[k] == chunks[k][0]
  {
    if chunks != [] {
      ConcatOfSingleBytes(chunks[..|chunks| - 1]);
    }
  }

  /** A transport that never answers: every attempt is made, the first with a
      fresh frame and the rest repeats, and the call times out. */
  method SilentTransportTimesOut<C, R>(v: Variant, maxAttempts: int, cmd: C)
    returns (res: SendOutcome<R>, sent: seq<FrameOut<C>>)
    ensures res == Timeout && |sent| == AttemptBound(maxAttempts)
    ensures |sent| > 0 ==> sent[0] == Emitted(cmd)
  {
    res, sent := SendRcv(v, maxAttempts, cmd, (k: nat) => NoData);
  }
}
