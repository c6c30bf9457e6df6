/**
 The host end of the serial link: frames are written with control-octet
 escaping, and received payloads are handed out one per read, with any extra
 payloads a chunk produced kept in a first-in first-out queue. The serial
 port is abstracted to the chunks it will still deliver and the octets
 written to it; running out of chunks stands for the read timing out.
 */
module Comms {
  import opened Wrappers
  import opened Fcs
  import opened Hdlc
  import opened Messages
  import HdlcProperties

  /** The payload bound of a link opened without one. */
  const DefaultMaxPayload: int := 128

  /** The serial port: chunks still to arrive, and everything written so far. */
  datatype Port = Port(incoming: seq<Bytes>, written: Bytes)

  datatype Comm = Comm(
    port: Port,
    crcEnabled: bool,
    maxPayload: int,
    deframer: Deframer,
    rxQueue: seq<Bytes>)

  /** A freshly opened link: an idle receiver that escapes control octets, has
      the default buffer bound and checks the FCS exactly when `crcEnabled`. */
  function Open(port: Port, crcEnabled: bool, maxPayload: int): Comm
  {
    Comm(port, crcEnabled, maxPayload, NewDeframer(true, DefaultMaxFrameLen, crcEnabled), [])
  }

  /** The configuration every operation keeps. */
  predicate Valid(c: Comm)
  {
    && c.deframer.escapeCtrl
    && c.deframer.maxFrameLen == DefaultMaxFrameLen
    && c.deframer.requireCrc == c.crcEnabled
    && Bounded(c.deframer)
  }

  lemma OpenValid(port: Port, crcEnabled: bool, maxPayload: int)
    ensures Valid(Open(port, crcEnabled, maxPayload)) && Idle(Open(port, crcEnabled, maxPayload).deframer)
    ensures Open(port, crcEnabled, maxPayload).rxQueue == []
  {
  }

  /** The link after a write, and the number of octets the port accepted. */
  datatype Sent = Sent(comm: Comm, count: int)

  /** `Comm.write`: frame the octets (always escaping control octets) and hand the
      frame to the port, which takes all of it. No size check. */
  function Write(c: Comm, payload: Bytes): Sent
  {
    var frame := Encode(payload, true);
    Sent(c.(port := c.port.(written := c.port.written + frame)), |frame|)
  }

  /** Why `write_msg` or `send_payload` refuse a message. */
  datatype SendError = PayloadTooLarge | Codec(error: CodecError)

  /** `Comm.write_msg`: the payload bound is checked before serialising, and
      nothing reaches the port unless both the bound and the codec accept. */
  function WriteMsg(c: Comm, m: Message): (r: Result<Sent, SendError>)
    ensures r == Failure(PayloadTooLarge) <==> |m.payload| > c.maxPayload
    ensures r.Success? <==> |m.payload| <= c.maxPayload && InRange(m)
    ensures r.Failure? && r.error.Codec? ==> r.error.error == ToBytes(m).error
    ensures r.Success? ==>
      && r.value.comm == c.(port := c.port.(written := c.port.written + Encode(ToBytes(m).value, true)))
      && r.value.count == |Encode(ToBytes(m).value, true)|
  {
    if |m.payload| > c.maxPayload then Failure(PayloadTooLarge)
    else match ToBytes(m)
      case Failure(e) => Failure(Codec(e))
      case Success(b) => Success(Write(c, b))
  }

  /** `Comm.send_payload`: a message whose length field is the payload's,
      checked against the bound first. */
  function SendPayload(c: Comm, command: int, payload: Bytes, id: int, fragments: int, fragment: int)
    : (r: Result<Sent, SendError>)
    ensures r == Failure(PayloadTooLarge) <==> |payload| > c.maxPayload
    ensures r == WriteMsg(c, Message(command, id, fragments, fragment, |payload|, payload))
  {
    if |payload| > c.maxPayload then Failure(PayloadTooLarge)
    else WriteMsg(c, Message(command, id, fragments, fragment, |payload|, payload))
  }

  /** `send_payload` with the defaults of its keyword arguments. */
  function SendDefault(c: Comm, command: int, payload: Bytes): Result<Sent, SendError>
  {
    SendPayload(c, command, payload, 0, 1, 0)
  }

  /** The link after a read, and the payload read, if any. */
  datatype Received = Received(comm: Comm, payload: Option<Bytes>)

  /** `Comm.read`: a queued payload first, without touching the port; otherwise
      poll the port. */
  function Read(c: Comm): Received
  {
    if |c.rxQueue| > 0 then Received(c.(rxQueue := c.rxQueue[1..]), Some(c.rxQueue[0]))
    else Poll(c)
  }

  /** The link after feeding the next chunk to the receiver. */
  function Advance(c: Comm): Comm
    requires |c.port.incoming| > 0
  {
    c.(port := c.port.(incoming := c.port.incoming[1..]),
       deframer := Input(c.deframer, c.port.incoming[0]).state)
  }

  /** The payloads the next chunk decodes to. */
  function Harvest(c: Comm): seq<Bytes>
    requires |c.port.incoming| > 0
  {
    Input(c.deframer, c.port.incoming[0]).frames
  }

  /** The polling loop of `Comm.read`: feed chunks to the receiver until one
      yields payloads; return the first and queue the rest. With no chunk left
      the read times out. */
  function Poll(c: Comm): Received
    decreases |c.port.incoming|
  {
    if |c.port.incoming| == 0 then Received(c, None)
    else
      var frames := Harvest(c);
      if |frames| > 0 then Received(Advance(c).(rxQueue := c.rxQueue + frames[1..]), Some(frames[0]))
      else Poll(Advance(c))
  }

  /** All the chunks still to arrive, as one octet string. */
  function Flatten(chunks: seq<Bytes>): Bytes
  {
    if |chunks| == 0 then [] else chunks[0] + Flatten(chunks[1..])
  }

  /** The payloads the receiver will decode from the remaining input. */
  function Undecoded(c: Comm): seq<Bytes>
  {
    Input(c.deframer, Flatten(c.port.incoming)).frames
  }

  /** The payloads the link will hand out, in order: those queued, then those
      still to be decoded. */
  function Pending(c: Comm): seq<Bytes>
  {
    c.rxQueue + Undecoded(c)
  }

  /** `Comm.read_msg`: a read, then a lenient parse; a timeout and a payload too
      short to hold the id octet both give nothing. */
  function ReadMsg(c: Comm): (r: (Comm, Option<Message>))
    ensures r.0 == Read(c).comm
    ensures r.1.Some? <==> Read(c).payload.Some? && |Read(c).payload.value| >= 3
    ensures r.1.Some? ==> FromBytes(Read(c).payload.value) == Success(r.1.value)
  {
    var rd := Read(c);
    if rd.payload.None? then (rd.comm, None)
    else match FromBytes(rd.payload.value)
      case Failure(_) => (rd.comm, None)
      case Success(m) => (rd.comm, Some(m))
  }

  /** Polling keeps the configuration, the buffer bound and what was written,
      and consumes input: at least one chunk when it returns a payload, and
      every chunk when it times out. */
  lemma {:induction false} PollKeeps(c: Comm)
    requires Valid(c)
    ensures var r := Poll(c);
      && Valid(r.comm)
      && r.comm.crcEnabled == c.crcEnabled && r.comm.maxPayload == c.maxPayload
      && r.comm.port.written == c.port.written
      && (r.payload.None? ==> r.comm.port.incoming == [] && r.comm.rxQueue == c.rxQueue)
      && (r.payload.Some? ==> |r.comm.port.incoming| < |c.port.incoming|)
    decreases |c.port.incoming|
  {
    if |c.port.incoming| > 0 {
      InputInvariants(c.deframer, c.port.incoming[0]);
      if |Harvest(c)| == 0 {
        PollKeeps(Advance(c));
      }
    }
  }

  /** Chunk by chunk: what remains to decode is what the next chunk yields,
      then what the receiver it leaves decodes from the rest. */
  lemma UndecodedAdvance(c: Comm)
    requires |c.port.incoming| > 0
    ensures Undecoded(c) == Harvest(c) + Undecoded(Advance(c))
  {
    var chunk := c.port.incoming[0];
    var rest := c.port.incoming[1..];
    assert Flatten(c.port.incoming) == chunk + Flatten(rest);
    HdlcProperties.InputAppend(c.deframer, chunk, Flatten(rest));
  }

  /** Polling (which `read` does only with an empty queue) returns the first
      payload still to be decoded, and times out exactly when the remaining
      input decodes to nothing. */
  lemma {:induction false} PollPending(c: Comm)
    requires c.rxQueue == []
    ensures var r := Poll(c);
      && (r.payload.None? <==> Pending(c) == [])
      && (r.payload.Some? ==> [r.payload.value] + Pending(r.comm) == Pending(c))
    decreases |c.port.incoming|
  {
    if |c.port.incoming| > 0 {
      var frames := Harvest(c);
      UndecodedAdvance(c);
      if |frames| > 0 {
        assert Pending(Poll(c).comm) == frames[1..] + Undecoded(Advance(c));
        assert frames == [frames[0]] + frames[1..];
      } else {
        PollPending(Advance(c));
      }
    }
  }

  /** Reading hands out the pending payloads one at a time, in order, keeping
      the configuration; a read returns nothing exactly when nothing is pending,
      and a queued payload is returned without consuming any input. */
  lemma ReadPending(c: Comm)
    requires Valid(c)
    ensures var r := Read(c);
      && Valid(r.comm)
      && r.comm.crcEnabled == c.crcEnabled && r.comm.maxPayload == c.maxPayload
      && r.comm.port.written == c.port.written
      && (r.payload.None? <==> Pending(c) == [])
      && (r.payload.Some? ==> [r.payload.value] + Pending(r.comm) == Pending(c))
      && (|c.rxQueue| > 0 ==> r.comm.port == c.port && r.payload == Some(c.rxQueue[0]))
  {
    if |c.rxQueue| > 0 {
      var r := Read(c);
      assert c.rxQueue == [c.rxQueue[0]] + c.rxQueue[1..];
      assert Pending(c) == [c.rxQueue[0]] + Pending(r.comm);
    } else {
      PollKeeps(c);
      PollPending(c);
    }
  }

  /** Reads until one times out, collecting the payloads. */
  function Drain(c: Comm): seq<Bytes>
    requires Valid(c)
    decreases |c.port.incoming|, |c.rxQueue|
  {
    var r := Read(c);
    ReadPending(c);
    if r.payload.None? then []
    else
      assert |c.rxQueue| > 0 ==> r.comm.port == c.port && |r.comm.rxQueue| < |c.rxQueue|;
      assert |c.rxQueue| == 0 ==> |r.comm.port.incoming| < |c.port.incoming| by {
        PollKeeps(c);
      }
      [r.payload.value] + Drain(r.comm)
  }

  /** Successive reads deliver exactly the pending payloads in decode order:
      first the queue, then every payload the remaining chunks decode to,
      whatever the chunk boundaries. */
  lemma {:induction false} DrainIsPending(c: Comm)
    requires Valid(c)
    ensures Drain(c) == Pending(c)
    decreases |c.port.incoming|, |c.rxQueue|
  {
    var r := Read(c);
    ReadPending(c);
    if r.payload.Some? {
      if |c.rxQueue| == 0 {
        PollKeeps(c);
      }
      DrainIsPending(r.comm);
    }
  }

  /** Whatever one link writes, a receiving link whose next chunk is exactly
      those octets reads back: the payload comes out of the next read. */
  lemma Loopback(tx: Comm, rx: Comm, payload: Bytes)
    requires Valid(rx) && Idle(rx.deframer) && rx.rxQueue == []
    requires |payload| + 2 <= DefaultMaxFrameLen
    requires !rx.crcEnabled || |payload| > 0
    requires rx.port.incoming == [Write(tx, payload).comm.port.written[|tx.port.written|..]]
    ensures Read(rx).payload == Some(payload)
    ensures Idle(Read(rx).comm.deframer) && Read(rx).comm.rxQueue == []
  {
    var frame := Encode(payload, true);
    assert Write(tx, payload).comm.port.written[|tx.port.written|..] == frame;
    HdlcProperties.DecodeEncode(rx.deframer, payload, true);
  }

  /** End to end: a message sent with `send_payload` and defaults is read back
      by `read_msg` on the far side as the same command, id 0, one fragment,
      index 0, and the payload with its length. */
  lemma SendReadMessage(tx: Comm, rx: Comm, command: int, payload: Bytes)
    requires Valid(rx) && Idle(rx.deframer) && rx.rxQueue == []
    requires IsU16(command) && |payload| <= tx.maxPayload && |payload| + HeaderLen + 2 <= DefaultMaxFrameLen
    requires SendDefault(tx, command, payload).Success?
    requires rx.port.incoming == [SendDefault(tx, command, payload).value.comm.port.written[|tx.port.written|..]]
    ensures ReadMsg(rx).1 == Some(Message(command, 0, 1, 0, |payload|, payload))
  {
    var m := Message(command, 0, 1, 0, |payload|, payload);
    var b := ToBytes(m).value;
    assert SendDefault(tx, command, payload) == Success(Write(tx, b));
    Loopback(tx, rx, b);
    RoundTrip(m);
  }

  /** Under the default payload bound nothing `send_payload` accepts can overflow
      the receiver's buffer: every message a default link sends is read back whole. */
  lemma DefaultBoundRoundTrip(tx: Comm, rx: Comm, command: int, payload: Bytes)
    requires tx.maxPayload == DefaultMaxPayload
    requires Valid(rx) && Idle(rx.deframer) && rx.rxQueue == []
    requires SendDefault(tx, command, payload).Success?
    requires rx.port.incoming == [SendDefault(tx, command, payload).value.comm.port.written[|tx.port.written|..]]
    ensures |payload| + HeaderLen + 2 <= DefaultMaxFrameLen
    ensures ReadMsg(rx).1 == Some(Message(command, 0, 1, 0, |payload|, payload))
  {
    var m := Message(command, 0, 1, 0, |payload|, payload);
    assert WriteMsg(tx, m).Success?;
    SendReadMessage(tx, rx, command, payload);
  }
}
