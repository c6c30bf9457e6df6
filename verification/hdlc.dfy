/**
 HDLC-like framing of section 4 of RFC 1662 as the link layer uses it: a frame is
 FLAG, the octet-stuffed body (payload followed by its FCS, low octet first), FLAG.
 The receiver is a streaming state machine folded over the incoming octets; it
 carries a partial frame and an escape flag from one chunk to the next.
 */
module Hdlc {
  import opened Wrappers
  import opened Fcs

  const Flag: Byte := 0x7E
  const Esc: Byte := 0x7D
  const EscMask: Byte := 0x20
  /** Default receive-buffer bound of a deframer. */
  const DefaultMaxFrameLen: int := 4096

  /** Octets that must be stuffed: the two reserved octets, and with `escapeCtrl`
      every control octet (the all-ones async control character map of section 7.1 of RFC 1662). */
  predicate NeedsEscape(b: Byte, escapeCtrl: bool)
  {
    b == Flag || b == Esc || (escapeCtrl && b < 0x20)
  }

  function StuffOctet(b: Byte, escapeCtrl: bool): (r: Bytes)
    ensures Flag !in r
    ensures escapeCtrl ==> forall i :: 0 <= i < |r| ==> r[i] >= 0x20
  {
    if NeedsEscape(b, escapeCtrl) then [Esc, b ^ EscMask] else [b]
  }

  /** Octet stuffing of a whole body (section 4.2 of RFC 1662). */
  function Stuff(body: Bytes, escapeCtrl: bool): (r: Bytes)
    ensures |body| <= |r| <= 2 * |body|
    ensures Flag !in r
    ensures escapeCtrl ==> forall i :: 0 <= i < |r| ==> r[i] >= 0x20
    decreases |body|
  {
    if |body| == 0 then []
    else StuffOctet(body[0], escapeCtrl) + Stuff(body[1..], escapeCtrl)
  }

  /** What goes between the flags before stuffing: the payload and its FCS. */
  function FrameBody(payload: Bytes): Bytes
  {
    payload + FcsOctets(Fcs16(payload))
  }

  /** `hdlc_encode`: one complete frame. Encoding never fails. */
  function Encode(payload: Bytes, escapeCtrl: bool): (r: Bytes)
    ensures |payload| + 4 <= |r| <= 2 * (|payload| + 2) + 2
    ensures r[0] == Flag && r[|r| - 1] == Flag
    ensures forall i :: 0 < i < |r| - 1 ==> r[i] != Flag
    ensures escapeCtrl ==> forall i :: 0 < i < |r| - 1 ==> r[i] >= 0x20
  {
    var inner := Stuff(FrameBody(payload), escapeCtrl);
    var r := [Flag] + inner + [Flag];
    assert forall i :: 0 < i < |r| - 1 ==> r[i] == inner[i - 1];
    r
  }

  /** A reference un-stuffer, independent of the streaming receiver: an escape
      octet takes the next octet xor 0x20; every other octet stands for itself. */
  function Unstuff(s: Bytes): Bytes
    decreases |s|
  {
    if |s| == 0 then []
    else if s[0] == Esc && |s| >= 2 then [s[1] ^ EscMask] + Unstuff(s[2..])
    else [s[0]] + Unstuff(s[1..])
  }

  /** Number of escape octets in `s`. */
  function EscapeCount(s: Bytes): nat
    decreases |s|
  {
    if |s| == 0 then 0 else (if s[0] == Esc then 1 else 0) + EscapeCount(s[1..])
  }

  /** Number of octets of `body` that stuffing escapes. */
  function EscapedOctets(body: Bytes, escapeCtrl: bool): nat
    decreases |body|
  {
    if |body| == 0 then 0
    else (if NeedsEscape(body[0], escapeCtrl) then 1 else 0) + EscapedOctets(body[1..], escapeCtrl)
  }

  /** Receiver state: configuration plus the un-stuffed octets since the last
      flag and whether the previous octet was an unconsumed escape. */
  datatype Deframer = Deframer(
    escapeCtrl: bool,
    maxFrameLen: int,
    requireCrc: bool,
    buf: Bytes,
    esc: bool)

  function NewDeframer(escapeCtrl: bool, maxFrameLen: int, requireCrc: bool): (d: Deframer)
    ensures Idle(d)
  {
    Deframer(escapeCtrl, maxFrameLen, requireCrc, [], false)
  }

  /** Between frames: nothing buffered, no escape pending. */
  predicate Idle(d: Deframer)
  {
    d.buf == [] && !d.esc
  }

  /** The buffer bound the receiver keeps: never more than `maxFrameLen` octets. */
  predicate Bounded(d: Deframer)
  {
    |d.buf| == 0 || |d.buf| <= d.maxFrameLen
  }

  /** Same configuration, whatever the buffer and escape flag. */
  predicate SameConfig(d: Deframer, e: Deframer)
  {
    d.escapeCtrl == e.escapeCtrl && d.maxFrameLen == e.maxFrameLen && d.requireCrc == e.requireCrc
  }

  /** The new state and the payloads emitted by feeding some octets. */
  datatype Fed = Fed(state: Deframer, frames: seq<Bytes>)

  function Emitted(p: Option<Bytes>): seq<Bytes>
  {
    if p.Some? then [p.value] else []
  }

  /** `_finalize_frame`: the payload of a completed body, or nothing. Too short a
      body and, with `requireCrc`, a bad FCS are dropped without a trace. In
      checksum mode the acceptance test is the "good final FCS" of RFC 1662. */
  function Finalize(buf: Bytes, requireCrc: bool): (r: Option<Bytes>)
    ensures r.Some? <==> |buf| >= 2 && (!requireCrc || (|buf| >= 3 && Accumulate(InitFcs, buf) == GoodFcs))
    ensures r.Some? ==> |r.value| == |buf| - 2 && r.value == buf[..|buf| - 2]
  {
    if |buf| < 2 then None
    else
      var payload := buf[..|buf| - 2];
      assert buf == payload + [buf[|buf| - 2], buf[|buf| - 1]];
      GoodFcsIffMatch(payload, buf[|buf| - 2], buf[|buf| - 1]);
      if requireCrc then
        if |buf| < 3 then None
        else
          var rxFcs := (buf[|buf| - 2] as bv16) | ((buf[|buf| - 1] as bv16) << 8);
          if rxFcs != Fcs16(payload) then None else Some(payload)
      else Some(payload)
  }

  /** One octet of `HDLCDeframer.input`. */
  function Step(d: Deframer, b: Byte): Fed
  {
    if b == Flag then
      Fed(d.(buf := [], esc := false), if |d.buf| > 0 then Emitted(Finalize(d.buf, d.requireCrc)) else [])
    else if !d.esc && b == Esc then
      Fed(d.(esc := true), [])
    else
      var c := if d.esc then b ^ EscMask else b;
      if |d.buf| < d.maxFrameLen then Fed(d.(buf := d.buf + [c], esc := false), [])
      else Fed(d.(buf := [], esc := false), [])
  }

  /** The per-octet buffer invariants of the receiver. */
  lemma StepInvariants(d: Deframer, b: Byte)
    ensures SameConfig(d, Step(d, b).state)
    ensures Bounded(d) ==> Bounded(Step(d, b).state)
    // a flag always ends accumulation and clears the escape flag
    ensures b == Flag ==> Idle(Step(d, b).state)
    // only a flag closing a non-empty buffer can emit a payload, at most one,
    // two octets shorter than the buffer
    ensures b != Flag || d.buf == [] ==> Step(d, b).frames == []
    ensures |Step(d, b).frames| <= 1
    ensures forall f :: f in Step(d, b).frames ==> |f| == |d.buf| - 2
    // a data octet arriving at a full buffer discards the buffer and itself
    ensures b != Flag && (d.esc || b != Esc) && |d.buf| >= d.maxFrameLen ==> Idle(Step(d, b).state)
  {
  }

  /** `HDLCDeframer.input`: every octet of a chunk in order, payloads in the
      order their closing flags arrive. */
  function Input(d: Deframer, data: Bytes): Fed
    decreases |data|
  {
    if |data| == 0 then Fed(d, [])
    else
      var s := Step(d, data[0]);
      var rest := Input(s.state, data[1..]);
      Fed(rest.state, s.frames + rest.frames)
  }

  /** The receiver's invariants over a whole chunk: the configuration is kept,
      the buffer never exceeds `maxFrameLen`, so no payload is longer than
      `maxFrameLen - 2`; a chunk ending in a flag leaves the receiver idle; a
      chunk without a flag emits nothing. */
  lemma {:induction false} InputInvariants(d: Deframer, data: Bytes)
    ensures SameConfig(d, Input(d, data).state)
    ensures Bounded(d) ==> Bounded(Input(d, data).state)
    ensures Bounded(d) ==> forall f :: f in Input(d, data).frames ==> |f| <= d.maxFrameLen - 2
    ensures |data| > 0 && data[|data| - 1] == Flag ==> Idle(Input(d, data).state)
    ensures Flag !in data ==> Input(d, data).frames == []
    decreases |data|
  {
    if |data| > 0 {
      var s := Step(d, data[0]);
      StepInvariants(d, data[0]);
      InputInvariants(s.state, data[1..]);
      assert |data| > 1 ==> data[|data| - 1] == data[1..][|data[1..]| - 1];
    }
  }
}
