/**
 Properties of the framing layer: stuffing is undone by un-stuffing, the
 receiver decodes every frame the encoder produces, its output does not depend
 on how the octet stream is cut into chunks, and control escaping only adds
 escapes.
 */
module HdlcProperties {
  import opened Fcs
  import opened Hdlc

  /** Stuffing distributes over concatenation. */
  lemma {:induction false} StuffAppend(a: Bytes, b: Bytes, e: bool)
    ensures Stuff(a + b, e) == Stuff(a, e) + Stuff(b, e)
    decreases |a|
  {
    if |a| == 0 {
      assert a + b == b;
    } else {
      assert (a + b)[1..] == a[1..] + b;
      StuffAppend(a[1..], b, e);
    }
  }

  /** The reference un-stuffer recovers the body from its stuffed form: every
      escape the encoder writes is followed by the original octet xor 0x20. */
  lemma {:induction false} UnstuffStuff(body: Bytes, e: bool)
    ensures Unstuff(Stuff(body, e)) == body
    decreases |body|
  {
    if |body| > 0 {
      var b := body[0];
      var tail := Stuff(body[1..], e);
      UnstuffStuff(body[1..], e);
      var s := StuffOctet(b, e) + tail;
      if NeedsEscape(b, e) {
        assert s[0] == Esc && s[1] == b ^ EscMask && s[2..] == tail;
        assert (b ^ EscMask) ^ EscMask == b;
      } else {
        assert s[0] == b && s[1..] == tail;
      }
      assert body == [b] + body[1..];
    }
  }

  /** Between the flags of a frame lies exactly the stuffed payload and FCS, and
      un-stuffing it yields the payload followed by the FCS, low octet first. */
  lemma EncodeUnstuffs(payload: Bytes, e: bool)
    ensures var f := Encode(payload, e);
      Unstuff(f[1..|f| - 1]) == payload + FcsOctets(Fcs16(payload))
  {
    var f := Encode(payload, e);
    assert f[1..|f| - 1] == Stuff(FrameBody(payload), e);
    UnstuffStuff(FrameBody(payload), e);
  }

  lemma {:induction false} EscapeCountAppend(a: Bytes, b: Bytes)
    ensures EscapeCount(a + b) == EscapeCount(a) + EscapeCount(b)
    decreases |a|
  {
    if |a| == 0 {
      assert a + b == b;
    } else {
      assert (a + b)[1..] == a[1..] + b;
      EscapeCountAppend(a[1..], b);
    }
  }

  /** Each escape in a stuffed body stands for exactly one escaped octet: the
      escaped octet xor 0x20 is never itself the escape octet. */
  lemma {:induction false} EscapeCountStuff(body: Bytes, e: bool)
    ensures EscapeCount(Stuff(body, e)) == EscapedOctets(body, e)
    decreases |body|
  {
    if |body| > 0 {
      var b := body[0];
      EscapeCountStuff(body[1..], e);
      EscapeCountAppend(StuffOctet(b, e), Stuff(body[1..], e));
      if NeedsEscape(b, e) {
        assert b ^ EscMask != Esc;
        var o := StuffOctet(b, e);
        assert o[1..] == [b ^ EscMask];
        assert [b ^ EscMask][1..] == [];
        assert EscapeCount(o) == 1;
      } else {
        assert [b][1..] == [];
      }
    }
  }

  /** Escaping control octets never removes an escape, and adds at least one
      whenever the body holds an octet below 0x20. */
  lemma {:induction false} ControlEscapingAddsEscapes(body: Bytes)
    ensures EscapedOctets(body, true) >= EscapedOctets(body, false)
    ensures (exists i :: 0 <= i < |body| && body[i] < 0x20) ==>
      EscapedOctets(body, true) > EscapedOctets(body, false)
    decreases |body|
  {
    if |body| > 0 {
      ControlEscapingAddsEscapes(body[1..]);
      if exists i :: 0 <= i < |body| && body[i] < 0x20 {
        var i :| 0 <= i < |body| && body[i] < 0x20;
        if i > 0 {
          assert body[1..][i - 1] < 0x20;
        }
      }
    }
  }

  /** On frames: a control-escaped frame has at least as many escape octets as
      a plain one, and strictly more when the payload or its FCS has a control
      octet. */
  lemma ControlEscapedFrameHasMoreEscapes(payload: Bytes)
    ensures EscapeCount(Encode(payload, true)) >= EscapeCount(Encode(payload, false))
    ensures (exists i :: 0 <= i < |FrameBody(payload)| && FrameBody(payload)[i] < 0x20) ==>
      EscapeCount(Encode(payload, true)) > EscapeCount(Encode(payload, false))
  {
    var body := FrameBody(payload);
    forall e: bool
      ensures EscapeCount(Encode(payload, e)) == EscapedOctets(body, e)
    {
      EscapeCountAppend([Flag] + Stuff(body, e), [Flag]);
      EscapeCountAppend([Flag], Stuff(body, e));
      assert [Flag][1..] == [];
      EscapeCountStuff(body, e);
    }
    ControlEscapingAddsEscapes(body);
  }

  /** Chunk independence: feeding `a + b` is feeding `a`, then `b` from the
      state `a` left; the payloads come out in the same order. */
  lemma {:induction false} InputAppend(d: Deframer, a: Bytes, b: Bytes)
    ensures var ra := Input(d, a); var rb := Input(ra.state, b);
      Input(d, a + b) == Fed(rb.state, ra.frames + rb.frames)
    decreases |a|
  {
    if |a| == 0 {
      assert a + b == b;
    } else {
      var s := Step(d, a[0]);
      assert (a + b)[0] == a[0];
      assert (a + b)[1..] == a[1..] + b;
      InputAppend(s.state, a[1..], b);
      var ra' := Input(s.state, a[1..]);
      var rb := Input(ra'.state, b);
      assert Input(d, a) == Fed(ra'.state, s.frames + ra'.frames);
      assert Input(d, a + b) == Fed(rb.state, s.frames + (ra'.frames + rb.frames));
      assert s.frames + (ra'.frames + rb.frames) == (s.frames + ra'.frames) + rb.frames;
    }
  }

  /** The octets of one stuffed data octet, fed with no escape pending and room
      in the buffer, append that octet. */
  lemma FeedStuffedOctet(d: Deframer, b: Byte, e: bool)
    requires !d.esc && |d.buf| < d.maxFrameLen
    ensures Input(d, StuffOctet(b, e)) == Fed(d.(buf := d.buf + [b]), [])
  {
    var o := StuffOctet(b, e);
    if NeedsEscape(b, e) {
      var x := b ^ EscMask;
      var d1 := d.(esc := true);
      assert Step(d, Esc) == Fed(d1, []);
      assert x != Flag && x ^ EscMask == b;
      assert Step(d1, x) == Fed(d.(buf := d.buf + [b]), []);
      assert o[1..] == [x];
      assert [x][1..] == [];
      assert Input(d1, [x]) == Fed(d.(buf := d.buf + [b]), []);
    } else {
      assert o[1..] == [];
    }
  }

  /** The inductive step of `FeedStuffed`: the first octet, then the rest. */
  lemma FeedStuffedCons(d: Deframer, body: Bytes, e: bool)
    requires !d.esc && |d.buf| + |body| <= d.maxFrameLen && |body| > 0
    requires Input(d.(buf := d.buf + [body[0]]), Stuff(body[1..], e)) == Fed(d.(buf := d.buf + body), [])
    ensures Input(d, Stuff(body, e)) == Fed(d.(buf := d.buf + body), [])
  {
    var head, tail := StuffOctet(body[0], e), Stuff(body[1..], e);
    assert Input(d, head) == Fed(d.(buf := d.buf + [body[0]]), []) by {
      FeedStuffedOctet(d, body[0], e);
    }
    assert Stuff(body, e) == head + tail;
    InputAppend(d, head, tail);
  }

  /** A stuffed body that fits in the buffer is appended to it, emitting nothing. */
  lemma {:induction false} FeedStuffed(d: Deframer, body: Bytes, e: bool)
    requires !d.esc && |d.buf| + |body| <= d.maxFrameLen
    ensures Input(d, Stuff(body, e)) == Fed(d.(buf := d.buf + body), [])
    decreases |body|
  {
    if |body| == 0 {
      assert d.(buf := d.buf + body) == d by {
        assert d.buf + body == d.buf;
      }
      assert Stuff(body, e) == [];
    } else {
      var d1 := d.(buf := d.buf + [body[0]]);
      FeedStuffed(d1, body[1..], e);
      assert d1.buf + body[1..] == d.buf + body;
      FeedStuffedCons(d, body, e);
    }
  }

  /** What the receiver does with a well-formed frame, however the sender set
      `escapeCtrl`: the payload in plain mode, and in checksum mode the payload
      unless it is empty. */
  function Expected(p: Bytes, requireCrc: bool): seq<Bytes>
  {
    if requireCrc && |p| == 0 then [] else [p]
  }

  /** The closing flag of a frame whose body is in the buffer emits the payload,
      subject only to the empty-payload rule of checksum mode. */
  lemma CloseFrame(d: Deframer, p: Bytes)
    requires d.buf == FrameBody(p)
    ensures Step(d, Flag) == Fed(d.(buf := [], esc := false), Expected(p, d.requireCrc))
  {
    var body := FrameBody(p);
    var lo := FcsOctets(Fcs16(p))[0];
    var hi := FcsOctets(Fcs16(p))[1];
    assert body == p + [lo, hi];
    assert body[..|body| - 2] == p;
    GoodFcsIffMatch(p, lo, hi);
  }

  /** A frame is a flag, the stuffed body, and a closing flag. */
  lemma EncodeParts(p: Bytes, e: bool)
    ensures Encode(p, e) == [Flag] + (Stuff(FrameBody(p), e) + [Flag])
  {
  }

  /** Feeding an octet and then the rest is one step followed by the rest. */
  lemma InputCons(d: Deframer, b: Byte, rest: Bytes)
    ensures var s := Step(d, b); var r := Input(s.state, rest);
      Input(d, [b] + rest) == Fed(r.state, s.frames + r.frames)
  {
    assert ([b] + rest)[0] == b && ([b] + rest)[1..] == rest;
  }

  lemma InputOne(d: Deframer, b: Byte)
    ensures Input(d, [b]) == Step(d, b)
  {
    InputCons(d, b, []);
    assert [b] + [] == [b];
  }

  /** A flag reaching an idle receiver changes nothing. */
  lemma IdleFlag(d: Deframer)
    requires Idle(d)
    ensures Step(d, Flag) == Fed(d, [])
  {
  }

  /** Round trip: an idle receiver whose buffer can hold the body decodes an
      encoded frame to exactly its payload (in checksum mode, unless the payload
      is empty) and ends idle again. */
  lemma DecodeEncode(d: Deframer, p: Bytes, e: bool)
    requires Idle(d) && |p| + 2 <= d.maxFrameLen
    ensures Input(d, Encode(p, e)) == Fed(d, Expected(p, d.requireCrc))
  {
    var body := FrameBody(p);
    var inner := Stuff(body, e);
    var d1 := d.(buf := body);
    assert Input(d, inner) == Fed(d1, []) by {
      FeedStuffed(d, body, e);
      assert d.buf + body == body;
    }
    assert Input(d1, [Flag]) == Fed(d, Expected(p, d.requireCrc)) by {
      InputOne(d1, Flag);
      CloseFrame(d1, p);
      assert d1.(buf := [], esc := false) == d;
    }
    assert Input(d, inner + [Flag]) == Fed(d, Expected(p, d.requireCrc)) by {
      InputAppend(d, inner, [Flag]);
    }
    assert Input(d, [Flag] + (inner + [Flag])) == Input(d, inner + [Flag]) by {
      IdleFlag(d);
      InputCons(d, Flag, inner + [Flag]);
    }
    EncodeParts(p, e);
  }

  /** Resynchronisation: whatever state the receiver is in, a complete frame
      yields whatever the opening flag closes, then the frame's payload. */
  lemma DecodeEncodeFromAnyState(d: Deframer, p: Bytes, e: bool)
    requires |p| + 2 <= d.maxFrameLen
    ensures Input(d, Encode(p, e)).frames == Step(d, Flag).frames + Expected(p, d.requireCrc)
  {
    var f := Encode(p, e);
    var s := Step(d, Flag);
    var d0 := s.state;
    var rest := Input(d0, f[1..]);
    assert Input(d, f) == Fed(rest.state, s.frames + rest.frames) by {
      assert f == [Flag] + f[1..];
      InputCons(d, Flag, f[1..]);
    }
    assert rest.frames == Expected(p, d.requireCrc) by {
      assert Idle(d0);
      IdleFlag(d0);
      assert f == [Flag] + f[1..];
      InputCons(d0, Flag, f[1..]);
      DecodeEncode(d0, p, e);
    }
  }

  /** The receiver's escape-control setting plays no part in decoding. */
  lemma {:induction false} DecodingIgnoresEscapeCtrl(d: Deframer, data: Bytes, e: bool)
    ensures var r := Input(d, data); var r' := Input(d.(escapeCtrl := e), data);
      r'.frames == r.frames && r'.state == r.state.(escapeCtrl := e)
    decreases |data|
  {
    if |data| > 0 {
      var s := Step(d, data[0]);
      assert Step(d.(escapeCtrl := e), data[0]) == Fed(s.state.(escapeCtrl := e), s.frames);
      DecodingIgnoresEscapeCtrl(s.state, data[1..], e);
    }
  }

  /** No prefix of a frame short of its closing flag emits anything. */
  lemma FramePrefixSilent(d: Deframer, p: Bytes, e: bool, k: nat)
    requires Idle(d) && k < |Encode(p, e)|
    ensures Input(d, Encode(p, e)[..k]).frames == []
  {
    if k > 0 {
      var f := Encode(p, e);
      var t := f[1..k];
      assert f[..k] == [Flag] + t;
      assert Flag !in t by {
        forall i | 0 <= i < |t|
          ensures t[i] != Flag
        {
          assert t[i] == f[i + 1];
        }
      }
      IdleFlag(d);
      InputCons(d, Flag, t);
      InputInvariants(d, t);
    }
  }

  /** When the first piece of a chunk emits nothing, the second piece, fed from
      where the first left off, produces what the whole chunk does. */
  lemma SplitSilent(d: Deframer, data: Bytes, k: nat, out: Fed)
    requires k <= |data| && Input(d, data[..k]).frames == [] && Input(d, data) == out
    ensures Input(Input(d, data[..k]).state, data[k..]) == out
  {
    InputAppend(d, data[..k], data[k..]);
    assert data[..k] + data[k..] == data;
  }

  /** A frame cut at any point decodes to nothing from the first piece and to
      the payload from the second. */
  lemma SplitFrame(d: Deframer, p: Bytes, e: bool, k: nat)
    requires Idle(d) && |p| + 2 <= d.maxFrameLen
    requires k < |Encode(p, e)|
    ensures var f := Encode(p, e); var first := Input(d, f[..k]);
      first.frames == [] && Input(first.state, f[k..]) == Fed(d, Expected(p, d.requireCrc))
  {
    FramePrefixSilent(d, p, e, k);
    DecodeEncode(d, p, e);
    SplitSilent(d, Encode(p, e), k, Fed(d, Expected(p, d.requireCrc)));
  }

  /** Several frames back to back. */
  function EncodeAll(ps: seq<Bytes>, e: bool): Bytes
    decreases |ps|
  {
    if |ps| == 0 then [] else Encode(ps[0], e) + EncodeAll(ps[1..], e)
  }

  /** The payloads a receiver in checksum mode keeps: all but the empty ones. */
  function Delivered(ps: seq<Bytes>, requireCrc: bool): seq<Bytes>
    decreases |ps|
  {
    if |ps| == 0 then [] else Expected(ps[0], requireCrc) + Delivered(ps[1..], requireCrc)
  }

  /** Concatenated frames fed at once decode to their payloads, in order. */
  lemma {:induction false} DecodeEncodeAll(d: Deframer, ps: seq<Bytes>, e: bool)
    requires Idle(d)
    requires forall i :: 0 <= i < |ps| ==> |ps[i]| + 2 <= d.maxFrameLen
    ensures Input(d, EncodeAll(ps, e)) == Fed(d, Delivered(ps, d.requireCrc))
    ensures !d.requireCrc ==> Delivered(ps, d.requireCrc) == ps
    decreases |ps|
  {
    if |ps| > 0 {
      InputAppend(d, Encode(ps[0], e), EncodeAll(ps[1..], e));
      DecodeEncode(d, ps[0], e);
      DecodeEncodeAll(d, ps[1..], e);
      assert ps == [ps[0]] + ps[1..];
    }
  }

  /** Checksum enforcement: changing any one octet of a frame body makes the
      checksum-mode receiver drop it, while without checksum mode the body is
      still finalised, its changed payload delivered. This holds for the body
      as buffered, after un-stuffing. */
  lemma CorruptOctetDropped(p: Bytes, i: nat, x: Byte)
    requires i < |FrameBody(p)| && x != FrameBody(p)[i]
    ensures Finalize(FrameBody(p)[i := x], true).None?
    ensures Finalize(FrameBody(p)[i := x], false).Some?
    ensures Finalize(FrameBody(p)[i := x], false).value == FrameBody(p)[i := x][..|p|]
  {
    var body := FrameBody(p);
    var lo, hi := FcsOctets(Fcs16(p))[0], FcsOctets(Fcs16(p))[1];
    assert Accumulate(InitFcs, body) == GoodFcs by {
      assert body == p + [lo, hi];
      GoodFcsIffMatch(p, lo, hi);
    }
    ChangedOctetChangesRegister(body, i, x);
  }

  /** A data octet reaching a full buffer, stuffed or not, discards the buffer
      and itself and leaves the receiver idle. */
  lemma OverflowOctet(d: Deframer, x: Byte, e: bool)
    requires !d.esc && |d.buf| >= d.maxFrameLen
    ensures Input(d, StuffOctet(x, e)) == Fed(d.(buf := [], esc := false), [])
  {
    var o := StuffOctet(x, e);
    if NeedsEscape(x, e) {
      var y := x ^ EscMask;
      var d1 := d.(esc := true);
      assert Step(d, Esc) == Fed(d1, []);
      assert y != Flag;
      assert Step(d1, y) == Fed(d.(buf := [], esc := false), []);
      assert o == [Esc] + [y];
      InputOne(d1, y);
      InputCons(d, Esc, [y]);
    } else {
      assert o[1..] == [];
    }
  }

  /** A buffer-full of stuffed octets followed by one more octet leaves the
      receiver idle again, having emitted nothing. */
  lemma OverflowHead(d: Deframer, head: Bytes, x: Byte, e: bool)
    requires Idle(d) && |head| == d.maxFrameLen
    ensures Input(d, Stuff(head, e) + StuffOctet(x, e)) == Fed(d, [])
  {
    var dh := d.(buf := head);
    assert Input(d, Stuff(head, e)) == Fed(dh, []) by {
      FeedStuffed(d, head, e);
      assert d.buf + head == head;
    }
    assert Input(dh, StuffOctet(x, e)) == Fed(d, []) by {
      OverflowOctet(dh, x, e);
      assert dh.(buf := [], esc := false) == d;
    }
    InputAppend(d, Stuff(head, e), StuffOctet(x, e));
  }

  /** An idle receiver fed a stuffed body that fits and a flag finalises that body. */
  lemma BodyThenFlag(d: Deframer, body: Bytes, e: bool)
    requires Idle(d) && |body| <= d.maxFrameLen
    ensures Input(d, Stuff(body, e) + [Flag]) == Fed(d, Emitted(Finalize(body, d.requireCrc)))
  {
    var db := d.(buf := body);
    assert Input(d, Stuff(body, e)) == Fed(db, []) by {
      FeedStuffed(d, body, e);
      assert d.buf + body == body;
    }
    assert Input(db, [Flag]) == Fed(d, Emitted(Finalize(body, d.requireCrc))) by {
      InputOne(db, Flag);
      assert db.(buf := [], esc := false) == d;
    }
    InputAppend(d, Stuff(body, e), [Flag]);
  }

  /** The overflow path of the receiver: a body one octet longer than the buffer
      loses only its head. The buffer is cleared at the first octet that does not
      fit, the rest of the body accumulates afresh, and the closing flag
      finalises that tail as though it were a whole body. */
  lemma OverlongBodyKeepsTail(d: Deframer, head: Bytes, x: Byte, tail: Bytes, e: bool)
    requires Idle(d) && |head| == d.maxFrameLen && |tail| <= d.maxFrameLen
    ensures Input(d, Stuff(head + [x] + tail, e) + [Flag]) == Fed(d, Emitted(Finalize(tail, d.requireCrc)))
  {
    var front, back := Stuff(head, e) + StuffOctet(x, e), Stuff(tail, e) + [Flag];
    assert Stuff(head + [x] + tail, e) + [Flag] == front + back by {
      StuffAppend(head + [x], tail, e);
      StuffAppend(head, [x], e);
      assert [x][1..] == [];
    }
    OverflowHead(d, head, x, e);
    BodyThenFlag(d, tail, e);
    InputAppend(d, front, back);
  }

  /** A body with nothing to escape is sent as it is. */
  lemma {:induction false} StuffPlain(body: Bytes, e: bool)
    requires forall i :: 0 <= i < |body| ==> !NeedsEscape(body[i], e)
    ensures Stuff(body, e) == body
    decreases |body|
  {
    if |body| > 0 {
      StuffPlain(body[1..], e);
      assert body == [body[0]] + body[1..];
    }
  }

  /** The body and closing flag of the instance below. */
  lemma OverlongExampleBody(d: Deframer, body: Bytes)
    requires d == NewDeframer(false, 3, false) && body == [1, 2, 3, 4, 5, 6, 7]
    ensures Input(d, body + [Flag]) == Fed(d, [[5]])
  {
    var tail: Bytes := [5, 6, 7];
    assert Input(d, Stuff(body, false) + [Flag]) == Fed(d, Emitted(Finalize(tail, false))) by {
      assert body == [1, 2, 3] + [4] + tail;
      OverlongBodyKeepsTail(d, [1, 2, 3], 4, tail, false);
    }
    assert Emitted(Finalize(tail, false)) == [[5]] by {
      assert tail[..|tail| - 2] == [5];
    }
    StuffPlain(body, false);
  }

  /** A small instance: a receiver holding at most 3 octets, without checksum
      mode, turns the over-long frame 7E 01..07 7E into the payload 05. */
  lemma OverlongExample()
    ensures Input(NewDeframer(false, 3, false), [Flag, 1, 2, 3, 4, 5, 6, 7, Flag]).frames == [[5]]
  {
    var d := NewDeframer(false, 3, false);
    var body: Bytes := [1, 2, 3, 4, 5, 6, 7];
    OverlongExampleBody(d, body);
    IdleFlag(d);
    InputCons(d, Flag, body + [Flag]);
    assert [Flag] + (body + [Flag]) == [Flag, 1, 2, 3, 4, 5, 6, 7, Flag];
  }

  /** The worked example: "hi" has FCS 0x5A15, so its body is 68 69 15 5A. */
  lemma HiBody()
    ensures Fcs16([0x68, 0x69]) == 0x5A15
    ensures FrameBody([0x68, 0x69]) == [0x68, 0x69, 0x15, 0x5A]
  {
    var p: Bytes := [0x68, 0x69];
    assert p[1..] == [0x69];
    assert p[1..][1..] == [];
  }

  /** Stuffing the body of "hi": plain mode sends it as is; control escaping
      sends the low FCS octet 0x15 as 0x7D 0x35. */
  lemma HiStuffed()
    ensures Stuff([0x68, 0x69, 0x15, 0x5A], false) == [0x68, 0x69, 0x15, 0x5A]
    ensures Stuff([0x68, 0x69, 0x15, 0x5A], true) == [0x68, 0x69, 0x7D, 0x35, 0x5A]
  {
    var body: Bytes := [0x68, 0x69, 0x15, 0x5A];
    assert body[1..] == [0x69, 0x15, 0x5A];
    assert body[2..] == [0x15, 0x5A];
    assert body[3..] == [0x5A];
    assert body[4..] == [];
    assert Stuff(body[3..], false) == [0x5A] && Stuff(body[3..], true) == [0x5A];
    assert Stuff(body[2..], false) == [0x15, 0x5A];
    assert Stuff(body[2..], true) == [0x7D, 0x35, 0x5A];
    assert Stuff(body[1..], false) == [0x69, 0x15, 0x5A];
    assert Stuff(body[1..], true) == [0x69, 0x7D, 0x35, 0x5A];
  }

  /** The frame of "hi" in one escaping mode. */
  lemma HiFrame(e: bool)
    ensures Encode([0x68, 0x69], e)
      == if e then [0x7E, 0x68, 0x69, 0x7D, 0x35, 0x5A, 0x7E] else [0x7E, 0x68, 0x69, 0x15, 0x5A, 0x7E]
  {
    HiBody();
    HiStuffed();
    EncodeParts([0x68, 0x69], e);
  }

  /** The worked example end to end: the frames of "hi" in both modes. */
  lemma HiExample()
    ensures Fcs16([0x68, 0x69]) == 0x5A15
    ensures Encode([0x68, 0x69], false) == [0x7E, 0x68, 0x69, 0x15, 0x5A, 0x7E]
    ensures Encode([0x68, 0x69], true) == [0x7E, 0x68, 0x69, 0x7D, 0x35, 0x5A, 0x7E]
  {
    HiBody();
    HiFrame(false);
    HiFrame(true);
  }
}
