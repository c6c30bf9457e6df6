/**
 The application message: a 9-octet little-endian header (command u16, id u8,
 fragments u16, fragment u16, length u16) followed by the payload. Fields are
 unbounded integers, as in the original, so that the range checks of the
 serialiser are meaningful.
 */
module Messages {
  import opened Wrappers
  import opened Fcs

  const HeaderLen: nat := 9
  const U16Max: int := 0xFFFF
  const U8Max: int := 0xFF

  /** The symbolic commands. Any other u16 value is carried as a plain integer. */
  datatype Command = Ack | Nak | Ping

  function CommandValue(c: Command): (v: int)
  {
    match c
    case Ack => 1
    case Nak => 2
    case Ping => 3
  }

  /** `Command.from_u16`: only the three defined values name a command. */
  function CommandFromU16(v: int): (r: Option<Command>)
    ensures r.Some? <==> v == 1 || v == 2 || v == 3
    ensures r.Some? ==> CommandValue(r.value) == v
  {
    if v == 1 then Some(Ack)
    else if v == 2 then Some(Nak)
    else if v == 3 then Some(Ping)
    else None
  }

  lemma CommandRoundTrip(c: Command)
    ensures CommandFromU16(CommandValue(c)) == Some(c)
  {
  }

  datatype Message = Message(
    command: int,
    id: int,
    fragments: int,
    fragment: int,
    length: int,
    payload: Bytes)

  /** The ValueError raised by `to_bytes`, one per failed range check. */
  datatype CodecError =
    | CommandOutOfRange
    | IdOutOfRange
    | FragmentsOutOfRange
    | FragmentOutOfRange
    | PayloadTooLong

  predicate IsU16(x: int) { 0 <= x <= U16Max }

  /** Every field serialisable. The stored `length` plays no part. */
  predicate InRange(m: Message)
  {
    IsU16(m.command) && 0 <= m.id <= U8Max && IsU16(m.fragments) && IsU16(m.fragment)
    && |m.payload| <= U16Max
  }

  /** The octet whose value is `n`, built by counting so that octet values and
      integers meet only in the two lemmas below. */
  function OctetOf(n: int): (b: Byte)
    requires 0 <= n < 256
  {
    if n == 0 then 0 else OctetOf(n - 1) + 1
  }

  lemma {:induction false} OctetOfValue(n: int)
    requires 0 <= n < 256
    ensures OctetOf(n) as int == n
  {
    if n > 0 {
      OctetOfValue(n - 1);
    }
  }

  lemma OctetOfOctet(b: Byte)
    ensures OctetOf(b as int) == b
  {
    OctetOfValue(b as int);
  }

  /** Low and high octet of a u16. */
  function Lo(x: int): Byte
    requires IsU16(x)
  {
    OctetOf(x % 256)
  }

  function Hi(x: int): Byte
    requires IsU16(x)
  {
    OctetOf(x / 256)
  }

  /** The octet at `i`, or 0 past the end: a short slice read little-endian
      contributes nothing for its missing high octets. */
  function OctetAt(data: Bytes, i: nat): int
  {
    if i < |data| then data[i] as int else 0
  }

  /** `int.from_bytes(data[i:i+2], "little")`. */
  function U16At(data: Bytes, i: nat): (r: int)
    ensures IsU16(r)
  {
    OctetAt(data, i) + 256 * OctetAt(data, i + 1)
  }

  /** `data[i:j]` with Python's clamping of out-of-range bounds. */
  function Slice(data: Bytes, i: nat, j: nat): (r: Bytes)
    ensures |r| == (if j <= i || i >= |data| then 0 else (if j <= |data| then j else |data|) - i)
  {
    if i >= |data| || j <= i then [] else if j <= |data| then data[i..j] else data[i..]
  }

  lemma OctetBound(b: Byte)
    ensures 0 <= b as int < 256
  {
  }

  lemma LoHiValue(x: int)
    requires IsU16(x)
    ensures Lo(x) as int == x % 256 && Hi(x) as int == x / 256
  {
    OctetOfValue(x % 256);
    OctetOfValue(x / 256);
  }

  lemma U16AtValue(data: Bytes, i: nat)
    requires i + 1 < |data|
    ensures U16At(data, i) == data[i] as int + 256 * data[i + 1] as int
  {
  }

  /** Reading back a u16 written low octet first. */
  lemma U16AtLoHi(data: Bytes, i: nat, x: int)
    requires IsU16(x) && i + 1 < |data| && data[i] == Lo(x) && data[i + 1] == Hi(x)
    ensures U16At(data, i) == x
  {
    U16AtValue(data, i);
    LoHiValue(x);
  }

  /** Writing back a u16 read low octet first. */
  lemma LoHiU16At(data: Bytes, i: nat, x: int)
    requires i + 1 < |data| && x == U16At(data, i)
    ensures IsU16(x) && Lo(x) == data[i] && Hi(x) == data[i + 1]
  {
    var a, b := data[i] as int, data[i + 1] as int;
    U16AtValue(data, i);
    OctetBound(data[i]);
    OctetBound(data[i + 1]);
    assert x % 256 == a && x / 256 == b;
    OctetOfOctet(data[i]);
    OctetOfOctet(data[i + 1]);
  }

  /** A u16 written low octet first. */
  function LittleEndian(x: int): (r: Bytes)
    requires IsU16(x)
  {
    [Lo(x), Hi(x)]
  }

  lemma LittleEndianOf(data: Bytes, i: nat)
    requires i + 1 < |data|
    ensures IsU16(U16At(data, i)) && LittleEndian(U16At(data, i)) == data[i..i + 2]
  {
    LoHiU16At(data, i, U16At(data, i));
  }

  /** The nine header octets of a message whose fields are in range. */
  function Header(m: Message): (h: Bytes)
    requires InRange(m)
  {
    LittleEndian(m.command) + [OctetOf(m.id)] + LittleEndian(m.fragments)
    + LittleEndian(m.fragment) + LittleEndian(|m.payload|)
  }

  /** The header octets decode back to the fields. */
  lemma HeaderFields(m: Message, r: Bytes)
    requires InRange(m) && |r| >= HeaderLen && r[..HeaderLen] == Header(m)
    ensures U16At(r, 0) == m.command && r[2] as int == m.id
    ensures U16At(r, 3) == m.fragments && U16At(r, 5) == m.fragment
    ensures U16At(r, 7) == |m.payload|
  {
    var h := Header(m);
    assert r[0] == h[0] && r[1] == h[1] && r[2] == h[2];
    assert r[3] == h[3] && r[4] == h[4] && r[5] == h[5];
    assert r[6] == h[6] && r[7] == h[7] && r[8] == h[8];
    assert U16At(r, 0) == m.command by { U16AtLoHi(r, 0, m.command); }
    assert r[2] as int == m.id by { OctetOfValue(m.id); }
    assert U16At(r, 3) == m.fragments by { U16AtLoHi(r, 3, m.fragments); }
    assert U16At(r, 5) == m.fragment by { U16AtLoHi(r, 5, m.fragment); }
    assert U16At(r, 7) == |m.payload| by { U16AtLoHi(r, 7, |m.payload|); }
  }

  /** `Message.to_bytes`: the header fields in the order checked, then the payload.
      The length written is the payload's own, whatever `m.length` says. */
  function ToBytes(m: Message): (r: Result<Bytes, CodecError>)
    ensures r.Success? <==> InRange(m)
    ensures !IsU16(m.command) ==> r == Failure(CommandOutOfRange)
    ensures IsU16(m.command) && !(0 <= m.id <= U8Max) ==> r == Failure(IdOutOfRange)
    ensures r.Success? ==>
      && |r.value| == HeaderLen + |m.payload|
      && U16At(r.value, 0) == m.command
      && r.value[2] as int == m.id
      && U16At(r.value, 3) == m.fragments
      && U16At(r.value, 5) == m.fragment
      && U16At(r.value, 7) == |m.payload|
      && r.value[HeaderLen..] == m.payload
  {
    if !IsU16(m.command) then Failure(CommandOutOfRange)
    else if !(0 <= m.id <= U8Max) then Failure(IdOutOfRange)
    else if !IsU16(m.fragments) then Failure(FragmentsOutOfRange)
    else if !IsU16(m.fragment) then Failure(FragmentOutOfRange)
    else if !(0 <= |m.payload| <= U16Max) then Failure(PayloadTooLong)
    else
      var r := Header(m) + m.payload;
      assert r[..HeaderLen] == Header(m) && r[HeaderLen..] == m.payload;
      HeaderFields(m, r);
      Success(r)
  }

  /** Why `from_bytes` can raise: indexing the id octet of an input under 3 octets. */
  datatype ParseError = TooShort

  /** `Message.from_bytes`: lenient. Missing header octets read as 0, the payload
      is whatever of `length` octets is there, and the parsed `length` is kept
      even when the payload is shorter. Only an input without an id octet fails. */
  function FromBytes(data: Bytes): (r: Result<Message, ParseError>)
    ensures r.Success? <==> |data| >= 3
    // every header field is read at its offset, whether or not the payload is all there
    ensures r.Success? ==>
      && r.value.command == U16At(data, 0) && r.value.id == data[2] as int
      && r.value.fragments == U16At(data, 3) && r.value.fragment == U16At(data, 5)
      && r.value.length == U16At(data, 7)
    ensures r.Success? ==>
      && IsU16(r.value.command) && 0 <= r.value.id <= U8Max
      && IsU16(r.value.fragments) && IsU16(r.value.fragment) && IsU16(r.value.length)
      && |r.value.payload| <= r.value.length
      && (|data| >= HeaderLen + r.value.length ==> |r.value.payload| == r.value.length)
      && (|data| < HeaderLen + r.value.length ==> |r.value.payload| == if |data| < HeaderLen then 0 else |data| - HeaderLen)
      && r.value.payload <= data[(if |data| < HeaderLen then |data| else HeaderLen)..]
  {
    if |data| < 3 then Failure(TooShort)
    else
      OctetBound(data[2]);
      var length := U16At(data, 7);
      Success(Message(U16At(data, 0), data[2] as int, U16At(data, 3), U16At(data, 5),
        length, Slice(data, HeaderLen, HeaderLen + length)))
  }

  lemma FromBytesLayout(data: Bytes)
    requires |data| >= HeaderLen && |data| >= HeaderLen + U16At(data, 7)
    ensures FromBytes(data) == Success(Message(U16At(data, 0), data[2] as int, U16At(data, 3),
      U16At(data, 5), U16At(data, 7), data[HeaderLen..HeaderLen + U16At(data, 7)]))
  {
    var n := HeaderLen + U16At(data, 7);
    assert Slice(data, HeaderLen, n) == data[HeaderLen..n];
  }

  /** Parsing what was serialised gives back the message, its length field
      now equal to its payload length. */
  lemma ParseSerialised(m: Message)
    requires InRange(m)
    ensures FromBytes(ToBytes(m).value) == Success(m.(length := |m.payload|))
  {
    var b := ToBytes(m).value;
    FromBytesLayout(b);
    assert b[HeaderLen..HeaderLen + |m.payload|] == m.payload;
  }

  /** The round trip the codec promises: for an in-range message whose length
      field agrees with its payload, parse after serialise is the identity. */
  lemma RoundTrip(m: Message)
    requires InRange(m) && m.length == |m.payload|
    ensures FromBytes(ToBytes(m).value) == Success(m)
  {
    ParseSerialised(m);
  }

  /** The header a parsed message re-serialises to is the header it was parsed from. */
  lemma HeaderOfParsed(data: Bytes, m: Message)
    requires |data| >= HeaderLen
    requires m.command == U16At(data, 0) && m.id == data[2] as int
    requires m.fragments == U16At(data, 3) && m.fragment == U16At(data, 5)
    requires |m.payload| == U16At(data, 7)
    ensures InRange(m)
    ensures Header(m) == data[..HeaderLen]
  {
    assert IsU16(m.command) && LittleEndian(m.command) == data[0..2] by { LittleEndianOf(data, 0); }
    assert IsU16(m.fragments) && LittleEndian(m.fragments) == data[3..5] by { LittleEndianOf(data, 3); }
    assert IsU16(m.fragment) && LittleEndian(m.fragment) == data[5..7] by { LittleEndianOf(data, 5); }
    assert IsU16(|m.payload|) && LittleEndian(|m.payload|) == data[7..9] by { LittleEndianOf(data, 7); }
    assert 0 <= m.id <= U8Max && [OctetOf(m.id)] == data[2..3] by {
      OctetBound(data[2]);
      OctetOfOctet(data[2]);
    }
    assert data[..HeaderLen] == data[0..2] + data[2..3] + data[3..5] + data[5..7] + data[7..9];
  }

  /** The other direction: an input holding a whole message re-serialises to
      exactly the octets the parser consumed. */
  lemma SerialiseParsed(data: Bytes)
    requires |data| >= HeaderLen && |data| >= HeaderLen + U16At(data, 7)
    ensures ToBytes(FromBytes(data).value) == Success(data[..HeaderLen + U16At(data, 7)])
  {
    var n := HeaderLen + U16At(data, 7);
    var m := Message(U16At(data, 0), data[2] as int, U16At(data, 3), U16At(data, 5),
      U16At(data, 7), data[HeaderLen..n]);
    FromBytesLayout(data);
    HeaderOfParsed(data, m);
    assert ToBytes(m) == Success(Header(m) + m.payload);
    assert data[..n] == data[..HeaderLen] + data[HeaderLen..n];
  }
}
