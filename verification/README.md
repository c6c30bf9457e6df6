# embedded-serial-bridge core, modelled in Dafny

This project models the core of `embedded_serial_bridge`, a host-side
library. The library exchanges framed, checksummed messages with a
microcontroller over a serial line, and it finds the port the board is
attached to by pinging candidate ports. It has four parts:

- **Framing** (`hdlc.py`). This is the HDLC-like framing of section 4 of
  RFC 1662: a flag, the octet-stuffed payload and its FCS, then a closing
  flag. The FCS-16 is the one in Appendix C.2 of RFC 1662, also known as
  CRC-16/X.25. The receiver is a streaming deframer that carries a partial
  frame and an escape flag from one chunk of input to the next.
- **Message codec** (`comm.py`, `Message`). A message has a 9-octet
  little-endian header (command, id, fragments, fragment, length) followed
  by the payload.
- **Link** (`comm.py`, `Comm`). The link writes frames with control-octet
  escaping and enforces a payload bound on outgoing messages. Incoming
  payloads are handed out one per read; any extra payloads from the same
  chunk wait in a FIFO queue.
- **Port discovery** (`auto_discovery.py`, `discovery.py`). Enumerated
  port names are ranked per operating system: likely adapters first, then
  every other port. The first port whose ping is answered is returned.

The model is functional:
- Octets are `bv8` and the FCS register is a `bv16`.
- The deframer is an immutable record folded over the input.
- The serial port is a value: the chunks still to arrive, plus everything
  written so far.
- A probe of a port is an observed `Attempt`, and what is modelled is the
  verdict drawn from it.

Files:

| file | module | contents |
|---|---|---|
| `wrappers.dfy` | `Wrappers` | `Option`, `Result` |
| `fcs.dfy` | `Fcs` | FCS-16, incremental computation, the good-residue check |
| `hdlc.dfy` | `Hdlc` | stuffing, `Encode`, the deframer `Step`/`Input`, `Finalize` |
| `hdlc_properties.dfy` | `HdlcProperties` | round trips, chunk independence, resynchronisation |
| `message.dfy` | `Messages` | `Command`, `Message`, `ToBytes`, `FromBytes` |
| `comm.dfy` | `Comms` | the `Comm` link: write, read, queue, `read_msg` |
| `text.dfy` | `Text` | ASCII lower-casing, substring tests, decimal digits, string order |
| `ranking.dfy` | `Ranking` | filtering, stable sort by key, "likely then others" |
| `port_names.dfy` | `PortNames` | platform names, port-name patterns, sort keys |
| `probe.dfy` | `Probing` | probe verdicts and the first-match search |
| `auto_discovery.dfy` | `AutoDiscovery` | `AutoDiscovery._get_likely_ports` and `run` |
| `discovery.dfy` | `Discovery` | `_get_available_ports`, `_get_likely_ports`, `discover` |

## Model

| member | source | states |
|---|---|---|
| Fcs.FcsOctets | embedded_serial_bridge/hdlc.py:36 | the two FCS octets, low first, reassemble to the register value |
| Fcs.AccumulateAppend | embedded_serial_bridge/hdlc.py:11-21 | the FCS loop over `a + b` equals the loop over `b` started from the register `a` leaves, so the checksum can be computed over split input |
| Fcs.EmptyFcs | embedded_serial_bridge/hdlc.py:11-21 | the FCS of the empty input is 0x0000 |
| Fcs.CheckValue | embedded_serial_bridge/hdlc.py:11-21 | the FCS of ASCII "123456789" is 0x906E, the CRC-16/X.25 check value |
| Fcs.GoodFcsIffMatch | embedded_serial_bridge/hdlc.py:86-93 | the receiver's "recompute and compare" test holds exactly when the register over payload and received FCS is the RFC 1662 good residue 0xF0B8 |
| Fcs.ChangedOctetChangesRegister | embedded_serial_bridge/hdlc.py:11-21 | the FCS register over an input differs from the register over the same input with any one octet changed |
| Fcs.UpdateInjective | embedded_serial_bridge/hdlc.py:14-20 | folding one octet into the register is one-to-one in the register xor the octet |
| Fcs.AccumulateInjective | embedded_serial_bridge/hdlc.py:11-21 | two different registers stay different after folding in the same octets |
| Hdlc.StuffOctet | embedded_serial_bridge/hdlc.py:38-42 | a stuffed octet never contains a flag, and with control escaping contains no octet below 0x20 |
| Hdlc.Stuff | embedded_serial_bridge/hdlc.py:37-42 | stuffing at most doubles the body, never emits a flag, and with control escaping emits no octet below 0x20 |
| Hdlc.Encode | embedded_serial_bridge/hdlc.py:32-44 | a frame starts and ends with a flag and has none in between; its length lies between `len(p)+4` and `2*(len(p)+2)+2`; with control escaping no interior octet is below 0x20 |
| Hdlc.NewDeframer | embedded_serial_bridge/hdlc.py:47-55 | a new deframer has an empty buffer and no escape pending |
| Hdlc.Finalize | embedded_serial_bridge/hdlc.py:83-96 | a payload is produced exactly when the body has at least 2 octets and, in checksum mode, at least 3 with a good FCS; the payload is the body minus its last two octets |
| Hdlc.StepInvariants | embedded_serial_bridge/hdlc.py:59-80 | one octet keeps the configuration and the buffer bound; a flag leaves the deframer idle; only a flag closing a non-empty buffer emits, at most one payload two octets shorter than the buffer; a data octet at a full buffer clears it and is dropped |
| Hdlc.InputInvariants | embedded_serial_bridge/hdlc.py:57-81 | over a chunk: configuration kept, buffer never over `max_frame_len`, every payload at most `max_frame_len - 2` octets, idle after a trailing flag, nothing emitted without a flag |
| HdlcProperties.StuffAppend | embedded_serial_bridge/hdlc.py:37-42 | stuffing distributes over concatenation |
| HdlcProperties.UnstuffStuff | embedded_serial_bridge/hdlc.py:37-42 | an independent un-stuffer (each escape takes the next octet xor 0x20) recovers the body from its stuffed form |
| HdlcProperties.EncodeUnstuffs | embedded_serial_bridge/hdlc.py:32-44 | un-stuffing a frame's interior gives the payload followed by its FCS, low octet first |
| HdlcProperties.EscapeCountAppend | embedded_serial_bridge/hdlc.py:37-42 | escape octets of a concatenation add up |
| HdlcProperties.EscapeCountStuff | embedded_serial_bridge/hdlc.py:24-29 | a stuffed body has exactly one escape octet per octet that needs escaping |
| HdlcProperties.ControlEscapingAddsEscapes | embedded_serial_bridge/hdlc.py:24-29 | control escaping escapes at least the octets plain stuffing does, and strictly more when some octet is below 0x20 |
| HdlcProperties.ControlEscapedFrameHasMoreEscapes | embedded_serial_bridge/hdlc.py:32-44 | a control-escaped frame has at least as many escape octets as a plain one, and strictly more when payload or FCS has an octet below 0x20 |
| HdlcProperties.InputAppend | embedded_serial_bridge/hdlc.py:57-81 | chunk independence: feeding `a + b` is feeding `a`, then `b` from the state `a` left, payloads in order |
| HdlcProperties.FeedStuffed | embedded_serial_bridge/hdlc.py:69-77 | a stuffed body that fits is appended to the buffer un-stuffed, emitting nothing |
| HdlcProperties.CloseFrame | embedded_serial_bridge/hdlc.py:60-66 | the closing flag of a buffered frame body emits the payload (in checksum mode, unless it is empty) and leaves the deframer idle |
| HdlcProperties.DecodeEncode | embedded_serial_bridge/hdlc.py:57-96 | round trip: an idle deframer that can hold the body decodes a frame to exactly `[p]`, or to `[]` for an empty payload in checksum mode, whichever escaping the sender used, and ends idle |
| HdlcProperties.DecodeEncodeFromAnyState | embedded_serial_bridge/hdlc.py:60-67 | from any state, a frame yields what its opening flag closes, then its payload |
| HdlcProperties.DecodingIgnoresEscapeCtrl | embedded_serial_bridge/hdlc.py:57-81 | the deframer's `escape_ctrl` plays no part in decoding |
| HdlcProperties.FramePrefixSilent | embedded_serial_bridge/hdlc.py:57-81 | from an idle deframer, no prefix of a frame short of its closing flag emits anything |
| HdlcProperties.CorruptOctetDropped | embedded_serial_bridge/hdlc.py:86-96 | changing any one octet of a buffered frame body makes checksum mode drop the frame, while without checksum mode the changed payload is still delivered |
| HdlcProperties.SplitFrame | embedded_serial_bridge/hdlc.py:57-81 | a frame cut anywhere decodes to `[]` from the first piece and to the payload from the second |
| HdlcProperties.StuffPlain | embedded_serial_bridge/hdlc.py:37-42 | a body with no octet to escape is sent unchanged |
| HdlcProperties.OverlongBodyKeepsTail | embedded_serial_bridge/hdlc.py:59-80 | a frame whose body is one buffer-full plus more octets is not dropped: the buffer is cleared at the first octet that does not fit, and the closing flag finalises the octets after it as a body of their own |
| HdlcProperties.OverlongExample | embedded_serial_bridge/hdlc.py:59-80 | with a 3-octet buffer and no checksum mode, `7E 01 02 03 04 05 06 07 7E` yields the payload `05` |
| HdlcProperties.DecodeEncodeAll | embedded_serial_bridge/hdlc.py:59-67 | concatenated frames fed at once decode to their payloads in order; without checksum mode, to exactly the payloads |
| HdlcProperties.HiExample | embedded_serial_bridge/hdlc.py:32-44 | "hi" has FCS 0x5A15 and is sent as `7E 68 69 15 5A 7E`, or as `7E 68 69 7D 35 5A 7E` with control escaping |
| Messages.CommandFromU16 | embedded_serial_bridge/comm.py:22-32 | exactly 1, 2 and 3 name a command, and the command named has that value |
| Messages.CommandRoundTrip | embedded_serial_bridge/comm.py:22-32 | every command is recovered from its value |
| Messages.HeaderFields | embedded_serial_bridge/comm.py:58-63 | the header octets read back, little-endian at offsets 0, 2, 3, 5, 7, as the fields and the payload length |
| Messages.ToBytes | embedded_serial_bridge/comm.py:44-64 | serialising succeeds exactly when every field is in range, failing on the command first and the id next; the output is `9 + len(payload)` octets holding the fields, the payload's own length and the payload |
| Messages.FromBytes | embedded_serial_bridge/comm.py:66-74 | parsing fails exactly on input under 3 octets; otherwise command, id, fragments, fragment and length are the little-endian values at offsets 0, 2, 3, 5 and 7 even when the input is short, and the payload is the `length` octets after the header, truncated to what is there |
| Messages.FromBytesLayout | embedded_serial_bridge/comm.py:66-74 | on input holding the whole message, the fields are read at offsets 0, 2, 3, 5, 7 and the payload is `data[9:9+length]` |
| Messages.ParseSerialised | embedded_serial_bridge/comm.py:44-74 | parsing a serialised in-range message gives it back, its length field set to its payload's length |
| Messages.RoundTrip | embedded_serial_bridge/comm.py:44-74 | `from_bytes(to_bytes(m)) == m` for an in-range message whose length matches its payload |
| Messages.HeaderOfParsed | embedded_serial_bridge/comm.py:58-72 | a parsed header is in range and re-serialises to the octets it was parsed from |
| Messages.SerialiseParsed | embedded_serial_bridge/comm.py:44-74 | an input holding a whole message re-serialises to exactly the octets the parser consumed |
| Comms.OpenValid | embedded_serial_bridge/comm.py:90-96 | a new link escapes control octets, uses the default buffer bound, checks the FCS exactly when `crc_enabled`, is idle and has an empty queue |
| Comms.WriteMsg | embedded_serial_bridge/comm.py:115-120 | an oversize payload is refused exactly when over the bound; otherwise the codec decides; on success the frame of the serialised message, and nothing else, is written and its length returned |
| Comms.SendPayload | embedded_serial_bridge/comm.py:122-127 | the bound is checked first; otherwise the result is `write_msg` of the message whose length is its payload's |
| Comms.ReadMsg | embedded_serial_bridge/comm.py:151-158 | a message comes back exactly when the read produced a payload of at least 3 octets, and it is that payload parsed |
| Comms.PollKeeps | embedded_serial_bridge/comm.py:134-149 | polling keeps the configuration, buffer bound and written octets; a timeout consumes every chunk and leaves the queue alone; a payload consumes at least one chunk |
| Comms.UndecodedAdvance | embedded_serial_bridge/comm.py:140-149 | what remains to decode is what the next chunk yields, then what the rest yields |
| Comms.PollPending | embedded_serial_bridge/comm.py:134-149 | with an empty queue, a poll returns the first payload still to be decoded and times out exactly when none remains |
| Comms.ReadPending | embedded_serial_bridge/comm.py:129-149 | a read hands out the next pending payload (queue first, then decode order) and keeps the configuration; a queued payload is returned without touching the port |
| Comms.DrainIsPending | embedded_serial_bridge/comm.py:129-149 | successive reads deliver exactly the queued payloads and then every payload the remaining chunks decode to, in order, whatever the chunk boundaries |
| Comms.Loopback | embedded_serial_bridge/comm.py:110-149 | what one link writes, an idle link with an empty queue reads back as the same payload, provided the body fits its buffer and, in checksum mode, the payload is not empty |
| Comms.DefaultBoundRoundTrip | embedded_serial_bridge/comm.py:90-95 | a link opened with the default bound of 128 octets only sends messages that fit the receiver's 4096-octet buffer, so `read_msg` on the far side returns each with its command and payload |
| Comms.SendReadMessage | embedded_serial_bridge/comm.py:122-158 | a message sent with `send_payload` and default keywords, whose frame body fits the receiver's 4096-octet buffer, is read back by `read_msg` with the same command and payload |
| Text.Lower | embedded_serial_bridge/auto_discovery.py:52 | lower-casing keeps the length and maps each character on its own |
| Text.LowerIdempotent | embedded_serial_bridge/auto_discovery.py:52 | lower-casing twice is lower-casing once, and leaves no upper-case ASCII letter |
| Text.ContainsPart | embedded_serial_bridge/auto_discovery.py:58-60 | a name containing a pattern contains every part of it |
| Text.Decimal | embedded_serial_bridge/auto_discovery.py:73 | a number's decimal spelling is a non-empty run of digits |
| Text.DecimalRoundTrip | embedded_serial_bridge/auto_discovery.py:73 | `int` of a number's decimal spelling is the number |
| Text.LexLeTotal | embedded_serial_bridge/auto_discovery.py:60 | any two strings are ordered one way or the other |
| Text.LexLeAntisymmetric | embedded_serial_bridge/auto_discovery.py:60 | strings ordered both ways are equal |
| Text.LexLeTransitive | embedded_serial_bridge/auto_discovery.py:60 | string order is transitive |
| Ranking.RankLeTransitive | embedded_serial_bridge/auto_discovery.py:60 | the pair key order is transitive |
| Ranking.Filter | embedded_serial_bridge/auto_discovery.py:58 | a comprehension keeps exactly the elements that match, never more of them |
| Ranking.Others | embedded_serial_bridge/auto_discovery.py:80 | the remaining ports are exactly those enumerated and not likely |
| Ranking.FilterAppend | embedded_serial_bridge/auto_discovery.py:58 | a comprehension keeps input order and multiplicity: filtering a concatenation is filtering each part, and one element is kept exactly when it matches |
| Ranking.OthersAppend | embedded_serial_bridge/auto_discovery.py:80 | the remaining ports keep enumeration order and multiplicity: the others of a concatenation are the others of each part, and one port is kept exactly when it is not likely |
| Ranking.SortBy | embedded_serial_bridge/auto_discovery.py:60 | sorting permutes its input |
| Ranking.SortSorted | embedded_serial_bridge/auto_discovery.py:60 | sorting orders by key |
| Ranking.SortStable | embedded_serial_bridge/auto_discovery.py:73 | sorting is stable: elements of equal key keep their input order |
| Ranking.FilterOthers | embedded_serial_bridge/auto_discovery.py:79-81 | the matching ports plus the others are the enumeration, each as often |
| Ranking.RankedPermutation | embedded_serial_bridge/auto_discovery.py:79-81 | likely ports then others are a permutation of the enumeration, duplicates included |
| Ranking.OthersEmpty | embedded_serial_bridge/auto_discovery.py:75-81 | when every port is likely nothing is appended |
| Ranking.FilterKeepsNameOrder | embedded_serial_bridge/discovery.py:93 | filtering a name-ordered list keeps it in name order |
| Ranking.SortKeepsTies | embedded_serial_bridge/discovery.py:95 | sorting a name-ordered list leaves ports of equal key in name order |
| PortNames.ComNumberOfDecimal | embedded_serial_bridge/auto_discovery.py:73 | `COM<n>` ranks with `n` |
| PortNames.ComNumberNonNumeric | embedded_serial_bridge/auto_discovery.py:73 | a COM name without a digit suffix ranks with 999 |
| PortNames.ComNumericOrder | embedded_serial_bridge/auto_discovery.py:73 | COM2 ranks before COM10, though "COM10" sorts before "COM2" as a string |
| PortNames.LinuxAdapterFirstGroup | embedded_serial_bridge/auto_discovery.py:57-60 | every Linux adapter name has first key component 0 |
| PortNames.DarwinAdapterFirstGroup | embedded_serial_bridge/auto_discovery.py:64-67 | every macOS adapter name has first key component 0 |
| Probing.LiveVerdictsAgree | embedded_serial_bridge/auto_discovery.py:111-126 | the two probes' verdicts agree on every attempt, and a live one needs a written ping and a Ping reply |
| Probing.EchoIsLive | embedded_serial_bridge/discovery.py:124-149 | a device that echoes the ping over the link is judged live exactly when the echoed id is the one just sent |
| Probing.FirstLive | embedded_serial_bridge/auto_discovery.py:140-150 | the search probes a prefix of the candidates, stops at the first live one, and finds nothing exactly when none is live |
| Probing.FoundIsCandidate | embedded_serial_bridge/auto_discovery.py:140-145 | the port found is a candidate |
| Probing.FirstLiveOfPermutation | embedded_serial_bridge/auto_discovery.py:140-150 | searching any ordering of the ports finds one of them, and nothing only when none is live |
| Probing.SingleResponder | embedded_serial_bridge/discovery.py:184-190 | with a single live candidate, the search finds it |
| Probing.AttemptAsWritten | embedded_serial_bridge/discovery.py:137-155 | the probe as written raises before reading, so it is never live |
| Probing.AsWrittenFindsNothing | embedded_serial_bridge/auto_discovery.py:93-126 | with the probes as written, every search probes all candidates and finds nothing |
| AutoDiscovery.RankedPortsPermutation | embedded_serial_bridge/auto_discovery.py:50-81 | the ranked candidates are a permutation of the enumeration, and the likely ports those matching the system's patterns |
| AutoDiscovery.OtherSystemKeepsOrder | embedded_serial_bridge/auto_discovery.py:75-81 | on an unknown system the candidates are the enumeration unchanged |
| AutoDiscovery.LikelyPortsFirst | embedded_serial_bridge/auto_discovery.py:79-81 | the likely ports come first |
| AutoDiscovery.FirstGroupByName | embedded_serial_bridge/auto_discovery.py:60 | sorted by a key whose first component is 0 means sorted by name |
| AutoDiscovery.LinuxLikelyByName | embedded_serial_bridge/auto_discovery.py:55-60 | on Linux the likely ports are the ttyUSB and ttyACM names, ascending |
| AutoDiscovery.DarwinLikelyByName | embedded_serial_bridge/auto_discovery.py:62-67 | on macOS the likely ports are the usbserial and usbmodem names, ascending |
| AutoDiscovery.WindowsLikelyByNumber | embedded_serial_bridge/auto_discovery.py:69-73 | on Windows the likely ports are the COM names, ascending by number, equal numbers in enumeration order |
| AutoDiscovery.RunFindsFirstLive | embedded_serial_bridge/auto_discovery.py:128-150 | `run` returns the first ranked port whose probe is live, having probed only dead ports before it, and nothing exactly when no enumerated port answers |
| Discovery.AvailablePortsSorted | embedded_serial_bridge/discovery.py:64-69 | the available ports are the enumeration, each as often, in name order |
| Discovery.PortsToTestPermutation | embedded_serial_bridge/discovery.py:176-179 | the ports tested are a permutation of the enumeration |
| Discovery.OtherSystemByName | embedded_serial_bridge/discovery.py:97-99 | on an unknown system the ports are tested in name order |
| Discovery.LinuxUsbFirst | embedded_serial_bridge/discovery.py:77-82 | on Linux the likely ports are the ttyUSB, ttyACM and ttyS names; USB and ACM names come first, names ascend within each group |
| Discovery.DarwinUsbFirst | embedded_serial_bridge/discovery.py:84-89 | on macOS the likely ports match the four adapter patterns; usbserial and usbmodem names come first, names ascend within each group |
| Discovery.WchAdapterFirstGroup | embedded_serial_bridge/discovery.py:86-89 | a WCH adapter name is likely and in the first group |
| Discovery.WindowsByNumber | embedded_serial_bridge/discovery.py:91-95 | on Windows the likely ports are the COM names, ascending by number, equal numbers in name order |
| Discovery.DiscoverFindsFirstLive | embedded_serial_bridge/discovery.py:158-195 | `discover` returns the first port in test order whose probe is live, having probed only dead ports before it, and nothing exactly when no enumerated port answers |
| Discovery.DiscoveriesAgree | embedded_serial_bridge/discovery.py:176-195 | given the same probe attempts, both discovery procedures find nothing in the same cases, and return the same port when a single one answers |

## Left out

- Serial I/O: opening, closing and the context-manager methods, baud rate, `in_waiting`, and the wall-clock deadline of `Comm.read`. The port is a list of chunks still to arrive; running out of chunks stands for the read timing out. A read without a timeout, which in the source loops until a chunk completes a payload and never returns None, is not distinguished from a timed-out one: the model returns nothing once the chunks run out.
- Partial writes: the port is taken to accept the whole frame, so the count returned is the frame length.
- The probe bodies are not modelled as observed behaviour. As written they raise before reading a reply (see Findings), so each probe is an observed `Attempt`: an exception, or a write count and a reply. Only the verdict drawn from an attempt is modelled.
- The random probe id (`uuid`), `platform.system()` and the port enumeration are parameters. `discover` in `discovery.py` enumerates the ports three times, two of which decide the test order; the model assumes those enumerations agree.
- Probe verdicts are taken as a function of the port name, so a port enumerated twice answers both probes alike.
- `str.lower` and `str.isdigit` are modelled for ASCII only. Python's `isdigit` also accepts other Unicode digits, some of which `int` rejects; that path is not modelled.
- TOML configuration loading and the click CLI. The CLI's `max_payload` range 1..65535 is not required of `Comm`; the model accepts any bound, as `Comm` itself does.
- The applications under `apps/`, `__init__.py` and the loopback integration test.
- `tests/test_hdlc.py` uses an `HDLC` class the framing module does not define, and expects a payload from an empty frame in checksum mode; the code drops it, and the model follows the code (`Hdlc.Finalize`).
- A `Raw` command. `apps/crypto.py:158` and `apps/weather_relay.py:188` send `Command.Raw`, but the `Command` enumeration in `comm.py:22-25` defines only Ack, Nak and Ping. The model has those three commands.
- A distinct checksum-failure outcome of a read. `_finalize_frame` drops a frame with a bad FCS without a trace (`hdlc.py:91-93`), and `Comm.read` goes on waiting for the next payload; the model does the same and reports nothing either.
- A strict deserialiser. `from_bytes` (`comm.py:66-74`) is lenient: short input truncates the payload and missing header octets read as 0. Only input without an id octet raises. The model parses the same way.
- A `None` or absent payload on the sending side (`payload or b""`): payloads are always octet strings here.
- Messages.FromBytes: its contract gives each header field as `Messages.U16At` of the input; that header octets beyond the end of a short input read as 0 is stated by `U16At`'s definition, not by a separate clause.
- Comms.Loopback: requires the frame body (payload and FCS) to fit the receiver's 4096-octet buffer (`comm.py:95`, `hdlc.py:50`). `Comm` accepts any `max_payload` (`comm.py:90`), `discovery.py:59` defaults it to 4096 and the CLI allows up to 65535, so a sender may write a longer body. The receiver then does not drop the frame: it clears its buffer at the first octet that does not fit and delivers a payload made of the body's tail, which without checksum mode is garbage (`HdlcProperties.OverlongBodyKeepsTail`, `HdlcProperties.OverlongExample`). What the link delivers for such a body is not stated at the `Comm` level.
- Comms.SendReadMessage: requires the message (9-octet header and payload) plus its FCS to fit the same 4096-octet buffer, that is a payload of at most 4085 octets; a longer one that `max_payload` lets through reaches the overflow path above.

## Findings

| source | as written | input that shows it | evidently intended | confidence | as-written member | corrected member |
|---|---|---|---|---|---|---|
| embedded_serial_bridge/discovery.py:137-142 | the ping `Message` itself is passed to `comm.write`, which frames its argument as octets, and `comm.read` is called with `message=True`, which it does not accept; `auto_discovery.py:94-95` also passes keywords `Comm` forwards to the serial port constructor, which rejects them. Every probe raises and the handler returns False | any port, including one with a device that echoes the ping | send `to_bytes` of the ping, read a message, compare command and id | high (not executed) | Probing.AsWrittenFindsNothing | Probing.EchoIsLive |
