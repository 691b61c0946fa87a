# Tracker packet codec and keyboard demo logic, in Dafny

This project models two pieces of the MyUSB/LUFA tree.

**The tracker packet codec** (`trunk/Projects/Tracker/packet.h`):
- the nine packet kinds and their tag bytes, and the `packet_t` payload union;
- the two size bounds `UNPACKED_MAX_SIZE` (17) and `PACKET_MAX_SIZE` (34);
- `packet_pack`, which serialises a packet in network order and wraps it in a SLIP frame (RFC 1055: END `0xC0`, ESC `0xDB`, ESC_END `0xDC`, ESC_ESC `0xDD`);
- `packet_unpack`, the byte-at-a-time decoder that reports when a frame completes.

**The keyboard demo logic** (`Demos/KeyboardViaInt/KeyboardViaInt.c`), the pure decisions only:
- which key code a joystick position sends, and that the report is cleared after each send;
- which board LEDs the host's lock-key report lights;
- how the GET_REPORT control request is served: the request filter, the length clamp, the packetisation, the host's early abort, and the zero-length packet.

Modules:
- `Wrappers`: `Option`.
- `Bytes`: octets, 16/32-bit values and their big-endian layout.
- `Packet`: the data model, the unframed layout and its parser.
- `Slip`: escaping and `packet_pack`.
- `Unpack`: the decoder as a state machine `Step`, and its iteration `Run`.
- `KeyboardIsr`: the endpoint interrupt's key and LED logic.
- `GetReport`: the control request.

Modelling choices:
- A `float` is carried as its raw 32-bit pattern (`FloatBits`) and serialised like a `uint32_t`.
- The decoder's state between calls is an explicit `Session` value.
- One call of `packet_unpack` returns the next session and the packet completed by that byte, if any.
- The board's `JOY_*` and `LEDS_LED*` masks are parameters. Lemmas that need them to be distinct non-zero masks say so in their `requires` (`WellFormed`).
- The control endpoint size is a parameter.
- The host's abort is a parameter `outArrives`: the number of IN packets already sent when the OUT packet is first seen, or `None` if it never arrives during the data stage.

## Model

| member | source | states |
|---|---|---|
| Packet.Tag | trunk/Projects/Tracker/packet.h:7-18 | every packet kind's tag byte is below `PACKET_MAX` |
| Packet.TypeOfTag | trunk/Projects/Tracker/packet.h:7-18 | a byte names a packet kind exactly when it is below `PACKET_MAX`, and then it names the kind whose tag it is |
| Packet.Width | trunk/Projects/Tracker/packet.h:20-31 | the payload width of each kind is the `sizeof` of its union member, and type byte plus payload never exceeds `UNPACKED_MAX_SIZE` |
| Packet.PayloadBytes | trunk/Projects/Tracker/packet.h:20-28 | the serialised payload of a packet is exactly its kind's width |
| Packet.Unframed | trunk/Projects/Tracker/packet.h:30-38 | the unframed packet is the tag byte then the payload, at most `UNPACKED_MAX_SIZE` bytes, with a valid tag first |
| Packet.DecodePayload | trunk/Projects/Tracker/packet.h:40-41 | decoding a payload of the right width gives a packet of that kind that serialises back to the same bytes |
| Packet.ParseUnframed | trunk/Projects/Tracker/packet.h:40-41 | a received frame body is accepted exactly when its tag is valid and its length is 1 + that kind's width, and an accepted body re-serialises to itself |
| Packet.ParseUnframedRoundTrip | trunk/Projects/Tracker/packet.h:35-41 | parsing a serialised packet gives the packet back |
| Packet.PayloadInjective | trunk/Projects/Tracker/packet.h:20-28 | a packet is determined by its kind and payload bytes |
| Packet.UnframedInjective | trunk/Projects/Tracker/packet.h:35-38 | distinct packets never serialise to the same bytes |
| Packet.SensorBytesInjective | trunk/Projects/Tracker/packet.h:24 | three `int16_t` readings are determined by their six network-order bytes |
| Packet.FieldsInNetworkOrder | trunk/Projects/Tracker/packet.h:20-38 | each union element sits at its own offset after the type byte, most significant byte first, and the elements tile the payload exactly |
| Bytes.Signed16 | trunk/Projects/Tracker/packet.h:24 | the signed reading of a 16-bit pattern has that two's-complement pattern |
| Bytes.FromBigEndian16 | trunk/Projects/Tracker/packet.h:35 | reading two network-order bytes gives their big-endian value and is the inverse of writing it |
| Bytes.FromBigEndian32 | trunk/Projects/Tracker/packet.h:35 | reading four network-order bytes gives their big-endian value and is the inverse of writing it |
| Bytes.ToBigEndian32Injective | trunk/Projects/Tracker/packet.h:26 | distinct 32-bit words have distinct network-order bytes |
| Slip.EscapeByte | trunk/Projects/Tracker/packet.h:35-38 | END and ESC become two bytes without END, and every other byte is sent as itself |
| Slip.Escape | trunk/Projects/Tracker/packet.h:35-38 | an escaped body never contains END, grows by one byte per special byte, and is unchanged when it has none |
| Slip.UnescapeEscape | trunk/Projects/Tracker/packet.h:35-41 | an RFC 1055 receiver recovers every body from its escaped form |
| Slip.EscapeUnescape | trunk/Projects/Tracker/packet.h:35-41 | every well-formed wire body is the escaped form of what it decodes to |
| Slip.EscapedFits | trunk/Projects/Tracker/packet.h:32-38 | an escaped packet plus its terminator always fits in `PACKET_MAX_SIZE` |
| Slip.Pack | trunk/Projects/Tracker/packet.h:32-38 | a frame is at most `PACKET_MAX_SIZE` bytes, ends with its only END, and its body unescapes to the unframed packet |
| Slip.PacketMaxSizeIsTight | trunk/Projects/Tracker/packet.h:32-33 | a quaternion whose payload bytes are all END needs exactly `PACKET_MAX_SIZE` bytes |
| Slip.UnitQuaternionFrameLength | trunk/Projects/Tracker/packet.h:35-38 | the unit quaternion needs no escaping and packs to 18 bytes |
| Slip.PacketPack | trunk/Projects/Tracker/packet.h:35-38 | `packet_pack` writes exactly the frame `Slip.Pack` describes (so the decoder round trips apply to it), and returns the number of bytes written, at most `PACKET_MAX_SIZE` |
| Slip.EscapeLoop | trunk/Projects/Tracker/packet.h:35-38 | the byte-by-byte escaping loop produces the escaped body |
| Unpack.Accept | trunk/Projects/Tracker/packet.h:30-31 | a byte is stored while the frame holds fewer than `UNPACKED_MAX_SIZE` bytes; a byte past that is not stored, the bytes held are discarded and the decoder is idle |
| Unpack.Step | trunk/Projects/Tracker/packet.h:40-41 | a call completes a packet exactly on an unescaped END after a body that parses, the packet is that body, END always leaves the decoder idle, and the buffer never exceeds `UNPACKED_MAX_SIZE` |
| Unpack.Run | trunk/Projects/Tracker/packet.h:40-41 | feeding a stream keeps the decoder's buffer bounded and returns one result per byte |
| Unpack.RunAppend | trunk/Projects/Tracker/packet.h:40-41 | decoding two pieces of a stream is decoding the first, then the second from where it stopped |
| Unpack.FrameRoundTrip | trunk/Projects/Tracker/packet.h:35-41 | an escaped body of at most `UNPACKED_MAX_SIZE` bytes is silent until its END, which returns the body's parse and leaves the decoder idle |
| Unpack.PackRoundTrip | trunk/Projects/Tracker/packet.h:35-41 | feeding a packed packet to a fresh decoder returns nothing until the last byte, which returns the packet, and leaves the decoder idle |
| Unpack.Resync | trunk/Projects/Tracker/packet.h:35-41 | from any state, an END followed by a packed packet delivers exactly that packet on the last byte |
| Unpack.LeadingEndIsIgnored | trunk/Projects/Tracker/packet.h:40-41 | an END on a fresh decoder completes nothing and keeps it idle |
| Unpack.MalformedFrameIsDropped | trunk/Projects/Tracker/packet.h:40-41 | a frame whose body does not parse completes nothing and leaves the decoder idle |
| Unpack.StreamRoundTrip | trunk/Projects/Tracker/packet.h:35-41 | back-to-back frames decode to exactly the packets sent, in order, and leave the decoder idle |
| Unpack.PackCompletesOne | trunk/Projects/Tracker/packet.h:35-41 | one frame completes exactly its own packet |
| Unpack.Overflow | trunk/Projects/Tracker/packet.h:30-31 | `UNPACKED_MAX_SIZE + 1` ordinary bytes without END complete nothing and leave the decoder idle |
| Unpack.ErrorRestartsFrame | trunk/Projects/Tracker/packet.h:30-41 | after a bad escape or an overflowing byte, nothing is reported and the rest of the input is decoded exactly as a fresh decoder would decode it, so the tail of the broken frame is read as a new frame |
| Unpack.ErrorsAreTheOnlyResets | trunk/Projects/Tracker/packet.h:30-41 | any byte other than END or ESC that is not a decode error is stored, so the decoder only returns to idle on END or on an error |
| Unpack.BadEscapeTailDelivers | trunk/Projects/Tracker/packet.h:40-41 | on `07 DB 00 05 C0` the bad escape discards `07`, and `05 C0` is delivered as a BLINK packet |
| Unpack.OverflowTailDelivers | trunk/Projects/Tracker/packet.h:30-31 | seventeen ordinary bytes, then `05 05 C0`: the eighteenth byte resets the decoder and `05 C0` is delivered as a BLINK packet |
| KeyboardIsr.SelectKeyCode | Demos/KeyboardViaInt/KeyboardViaInt.c:206-219 | press gives `e`; else left `c`; else right `d`; else up `a`; else down `b`; with nothing held the key code is unchanged |
| KeyboardIsr.SelectKeyCodeIsPriorityScan | Demos/KeyboardViaInt/KeyboardViaInt.c:208-219 | the three overriding if-chains equal a first-match scan in the order press, left, right, up, down |
| KeyboardIsr.EachDirectionSendsItsKey | Demos/KeyboardViaInt/KeyboardViaInt.c:208-219 | with distinct masks, holding one direction alone sends that direction's key: up `a`, down `b`, left `c`, right `d`, press `e` |
| KeyboardIsr.KeyboardInterrupt | Demos/KeyboardViaInt/KeyboardViaInt.c:206-233 | the report sent keeps the modifier and carries the selected key, and the report left behind is cleared |
| KeyboardIsr.SentReports | Demos/KeyboardViaInt/KeyboardViaInt.c:226-233 | one report is sent per interrupt |
| KeyboardIsr.NoCarryOver | Demos/KeyboardViaInt/KeyboardViaInt.c:55 | from the initial report, every report sent has modifier 0 and the key chosen by that interrupt's reading alone, so a released joystick sends key code 0 |
| KeyboardIsr.LedMask | Demos/KeyboardViaInt/KeyboardViaInt.c:250-263 | LED2 is always lit, and each lock bit that is set lights its LED |
| KeyboardIsr.LedMaskTracksNumLock | Demos/KeyboardViaInt/KeyboardViaInt.c:253-254 | with distinct masks, LED1 is lit exactly when Num Lock is on |
| KeyboardIsr.LedMaskTracksCapsLock | Demos/KeyboardViaInt/KeyboardViaInt.c:256-257 | with distinct masks, LED3 is lit exactly when Caps Lock is on |
| KeyboardIsr.LedMaskTracksScrollLock | Demos/KeyboardViaInt/KeyboardViaInt.c:259-260 | with distinct masks, LED4 is lit exactly when Scroll Lock is on |
| KeyboardIsr.LedMaskOnlyBoardLeds | Demos/KeyboardViaInt/KeyboardViaInt.c:251-260 | no bit outside LED1 to LED4 is ever set |
| KeyboardIsr.LedMaskIgnoresOtherBits | Demos/KeyboardViaInt/KeyboardViaInt.c:253-260 | only the three lock bits of the host's report matter |
| GetReport.ReadWordLE | Demos/KeyboardViaInt/KeyboardViaInt.c:139 | the low byte of `wLength` comes first and the high byte second |
| GetReport.ReadWordLERoundTrip | Demos/KeyboardViaInt/KeyboardViaInt.c:139 | every 16-bit length is read back as sent |
| GetReport.ReportBytes | Demos/KeyboardViaInt/KeyboardViaInt.c:55 | the report is two bytes, modifier then key code, in the order of its initializer (an assumption, see below) |
| GetReport.ClampLength | Demos/KeyboardViaInt/KeyboardViaInt.c:150-151 | the length sent is the smaller of the requested length and the report size |
| GetReport.Chunks | Demos/KeyboardViaInt/KeyboardViaInt.c:158-172 | every packet holds 1 to endpoint-size bytes, and all but the last are full |
| GetReport.FlattenChunks | Demos/KeyboardViaInt/KeyboardViaInt.c:158-172 | the packets carry exactly the data, in order |
| GetReport.ChunksEndFull | Demos/KeyboardViaInt/KeyboardViaInt.c:153-155 | the length is a multiple of the endpoint size exactly when there is no packet or the last one is full |
| GetReport.ServedDeliversReport | Demos/KeyboardViaInt/KeyboardViaInt.c:149-187 | without an abort the host gets exactly the clamped report, in packets of 1 to endpoint-size bytes, ended either by a short packet or by the zero-length packet, never both |
| GetReport.ServedStopsOnOut | Demos/KeyboardViaInt/KeyboardViaInt.c:157-180 | no IN packet follows the host's OUT packet, the transfer is abandoned exactly when the OUT packet was seen, an abandoned transfer sends no zero-length packet, and what was sent is a prefix of the clamped report |
| GetReport.ServeGetReport | Demos/KeyboardViaInt/KeyboardViaInt.c:139-187 | the source's nested loops send exactly the reference transfer `Served` |
| GetReport.FillPacket | Demos/KeyboardViaInt/KeyboardViaInt.c:164-168 | the inner loop copies the next endpoint-size bytes, or all that remain |
| GetReport.ServedAsWritten | Demos/KeyboardViaInt/KeyboardViaInt.c:142-166 | as written, an unaborted transfer sends the clamped program-memory bytes at the report's address, whatever the report holds |
| GetReport.AsWrittenSendsPhantomKey | Demos/KeyboardViaInt/KeyboardViaInt.c:142-166 | after any interrupt the report is cleared, so reading it sends `00 00`; as written, with `0C 94` in program memory the host is sent `0C 94`, a key that was never pressed |
| GetReport.UnhandledControlPacket | Demos/KeyboardViaInt/KeyboardViaInt.c:127-130 | only GET_REPORT with request type `0xA1` (device-to-host, class, interface) is answered, with the reference transfer of the current report (corrected; see ## Findings); every other request is left alone |

## Left out

- packet.c is not part of this model. Two behaviours are therefore the model's choices:
  - a frame ends with a single END and has no leading END. This follows from `PACKET_MAX_SIZE` (packet.h:33): 2·16 escaped payload bytes, the type byte and one END fill it exactly;
  - on a bad escape or an overflowing byte the decoder discards the bytes held and returns to idle. It does not skip to the next END, so the rest of the broken frame is decoded as a new frame and can deliver a packet (`Unpack.BadEscapeTailDelivers`, `Unpack.OverflowTailDelivers`).
- The sample receiver of RFC 1055 behaves differently on errors. It keeps the byte after a bad escape and truncates an over-long frame.
- Unpack.Step: returns `None` for every non-completing byte. It does not distinguish incomplete input from a framing, size or overflow error. The error codes are not modelled.
- A `packet_t` whose type byte is 9 or more cannot be represented. `Packet` has one constructor per valid tag, so `packet_pack` on such a value is not modelled.
- Floats are opaque 32-bit patterns. No floating-point semantics are modelled.
- Which union member each tag uses is an assumption (`Packet.MemberOf`). The header declares the tags and the union but does not pair them.
- The board's `JOY_*`, `LEDS_LED*` and `USB_ControlEndpointSize` values are parameters.
- KeyboardIsr.EachDirectionSendsItsKey: requires the joystick masks to be non-zero and pairwise disjoint. This is an assumption about the board.
- KeyboardIsr.LedMaskTracksNumLock, KeyboardIsr.LedMaskTracksCapsLock and KeyboardIsr.LedMaskTracksScrollLock: require the same of the LED masks.
- GetReport.ServeGetReport: requires a non-zero endpoint size. The source divides by it.
- GetReport.UnhandledControlPacket: takes the six setup bytes after `bRequest`. `wValue` and `wIndex` are skipped, as in the source.
- All endpoint I/O is left out: reading the setup packet, writing bytes, handshaking banks, `Endpoint_Write_Stream_LE` and `LEDs_SetAllLEDs`.
- The busy-wait loops for IN-ready and for the status-stage OUT packet (lines 161, 185 and 190) are left out. They are assumed to terminate.
- `main`, the scheduler, the `BUTTLOADTAG`s, and the connect, disconnect and configuration event handlers are left out. They only configure hardware and set LEDs.
- The interrupt and the control handler share `KeyboardReportData`. Their interleaving is not modelled.
- KeyboardViaInt.h is not part of this model. The value of `REQ_GetReport` (0x01) is the GET_REPORT request code of section 7.2.1 of the HID 1.11 specification.
- GetReport.ReportBytes: assumes the report structure is two one-byte members, `Modifier` then `KeyCode`, with no padding, so `sizeof` is 2 (`GetReport.ReportSize`). Its declaration is in KeyboardViaInt.h; only the initializer at line 55 is visible.

## Findings

| source | as written | input that shows it | evidently intended | confidence | as-written member | corrected member |
|---|---|---|---|---|---|---|
| Demos/KeyboardViaInt/KeyboardViaInt.c:142-166 | the report bytes are fetched with `pgm_read_byte`, which reads program memory, through a pointer to the report in RAM | the report as every interrupt leaves it, `00 00`, while program memory at the report's address holds `0x0C 0x94`; GET_REPORT with `wLength` 8 and an 8-byte endpoint: the host is sent `0C 94` | send the report's own bytes from RAM | medium; not executed | GetReport.AsWrittenSendsPhantomKey | GetReport.ServeGetReport |
