/** The HID class GET_REPORT request of the keyboard demo
    (Demos/KeyboardViaInt/KeyboardViaInt.c, `USB_UnhandledControlPacket`):
    the request filter, the clamp of the host's requested length to the
    report size, the split of the report into control-endpoint packets, the
    host's early abort, and the zero-length packet that ends a transfer whose
    length is a multiple of the endpoint size.

    The endpoint hardware is not modelled. The control endpoint size is a
    parameter, and the moment the host's OUT packet is first seen is given as
    the number of IN packets already sent (`outArrives`); `None` means the
    host does not abort before the data stage ends. */
module GetReport {

  import opened Wrappers
  import opened Bytes
  import opened KeyboardIsr

  /** `bRequest` of GET_REPORT (section 7.2.1 of the HID 1.11 specification). */
  const ReqGetReport: bv8 := 0x01

  /** The `bmRequestType` fields of section 9.3 of the USB 2.0 specification. */
  const ReqDirDeviceToHost: bv8 := 0x80
  const ReqTypeClass: bv8 := 0x20
  const ReqRecInterface: bv8 := 0x01

  /** The only request type the demo answers GET_REPORT for. */
  const ClassInterfaceIn: bv8 := ReqDirDeviceToHost | ReqTypeClass | ReqRecInterface

  /** `Endpoint_Read_Word_LE`: a 16-bit value, least significant byte first. */
  function ReadWordLE(lo: Byte, hi: Byte): (u: UInt16)
    ensures u % 0x100 == lo && u / 0x100 == hi
  {
    hi * 0x100 + lo
  }

  /** `wLength` of a setup packet: the last two of the six bytes that follow
      `bmRequestType` and `bRequest`; `wValue` (report type and ID) and
      `wIndex` (interface) are skipped. */
  function RequestedLength(setup: seq<Byte>): UInt16
    requires |setup| == 6
  {
    ReadWordLE(setup[4], setup[5])
  }

  /** Every 16-bit length survives being sent little-endian and read back. */
  lemma ReadWordLERoundTrip(u: UInt16)
    ensures ReadWordLE(u % 0x100, u / 0x100) == u
  {
  }

  /** ASSUMPTION: `sizeof(USB_KeyboardReport_Data_t)`. The structure is
      declared in KeyboardViaInt.h, which is not part of this model; the
      initializer names two members, `Modifier` and `KeyCode`, taken to be one
      byte each with no padding. */
  const ReportSize := 2

  /** ASSUMPTION: the report's bytes in memory order, `Modifier` first and
      `KeyCode` second, in the order of the initializer. */
  function ReportBytes(r: KeyboardReport): (b: seq<bv8>)
    ensures |b| == ReportSize
    ensures b[0] == r.modifier && b[1] == r.keyCode
  {
    [r.modifier, r.keyCode]
  }

  /** The number of bytes sent: the host's request, but never more than the
      report holds. */
  function ClampLength(requested: UInt16, reportSize: nat): (n: nat)
    ensures n <= requested && n <= reportSize
    ensures n == requested || n == reportSize
  {
    if requested > reportSize then reportSize else requested
  }

  /** The packets a control endpoint of `epSize` bytes carries `data` in:
      every packet full except possibly the last, none empty. */
  function Chunks(data: seq<bv8>, epSize: nat): (c: seq<seq<bv8>>)
    requires epSize > 0
    ensures forall i | 0 <= i < |c| :: 0 < |c[i]| <= epSize
    ensures forall i | 0 <= i < |c| - 1 :: |c[i]| == epSize
    decreases |data|
  {
    if |data| == 0 then []
    else if |data| <= epSize then [data]
    else [data[..epSize]] + Chunks(data[epSize..], epSize)
  }

  /** The bytes a sequence of packets carries, in order. */
  function Flatten(ps: seq<seq<bv8>>): seq<bv8>
  {
    if |ps| == 0 then [] else ps[0] + Flatten(ps[1..])
  }

  /** Chunking loses and adds nothing. */
  lemma {:induction false} FlattenChunks(data: seq<bv8>, epSize: nat)
    requires epSize > 0
    ensures Flatten(Chunks(data, epSize)) == data
    decreases |data|
  {
    if |data| > epSize {
      var c := Chunks(data, epSize);
      assert c[1..] == Chunks(data[epSize..], epSize);
      FlattenChunks(data[epSize..], epSize);
      assert data == data[..epSize] + data[epSize..];
    } else if |data| > 0 {
      assert Chunks(data, epSize)[1..] == [];
    }
  }

  /** The last packet is full, or there is none, exactly when the length is a
      multiple of the endpoint size. So the zero-length packet the demo sends
      for such lengths follows exactly the transfers that do not already end
      with a short packet, and no transfer ends with both. The demo sends it
      even when the length equals `wLength`, where section 5.5.3 of the USB
      2.0 specification does not require it. */
  lemma {:induction false} ChunksEndFull(data: seq<bv8>, epSize: nat)
    requires epSize > 0
    ensures var c := Chunks(data, epSize);
      |data| % epSize == 0 <==> |c| == 0 || |c[|c| - 1]| == epSize
    decreases |data|
  {
    if |data| > epSize {
      var rest := data[epSize..];
      ChunksEndFull(rest, epSize);
      var c := Chunks(data, epSize);
      assert c == [data[..epSize]] + Chunks(rest, epSize);
      assert |Chunks(rest, epSize)| > 0;
      ModAddDivisor(|rest|, epSize);
    } else if |data| > 0 {
      ModOfAtMostDivisor(|data|, epSize);
    }
  }

  lemma ModAddDivisor(a: nat, d: nat)
    requires d > 0
    ensures (a + d) % d == a % d
  {
    var q, r := a / d, a % d;
    var q2, r2 := (a + d) / d, (a + d) % d;
    assert d * (q2 - q - 1) == r - r2 by {
      assert a == d * q + r;
      assert a + d == d * q2 + r2;
      assert d * (q2 - q - 1) == d * q2 - d * q - d;
    }
    if q2 - q - 1 > 0 {
      MulAtLeast(d, q2 - q - 1);
    } else if q2 - q - 1 < 0 {
      MulAtLeast(d, q + 1 - q2);
    }
  }

  lemma {:induction false} MulAtLeast(d: nat, k: nat)
    requires k >= 1
    ensures d * k >= d
  {
    if k > 1 {
      MulAtLeast(d, k - 1);
      assert d * k == d * (k - 1) + d;
    }
  }

  lemma ModOfAtMostDivisor(a: nat, d: nat)
    requires 0 < a <= d
    ensures a % d == 0 <==> a == d
  {
    if a < d {
      assert a / d == 0;
    }
  }

  /** Whether the host's OUT packet has been seen once `k` IN packets have
      been sent. Once seen it stays seen. */
  predicate OutSeen(outArrives: Option<nat>, k: nat)
  {
    outArrives.Some? && outArrives.value <= k
  }

  /** What the device does in the data stage of one GET_REPORT. */
  datatype Transfer = Transfer(packets: seq<seq<bv8>>, zlp: bool, aborted: bool)

  /** The reference behaviour: the clamped report is cut into packets, the
      packets before the host's OUT packet are sent, and the zero-length
      packet follows unless the host aborted. */
  function Served(report: seq<bv8>, requested: UInt16, epSize: nat, outArrives: Option<nat>): Transfer
    requires epSize > 0
  {
    var n := ClampLength(requested, |report|);
    var all := Chunks(report[..n], epSize);
    var count := if outArrives.Some? && outArrives.value < |all| then outArrives.value else |all|;
    var aborted := OutSeen(outArrives, count);
    Transfer(all[..count], !aborted && n % epSize == 0, aborted)
  }

  /** Without an abort the host receives exactly the clamped report, in
      packets that fit the endpoint, ended by a short packet or by the
      zero-length packet, never both. */
  lemma ServedDeliversReport(report: seq<bv8>, requested: UInt16, epSize: nat, outArrives: Option<nat>)
    requires epSize > 0
    ensures var t := Served(report, requested, epSize, outArrives);
      !t.aborted ==>
        && Flatten(t.packets) == report[..ClampLength(requested, |report|)]
        && (forall i | 0 <= i < |t.packets| :: 0 < |t.packets[i]| <= epSize)
        && (t.zlp <==> |t.packets| == 0 || |t.packets[|t.packets| - 1]| == epSize)
  {
    var n := ClampLength(requested, |report|);
    var all := Chunks(report[..n], epSize);
    FlattenChunks(report[..n], epSize);
    ChunksEndFull(report[..n], epSize);
    assert all[..|all|] == all;
  }

  /** The host's OUT packet stops the transfer: no IN packet is sent once it
      has been seen, the transfer is abandoned exactly when it was seen by the
      end of the data stage, and an abandoned transfer sends no zero-length
      packet. Whatever was sent is a prefix of the clamped report. */
  lemma ServedStopsOnOut(report: seq<bv8>, requested: UInt16, epSize: nat, outArrives: Option<nat>)
    requires epSize > 0
    ensures var t := Served(report, requested, epSize, outArrives);
      && (forall k | 0 <= k < |t.packets| :: !OutSeen(outArrives, k))
      && (t.aborted <==> OutSeen(outArrives, |t.packets|))
      && (t.aborted ==> !t.zlp)
      && Flatten(t.packets) <= report[..ClampLength(requested, |report|)]
  {
    var n := ClampLength(requested, |report|);
    var all := Chunks(report[..n], epSize);
    var t := Served(report, requested, epSize, outArrives);
    FlattenChunks(report[..n], epSize);
    FlattenPrefix(t.packets, all[|t.packets|..]);
    assert t.packets + all[|t.packets|..] == all;
  }

  lemma {:induction false} FlattenPrefix(a: seq<seq<bv8>>, b: seq<seq<bv8>>)
    ensures Flatten(a + b) == Flatten(a) + Flatten(b)
  {
    if |a| == 0 {
      assert a + b == b;
    } else {
      assert (a + b)[1..] == a[1..] + b;
      FlattenPrefix(a[1..], b);
    }
  }

  /** The data stage as the source's two nested loops run it: an outer loop
      that sends one IN packet per round while bytes remain and no OUT packet
      has been seen, and an inner loop that fills the packet a byte at a time
      until it is full or the bytes run out. */
  method ServeGetReport(report: seq<bv8>, requested: UInt16, epSize: nat, outArrives: Option<nat>)
    returns (t: Transfer)
    requires epSize > 0
    ensures t == Served(report, requested, epSize, outArrives)
  {
    var bytesToSend := ClampLength(requested, |report|);
    var data := report[..bytesToSend];
    var sendZlp := bytesToSend % epSize == 0;
    var packets: seq<seq<bv8>> := [];
    var sent := 0;
    while sent < bytesToSend && !OutSeen(outArrives, |packets|)
      invariant 0 <= sent <= bytesToSend
      invariant packets + Chunks(data[sent..], epSize) == Chunks(data, epSize)
      invariant forall k | 0 <= k < |packets| :: !OutSeen(outArrives, k)
      decreases bytesToSend - sent
    {
      var packet;
      ChunksStep(data, sent, epSize);
      packet, sent := FillPacket(data, sent, epSize);
      packets := packets + [packet];
    }
    var all := Chunks(data, epSize);
    assert packets == all[..|packets|];
    var aborted := OutSeen(outArrives, |packets|);
    t := Transfer(packets, sendZlp && !aborted, aborted);
  }

  /** One round of the inner loop's effect on what is left to send: the next
      packet is the next `epSize` bytes, or all that remain. */
  lemma ChunksStep(data: seq<bv8>, start: nat, epSize: nat)
    requires epSize > 0 && start < |data|
    ensures var stop := if |data| - start <= epSize then |data| else start + epSize;
      Chunks(data[start..], epSize) == [data[start..stop]] + Chunks(data[stop..], epSize)
  {
    var rest := data[start..];
    if |rest| > epSize {
      assert rest[..epSize] == data[start..start + epSize];
      assert rest[epSize..] == data[start + epSize..];
    } else {
      assert data[start..|data|] == rest;
      assert Chunks(data[|data|..], epSize) == [];
    }
  }

  /** The inner loop: copy bytes into the endpoint until it holds `epSize`
      bytes or the data runs out. */
  method FillPacket(data: seq<bv8>, start: nat, epSize: nat) returns (packet: seq<bv8>, sent: nat)
    requires start < |data| && epSize > 0
    ensures sent == if |data| - start <= epSize then |data| else start + epSize
    ensures packet == data[start..sent]
  {
    packet := [];
    sent := start;
    while sent < |data| && |packet| < epSize
      invariant start <= sent <= |data|
      invariant packet == data[start..sent]
      invariant |packet| <= epSize
      decreases |data| - sent
    {
      packet := packet + [data[sent]];
      sent := sent + 1;
    }
  }

  /** The data stage as written: the bytes are fetched with `pgm_read_byte`,
      which reads program memory, from the RAM address of the report. So what
      is sent is whatever program memory holds at that address (`flash`); the
      report's own contents play no part, which is why no report is a
      parameter here. */
  function ServedAsWritten(flash: seq<bv8>, requested: UInt16, epSize: nat,
                           outArrives: Option<nat>): (t: Transfer)
    requires |flash| == ReportSize && epSize > 0
    ensures !t.aborted ==> Flatten(t.packets) == flash[..ClampLength(requested, ReportSize)]
  {
    ServedDeliversReport(flash, requested, epSize, outArrives);
    Served(flash, requested, epSize, outArrives)
  }

  /** The interrupt sets and clears the key code in one call, so outside it,
      where the control request is handled, the report is always the one the
      interrupt leaves behind. Reading that report sends `00 00`, no key. As
      written, the host instead reads the program memory at the report's
      address; with `0C 94` there it sees modifier 0x0C and a phantom key
      code 0x94, whatever the joystick does. */
  lemma AsWrittenSendsPhantomKey(report: KeyboardReport, status: bv8, j: JoystickMasks)
    ensures var left := KeyboardInterrupt(report, status, j).1;
      && ServedAsWritten([0x0C, 0x94], 8, 8, None).packets == [[0x0C, 0x94]]
      && Served(ReportBytes(left), 8, 8, None).packets == [[0, 0]]
  {
    var flash: seq<bv8> := [0x0C, 0x94];
    var sent := ReportBytes(EmptyReport);
    assert sent == [0, 0];
    assert ClampLength(8, ReportSize) == 2;
    assert flash[..2] == flash && sent[..2] == sent;
    assert Chunks(flash, 8) == [flash];
    assert Chunks(sent, 8) == [sent];
  }

  /** `USB_UnhandledControlPacket`: only GET_REPORT with a class, interface,
      device-to-host request type is answered; any other request is left to
      the library (`None`). The answer is the corrected one: the report's
      bytes read from RAM, not the program-memory bytes the source sends
      (`ServedAsWritten`). */
  method UnhandledControlPacket(request: bv8, requestType: bv8, setup: seq<Byte>,
                                report: KeyboardReport, epSize: nat, outArrives: Option<nat>)
    returns (r: Option<Transfer>)
    requires |setup| == 6
    requires epSize > 0
    ensures r.Some? <==> request == ReqGetReport && requestType == 0xA1
    ensures r.Some? ==> r.value == Served(ReportBytes(report), RequestedLength(setup), epSize, outArrives)
  {
    if request == ReqGetReport && requestType == ClassInterfaceIn {
      var t := ServeGetReport(ReportBytes(report), RequestedLength(setup), epSize, outArrives);
      r := Some(t);
    } else {
      r := None;
    }
  }
}
