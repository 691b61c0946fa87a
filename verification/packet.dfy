/** The tracker's packet data model (trunk/Projects/Tracker/packet.h): the
    closed set of packet kinds, their payloads, the two size bounds, and the
    unframed byte layout `[type][payload in network order]` that the SLIP
    framing of module Slip wraps. */
module Packet {

  import opened Wrappers
  import opened Bytes

  /** `enum packet_type`, without the `PACKET_MAX` sentinel. */
  datatype PacketType = Quat | Acc | Gyro | Mag | Color | Blink | Ir | Version | Id

  /** `PACKET_MAX`: one past the last valid tag; not itself a packet kind. */
  const PacketMax: Byte := 9

  /** `sizeof(float)` on the target. */
  const SizeofFloat: nat := 4

  /** `UNPACKED_MAX_SIZE`: the type byte plus the largest payload. */
  const UnpackedMaxSize: nat := 1 + 4 * SizeofFloat

  /** `PACKET_MAX_SIZE`: the largest SLIP frame `packet_pack` may write. */
  const PacketMaxSize: nat := 2 + 4 * SizeofFloat * 2

  /** The wire value of each tag. */
  function Tag(t: PacketType): (b: Byte)
    ensures b < PacketMax
  {
    match t
    case Quat => 0
    case Acc => 1
    case Gyro => 2
    case Mag => 3
    case Color => 4
    case Blink => 5
    case Ir => 6
    case Version => 7
    case Id => 8
  }

  /** The packet kind a received type byte names, if any. */
  function TypeOfTag(b: Byte): (r: Option<PacketType>)
    ensures r.Some? <==> b < PacketMax
    ensures forall t: PacketType :: Tag(t) == b ==> r == Some(t)
  {
    match b
    case 0 => Some(Quat)
    case 1 => Some(Acc)
    case 2 => Some(Gyro)
    case 3 => Some(Mag)
    case 4 => Some(Color)
    case 5 => Some(Blink)
    case 6 => Some(Ir)
    case 7 => Some(Version)
    case 8 => Some(Id)
    case _ => None
  }

  /** The members of the C payload union. */
  datatype UnionMember = QuatMember | SensorMember | ColorMember | VersionMember | NoMember

  /** ASSUMPTION: the union member each tag uses. The header declares the tags
      and the union but does not pair them; this is the pairing the member
      names suggest (`sensor` for the three inertial sensors, `version` for
      both VERSION and ID, nothing for the two events). */
  function MemberOf(t: PacketType): UnionMember
  {
    match t
    case Quat => QuatMember
    case Acc => SensorMember
    case Gyro => SensorMember
    case Mag => SensorMember
    case Color => ColorMember
    case Blink => NoMember
    case Ir => NoMember
    case Version => VersionMember
    case Id => VersionMember
  }

  /** `sizeof` of each union member. */
  function MemberWidth(m: UnionMember): nat
  {
    match m
    case QuatMember => 4 * SizeofFloat
    case SensorMember => 3 * 2
    case ColorMember => 3 * 1
    case VersionMember => 4
    case NoMember => 0
  }

  /** Payload width on the wire: a function of the tag alone, and never more
      than `UNPACKED_MAX_SIZE` allows after the type byte. */
  function Width(t: PacketType): (w: nat)
    ensures 1 + w <= UnpackedMaxSize
    ensures w == MemberWidth(MemberOf(t))
  {
    match t
    case Quat => 16
    case Acc => 6
    case Gyro => 6
    case Mag => 6
    case Color => 3
    case Blink => 0
    case Ir => 0
    case Version => 4
    case Id => 4
  }

  /** A C `float` carried as its raw 32-bit pattern; never read as a number. */
  datatype FloatBits = FloatBits(bits: UInt32)

  /** The `int16_t sensor[3]` member. */
  datatype Vec3 = Vec3(x: Int16, y: Int16, z: Int16)

  /** `packet_t`: one constructor per tag, each holding its own union member. */
  datatype Packet =
    | QuatPacket(q0: FloatBits, q1: FloatBits, q2: FloatBits, q3: FloatBits)
    | AccPacket(acc: Vec3)
    | GyroPacket(gyro: Vec3)
    | MagPacket(mag: Vec3)
    | ColorPacket(red: Byte, green: Byte, blue: Byte)
    | BlinkPacket
    | IrPacket
    | VersionPacket(version: UInt32)
    | IdPacket(id: UInt32)

  /** The `type` field of a packet. */
  function TypeOf(p: Packet): PacketType
  {
    match p
    case QuatPacket(_, _, _, _) => Quat
    case AccPacket(_) => Acc
    case GyroPacket(_) => Gyro
    case MagPacket(_) => Mag
    case ColorPacket(_, _, _) => Color
    case BlinkPacket => Blink
    case IrPacket => Ir
    case VersionPacket(_) => Version
    case IdPacket(_) => Id
  }

  function SensorBytes(v: Vec3): (r: seq<Byte>)
    ensures |r| == 6
  {
    ToBigEndian16(Bits16(v.x)) + ToBigEndian16(Bits16(v.y)) + ToBigEndian16(Bits16(v.z))
  }

  function QuatBytes(q0: FloatBits, q1: FloatBits, q2: FloatBits, q3: FloatBits): (r: seq<Byte>)
    ensures |r| == 16
  {
    ToBigEndian32(q0.bits) + ToBigEndian32(q1.bits) + ToBigEndian32(q2.bits) + ToBigEndian32(q3.bits)
  }

  /** The payload in network order; exactly `Width` bytes for the packet's tag. */
  function PayloadBytes(p: Packet): (r: seq<Byte>)
    ensures |r| == Width(TypeOf(p))
  {
    match p
    case QuatPacket(q0, q1, q2, q3) => QuatBytes(q0, q1, q2, q3)
    case AccPacket(v) => SensorBytes(v)
    case GyroPacket(v) => SensorBytes(v)
    case MagPacket(v) => SensorBytes(v)
    case ColorPacket(r, g, b) => [r, g, b]
    case BlinkPacket => []
    case IrPacket => []
    case VersionPacket(v) => ToBigEndian32(v)
    case IdPacket(v) => ToBigEndian32(v)
  }

  /** The unframed packet: type byte, then the payload. */
  function Unframed(p: Packet): (r: seq<Byte>)
    ensures |r| == 1 + Width(TypeOf(p)) <= UnpackedMaxSize
    ensures r[0] == Tag(TypeOf(p)) < PacketMax
  {
    [Tag(TypeOf(p))] + PayloadBytes(p)
  }

  function DecodeSensor(b: seq<Byte>): (v: Vec3)
    requires |b| == 6
    ensures SensorBytes(v) == b
  {
    assert b == b[0..2] + b[2..4] + b[4..6];
    Vec3(Signed16(FromBigEndian16(b[0..2])),
         Signed16(FromBigEndian16(b[2..4])),
         Signed16(FromBigEndian16(b[4..6])))
  }

  function DecodeWord(b: seq<Byte>): (f: FloatBits)
    requires |b| == 4
    ensures ToBigEndian32(f.bits) == b
  {
    FloatBits(FromBigEndian32(b))
  }

  /** Rebuilds a packet of kind `t` from its network-order payload; the left
      inverse of `PayloadBytes`. */
  function DecodePayload(t: PacketType, b: seq<Byte>): (p: Packet)
    requires |b| == Width(t)
    ensures TypeOf(p) == t
    ensures PayloadBytes(p) == b
  {
    match t
    case Quat =>
      assert b == b[0..4] + b[4..8] + b[8..12] + b[12..16];
      QuatPacket(DecodeWord(b[0..4]), DecodeWord(b[4..8]), DecodeWord(b[8..12]), DecodeWord(b[12..16]))
    case Acc => AccPacket(DecodeSensor(b))
    case Gyro => GyroPacket(DecodeSensor(b))
    case Mag => MagPacket(DecodeSensor(b))
    case Color => ColorPacket(b[0], b[1], b[2])
    case Blink => BlinkPacket
    case Ir => IrPacket
    case Version => VersionPacket(FromBigEndian32(b))
    case Id => IdPacket(FromBigEndian32(b))
  }

  /** Interprets a complete unframed byte string: the first byte must be a
      valid tag and the rest exactly that tag's payload width. */
  function ParseUnframed(u: seq<Byte>): (r: Option<Packet>)
    ensures r.Some? ==> Unframed(r.value) == u
    ensures r.Some? <==> 0 < |u| && u[0] < PacketMax && |u| == 1 + Width(TypeOfTag(u[0]).value)
  {
    if |u| == 0 then None
    else
      match TypeOfTag(u[0])
      case None => None
      case Some(t) => if |u| != 1 + Width(t) then None else Some(DecodePayload(t, u[1..]))
  }

  /** Serialising and parsing again gives back the same packet. */
  lemma ParseUnframedRoundTrip(p: Packet)
    ensures ParseUnframed(Unframed(p)) == Some(p)
  {
    var u := Unframed(p);
    assert u[1..] == PayloadBytes(p);
    var q := ParseUnframed(u).value;
    PayloadInjective(q, p);
  }

  /** A packet is determined by its kind and its payload bytes. */
  lemma PayloadInjective(p: Packet, q: Packet)
    requires TypeOf(p) == TypeOf(q) && PayloadBytes(p) == PayloadBytes(q)
    ensures p == q
  {
    match p
    case QuatPacket(_, _, _, _) => QuatBytesInjective(p, q);
    case AccPacket(v) => SensorBytesInjective(q.acc, v);
    case GyroPacket(v) => SensorBytesInjective(q.gyro, v);
    case MagPacket(v) => SensorBytesInjective(q.mag, v);
    case ColorPacket(_, _, _) =>
    case BlinkPacket =>
    case IrPacket =>
    case VersionPacket(v) => ToBigEndian32Injective(q.version, v);
    case IdPacket(v) => ToBigEndian32Injective(q.id, v);
  }

  lemma QuatBytesInjective(p: Packet, q: Packet)
    requires p.QuatPacket? && q.QuatPacket?
    requires QuatBytes(p.q0, p.q1, p.q2, p.q3) == QuatBytes(q.q0, q.q1, q.q2, q.q3)
    ensures p == q
  {
    Quarters(ToBigEndian32(p.q0.bits), ToBigEndian32(p.q1.bits), ToBigEndian32(p.q2.bits), ToBigEndian32(p.q3.bits));
    Quarters(ToBigEndian32(q.q0.bits), ToBigEndian32(q.q1.bits), ToBigEndian32(q.q2.bits), ToBigEndian32(q.q3.bits));
    ToBigEndian32Injective(p.q0.bits, q.q0.bits);
    ToBigEndian32Injective(p.q1.bits, q.q1.bits);
    ToBigEndian32Injective(p.q2.bits, q.q2.bits);
    ToBigEndian32Injective(p.q3.bits, q.q3.bits);
  }

  /** Four 4-byte words laid end to end can be cut apart again. */
  lemma Quarters(w0: seq<Byte>, w1: seq<Byte>, w2: seq<Byte>, w3: seq<Byte>)
    requires |w0| == |w1| == |w2| == |w3| == 4
    ensures var c := w0 + w1 + w2 + w3;
      c[0..4] == w0 && c[4..8] == w1 && c[8..12] == w2 && c[12..16] == w3
  {
  }

  lemma SensorBytesInjective(a: Vec3, b: Vec3)
    requires SensorBytes(a) == SensorBytes(b)
    ensures a == b
  {
    var xa, ya, za := ToBigEndian16(Bits16(a.x)), ToBigEndian16(Bits16(a.y)), ToBigEndian16(Bits16(a.z));
    var xb, yb, zb := ToBigEndian16(Bits16(b.x)), ToBigEndian16(Bits16(b.y)), ToBigEndian16(Bits16(b.z));
    Thirds(xa, ya, za);
    Thirds(xb, yb, zb);
    assert xa == xb && ya == yb && za == zb;
    Bits16Injective(a.x, b.x);
    Bits16Injective(a.y, b.y);
    Bits16Injective(a.z, b.z);
  }

  /** Three 2-byte halfwords laid end to end can be cut apart again. */
  lemma Thirds(h0: seq<Byte>, h1: seq<Byte>, h2: seq<Byte>)
    requires |h0| == |h1| == |h2| == 2
    ensures var c := h0 + h1 + h2;
      c[0..2] == h0 && c[2..4] == h1 && c[4..6] == h2
  {
  }

  /** Distinct packets never share an unframed encoding. */
  lemma UnframedInjective(p: Packet, q: Packet)
    requires Unframed(p) == Unframed(q)
    ensures p == q
  {
    ParseUnframedRoundTrip(p);
    ParseUnframedRoundTrip(q);
  }

  /** One field of the unframed layout: where it starts (the type byte is at
      offset 0) and how many bytes it spans. */
  datatype Field = Field(offset: nat, width: nat)

  /** `count` consecutive fields of `width` bytes each, right after the type byte. */
  function Fields(count: nat, width: nat): (l: seq<Field>)
    ensures |l| == count
    ensures forall i | 0 <= i < count :: l[i] == Field(1 + i * width, width)
  {
    seq(count, i requires 0 <= i < count => Field(1 + i * width, width))
  }

  /** The field layout of each packet kind, independent of the serialiser:
      the union member's element count and element width. */
  function Layout(t: PacketType): seq<Field>
  {
    match MemberOf(t)
    case QuatMember => Fields(4, SizeofFloat)
    case SensorMember => Fields(3, 2)
    case ColorMember => Fields(3, 1)
    case VersionMember => Fields(1, 4)
    case NoMember => []
  }

  /** The unsigned value of each field, in layout order: a float's bit
      pattern, a signed sensor reading's two's-complement pattern, a colour
      channel, or the version/id word. */
  function FieldValues(p: Packet): seq<nat>
  {
    match p
    case QuatPacket(q0, q1, q2, q3) => [q0.bits, q1.bits, q2.bits, q3.bits]
    case AccPacket(v) => [Bits16(v.x), Bits16(v.y), Bits16(v.z)]
    case GyroPacket(v) => [Bits16(v.x), Bits16(v.y), Bits16(v.z)]
    case MagPacket(v) => [Bits16(v.x), Bits16(v.y), Bits16(v.z)]
    case ColorPacket(r, g, b) => [r, g, b]
    case BlinkPacket => []
    case IrPacket => []
    case VersionPacket(v) => [v]
    case IdPacket(v) => [v]
  }

  /** Field `f` of the unframed bytes `u` holds value `v`, most significant byte first. */
  predicate FieldHolds(u: seq<Byte>, f: Field, v: nat)
  {
    f.offset + f.width <= |u| && BigEndianValue(u[f.offset .. f.offset + f.width]) == v
  }

  /** The fields of `l` follow one another from offset 1 and end exactly at `n`. */
  predicate Tiles(l: seq<Field>, n: nat)
  {
    && (|l| == 0 ==> n == 1)
    && (|l| > 0 ==> l[0].offset == 1 && l[|l| - 1].offset + l[|l| - 1].width == n)
    && (forall i | 0 <= i < |l| - 1 :: l[i + 1].offset == l[i].offset + l[i].width)
  }

  /** Network order: every field of the unframed packet, read most
      significant byte first, is the field's value, and the fields tile the
      payload exactly. */
  lemma FieldsInNetworkOrder(p: Packet)
    ensures var u, l, v := Unframed(p), Layout(TypeOf(p)), FieldValues(p);
      && |l| == |v|
      && Tiles(l, |u|)
      && (forall i | 0 <= i < |l| :: FieldHolds(u, l[i], v[i]))
  {
    match p
    case QuatPacket(_, _, _, _) => QuatFieldsInNetworkOrder(p);
    case AccPacket(s) => SensorFieldsInNetworkOrder(p, s);
    case GyroPacket(s) => SensorFieldsInNetworkOrder(p, s);
    case MagPacket(s) => SensorFieldsInNetworkOrder(p, s);
    case ColorPacket(_, _, _) => ColorFieldsInNetworkOrder(p);
    case BlinkPacket =>
    case IrPacket =>
    case VersionPacket(w) => WordFieldInNetworkOrder(p, w);
    case IdPacket(w) => WordFieldInNetworkOrder(p, w);
  }

  lemma QuatFieldsInNetworkOrder(p: Packet)
    requires p.QuatPacket?
    ensures var u, l, v := Unframed(p), Layout(TypeOf(p)), FieldValues(p);
      |l| == |v| == 4 && Tiles(l, |u|) && forall i | 0 <= i < 4 :: FieldHolds(u, l[i], v[i])
  {
    var u, l, v := Unframed(p), Layout(TypeOf(p)), FieldValues(p);
    assert u[1..5] == ToBigEndian32(p.q0.bits);
    assert u[5..9] == ToBigEndian32(p.q1.bits);
    assert u[9..13] == ToBigEndian32(p.q2.bits);
    assert u[13..17] == ToBigEndian32(p.q3.bits);
    assert FieldHolds(u, l[0], v[0]) && FieldHolds(u, l[1], v[1]);
    assert FieldHolds(u, l[2], v[2]) && FieldHolds(u, l[3], v[3]);
  }

  lemma SensorFieldsInNetworkOrder(p: Packet, s: Vec3)
    requires p == AccPacket(s) || p == GyroPacket(s) || p == MagPacket(s)
    ensures var u, l, v := Unframed(p), Layout(TypeOf(p)), FieldValues(p);
      |l| == |v| == 3 && Tiles(l, |u|) && forall i | 0 <= i < 3 :: FieldHolds(u, l[i], v[i])
  {
    var u, l, v := Unframed(p), Layout(TypeOf(p)), FieldValues(p);
    assert u[1..3] == ToBigEndian16(Bits16(s.x));
    assert u[3..5] == ToBigEndian16(Bits16(s.y));
    assert u[5..7] == ToBigEndian16(Bits16(s.z));
    assert FieldHolds(u, l[0], v[0]) && FieldHolds(u, l[1], v[1]) && FieldHolds(u, l[2], v[2]);
  }

  lemma ColorFieldsInNetworkOrder(p: Packet)
    requires p.ColorPacket?
    ensures var u, l, v := Unframed(p), Layout(TypeOf(p)), FieldValues(p);
      |l| == |v| == 3 && Tiles(l, |u|) && forall i | 0 <= i < 3 :: FieldHolds(u, l[i], v[i])
  {
    var u, l, v := Unframed(p), Layout(TypeOf(p)), FieldValues(p);
    assert u[1..2] == [p.red] && u[2..3] == [p.green] && u[3..4] == [p.blue];
    assert [p.red][..0] == [] && [p.green][..0] == [] && [p.blue][..0] == [];
    assert FieldHolds(u, l[0], v[0]) && FieldHolds(u, l[1], v[1]) && FieldHolds(u, l[2], v[2]);
  }

  lemma WordFieldInNetworkOrder(p: Packet, w: UInt32)
    requires p == VersionPacket(w) || p == IdPacket(w)
    ensures var u, l, v := Unframed(p), Layout(TypeOf(p)), FieldValues(p);
      |l| == |v| == 1 && Tiles(l, |u|) && FieldHolds(u, l[0], v[0])
  {
    assert Unframed(p)[1..5] == ToBigEndian32(w);
  }
}
