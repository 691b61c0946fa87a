/** `packet_pack`: serialise a packet in network order and wrap it in a SLIP
    frame (RFC 1055). Bytes equal to END are sent as ESC ESC_END, bytes
    equal to ESC as ESC ESC_ESC, every other byte as itself, and one END
    closes the frame. */
module Slip {

  import opened Wrappers
  import opened Bytes
  import opened Packet

  /** The four special characters of RFC 1055. */
  const End: Byte := 0xC0
  const Esc: Byte := 0xDB
  const EscEnd: Byte := 0xDC
  const EscEsc: Byte := 0xDD

  /** A byte that the framing must escape. */
  predicate Special(b: Byte)
  {
    b == End || b == Esc
  }

  /** The number of special bytes in `s`. */
  function SpecialCount(s: seq<Byte>): nat
  {
    if |s| == 0 then 0 else (if Special(s[0]) then 1 else 0) + SpecialCount(s[1..])
  }

  /** The wire form of one byte. */
  function EscapeByte(b: Byte): (r: seq<Byte>)
    ensures End !in r
    ensures |r| == if Special(b) then 2 else 1
    ensures !Special(b) ==> r == [b]
  {
    if b == End then [Esc, EscEnd]
    else if b == Esc then [Esc, EscEsc]
    else [b]
  }

  /** The byte-stuffed form of a frame body: END never occurs in it, it grows
      by exactly one byte per special byte, and a body without special bytes
      is sent unchanged. */
  function Escape(s: seq<Byte>): (r: seq<Byte>)
    ensures End !in r
    ensures |r| == |s| + SpecialCount(s)
    ensures SpecialCount(s) == 0 ==> r == s
  {
    if |s| == 0 then [] else EscapeByte(s[0]) + Escape(s[1..])
  }

  lemma {:induction false} SpecialCountBound(s: seq<Byte>)
    ensures SpecialCount(s) <= |s|
  {
    if |s| > 0 {
      SpecialCountBound(s[1..]);
    }
  }

  lemma {:induction false} EscapeAppend(a: seq<Byte>, b: seq<Byte>)
    ensures Escape(a + b) == Escape(a) + Escape(b)
  {
    if |a| == 0 {
      assert a + b == b;
    } else {
      assert (a + b)[1..] == a[1..] + b;
      EscapeAppend(a[1..], b);
    }
  }

  /** The RFC 1055 receiver's view of a frame body: ESC ESC_END stands for END,
      ESC ESC_ESC for ESC, other bytes for themselves; a bare END or an ESC
      not followed by ESC_END or ESC_ESC makes the body ill-formed. */
  function Unescape(w: seq<Byte>): (r: Option<seq<Byte>>)
    decreases |w|
  {
    if |w| == 0 then Some([])
    else if w[0] == End then None
    else if w[0] == Esc then
      if |w| < 2 then None
      else
        var lit := if w[1] == EscEnd then Some(End) else if w[1] == EscEsc then Some(Esc) else None;
        match (lit, Unescape(w[2..]))
        case (Some(b), Some(rest)) => Some([b] + rest)
        case _ => None
    else
      match Unescape(w[1..])
      case Some(rest) => Some([w[0]] + rest)
      case None => None
  }

  /** Receiving undoes sending: every body is recovered from its escaped form. */
  lemma {:induction false} UnescapeEscape(s: seq<Byte>)
    ensures Unescape(Escape(s)) == Some(s)
  {
    if |s| > 0 {
      UnescapeEscape(s[1..]);
      var w := Escape(s);
      assert w == EscapeByte(s[0]) + Escape(s[1..]);
      if Special(s[0]) {
        assert w[2..] == Escape(s[1..]);
      } else {
        assert w[1..] == Escape(s[1..]);
      }
      assert s == [s[0]] + s[1..];
    }
  }

  /** Sending undoes receiving: a well-formed wire body is the escaped form
      of what it decodes to, so escaping is a bijection onto well-formed bodies. */
  lemma {:induction false} EscapeUnescape(w: seq<Byte>)
    requires Unescape(w).Some?
    ensures Escape(Unescape(w).value) == w
    decreases |w|
  {
    if |w| > 0 {
      var s := Unescape(w).value;
      if w[0] == Esc {
        EscapeUnescape(w[2..]);
        assert s[1..] == Unescape(w[2..]).value;
        assert w == w[..2] + w[2..];
      } else {
        EscapeUnescape(w[1..]);
        assert s[1..] == Unescape(w[1..]).value;
        assert w == [w[0]] + w[1..];
      }
    }
  }

  /** The type byte is never special, so at most the payload doubles. */
  lemma EscapedFits(p: Packet)
    ensures |Escape(Unframed(p))| + 1 <= PacketMaxSize
  {
    var u := Unframed(p);
    assert u == [u[0]] + u[1..];
    EscapeAppend([u[0]], u[1..]);
    SpecialCountBound(u[1..]);
  }

  /** The SLIP frame of a packet, as `packet_pack` writes it. */
  function Pack(p: Packet): (r: seq<Byte>)
    ensures 0 < |r| <= PacketMaxSize
    ensures r[|r| - 1] == End
    ensures End !in r[..|r| - 1]
    ensures Unescape(r[..|r| - 1]) == Some(Unframed(p))
  {
    var u := Unframed(p);
    EscapedFits(p);
    UnescapeEscape(u);
    var r := Escape(u) + [End];
    assert r[..|r| - 1] == Escape(u);
    r
  }

  /** The type byte is never special, so the only bytes that can double are
      the payload's; the bound `PACKET_MAX_SIZE` is reached by a quaternion
      whose every payload byte is END. */
  lemma PacketMaxSizeIsTight()
    ensures var worst := FloatBits(0xC0C0_C0C0);
      |Pack(QuatPacket(worst, worst, worst, worst))| == PacketMaxSize
  {
    var worst := FloatBits(0xC0C0_C0C0);
    var p := QuatPacket(worst, worst, worst, worst);
    var u := Unframed(p);
    WorstPayloadIsAllEnd();
    assert u[1..] == QuatBytes(worst, worst, worst, worst);
    assert SpecialCount(u) == SpecialCount(u[1..]);
  }

  /** Every one of the sixteen payload bytes of that quaternion is END. */
  lemma WorstPayloadIsAllEnd()
    ensures var worst := FloatBits(0xC0C0_C0C0);
      SpecialCount(QuatBytes(worst, worst, worst, worst)) == 16
  {
    var w := ToBigEndian32(0xC0C0_C0C0);
    assert w == [End, End, End, End];
    AllSpecial(w + w + w + w);
  }

  /** The unit quaternion (1, 0, 0, 0) needs no escaping: its frame is the
      type byte, sixteen payload bytes and the terminator, 18 bytes. */
  lemma UnitQuaternionFrameLength()
    ensures var one, zero := FloatBits(0x3F80_0000), FloatBits(0);
      |Pack(QuatPacket(one, zero, zero, zero))| == 18
  {
    var one, zero := FloatBits(0x3F80_0000), FloatBits(0);
    var p := QuatPacket(one, zero, zero, zero);
    var u := Unframed(p);
    var a, z := ToBigEndian32(0x3F80_0000), ToBigEndian32(0);
    assert a == [0x3F, 0x80, 0, 0] && z == [0, 0, 0, 0];
    assert u == [0] + a + z + z + z;
    NoneSpecial(u);
  }

  lemma {:induction false} NoneSpecial(s: seq<Byte>)
    requires forall i | 0 <= i < |s| :: !Special(s[i])
    ensures SpecialCount(s) == 0
  {
    if |s| > 0 {
      NoneSpecial(s[1..]);
    }
  }

  lemma {:induction false} AllSpecial(s: seq<Byte>)
    requires forall i | 0 <= i < |s| :: Special(s[i])
    ensures SpecialCount(s) == |s|
  {
    if |s| > 0 {
      AllSpecial(s[1..]);
    }
  }

  /** `packet_pack`: the unframed packet is escaped byte by byte into the
      output buffer, then the terminator is appended; the returned size is
      the number of bytes written. */
  method PacketPack(p: Packet) returns (out: seq<Byte>, size: int)
    ensures size == |out| <= PacketMaxSize
    ensures out == Pack(p)
  {
    out := EscapeLoop(Unframed(p));
    out := out + [End];
    size := |out|;
    EscapedFits(p);
  }

  /** The escaping loop of `packet_pack`. */
  method EscapeLoop(u: seq<Byte>) returns (out: seq<Byte>)
    ensures out == Escape(u)
  {
    out := [];
    var i := 0;
    while i < |u|
      invariant 0 <= i <= |u|
      invariant out == Escape(u[..i])
    {
      EscapeSnoc(u, i);
      out := out + EscapeByte(u[i]);
      i := i + 1;
    }
    assert u[..|u|] == u;
  }

  /** Escaping one more byte of `u` appends that byte's wire form. */
  lemma EscapeSnoc(u: seq<Byte>, i: nat)
    requires i < |u|
    ensures Escape(u[..i + 1]) == Escape(u[..i]) + EscapeByte(u[i])
  {
    assert u[..i + 1] == u[..i] + [u[i]];
    EscapeAppend(u[..i], [u[i]]);
    assert Escape([u[i]]) == EscapeByte(u[i]) + Escape([]);
  }
}
