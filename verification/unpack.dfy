/** `packet_unpack`: the byte-at-a-time SLIP decoder. The state the C code
    keeps between calls is an explicit `Session`; one call is `Step`, which
    returns the next session and the packet completed by this byte, if any
    (the C function's `true` result together with the filled-in packet). */
module Unpack {

  import opened Wrappers
  import opened Bytes
  import opened Packet
  import opened Slip

  /** The unescaped bytes received so far for the current frame, and whether
      the previous byte was ESC. */
  datatype Session = Session(frame: seq<Byte>, escaped: bool)
  {
    /** Never more than `UNPACKED_MAX_SIZE` bytes are held for one frame. */
    predicate Valid()
    {
      |frame| <= UnpackedMaxSize
    }
  }

  /** A fresh decoder, and the state after every completed or dropped frame. */
  const Idle := Session([], false)

  /** Stores one unescaped byte. A byte that would grow the frame past
      `UNPACKED_MAX_SIZE` is not stored: the bytes held so far are discarded
      and the decoder returns to idle, so whatever follows is decoded as the
      start of a new frame (`ErrorRestartsFrame`). */
  function Accept(s: Session, b: Byte): (r: Session)
    requires s.Valid()
    ensures r.Valid() && !r.escaped
    ensures |s.frame| < UnpackedMaxSize ==> r.frame == s.frame + [b]
    ensures |s.frame| == UnpackedMaxSize ==> r == Idle
  {
    if |s.frame| < UnpackedMaxSize then Session(s.frame + [b], false) else Idle
  }

  /** One call of `packet_unpack` with the received byte `c`. */
  function Step(s: Session, c: Byte): (r: (Session, Option<Packet>))
    requires s.Valid()
    ensures r.0.Valid()
    ensures r.1.Some? <==> c == End && !s.escaped && ParseUnframed(s.frame).Some?
    ensures r.1.Some? ==> Unframed(r.1.value) == s.frame
    ensures c == End ==> r.0 == Idle
  {
    if s.escaped then
      if c == EscEnd then (Accept(s, End), None)
      else if c == EscEsc then (Accept(s, Esc), None)
      else (Idle, None)
    else if c == Esc then (Session(s.frame, true), None)
    else if c == End then (Idle, ParseUnframed(s.frame))
    else (Accept(s, c), None)
  }

  /** Feeds `input` one byte at a time; returns the final session and, for
      each byte, what that call returned. */
  function Run(s: Session, input: seq<Byte>): (r: (Session, seq<Option<Packet>>))
    requires s.Valid()
    ensures r.0.Valid()
    ensures |r.1| == |input|
    decreases |input|
  {
    if |input| == 0 then (s, [])
    else
      var first := Step(s, input[0]);
      var rest := Run(first.0, input[1..]);
      (rest.0, [first.1] + rest.1)
  }

  /** Running over two pieces of input is running over the first and then,
      from where it stopped, over the second. */
  lemma {:induction false} RunAppend(s: Session, a: seq<Byte>, b: seq<Byte>)
    requires s.Valid()
    ensures Run(s, a + b) == (Run(Run(s, a).0, b).0, Run(s, a).1 + Run(Run(s, a).0, b).1)
    decreases |a|
  {
    if |a| == 0 {
      assert a + b == b;
      assert Run(s, a) == (s, []);
      assert Run(s, a).1 + Run(Run(s, a).0, b).1 == Run(s, b).1;
    } else {
      var s1 := Step(s, a[0]).0;
      var o := Step(s, a[0]).1;
      assert (a + b)[1..] == a[1..] + b;
      assert (a + b)[0] == a[0];
      RunAppend(s1, a[1..], b);
      assert Run(s, a + b) == (Run(s1, a[1..] + b).0, [o] + Run(s1, a[1..] + b).1);
      assert Run(s, a) == (Run(s1, a[1..]).0, [o] + Run(s1, a[1..]).1);
      assert [o] + (Run(s1, a[1..]).1 + Run(Run(s, a).0, b).1) == ([o] + Run(s1, a[1..]).1) + Run(Run(s, a).0, b).1;
    }
  }

  /** Running over a single byte is one step. */
  lemma RunOne(s: Session, c: Byte)
    requires s.Valid()
    ensures Run(s, [c]) == (Step(s, c).0, [Step(s, c).1])
  {
    assert [c][0] == c && [c][1..] == [];
    var s1 := Step(s, c).0;
    assert Run(s1, [c][1..]) == (s1, []);
    assert Run(s, [c]) == (Run(Step(s, [c][0]).0, [c][1..]).0, [Step(s, [c][0]).1] + Run(Step(s, [c][0]).0, [c][1..]).1);
    assert [Step(s, c).1] + [] == [Step(s, c).1];
  }

  /** No call completed a packet. */
  predicate Quiet(os: seq<Option<Packet>>)
  {
    forall i | 0 <= i < |os| :: os[i].None?
  }

  /** Escaped bytes of a frame body are accumulated unescaped, silently, as
      long as the frame stays within `UNPACKED_MAX_SIZE`. */
  lemma {:induction false} FeedEscaped(frame: seq<Byte>, body: seq<Byte>)
    requires |frame| + |body| <= UnpackedMaxSize
    ensures Run(Session(frame, false), Escape(body)).0 == Session(frame + body, false)
    ensures Quiet(Run(Session(frame, false), Escape(body)).1)
    decreases |body|
  {
    var s0 := Session(frame, false);
    if |body| == 0 {
      assert frame + body == frame;
      assert Run(s0, []) == (s0, []);
    } else {
      var b := body[0];
      var s1 := Session(frame + [b], false);
      var head, tail := EscapeByte(b), Escape(body[1..]);
      assert Escape(body) == head + tail;
      RunAppend(s0, head, tail);
      FeedByte(frame, b);
      FeedEscaped(frame + [b], body[1..]);
      assert frame + [b] + body[1..] == frame + body;
      QuietAppend(Run(s0, head).1, Run(s1, tail).1);
    }
  }

  lemma QuietAppend(a: seq<Option<Packet>>, b: seq<Option<Packet>>)
    ensures Quiet(a + b) <==> Quiet(a) && Quiet(b)
  {
    if Quiet(a) && Quiet(b) {
      forall i | 0 <= i < |a + b|
        ensures (a + b)[i].None?
      {
        if i >= |a| {
          assert (a + b)[i] == b[i - |a|];
        }
      }
    }
    if Quiet(a + b) {
      forall i | 0 <= i < |a|
        ensures a[i].None?
      {
        assert (a + b)[i] == a[i];
      }
      forall i | 0 <= i < |b|
        ensures b[i].None?
      {
        assert (a + b)[|a| + i] == b[i];
      }
    }
  }

  /** One byte of a frame body, escaped, is stored unescaped and silently. */
  lemma FeedByte(frame: seq<Byte>, b: Byte)
    requires |frame| < UnpackedMaxSize
    ensures Run(Session(frame, false), EscapeByte(b)).0 == Session(frame + [b], false)
    ensures Quiet(Run(Session(frame, false), EscapeByte(b)).1)
  {
    var s0 := Session(frame, false);
    var w := EscapeByte(b);
    var s1 := Session(frame + [b], false);
    if Special(b) {
      var se := Session(frame, true);
      assert w == [w[0]] + [w[1]];
      RunAppend(s0, [w[0]], [w[1]]);
      RunOne(s0, w[0]);
      RunOne(se, w[1]);
    } else {
      assert w == [b];
      RunOne(s0, b);
    }
  }

  /** A frame whose unescaped body fits the decoder: every byte but the
      terminator is silent, and the terminator returns the body's parse and
      leaves the decoder idle. */
  lemma {:induction false} FrameRoundTrip(u: seq<Byte>)
    requires |u| <= UnpackedMaxSize
    ensures Run(Idle, Escape(u) + [End]).0 == Idle
    ensures Run(Idle, Escape(u) + [End]).1 == Run(Idle, Escape(u)).1 + [ParseUnframed(u)]
    ensures Quiet(Run(Idle, Escape(u)).1)
  {
    var body := Escape(u);
    FeedEscaped([], u);
    assert [] + u == u;
    var sb := Run(Idle, body).0;
    assert sb == Session(u, false);
    RunOne(sb, End);
    RunAppend(Idle, body, [End]);
  }

  /** Round trip: feeding `Pack(p)` into a fresh decoder one byte at a time
      returns nothing for every byte but the last, returns `p` on the last,
      and leaves the decoder idle for the next frame. */
  lemma PackRoundTrip(p: Packet)
    ensures Run(Idle, Pack(p)).0 == Idle
    ensures var os := Run(Idle, Pack(p)).1;
      |os| == |Pack(p)| && os[|os| - 1] == Some(p) && Quiet(os[..|os| - 1])
  {
    var u := Unframed(p);
    FrameRoundTrip(u);
    ParseUnframedRoundTrip(p);
    var ob := Run(Idle, Escape(u)).1;
    var os := Run(Idle, Pack(p)).1;
    assert os == ob + [Some(p)];
    assert os[..|os| - 1] == ob;
  }

  /** Self-synchronisation: whatever state line noise left the decoder in, an
      END followed by `Pack(p)` delivers exactly `p`, on the last byte. The
      leading END may itself complete whatever frame was pending. */
  lemma Resync(s: Session, p: Packet)
    requires s.Valid()
    ensures Run(s, [End] + Pack(p)).0 == Idle
    ensures var os := Run(s, [End] + Pack(p)).1;
      |os| == 1 + |Pack(p)| && os[|os| - 1] == Some(p) && Quiet(os[1..|os| - 1])
  {
    PackRoundTrip(p);
    EndThenFrame(s, Pack(p), p);
  }

  /** `Resync` for any frame `w` that a fresh decoder turns into `p`. */
  lemma EndThenFrame(s: Session, w: seq<Byte>, p: Packet)
    requires s.Valid()
    requires Run(Idle, w).0 == Idle
    requires var os := Run(Idle, w).1; |os| == |w| > 0 && os[|os| - 1] == Some(p) && Quiet(os[..|os| - 1])
    ensures Run(s, [End] + w).0 == Idle
    ensures var os := Run(s, [End] + w).1;
      |os| == 1 + |w| && os[|os| - 1] == Some(p) && Quiet(os[1..|os| - 1])
  {
    EndResets(s);
    RunAppend(s, [End], w);
    DropHead(Run(s, [End]).1, Run(Idle, w).1, p);
  }

  /** END alone, in any state, returns to idle after one call. */
  lemma EndResets(s: Session)
    requires s.Valid()
    ensures Run(s, [End]).0 == Idle && |Run(s, [End]).1| == 1
  {
    RunOne(s, End);
  }

  lemma DropHead(h: seq<Option<Packet>>, tail: seq<Option<Packet>>, p: Packet)
    requires |h| == 1 && |tail| > 0 && tail[|tail| - 1] == Some(p) && Quiet(tail[..|tail| - 1])
    ensures var os := h + tail;
      |os| == 1 + |tail| && os[|os| - 1] == Some(p) && Quiet(os[1..|os| - 1])
  {
    var os := h + tail;
    assert os[1..|os| - 1] == tail[..|tail| - 1];
  }

  /** A frame whose body does not parse (an unknown type byte, or a payload
      of the wrong length such as an ACC frame with three payload bytes) is
      dropped: no call completes a packet and the decoder ends idle. */
  lemma MalformedFrameIsDropped(u: seq<Byte>)
    requires |u| <= UnpackedMaxSize
    requires ParseUnframed(u).None?
    ensures Run(Idle, Escape(u) + [End]).0 == Idle
    ensures Quiet(Run(Idle, Escape(u) + [End]).1)
  {
    FrameRoundTrip(u);
    QuietAppend(Run(Idle, Escape(u)).1, [None]);
  }

  /** A frame-end on a fresh decoder is a no-op: it is not an error and
      completes nothing. */
  lemma LeadingEndIsIgnored()
    ensures Step(Idle, End) == (Idle, None)
  {
  }

  /** The packets completed, in order, by a sequence of calls. */
  function Completed(os: seq<Option<Packet>>): (ps: seq<Packet>)
    ensures |ps| <= |os|
    ensures Quiet(os) ==> ps == []
  {
    if |os| == 0 then []
    else (if os[0].Some? then [os[0].value] else []) + Completed(os[1..])
  }

  lemma {:induction false} CompletedAppend(a: seq<Option<Packet>>, b: seq<Option<Packet>>)
    ensures Completed(a + b) == Completed(a) + Completed(b)
    decreases |a|
  {
    if |a| == 0 {
      assert a + b == b;
    } else {
      assert (a + b)[0] == a[0] && (a + b)[1..] == a[1..] + b;
      CompletedAppend(a[1..], b);
      var h: seq<Packet> := if a[0].Some? then [a[0].value] else [];
      assert Completed(a + b) == h + Completed(a[1..] + b);
      assert Completed(a) == h + Completed(a[1..]);
    }
  }

  /** The frames of several packets sent back to back. */
  function PackAll(ps: seq<Packet>): seq<Byte>
  {
    if |ps| == 0 then [] else Pack(ps[0]) + PackAll(ps[1..])
  }

  /** A stream of back-to-back frames decodes to exactly the packets sent,
      in the order sent, and leaves the decoder idle. */
  lemma {:induction false} StreamRoundTrip(ps: seq<Packet>)
    ensures Run(Idle, PackAll(ps)).0 == Idle
    ensures Completed(Run(Idle, PackAll(ps)).1) == ps
  {
    if |ps| > 0 {
      RunAppend(Idle, Pack(ps[0]), PackAll(ps[1..]));
      PackCompletesOne(ps[0]);
      StreamRoundTrip(ps[1..]);
      CompletedAppend(Run(Idle, Pack(ps[0])).1, Run(Idle, PackAll(ps[1..])).1);
      assert ps == [ps[0]] + ps[1..];
    }
  }

  /** One frame completes exactly its own packet. */
  lemma PackCompletesOne(p: Packet)
    ensures Run(Idle, Pack(p)).0 == Idle
    ensures Completed(Run(Idle, Pack(p)).1) == [p]
  {
    PackRoundTrip(p);
    CompletedLast(Run(Idle, Pack(p)).1, p);
  }

  /** Calls that are quiet until the last, which completes `p`, complete `p`
      alone. */
  lemma {:induction false} CompletedLast(os: seq<Option<Packet>>, p: Packet)
    requires |os| > 0 && os[|os| - 1] == Some(p) && Quiet(os[..|os| - 1])
    ensures Completed(os) == [p]
  {
    if |os| == 1 {
      assert Completed(os) == [p] + Completed(os[1..]);
    } else {
      assert os[0] == os[..|os| - 1][0];
      var rest := os[1..];
      assert rest[..|rest| - 1] == os[..|os| - 1][1..];
      CompletedLast(rest, p);
    }
  }

  /** Overflow: `UNPACKED_MAX_SIZE + 1` ordinary bytes with no terminator
      make the decoder discard what it holds, report nothing, and return to
      idle; the bytes after them start a new frame (`OverflowTailDelivers`). */
  lemma Overflow(junk: seq<Byte>)
    requires |junk| == UnpackedMaxSize + 1
    requires forall i | 0 <= i < |junk| :: !Special(junk[i])
    ensures Run(Idle, junk).0 == Idle
    ensures Quiet(Run(Idle, junk).1)
  {
    var head := junk[..UnpackedMaxSize];
    var last := junk[UnpackedMaxSize];
    assert junk == head + [last];
    NoneSpecial(head);
    assert Escape(head) == head;
    FeedEscaped([], head);
    assert [] + head == head;
    var full := Session(head, false);
    assert Run(Idle, head).0 == full;
    RunOne(full, last);
    assert Step(full, last) == (Idle, None);
    RunAppend(Idle, head, [last]);
    QuietAppend(Run(Idle, head).1, [None]);
  }

  /** The two decode errors: an ESC followed by neither ESC_END nor ESC_ESC,
      and a byte to be stored (ordinary, or the unescaped END or ESC) when
      `UNPACKED_MAX_SIZE` bytes are already held. */
  predicate DecodeError(s: Session, c: Byte)
  {
    if s.escaped then (c != EscEnd && c != EscEsc) || |s.frame| == UnpackedMaxSize
    else !Special(c) && |s.frame| == UnpackedMaxSize
  }

  /** On a decode error the bytes held so far are discarded, nothing is
      reported, and the rest of the input is decoded exactly as a fresh
      decoder would decode it: the tail of the broken frame is read as a new
      frame, not skipped up to the next END. */
  lemma ErrorRestartsFrame(s: Session, c: Byte, rest: seq<Byte>)
    requires s.Valid()
    requires DecodeError(s, c)
    ensures Step(s, c) == (Idle, None)
    ensures Run(s, [c] + rest) == (Run(Idle, rest).0, [None] + Run(Idle, rest).1)
  {
    assert ([c] + rest)[0] == c && ([c] + rest)[1..] == rest;
  }

  /** Bytes that cause no decode error, END or ESC leave the session holding
      one more byte. */
  lemma ErrorsAreTheOnlyResets(s: Session, c: Byte)
    requires s.Valid()
    requires !DecodeError(s, c) && (s.escaped || !Special(c))
    ensures Step(s, c).0 != Idle
    ensures |Step(s, c).0.frame| == |s.frame| + 1
  {
  }

  /** After a bad escape in `07 DB 00`, the tail `05 C0` is a whole BLINK
      frame and is delivered. */
  lemma BadEscapeTailDelivers()
    ensures var os := Run(Idle, [0x07, Esc, 0x00, 0x05, End]).1;
      |os| == 5 && Quiet(os[..4]) && os[4] == Some(BlinkPacket)
  {
    var head: seq<Byte> := [0x07, Esc];
    var rest: seq<Byte> := [0x00, 0x05, End];
    var s2 := Session([0x07], true);
    OpenEscape();
    ErrorThenBlink(s2, 0x00);
    RunAppend(Idle, head, rest);
    assert head + rest == [0x07, Esc, 0x00, 0x05, End];
    QuietPrefix([None, None], [None, None, Some(BlinkPacket)]);
  }

  /** `07 DB` on a fresh decoder holds the type byte of VERSION and waits
      for the escaped byte. */
  lemma OpenEscape()
    ensures Run(Idle, [0x07, Esc]) == (Session([0x07], true), [None, None])
  {
    var s1 := Session([0x07], false);
    assert [] + [0x07 as Byte] == [0x07];
    assert Step(Idle, 0x07) == (s1, None);
    RunOne(Idle, 0x07);
    assert Step(s1, Esc) == (Session([0x07], true), None);
    RunOne(s1, Esc);
    var a: seq<Byte>, b: seq<Byte> := [0x07], [Esc];
    RunAppend(Idle, a, b);
    assert a + b == [0x07, Esc];
    var none: seq<Option<Packet>> := [None];
    assert none + [None] == [None, None];
  }

  /** A byte that causes a decode error, followed by `05 C0`, delivers
      BLINK on the last byte. */
  lemma ErrorThenBlink(s: Session, c: Byte)
    requires s.Valid()
    requires DecodeError(s, c)
    ensures Run(s, [c, 0x05, End]) == (Idle, [None, None, Some(BlinkPacket)])
  {
    var tail: seq<Byte> := [0x05, End];
    ErrorRestartsFrame(s, c, tail);
    BlinkFrame();
    assert [c] + tail == [c, 0x05, End];
    var none: seq<Option<Packet>> := [None];
    assert none + [None, Some(BlinkPacket)] == [None, None, Some(BlinkPacket)];
  }

  /** Seventeen ordinary bytes fill the frame; the eighteenth resets the
      decoder, and `05 C0` after it is delivered as a BLINK frame. */
  lemma OverflowTailDelivers(fill: seq<Byte>)
    requires |fill| == UnpackedMaxSize
    requires forall i | 0 <= i < |fill| :: !Special(fill[i])
    ensures var os := Run(Idle, fill + [0x05, 0x05, End]).1;
      |os| == UnpackedMaxSize + 3 && Quiet(os[..|os| - 1]) && os[|os| - 1] == Some(BlinkPacket)
  {
    var rest: seq<Byte> := [0x05, 0x05, End];
    FillFrame(fill);
    ErrorThenBlink(Session(fill, false), 0x05);
    RunAppend(Idle, fill, rest);
    QuietPrefix(Run(Idle, fill).1, [None, None, Some(BlinkPacket)]);
  }

  /** Ordinary bytes, up to `UNPACKED_MAX_SIZE` of them, are held silently. */
  lemma FillFrame(fill: seq<Byte>)
    requires |fill| <= UnpackedMaxSize
    requires forall i | 0 <= i < |fill| :: !Special(fill[i])
    ensures Run(Idle, fill).0 == Session(fill, false)
    ensures Quiet(Run(Idle, fill).1)
  {
    NoneSpecial(fill);
    FeedEscaped([], fill);
    assert [] + fill == fill;
  }

  /** Quiet calls followed by calls that are quiet up to their last are
      quiet up to the last, which is the last of the second group. */
  lemma QuietPrefix(a: seq<Option<Packet>>, b: seq<Option<Packet>>)
    requires Quiet(a)
    requires |b| > 0 && Quiet(b[..|b| - 1])
    ensures var os := a + b; Quiet(os[..|os| - 1]) && os[|os| - 1] == b[|b| - 1]
  {
    var os := a + b;
    assert os[..|os| - 1] == a + b[..|b| - 1];
    QuietAppend(a, b[..|b| - 1]);
  }

  /** `05 C0` on a fresh decoder delivers BLINK. */
  lemma BlinkFrame()
    ensures Run(Idle, [0x05, End]) == (Idle, [None, Some(BlinkPacket)])
  {
    var s1 := Session([0x05], false);
    assert [] + [0x05 as Byte] == [0x05];
    assert Step(Idle, 0x05) == (s1, None);
    RunOne(Idle, 0x05);
    assert Run(Idle, [0x05]) == (s1, [None]);
    assert Step(s1, End) == (Idle, Some(BlinkPacket));
    RunOne(s1, End);
    assert Run(s1, [End]) == (Idle, [Some(BlinkPacket)]);
    var a: seq<Byte>, b: seq<Byte> := [0x05], [End];
    RunAppend(Idle, a, b);
    assert a + b == [0x05, End];
    var none: seq<Option<Packet>> := [None];
    assert none + [Some(BlinkPacket)] == [None, Some(BlinkPacket)];
  }
}
