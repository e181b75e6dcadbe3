/** HCI framing: what a byte stream means as packets, with and without the H4 packet type in front. */
module HciFrames {
  import opened Bytes

  const UNKNOWN: byte := 0
  const COMMAND: byte := 1
  const ACL_DATA: byte := 2
  const SCO_DATA: byte := 3
  const EVENT: byte := 4

  predicate Framed(kind: byte) { 1 <= kind <= 4 }

  /** The packet types the host receives. */
  predicate Received(kind: byte): (r: bool)
    ensures r ==> Framed(kind)
  {
    kind == ACL_DATA || kind == SCO_DATA || kind == EVENT
  }

  /** How long a packet's header is. */
  function PreambleSize(kind: byte): (n: nat)
    ensures Framed(kind) ==> 2 <= n <= 4
  {
    match kind
    case 1 => 3
    case 2 => 4
    case 3 => 3
    case 4 => 2
    case _ => 0
  }

  /** Where in the header the length field is. */
  function LengthOffset(kind: byte): nat {
    match kind
    case 1 => 2
    case 2 => 2
    case 3 => 2
    case 4 => 1
    case _ => 0
  }

  /** The length of the payload a header announces: two bytes, low byte first, for ACL data. */
  function PacketLength(kind: byte, preamble: bytes): nat
    requires Framed(kind) && |preamble| >= PreambleSize(kind)
  {
    var offset := LengthOffset(kind);
    var low: int := preamble[offset];
    if kind != ACL_DATA then low
    else
      var high: int := preamble[offset + 1];
      high * 0x100 + low
  }

  /** A whole packet: its header announces exactly the bytes behind the header. */
  predicate Announced(kind: byte, packet: bytes) {
    && Framed(kind) && |packet| >= PreambleSize(kind)
    && PacketLength(kind, packet) == |packet| - PreambleSize(kind)
  }

  /** A whole packet with a payload. */
  predicate WellFormed(kind: byte, packet: bytes) {
    Announced(kind, packet) && |packet| > PreambleSize(kind)
  }

  // ----- one channel that carries packets of one type -----

  /** What the beginning of a stream is: not yet a packet, a packet of so many bytes, or a packet with no
      payload followed by something. */
  datatype Head = More | Whole(size: nat) | Stuck

  function HeadOf(kind: byte, s: bytes): (h: Head)
    requires Framed(kind)
    ensures h.Whole? ==> 0 < h.size <= |s|
  {
    var n := PreambleSize(kind);
    if |s| < n then More
    else
      var length := PacketLength(kind, s);
      if length == 0 then if |s| > n then Stuck else More
      else if |s| < n + length then More
      else Whole(n + length)
  }

  /** The packets of a stream, what is left of it, and whether the reader aborts in what is left. */
  datatype Packets = Packets(packets: seq<bytes>, rest: bytes, fatal: bool)

  /** The reference: cut off one packet after the other. */
  function ParseChannel(kind: byte, s: bytes): Packets
    requires Framed(kind)
    decreases |s|
  {
    match HeadOf(kind, s)
    case More => Packets([], s, false)
    case Stuck => Packets([], s, true)
    case Whole(n) =>
      var tail := ParseChannel(kind, s[n..]);
      tail.(packets := [s[..n]] + tail.packets)
  }

  function Concat(packets: seq<bytes>): bytes {
    if packets == [] then [] else packets[0] + Concat(packets[1..])
  }

  predicate AllWellFormed(kind: byte, packets: seq<bytes>) {
    forall i | 0 <= i < |packets| :: WellFormed(kind, packets[i])
  }

  /** A whole packet is cut off; without one, nothing is. */
  lemma ChannelStep(kind: byte, s: bytes)
    requires Framed(kind)
    ensures var h := HeadOf(kind, s);
            ParseChannel(kind, s)
            == if h.Whole? then
                 var tail := ParseChannel(kind, s[h.size..]);
                 Packets([s[..h.size]] + tail.packets, tail.rest, tail.fatal)
               else Packets([], s, h.Stuck?)
  {
  }

  lemma ConcatCons(packet: bytes, packets: seq<bytes>)
    ensures Concat([packet] + packets) == packet + Concat(packets)
  {
    assert ([packet] + packets)[1..] == packets;
  }

  lemma WholeIsWellFormed(kind: byte, s: bytes)
    requires Framed(kind) && HeadOf(kind, s).Whole?
    ensures WellFormed(kind, s[..HeadOf(kind, s).size])
  {
  }

  lemma Reassembled(a: bytes, b: bytes, c: bytes, s: bytes)
    requires |a| <= |s| && a == s[..|a|] && b + c == s[|a|..]
    ensures a + b + c == s
  {
    assert a + b + c == a + (b + c);
  }

  /** Packets and remainder account for every byte, and every packet is well formed. */
  lemma {:induction false} ChannelAccounts(kind: byte, s: bytes)
    requires Framed(kind)
    ensures var p := ParseChannel(kind, s);
            Concat(p.packets) + p.rest == s && AllWellFormed(kind, p.packets)
    decreases |s|
  {
    ChannelStep(kind, s);
    hide HeadOf, WellFormed, ParseChannel;
    var h := HeadOf(kind, s);
    if h.Whole? {
      var packet, tail := s[..h.size], ParseChannel(kind, s[h.size..]);
      ChannelAccounts(kind, s[h.size..]);
      ConcatCons(packet, tail.packets);
      hide Concat;
      WholeIsWellFormed(kind, s);
      Reassembled(packet, Concat(tail.packets), tail.rest, s);
    }
  }

  lemma Associative(packet: bytes, a: seq<bytes>, b: seq<bytes>)
    ensures [packet] + (a + b) == ([packet] + a) + b
  {
  }

  /** The first packet is cut off whatever follows it. */
  lemma PacketStays(kind: byte, s: bytes, t: bytes)
    requires Framed(kind) && HeadOf(kind, s).Whole?
    ensures var n := HeadOf(kind, s).size;
            var tail := ParseChannel(kind, s[n..] + t);
            ParseChannel(kind, s + t) == Packets([s[..n]] + tail.packets, tail.rest, tail.fatal)
  {
    var n := HeadOf(kind, s).size;
    WholeStays(kind, s, t);
    hide HeadOf;
    assert (s + t)[..n] == s[..n] && (s + t)[n..] == s[n..] + t;
  }

  /** What has been cut off stays cut off when more of the stream arrives. */
  lemma {:induction false} ChannelAppend(kind: byte, s: bytes, t: bytes)
    requires Framed(kind) && !ParseChannel(kind, s).fatal
    ensures var p := ParseChannel(kind, s);
            var q := ParseChannel(kind, p.rest + t);
            ParseChannel(kind, s + t) == Packets(p.packets + q.packets, q.rest, q.fatal)
    decreases |s|
  {
    ChannelStep(kind, s);
    hide HeadOf, ParseChannel;
    var h := HeadOf(kind, s);
    if h.Whole? {
      ChannelAppend(kind, s[h.size..], t);
      PacketStays(kind, s, t);
      var p := ParseChannel(kind, s[h.size..]);
      var q := ParseChannel(kind, p.rest + t);
      Associative(s[..h.size], p.packets, q.packets);
    }
  }

  /** A whole packet is recognised whatever follows it. */
  lemma WholeStays(kind: byte, s: bytes, t: bytes)
    requires Framed(kind) && HeadOf(kind, s).Whole?
    ensures HeadOf(kind, s + t) == HeadOf(kind, s)
  {
    assert PacketLength(kind, s + t) == PacketLength(kind, s);
  }

  /** So is a packet without payload that something follows. */
  lemma HeadStays(kind: byte, s: bytes, t: bytes)
    requires Framed(kind) && HeadOf(kind, s) != More
    ensures HeadOf(kind, s + t) == HeadOf(kind, s)
  {
    assert PacketLength(kind, s + t) == PacketLength(kind, s);
  }

  /** A well-formed packet is its own head. */
  lemma WellFormedIsWhole(kind: byte, packet: bytes)
    requires WellFormed(kind, packet)
    ensures HeadOf(kind, packet) == Whole(|packet|)
  {
  }

  /** Well-formed packets written one after the other are parsed back. */
  lemma {:induction false} ChannelRoundTrip(kind: byte, packets: seq<bytes>)
    requires Framed(kind) && AllWellFormed(kind, packets)
    ensures ParseChannel(kind, Concat(packets)) == Packets(packets, [], false)
  {
    if packets != [] {
      var s, t := packets[0], Concat(packets[1..]);
      WellFormedIsWhole(kind, s);
      WholeStays(kind, s, t);
      assert (s + t)[..|s|] == s && (s + t)[|s|..] == t;
      ChannelRoundTrip(kind, packets[1..]);
    }
  }

  /** Whole packets written one after the other are parsed back if and only if each has a payload. */
  lemma {:induction false} ChannelRoundTripExactly(kind: byte, packets: seq<bytes>)
    requires Framed(kind) && forall i | 0 <= i < |packets| :: Announced(kind, packets[i])
    ensures ParseChannel(kind, Concat(packets)) == Packets(packets, [], false)
            <==> forall i | 0 <= i < |packets| :: |packets[i]| > PreambleSize(kind)
  {
    ChannelAccounts(kind, Concat(packets));
    if AllWellFormed(kind, packets) {
      ChannelRoundTrip(kind, packets);
    }
  }

  // ----- H4: every packet behind its type -----

  datatype Frame = Frame(kind: byte, packet: bytes) {
    /** What the host can be sent, and receives. */
    predicate Valid() { Received(kind) && WellFormed(kind, packet) }
  }

  datatype Frames = Frames(frames: seq<Frame>, rest: bytes, fatal: bool)

  /** The reference for H4: the type, then a packet of that type. A type that is not received aborts. */
  function ParseH4(s: bytes): Frames
    decreases |s|
  {
    if s == [] then Frames([], s, false)
    else if !Received(s[0]) then Frames([], s, true)
    else
      match HeadOf(s[0], s[1..])
      case More => Frames([], s, false)
      case Stuck => Frames([], s, true)
      case Whole(n) =>
        var tail := ParseH4(s[1 + n..]);
        tail.(frames := [Frame(s[0], s[1..1 + n])] + tail.frames)
  }

  function FrameBytes(f: Frame): bytes { [f.kind] + f.packet }

  function Stream(fs: seq<Frame>): bytes {
    if fs == [] then [] else FrameBytes(fs[0]) + Stream(fs[1..])
  }

  /** The packets of one type, in order. */
  function PacketsOf(kind: byte, fs: seq<Frame>): seq<bytes> {
    if fs == [] then []
    else
      var n := |fs| - 1;
      PacketsOf(kind, fs[..n]) + if fs[n].kind == kind then [fs[n].packet] else []
  }

  predicate AllValid(fs: seq<Frame>) { forall i | 0 <= i < |fs| :: fs[i].Valid() }

  /** A type and a whole packet behind it are cut off; without them, nothing is. */
  lemma H4Step(s: bytes)
    ensures s == [] ==> ParseH4(s) == Frames([], s, false)
    ensures s != [] && !Received(s[0]) ==> ParseH4(s) == Frames([], s, true)
    ensures s != [] && Received(s[0]) ==>
              var h := HeadOf(s[0], s[1..]);
              ParseH4(s)
              == if h.Whole? then
                   var tail := ParseH4(s[1 + h.size..]);
                   Frames([Frame(s[0], s[1..1 + h.size])] + tail.frames, tail.rest, tail.fatal)
                 else Frames([], s, h.Stuck?)
  {
  }

  lemma StreamCons(f: Frame, fs: seq<Frame>)
    ensures Stream([f] + fs) == [f.kind] + f.packet + Stream(fs)
  {
    assert ([f] + fs)[1..] == fs;
  }

  /** Frames and remainder account for every byte, and every frame is one the host is sent. */
  lemma {:induction false} H4Accounts(s: bytes)
    ensures var p := ParseH4(s);
            Stream(p.frames) + p.rest == s && AllValid(p.frames)
    decreases |s|
  {
    H4Step(s);
    hide HeadOf, WellFormed, Received, ParseH4;
    if s != [] && Received(s[0]) && HeadOf(s[0], s[1..]).Whole? {
      var n := HeadOf(s[0], s[1..]).size;
      var packet, tail := s[1..1 + n], ParseH4(s[1 + n..]);
      H4Accounts(s[1 + n..]);
      StreamCons(Frame(s[0], packet), tail.frames);
      WholeIsWellFormed(s[0], s[1..]);
      assert s[1..][..n] == packet;
      assert [s[0]] + packet + Stream(tail.frames) + tail.rest == [s[0]] + packet + (Stream(tail.frames) + tail.rest);
      assert s == [s[0]] + packet + s[1 + n..];
    }
  }

  /** What has been cut off stays cut off when more of the stream arrives. */
  lemma {:induction false} H4Append(s: bytes, t: bytes)
    requires !ParseH4(s).fatal
    ensures var p := ParseH4(s);
            var q := ParseH4(p.rest + t);
            ParseH4(s + t) == Frames(p.frames + q.frames, q.rest, q.fatal)
    decreases |s|
  {
    H4Step(s);
    H4Step(s + t);
    hide HeadOf, Received, ParseH4;
    if s == [] {
      assert s + t == t;
    } else if HeadOf(s[0], s[1..]).Whole? {
      var n := HeadOf(s[0], s[1..]).size;
      WholeStays(s[0], s[1..], t);
      assert (s + t)[1..] == s[1..] + t;
      assert (s + t)[1..1 + n] == s[1..1 + n] && (s + t)[1 + n..] == s[1 + n..] + t;
      H4Append(s[1 + n..], t);
    }
  }

  /** The head of an H4 stream, cut off. */
  lemma ParseOne(kind: byte, s: bytes, n: nat)
    requires Received(kind) && HeadOf(kind, s) == Whole(n)
    ensures var tail := ParseH4(s[n..]);
            ParseH4([kind] + s) == Frames([Frame(kind, s[..n])] + tail.frames, tail.rest, tail.fatal)
  {
    var all := [kind] + s;
    H4Step(all);
    assert all[1..] == s && all[1..1 + n] == s[..n] && all[1 + n..] == s[n..];
  }

  /** A whole frame is cut off whatever follows it. */
  lemma FrameIsCut(f: Frame, t: bytes)
    requires f.Valid()
    ensures var tail := ParseH4(t);
            ParseH4([f.kind] + f.packet + t) == Frames([f] + tail.frames, tail.rest, tail.fatal)
  {
    hide HeadOf, ParseH4, WellFormed, PacketLength, Received, PreambleSize;
    var n, s := |f.packet|, f.packet + t;
    assert s[..n] == f.packet && s[n..] == t;
    assert [f.kind] + f.packet + t == [f.kind] + s;
    WellFormedIsWhole(f.kind, f.packet);
    WholeStays(f.kind, f.packet, t);
    ParseOne(f.kind, s, n);
  }

  /** Frames written one after the other are parsed back. */
  lemma {:induction false} H4RoundTrip(fs: seq<Frame>)
    requires AllValid(fs)
    ensures ParseH4(Stream(fs)) == Frames(fs, [], false)
  {
    if fs == [] {
      H4Step([]);
    } else {
      var f, rest := fs[0], fs[1..];
      H4RoundTrip(rest);
      assert fs == [f] + rest;
      StreamCons(f, rest);
      hide Stream, ParseH4;
      FrameIsCut(f, Stream(rest));
    }
  }

  /** Whole frames of received types, written one after the other, are parsed back if and only if each has a
      payload: the reader aborts behind a header that announces none, or waits there for more. */
  lemma {:induction false} H4RoundTripExactly(fs: seq<Frame>)
    requires forall i | 0 <= i < |fs| :: Received(fs[i].kind) && Announced(fs[i].kind, fs[i].packet)
    ensures ParseH4(Stream(fs)) == Frames(fs, [], false)
            <==> forall i | 0 <= i < |fs| :: |fs[i].packet| > PreambleSize(fs[i].kind)
  {
    hide ParseH4, Announced;
    H4Accounts(Stream(fs));
    if AllValid(fs) {
      H4RoundTrip(fs);
    }
  }

  // ----- packets by their bytes -----

  /** A packet as the specification's tables give it: opcode, connection handle or event code, and payload. */
  datatype Packet =
    | Command(opcode0: byte, opcode1: byte, payload: bytes)
    | AclData(handle0: byte, handle1: byte, payload: bytes)
    | ScoData(handle0: byte, handle1: byte, payload: bytes)
    | Event(code: byte, payload: bytes)
  {
    /** The payload is there, and its length fits the header's length field. */
    predicate Valid() { 0 < |payload| < if AclData? then 0x1_0000 else 0x100 }

    function TypeByte(): byte {
      match this
      case Command(_, _, _) => 0x01
      case AclData(_, _, _) => 0x02
      case ScoData(_, _, _) => 0x03
      case Event(_, _) => 0x04
    }

    function Bytes(): bytes
      requires Valid()
    {
      match this
      case Command(a, b, p) => [a, b, |p|] + p
      case AclData(a, b, p) => [a, b, |p| % 0x100, |p| / 0x100] + p
      case ScoData(a, b, p) => [a, b, |p|] + p
      case Event(a, p) => [a, |p|] + p
    }
  }

  /** The packet with these bytes. */
  function PacketOf(kind: byte, s: bytes): Packet
    requires WellFormed(kind, s)
  {
    match kind
    case 1 => Command(s[0], s[1], s[3..])
    case 2 => AclData(s[0], s[1], s[4..])
    case 3 => ScoData(s[0], s[1], s[3..])
    case _ => Event(s[0], s[2..])
  }

  /** The reader recognises a packet by exactly these bytes. */
  lemma PacketIsWhole(p: Packet)
    requires p.Valid()
    ensures WellFormed(p.TypeByte(), p.Bytes()) && HeadOf(p.TypeByte(), p.Bytes()) == Whole(|p.Bytes()|)
    ensures PacketOf(p.TypeByte(), p.Bytes()) == p
  {
    var n := |p.payload|;
    assert n == n % 0x100 + n / 0x100 * 0x100;
  }

  /** The well-formed packets of a type are the bytes of packets, and no others. */
  lemma WellFormedExactly(kind: byte, s: bytes)
    ensures WellFormed(kind, s) <==> exists p: Packet :: p.Valid() && p.TypeByte() == kind && p.Bytes() == s
  {
    if WellFormed(kind, s) {
      var p := PacketOf(kind, s);
      assert p.Valid() && p.TypeByte() == kind;
      assert p.Bytes() == s;
    }
    if p: Packet :| p.Valid() && p.TypeByte() == kind && p.Bytes() == s {
      PacketIsWhole(p);
    }
  }

  predicate Deliverable(ps: seq<Packet>) { forall i | 0 <= i < |ps| :: ps[i].Valid() && !ps[i].Command? }

  /** What goes over the wire: each packet behind its type byte. */
  function Wire(ps: seq<Packet>): bytes
    requires Deliverable(ps)
  {
    if ps == [] then [] else [ps[0].TypeByte()] + ps[0].Bytes() + Wire(ps[1..])
  }

  function FramesOf(ps: seq<Packet>): seq<Frame>
    requires Deliverable(ps)
  {
    if ps == [] then [] else [Frame(ps[0].TypeByte(), ps[0].Bytes())] + FramesOf(ps[1..])
  }

  /** Packets laid out by the specification's tables and written one after the other are parsed back, each under
      its own type. */
  lemma {:induction false} WireRoundTrip(ps: seq<Packet>)
    requires Deliverable(ps)
    ensures ParseH4(Wire(ps)) == Frames(FramesOf(ps), [], false)
  {
    if ps == [] {
      H4Step([]);
    } else {
      WireRoundTrip(ps[1..]);
      PacketIsWhole(ps[0]);
      hide ParseH4, WellFormed, HeadOf;
      FrameIsCut(Frame(ps[0].TypeByte(), ps[0].Bytes()), Wire(ps[1..]));
    }
  }
}
