/** The packetizer: arbitrary short reads, header first, then payload, assembled into whole packets. */
module HciPacketizer {
  import opened Bytes
  import opened HciFrames

  /** A descriptor whose reads return what is pending in pieces of the kernel's choosing; nothing pending
      reads as the end of the stream. */
  class Fd {
    var pending: bytes

    constructor ()
      ensures pending == []
    {
      pending := [];
    }

    method Read(n: nat) returns (got: bytes)
      modifies this
      ensures old(pending) == got + pending && |got| <= n
      ensures n > 0 && old(pending) != [] ==> got != []
    {
      if n == 0 || pending == [] {
        return [];
      }
      var k :| 1 <= k <= n && k <= |pending|;
      got, pending := pending[..k], pending[k..];
    }
  }

  /** What a call leads to: wait for more, the packet-ready callback, or an abort. */
  datatype Outcome = Waiting | Ready | Fatal

  const PREAMBLE_SIZE_MAX := 4

  class Packetizer {
    /** HCI_PAYLOAD rather than HCI_PREAMBLE. */
    var payload: bool
    const preamble: array<byte>
    var packet: array<byte>
    var bytesRemaining: nat
    var bytesRead: nat

    constructor ()
      ensures !payload && bytesRead == 0 && preamble.Length == PREAMBLE_SIZE_MAX && preamble != packet
      ensures fresh(preamble) && fresh(packet)
    {
      payload, bytesRemaining, bytesRead := false, 0, 0;
      preamble, packet := new byte[PREAMBLE_SIZE_MAX](i => 0), new byte[0];
    }

    ghost predicate Valid(kind: byte)
      reads this, preamble, packet
    {
      var n := PreambleSize(kind);
      && Framed(kind) && preamble.Length == PREAMBLE_SIZE_MAX && preamble != packet
      && if !payload then bytesRead < n
         else && n + bytesRead + bytesRemaining == packet.Length
              && packet.Length == n + PacketLength(kind, packet[..n])
              && (bytesRemaining == 0 ==> packet.Length == n)
    }

    /** Between two packets. */
    ghost predicate Idle()
      reads this, preamble, packet
    {
      !payload && bytesRead == 0 && preamble.Length == PREAMBLE_SIZE_MAX && preamble != packet
    }

    /** The bytes of the packet being assembled. */
    ghost function Got(kind: byte): bytes
      requires Valid(kind)
      reads this, preamble, packet
    {
      if payload then packet[..PreambleSize(kind) + bytesRead] else preamble[..bytesRead]
    }

    /** HciPacketizer::OnDataReady. What was read extends what is assembled, which is never a whole
        packet between calls; a whole packet is announced at once; an abort means that the stream ended
        or that a packet without payload is followed by something. */
    method OnDataReady(fd: Fd, kind: byte) returns (outcome: Outcome, ghost got: bytes)
      requires Valid(kind)
      modifies this, preamble, packet, fd
      ensures packet == old(packet) || fresh(packet)
      ensures old(fd.pending) == got + fd.pending
      ensures outcome == Waiting ==>
                Valid(kind) && got != [] && Got(kind) == old(Got(kind)) + got && HeadOf(kind, Got(kind)) == More
      ensures outcome == Ready ==>
                && Idle() && got != [] && packet[..] == old(Got(kind)) + got
                && HeadOf(kind, packet[..]) == Whole(packet.Length)
      ensures outcome == Fatal ==>
                && got == [] && Valid(kind) && Got(kind) == old(Got(kind))
                && (old(fd.pending) == [] || HeadOf(kind, Got(kind) + old(fd.pending)) == Stuck)
    {
      if !payload {
        outcome, got := ReadPreamble(fd, kind);
      } else {
        outcome, got := ReadPayload(fd, kind);
      }
    }

    /** The case HCI_PREAMBLE. */
    method ReadPreamble(fd: Fd, kind: byte) returns (outcome: Outcome, ghost got: bytes)
      requires Valid(kind) && !payload
      modifies this, preamble, packet, fd
      ensures packet == old(packet) || fresh(packet)
      ensures old(fd.pending) == got + fd.pending && Valid(kind) && Got(kind) == old(Got(kind)) + got
      ensures outcome == Waiting ==> got != [] && HeadOf(kind, Got(kind)) == More
      ensures outcome == Fatal ==> got == [] && old(fd.pending) == []
      ensures outcome != Ready
    {
      hide HeadOf, PacketLength;
      var n := PreambleSize(kind);
      var buffer := fd.Read(n - bytesRead);
      got := buffer;
      if buffer == [] {
        return Fatal, got;
      }
      ReadInto(preamble, bytesRead, buffer);
      bytesRead := bytesRead + |buffer|;
      outcome := Waiting;
      HeaderIsNotAPacket(kind, preamble[..bytesRead]);
      if bytesRead == n {
        StartPayload(kind);
      }
    }

    /** The header is complete: room is made for the whole packet behind a copy of it. */
    method StartPayload(kind: byte)
      requires Framed(kind) && bytesRead == PreambleSize(kind) && preamble.Length == PREAMBLE_SIZE_MAX
      modifies this
      ensures fresh(packet) && payload && Valid(kind) && Got(kind) == preamble[..old(bytesRead)]
    {
      hide PacketLength;
      var n := PreambleSize(kind);
      var length := PacketLength(kind, preamble[..]);
      SameLength(kind, preamble[..], preamble[..n]);
      packet := new byte[n + length](i => 0);
      ReadInto(packet, 0, preamble[..n]);
      assert packet[..n] == preamble[..n];
      bytesRemaining, payload, bytesRead := length, true, 0;
    }

    /** The case HCI_PAYLOAD. */
    method ReadPayload(fd: Fd, kind: byte) returns (outcome: Outcome, ghost got: bytes)
      requires Valid(kind) && payload
      modifies this, packet, fd
      ensures packet == old(packet)
      ensures old(fd.pending) == got + fd.pending
      ensures outcome == Waiting ==>
                Valid(kind) && got != [] && Got(kind) == old(Got(kind)) + got && HeadOf(kind, Got(kind)) == More
      ensures outcome == Ready ==>
                && Idle() && got != [] && packet[..] == old(Got(kind)) + got
                && HeadOf(kind, packet[..]) == Whole(packet.Length)
      ensures outcome == Fatal ==>
                && got == [] && Valid(kind) && Got(kind) == old(Got(kind))
                && (old(fd.pending) == [] || HeadOf(kind, Got(kind) + old(fd.pending)) == Stuck)
    {
      hide HeadOf, PacketLength;
      var n := PreambleSize(kind);
      ghost var held := Got(kind);
      assert held[..n] == packet[..n];
      var buffer := fd.Read(bytesRemaining);
      got := buffer;
      if buffer == [] {
        SameLength(kind, held, packet[..n]);
        StuckBehindHeader(kind, held, old(fd.pending));
        return Fatal, got;
      }
      outcome := TakePayload(kind, buffer);
    }

    /** What was read goes behind what is there. */
    method TakePayload(kind: byte, buffer: bytes) returns (outcome: Outcome)
      requires Valid(kind) && payload && 0 < |buffer| <= bytesRemaining
      modifies this, packet
      ensures packet == old(packet)
      ensures outcome == Waiting ==>
                Valid(kind) && Got(kind) == old(Got(kind)) + buffer && HeadOf(kind, Got(kind)) == More
      ensures outcome == Ready ==>
                && Idle() && packet[..] == old(Got(kind)) + buffer
                && HeadOf(kind, packet[..]) == Whole(packet.Length)
      ensures outcome != Fatal
    {
      hide HeadOf, PacketLength;
      var n := PreambleSize(kind);
      ghost var held, header := Got(kind), packet[..n];
      assert header == held[..n];
      ReadInto(packet, n + bytesRead, buffer);
      bytesRemaining := bytesRemaining - |buffer|;
      bytesRead := bytesRead + |buffer|;
      assert packet[..n + bytesRead] == held + buffer;
      assert packet[..n] == header by {
        assert packet[..n] == (held + buffer)[..n];
      }
      HeadOfAssembled(kind, header, held + buffer, packet.Length);
      if bytesRemaining == 0 {
        assert packet[..] == packet[..n + bytesRead];
        payload, bytesRead := false, 0;
        return Ready;
      }
      outcome := Waiting;
    }
  }

  /** The length is read from the header alone. */
  lemma SameLength(kind: byte, s: bytes, header: bytes)
    requires Framed(kind) && |header| == PreambleSize(kind) && header <= s
    ensures PacketLength(kind, s) == PacketLength(kind, header)
  {
  }

  /** No more than a header is not yet a packet. */
  lemma HeaderIsNotAPacket(kind: byte, s: bytes)
    requires Framed(kind) && |s| <= PreambleSize(kind)
    ensures HeadOf(kind, s) == More
  {
  }

  /** A header and the beginning of its payload. */
  lemma HeadOfAssembled(kind: byte, header: bytes, s: bytes, size: nat)
    requires Framed(kind) && |header| == PreambleSize(kind) && header <= s
    requires |header| < |s| <= size == |header| + PacketLength(kind, header)
    ensures HeadOf(kind, s) == if |s| == size then Whole(size) else More
  {
    SameLength(kind, s, header);
  }

  /** What `read` stores through its buffer pointer. */
  method ReadInto(a: array<byte>, at: nat, data: bytes)
    requires at + |data| <= a.Length
    modifies a
    ensures a[..at + |data|] == old(a[..at]) + data
    ensures a[at + |data|..] == old(a[at + |data|..])
  {
    forall i | 0 <= i < |data| {
      a[at + i] := data[i];
    }
  }

  /** A read of no bytes behind a complete header happens only when the header announces none. */
  lemma StuckBehindHeader(kind: byte, header: bytes, pending: bytes)
    requires Framed(kind) && |header| >= PreambleSize(kind)
    requires pending != [] ==> |header| == PreambleSize(kind) && PacketLength(kind, header) == 0
    ensures pending == [] || HeadOf(kind, header + pending) == Stuck
  {
    if pending != [] {
      assert PacketLength(kind, header + pending) == PacketLength(kind, header);
    }
  }
}
