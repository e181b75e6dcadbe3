/** The H4 transport: a type byte in front of each packet, both ways over one UART. */
module H4Protocol {
  import opened Bytes
  import opened HciFrames
  import opened HciPacketizer
  import opened HciProtocol

  class H4 {
    const uart: Uart
    /** hci_packet_type_. */
    var kind: byte
    const packetizer: Packetizer
    /** The packets that the three callbacks were made with. */
    var events: seq<bytes>
    var acls: seq<bytes>
    var scos: seq<bytes>
    var aborted: bool
    /** All callbacks, in the order in which they were made. */
    ghost var delivered: seq<Frame>
    /** Every byte read so far. */
    ghost var consumed: bytes
    /** What was given to Send, and whether all of it was written. */
    ghost var sent: seq<Frame>
    ghost var intact: bool

    constructor (uart: Uart)
      requires uart.wire == []
      ensures Valid() && this.uart == uart && uart.wire == old(uart.wire) && SentOnWire()
      ensures !aborted && delivered == [] && consumed == [] && sent == [] && intact && Dispatched()
      ensures fresh(packetizer) && fresh(packetizer.preamble) && fresh(packetizer.packet)
    {
      this.uart, kind, events, acls, scos, aborted := uart, UNKNOWN, [], [], [], false;
      packetizer := new Packetizer();
      delivered, consumed, sent, intact := [], [], [], true;
    }

    /** Each sink has got the packets of its own type, in order, and no others. */
    ghost predicate Dispatched()
      reads this
    {
      && events == PacketsOf(EVENT, delivered)
      && acls == PacketsOf(ACL_DATA, delivered)
      && scos == PacketsOf(SCO_DATA, delivered)
    }

    /** Chunk independence as an invariant: what has been delivered, and what is held back, are a
        function of the bytes read, however they were cut up. */
    ghost predicate Valid()
      reads this, packetizer, packetizer.preamble, packetizer.packet
    {
      if kind == UNKNOWN then packetizer.Idle() && ParseH4(consumed) == Frames(delivered, [], false)
      else
        && Received(kind) && packetizer.Valid(kind) && HeadOf(kind, packetizer.Got(kind)) == More
        && ParseH4(consumed) == Frames(delivered, [kind] + packetizer.Got(kind), false)
    }

    /** H4Protocol::OnDataReady. An abort delivers nothing, and is what the reference parse says of the
        bytes at hand. */
    method OnDataReady(fd: Fd)
      requires Valid() && !aborted && Dispatched()
      modifies this, packetizer, packetizer.preamble, packetizer.packet, fd
      ensures packetizer.packet == old(packetizer.packet) || fresh(packetizer.packet)
      ensures Dispatched()
      ensures old(consumed) + old(fd.pending) == consumed + fd.pending
      ensures sent == old(sent) && intact == old(intact)
      ensures !aborted ==> Valid() && |fd.pending| < |old(fd.pending)|
      ensures aborted ==> delivered == old(delivered)
      ensures aborted && old(fd.pending) != [] ==>
                var p := ParseH4(old(consumed) + old(fd.pending)); p.fatal && p.frames == delivered
    {
      if kind == UNKNOWN {
        ReadType(fd);
      } else {
        ReadPacket(fd);
      }
    }

    /** Where a type is expected, one byte is read. */
    method ReadType(fd: Fd)
      requires Valid() && !aborted && kind == UNKNOWN
      modifies this`kind, this`aborted, this`consumed, fd
      ensures old(consumed) + old(fd.pending) == consumed + fd.pending
      ensures !aborted ==> Valid() && |fd.pending| < |old(fd.pending)|
      ensures aborted && old(fd.pending) != [] ==>
                var p := ParseH4(old(consumed) + old(fd.pending)); p.fatal && p.frames == delivered
    {
      hide ParseH4, HeadOf;
      ghost var s := consumed;
      var buffer := fd.Read(1);
      consumed := consumed + buffer;
      if |buffer| != 1 {
        aborted := true;
        return;
      }
      kind := buffer[0];
      assert buffer == [kind];
      if kind != ACL_DATA && kind != SCO_DATA && kind != EVENT {
        aborted := true;
      }
      TypeRead(s, delivered, kind, fd.pending);
      assert [kind] + [] == [kind];
    }

    /** Behind a type, the packetizer reads. */
    method ReadPacket(fd: Fd)
      requires Valid() && !aborted && kind != UNKNOWN && Dispatched()
      modifies this`kind, this`aborted, this`consumed, this`delivered, this`events, this`acls, this`scos
      modifies packetizer, packetizer.preamble, packetizer.packet, fd
      ensures packetizer.packet == old(packetizer.packet) || fresh(packetizer.packet)
      ensures Dispatched()
      ensures old(consumed) + old(fd.pending) == consumed + fd.pending
      ensures !aborted ==> Valid() && |fd.pending| < |old(fd.pending)|
      ensures aborted ==> delivered == old(delivered)
      ensures aborted && old(fd.pending) != [] ==>
                var p := ParseH4(old(consumed) + old(fd.pending)); p.fatal && p.frames == delivered
    {
      hide ParseH4, HeadOf, Received, Framed, PacketsOf;
      ghost var s, t, held := consumed, fd.pending, packetizer.Got(kind);
      ghost var got;
      var outcome;
      outcome, got := packetizer.OnDataReady(fd, kind);
      consumed := consumed + got;
      match outcome {
        case Waiting =>
          StillWaiting(s, delivered, kind, held, got);
        case Ready =>
          PacketDone(s, delivered, kind, held, got);
          OnPacketReady();
        case Fatal =>
          aborted := true;
          if t != [] {
            StuckFor(s, delivered, kind, held, t);
          }
      }
    }

    /** H4Protocol::OnPacketReady: the packet goes to the sink of its type; any other type aborts. */
    method OnPacketReady()
      requires Dispatched()
      modifies this`kind, this`delivered, this`events, this`acls, this`scos, this`aborted
      ensures Dispatched()
      ensures Received(old(kind)) ==>
                delivered == old(delivered) + [Frame(old(kind), packetizer.packet[..])] && kind == UNKNOWN
                && aborted == old(aborted)
      ensures !Received(old(kind)) ==> aborted && delivered == old(delivered)
    {
      var packet := packetizer.packet[..];
      if kind == EVENT {
        events := events + [packet];
      } else if kind == ACL_DATA {
        acls := acls + [packet];
      } else if kind == SCO_DATA {
        scos := scos + [packet];
      } else {
        aborted := true;
        return;
      }
      PacketsOfOneMore(delivered, Frame(kind, packet));
      delivered := delivered + [Frame(kind, packet)];
      kind := UNKNOWN;
    }

    /** The watcher's loop over a stream that arrives in these chunks, at any moment between two reads,
        and is read in pieces of any size: delivered packets, remainder and abort are those of one
        parse of the whole stream. */
    method Serve(fd: Fd, chunks: seq<bytes>)
      requires Valid() && !aborted && Dispatched() && fd.pending == []
      modifies this, packetizer, packetizer.preamble, packetizer.packet, fd
      ensures var p := ParseH4(old(consumed) + Concat(chunks));
              && events == PacketsOf(EVENT, p.frames) && acls == PacketsOf(ACL_DATA, p.frames)
              && scos == PacketsOf(SCO_DATA, p.frames)
              && delivered == p.frames && aborted == p.fatal
      ensures !aborted ==> Valid() && fd.pending == [] && consumed == old(consumed) + Concat(chunks)
    {
      hide Valid, ParseH4, HeadOf, Concat, PacketsOf;
      ghost var all := consumed + Concat(chunks);
      var i := 0;
      assert chunks[0..] == chunks;
      while (i < |chunks| || fd.pending != []) && !aborted
        invariant 0 <= i <= |chunks|
        invariant packetizer.packet == old(packetizer.packet) || fresh(packetizer.packet)
        invariant Dispatched()
        invariant consumed + (fd.pending + Concat(chunks[i..])) == all
        invariant !aborted ==> Valid()
        invariant aborted ==> ParseH4(all).fatal && ParseH4(all).frames == delivered
        decreases !aborted, |Concat(chunks[i..])| + |fd.pending|, |chunks| - i
      {
        var arrives: bool := *;
        if i < |chunks| && (fd.pending == [] || arrives) {
          NextChunk(chunks, i);
          assert (fd.pending + chunks[i]) + Concat(chunks[i + 1..])
              == fd.pending + (chunks[i] + Concat(chunks[i + 1..]));
          fd.pending := fd.pending + chunks[i];
          i := i + 1;
        } else {
          ghost var arrived, later := consumed + fd.pending, Concat(chunks[i..]);
          assert all == arrived + later;
          OnDataReady(fd);
          assert consumed + (fd.pending + later) == (consumed + fd.pending) + later;
          if aborted {
            FatalStays(arrived, later);
          }
        }
      }
      if !aborted {
        assert chunks[i..] == [];
        ConcatNothing();
        assert consumed + ([] + []) == consumed;
        DeliveredSoFar();
      }
    }

    lemma DeliveredSoFar()
      requires Valid()
      ensures ParseH4(consumed).frames == delivered && !ParseH4(consumed).fatal
    {
    }

    /** While every write has been complete, the wire carries exactly what was sent. */
    ghost predicate SentOnWire()
      reads this, uart
    {
      intact ==> uart.wire == Stream(sent)
    }

    /** H4Protocol::Send: one gathered write of type and packet, repeated only while it must be retried. */
    method Send(type': byte, data: bytes) returns (ret: int)
      requires SentOnWire()
      modifies uart, this`sent, this`intact
      ensures -1 <= ret <= |data| + 1
      ensures uart.wire == old(uart.wire) + ([type'] + data)[..if ret < 0 then 0 else ret]
      ensures sent == old(sent) + [Frame(type', data)] && intact == (old(intact) && ret == |data| + 1)
      ensures SentOnWire()
    {
      var iov := [type'] + data;
      var r := uart.Write(iov);
      while r == Again
        invariant sent == old(sent) && intact == old(intact)
        invariant r == Again ==> uart.wire == old(uart.wire)
        invariant r == Failed ==> uart.wire == old(uart.wire)
        invariant r.Wrote? ==> r.n <= |iov| && uart.wire == old(uart.wire) + iov[..r.n]
        decreases uart.patience, r == Again
      {
        r := uart.Write(iov);
      }
      ret := if r == Failed then -1 else r.n;
      SendsOneMore(sent, Frame(type', data));
      sent := sent + [Frame(type', data)];
      intact := intact && ret == |data| + 1;
    }
  }

  /** Frames sent by one end and received by the other, the stream arriving in any chunks and read in any
      pieces: unless a write fell short, each sink gets exactly the packets of its type, in order. */
  method Exchange(sender: H4, receiver: H4, fd: Fd, frames: seq<Frame>)
    requires sender != receiver && AllValid(frames)
    requires sender.uart.wire == [] && sender.sent == [] && sender.intact && sender.SentOnWire()
    requires receiver.Valid() && receiver.Dispatched() && !receiver.aborted && receiver.consumed == []
    requires fd.pending == []
    modifies sender, sender.uart, fd, receiver
    modifies receiver.packetizer, receiver.packetizer.preamble, receiver.packetizer.packet
    ensures sender.sent == frames
    ensures sender.intact ==>
              && !receiver.aborted && receiver.delivered == frames
              && receiver.events == PacketsOf(EVENT, frames)
              && receiver.acls == PacketsOf(ACL_DATA, frames)
              && receiver.scos == PacketsOf(SCO_DATA, frames)
  {
    hide ParseH4, HeadOf, PacketsOf, Stream, Concat;
    SendAll(sender, frames);
    ConcatOne(sender.uart.wire);
    var chunks :| Concat(chunks) == sender.uart.wire;
    assert [] + Concat(chunks) == Concat(chunks);
    receiver.Serve(fd, chunks);
    H4RoundTrip(frames);
  }

  /** Sends one frame after the other. */
  method SendAll(sender: H4, frames: seq<Frame>)
    requires sender.sent == [] && sender.SentOnWire()
    modifies sender.uart, sender`sent, sender`intact
    ensures sender.sent == frames && sender.SentOnWire()
  {
    var i := 0;
    while i < |frames|
      invariant 0 <= i <= |frames| && sender.sent == frames[..i] && sender.SentOnWire()
    {
      var ret := sender.Send(frames[i].kind, frames[i].packet);
      assert frames[..i + 1] == frames[..i] + [frames[i]];
      i := i + 1;
    }
  }

  lemma ConcatOne(chunk: bytes)
    ensures Concat([chunk]) == chunk
  {
  }

  lemma PacketsOfOneMore(fs: seq<Frame>, f: Frame)
    ensures forall kind: byte ::
              PacketsOf(kind, fs + [f]) == PacketsOf(kind, fs) + if f.kind == kind then [f.packet] else []
  {
    assert (fs + [f])[..|fs|] == fs;
  }

  lemma {:induction false} SendsOneMore(fs: seq<Frame>, f: Frame)
    ensures Stream(fs + [f]) == Stream(fs) + ([f.kind] + f.packet)
  {
    hide Stream;
    if fs == [] {
      StreamCons(f, []);
      assert [] + [f] == [f] + [];
      StreamOfNone();
    } else {
      var first, rest := fs[0], fs[1..];
      SendsOneMore(rest, f);
      StreamCons(first, rest);
      StreamCons(first, rest + [f]);
      assert fs == [first] + rest && fs + [f] == [first] + (rest + [f]);
    }
  }

  lemma StreamOfNone()
    ensures Stream([]) == []
  {
  }

  lemma ConcatNothing()
    ensures Concat([]) == []
  {
  }

  lemma NextChunk(chunks: seq<bytes>, i: nat)
    requires i < |chunks|
    ensures Concat(chunks[i..]) == chunks[i] + Concat(chunks[i + 1..])
  {
    assert chunks[i..][1..] == chunks[i + 1..];
  }

  // ----- the reference parse, read by read -----

  /** A type is read where one is expected. */
  lemma TypeRead(s: bytes, delivered: seq<Frame>, kind: byte, pending: bytes)
    requires ParseH4(s) == Frames(delivered, [], false)
    ensures Received(kind) ==> HeadOf(kind, []) == More
    ensures Received(kind) ==> ParseH4(s + [kind]) == Frames(delivered, [kind], false)
    ensures !Received(kind) ==>
              var p := ParseH4(s + ([kind] + pending)); p.fatal && p.frames == delivered
  {
    H4Append(s, [kind]);
    H4Append(s, [kind] + pending);
    H4Step([kind]);
    H4Step([kind] + pending);
    assert [] + [kind] == [kind] && [] + ([kind] + pending) == [kind] + pending;
  }

  /** What is held back still is not a packet. */
  lemma StillWaiting(s: bytes, delivered: seq<Frame>, kind: byte, held: bytes, got: bytes)
    requires Received(kind) && ParseH4(s) == Frames(delivered, [kind] + held, false)
    requires HeadOf(kind, held + got) == More
    ensures ParseH4(s + got) == Frames(delivered, [kind] + (held + got), false)
  {
    hide HeadOf;
    H4Append(s, got);
    Regroup(kind, held, got);
    H4Step([kind] + (held + got));
  }

  /** What was held back has become a packet. */
  lemma PacketDone(s: bytes, delivered: seq<Frame>, kind: byte, held: bytes, got: bytes)
    requires Received(kind) && ParseH4(s) == Frames(delivered, [kind] + held, false)
    requires HeadOf(kind, held + got) == Whole(|held + got|)
    ensures ParseH4(s + got) == Frames(delivered + [Frame(kind, held + got)], [], false)
  {
    hide HeadOf;
    H4Append(s, got);
    Regroup(kind, held, got);
    ParseOne(kind, held + got, |held + got|);
    assert (held + got)[|held + got|..] == [] && (held + got)[..|held + got|] == held + got;
    H4Step([]);
  }

  /** What is held back is the header of a packet without payload, and something follows. */
  lemma StuckFor(s: bytes, delivered: seq<Frame>, kind: byte, held: bytes, pending: bytes)
    requires Received(kind) && ParseH4(s) == Frames(delivered, [kind] + held, false)
    requires HeadOf(kind, held + pending) == Stuck
    ensures var p := ParseH4(s + pending); p.fatal && p.frames == delivered
  {
    hide HeadOf;
    H4Append(s, pending);
    Regroup(kind, held, pending);
    H4Step([kind] + (held + pending));
  }

  lemma Regroup(kind: byte, held: bytes, got: bytes)
    ensures ([kind] + held) + got == [kind] + (held + got)
    ensures ([kind] + (held + got))[1..] == held + got
  {
  }

  /** Nothing that arrives later undoes an abort. */
  lemma {:induction false} FatalStays(s: bytes, t: bytes)
    requires ParseH4(s).fatal
    ensures ParseH4(s + t).fatal && ParseH4(s + t).frames == ParseH4(s).frames
    decreases |s|
  {
    H4Step(s);
    H4Step(s + t);
    hide ParseH4, Received;
    assert (s + t)[1..] == s[1..] + t;
    if Received(s[0]) {
      var h := HeadOf(s[0], s[1..]);
      HeadStays(s[0], s[1..], t);
      hide HeadOf;
      if h.Whole? {
        assert (s + t)[1 + h.size..] == s[1 + h.size..] + t;
        assert (s + t)[1..1 + h.size] == s[1..1 + h.size];
        FatalStays(s[1 + h.size..], t);
      }
    }
  }
}
