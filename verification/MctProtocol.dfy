/** The multi-channel transport: events and ACL data each on a channel of their own, no type bytes. */
module MctProtocol {
  import opened Bytes
  import opened HciFrames
  import opened HciPacketizer
  import opened HciProtocol

  /** What a channel has delivered and holds back is a function of the bytes read from it. */
  ghost predicate Tracks(p: Packetizer, kind: byte, delivered: seq<bytes>, consumed: bytes)
    reads p, p.preamble, p.packet
  {
    && p.Valid(kind) && HeadOf(kind, p.Got(kind)) == More
    && ParseChannel(kind, consumed) == Packets(delivered, p.Got(kind), false)
  }

  /** One read of a channel: the packetizer reads, and its callback takes a whole packet. The new
      list of packets is returned, unless the read aborts. */
  method OnChannelDataReady(p: Packetizer, fd: Fd, kind: byte, delivered: seq<bytes>, ghost consumed: bytes)
      returns (delivered': seq<bytes>, ghost consumed': bytes, fatal: bool)
    requires Tracks(p, kind, delivered, consumed)
    modifies p, p.preamble, p.packet, fd
    ensures p.packet == old(p.packet) || fresh(p.packet)
    ensures consumed + old(fd.pending) == consumed' + fd.pending
    ensures !fatal ==> Tracks(p, kind, delivered', consumed') && |fd.pending| < |old(fd.pending)|
    ensures fatal ==> delivered' == delivered
    ensures fatal && old(fd.pending) != [] ==>
              var q := ParseChannel(kind, consumed + old(fd.pending)); q.fatal && q.packets == delivered
  {
    hide ParseChannel, HeadOf;
    ghost var held, t := p.Got(kind), fd.pending;
    ghost var got;
    var outcome;
    outcome, got := p.OnDataReady(fd, kind);
    consumed' := consumed + got;
    delivered', fatal := delivered, false;
    ChannelAppend(kind, consumed, got);
    ChannelStep(kind, held + got);
    match outcome {
      case Waiting =>
        assert delivered + [] == delivered;
      case Ready =>
        delivered' := delivered + [p.packet[..]];
        NothingYet(kind);
        assert (held + got)[|held + got|..] == [] && (held + got)[..|held + got|] == held + got;
      case Fatal =>
        fatal := true;
        if t != [] {
          ChannelAppend(kind, consumed, t);
          ChannelStep(kind, held + t);
        }
    }
  }

  lemma NothingYet(kind: byte)
    requires Framed(kind)
    ensures HeadOf(kind, []) == More && ParseChannel(kind, []) == Packets([], [], false)
  {
  }

  class Mct {
    const command: Uart
    const aclOut: Uart
    const eventPacketizer: Packetizer
    const aclPacketizer: Packetizer
    /** The packets the two callbacks were made with. */
    var events: seq<bytes>
    var acls: seq<bytes>
    var aborted: bool
    ghost var eventsRead: bytes
    ghost var aclsRead: bytes
    /** What was given to Send, and whether all of it was written. */
    ghost var sentCommands: seq<bytes>
    ghost var sentAcls: seq<bytes>
    ghost var intact: bool

    constructor (command: Uart, aclOut: Uart)
      requires command != aclOut && command.wire == [] && aclOut.wire == []
      ensures Valid() && !aborted && events == [] && acls == [] && eventsRead == [] && aclsRead == []
      ensures this.command == command && this.aclOut == aclOut && intact && sentCommands == [] && sentAcls == []
      ensures SentOnWires()
      ensures fresh(eventPacketizer) && fresh(eventPacketizer.preamble) && fresh(eventPacketizer.packet)
      ensures fresh(aclPacketizer) && fresh(aclPacketizer.preamble) && fresh(aclPacketizer.packet)
    {
      this.command, this.aclOut := command, aclOut;
      eventPacketizer := new Packetizer();
      aclPacketizer := new Packetizer();
      events, acls, aborted, eventsRead, aclsRead := [], [], false, [], [];
      sentCommands, sentAcls, intact := [], [], true;
      new;
      NothingYet(EVENT);
      NothingYet(ACL_DATA);
    }

    ghost predicate Apart()
      reads this, eventPacketizer, aclPacketizer
    {
      && eventPacketizer != aclPacketizer
      && {eventPacketizer.preamble, eventPacketizer.packet} !! {aclPacketizer.preamble, aclPacketizer.packet}
    }

    ghost predicate Valid()
      reads this, eventPacketizer, eventPacketizer.preamble, eventPacketizer.packet
      reads aclPacketizer, aclPacketizer.preamble, aclPacketizer.packet
    {
      && Apart()
      && Tracks(eventPacketizer, EVENT, events, eventsRead)
      && Tracks(aclPacketizer, ACL_DATA, acls, aclsRead)
    }

    /** MctProtocol::OnEventDataReady. */
    method OnEventDataReady(fd: Fd)
      requires Valid() && !aborted
      modifies this`events, this`aborted, this`eventsRead
      modifies eventPacketizer, eventPacketizer.preamble, eventPacketizer.packet, fd
      ensures eventPacketizer.packet == old(eventPacketizer.packet) || fresh(eventPacketizer.packet)
      ensures old(eventsRead) + old(fd.pending) == eventsRead + fd.pending
      ensures !aborted ==> Valid() && |fd.pending| < |old(fd.pending)|
      ensures Apart() && Tracks(aclPacketizer, ACL_DATA, acls, aclsRead)
      ensures aborted ==> events == old(events)
      ensures aborted && old(fd.pending) != [] ==>
                var q := ParseChannel(EVENT, old(eventsRead) + old(fd.pending)); q.fatal && q.packets == events
    {
      hide ParseChannel, HeadOf;
      events, eventsRead, aborted := OnChannelDataReady(eventPacketizer, fd, EVENT, events, eventsRead);
    }

    /** MctProtocol::OnAclDataReady. */
    method OnAclDataReady(fd: Fd)
      requires Valid() && !aborted
      modifies this`acls, this`aborted, this`aclsRead
      modifies aclPacketizer, aclPacketizer.preamble, aclPacketizer.packet, fd
      ensures aclPacketizer.packet == old(aclPacketizer.packet) || fresh(aclPacketizer.packet)
      ensures old(aclsRead) + old(fd.pending) == aclsRead + fd.pending
      ensures !aborted ==> Valid() && |fd.pending| < |old(fd.pending)|
      ensures Apart() && Tracks(eventPacketizer, EVENT, events, eventsRead)
      ensures aborted ==> acls == old(acls)
      ensures aborted && old(fd.pending) != [] ==>
                var q := ParseChannel(ACL_DATA, old(aclsRead) + old(fd.pending)); q.fatal && q.packets == acls
    {
      hide ParseChannel, HeadOf;
      acls, aclsRead, aborted := OnChannelDataReady(aclPacketizer, fd, ACL_DATA, acls, aclsRead);
    }

    /** While every write has been complete, the wires carry exactly what was sent. */
    ghost predicate SentOnWires()
      reads this, command, aclOut
    {
      && command != aclOut
      && (intact ==> command.wire == Concat(sentCommands) && aclOut.wire == Concat(sentAcls))
    }

    /** MctProtocol::Send. Only commands and ACL data have a channel; another type aborts. */
    method Send(type': byte, data: bytes) returns (ret: nat)
      requires SentOnWires()
      modifies command, aclOut, this`sentCommands, this`sentAcls, this`intact, this`aborted
      ensures SentOnWires() && ret <= |data|
      ensures aborted == (old(aborted) || (type' != COMMAND && type' != ACL_DATA))
      ensures command.wire == old(command.wire) + if type' == COMMAND then data[..ret] else []
      ensures aclOut.wire == old(aclOut.wire) + if type' == ACL_DATA then data[..ret] else []
      ensures sentCommands == old(sentCommands) + if type' == COMMAND then [data] else []
      ensures sentAcls == old(sentAcls) + if type' == ACL_DATA then [data] else []
      ensures intact == (old(intact) && (ret == |data| || (type' != COMMAND && type' != ACL_DATA)))
      ensures ret < |data| ==> (type' == COMMAND && command.gaveUp) || (type' == ACL_DATA && aclOut.gaveUp)
                               || (type' != COMMAND && type' != ACL_DATA)
      ensures (old(command.gaveUp) ==> command.gaveUp) && (old(aclOut.gaveUp) ==> aclOut.gaveUp)
    {
      if type' == COMMAND {
        ConcatAppend(sentCommands, data);
        ret := WriteSafely(command, data);
        sentCommands, intact := sentCommands + [data], intact && ret == |data|;
      } else if type' == ACL_DATA {
        ConcatAppend(sentAcls, data);
        ret := WriteSafely(aclOut, data);
        sentAcls, intact := sentAcls + [data], intact && ret == |data|;
      } else {
        aborted := true;
        ret := 0;
      }
    }

    /** The watcher's loop over both channels, the bytes of each arriving at any moment and read in pieces
        of any size, in any order between the channels. */
    method Serve(eventFd: Fd, aclFd: Fd, eventStream: bytes, aclStream: bytes)
      requires Valid() && !aborted && eventFd != aclFd && eventFd.pending == [] && aclFd.pending == []
      modifies this`events, this`aborted, this`eventsRead, this`acls, this`aclsRead, eventFd, aclFd
      modifies eventPacketizer, eventPacketizer.preamble, eventPacketizer.packet
      modifies aclPacketizer, aclPacketizer.preamble, aclPacketizer.packet
      ensures var e := ParseChannel(EVENT, old(eventsRead) + eventStream);
              var a := ParseChannel(ACL_DATA, old(aclsRead) + aclStream);
              && (!aborted ==> !e.fatal && !a.fatal && events == e.packets && acls == a.packets)
              && (aborted ==> (e.fatal && events == e.packets && acls <= a.packets)
                              || (a.fatal && acls == a.packets && events <= e.packets))
    {
      hide ParseChannel, HeadOf, Tracks, Died;
      ghost var allEvents, allAcls := eventsRead + eventStream, aclsRead + aclStream;
      var es, as' := eventStream, aclStream;
      while
        invariant eventPacketizer.packet == old(eventPacketizer.packet) || fresh(eventPacketizer.packet)
        invariant aclPacketizer.packet == old(aclPacketizer.packet) || fresh(aclPacketizer.packet)
        invariant eventsRead + (eventFd.pending + es) == allEvents
        invariant aclsRead + (aclFd.pending + as') == allAcls
        invariant !aborted ==> Valid()
        invariant aborted ==> Died(allEvents, allAcls)
        decreases !aborted, |es| + |as'| + |eventFd.pending| + |aclFd.pending|, |es| + |as'|
      {
        case !aborted && es != [] =>
          var n :| 1 <= n <= |es|;
          Arrive(eventsRead, eventFd.pending, es, n);
          eventFd.pending, es := eventFd.pending + es[..n], es[n..];
        case !aborted && as' != [] =>
          var n :| 1 <= n <= |as'|;
          Arrive(aclsRead, aclFd.pending, as', n);
          aclFd.pending, as' := aclFd.pending + as'[..n], as'[n..];
        case !aborted && eventFd.pending != [] =>
          Grouped(eventsRead, eventFd.pending, es);
          OnEventDataReady(eventFd);
          Grouped(eventsRead, eventFd.pending, es);
          if aborted {
            EventsDied(eventsRead + eventFd.pending, es, aclFd.pending + as');
          }
        case !aborted && aclFd.pending != [] =>
          Grouped(aclsRead, aclFd.pending, as');
          OnAclDataReady(aclFd);
          Grouped(aclsRead, aclFd.pending, as');
          if aborted {
            AclsDied(aclsRead + aclFd.pending, as', eventFd.pending + es);
          }
      }
      if aborted {
        DiedMeans(allEvents, allAcls);
      } else {
        assert eventFd.pending + es == [] && aclFd.pending + as' == [];
        assert eventsRead + [] == eventsRead && aclsRead + [] == aclsRead;
        DeliveredSoFar(eventPacketizer, EVENT, events, eventsRead, []);
        DeliveredSoFar(aclPacketizer, ACL_DATA, acls, aclsRead, []);
      }
    }

    lemma DiedMeans(allEvents: bytes, allAcls: bytes)
      requires Died(allEvents, allAcls)
      ensures var e, a := ParseChannel(EVENT, allEvents), ParseChannel(ACL_DATA, allAcls);
              || (e.fatal && events == e.packets && acls <= a.packets)
              || (a.fatal && acls == a.packets && events <= e.packets)
    {
    }

    /** An abort on the event channel is one of its whole stream. */
    lemma EventsDied(arrived: bytes, later: bytes, aclLater: bytes)
      requires var q := ParseChannel(EVENT, arrived); q.fatal && q.packets == events
      requires Tracks(aclPacketizer, ACL_DATA, acls, aclsRead)
      ensures Died(arrived + later, aclsRead + aclLater)
    {
      ChannelFatalStays(EVENT, arrived, later);
      DeliveredSoFar(aclPacketizer, ACL_DATA, acls, aclsRead, aclLater);
    }

    lemma AclsDied(arrived: bytes, later: bytes, eventLater: bytes)
      requires var q := ParseChannel(ACL_DATA, arrived); q.fatal && q.packets == acls
      requires Tracks(eventPacketizer, EVENT, events, eventsRead)
      ensures Died(eventsRead + eventLater, arrived + later)
    {
      ChannelFatalStays(ACL_DATA, arrived, later);
      DeliveredSoFar(eventPacketizer, EVENT, events, eventsRead, eventLater);
    }

    ghost predicate Died(allEvents: bytes, allAcls: bytes)
      reads this
    {
      var e, a := ParseChannel(EVENT, allEvents), ParseChannel(ACL_DATA, allAcls);
      || (e.fatal && events == e.packets && acls <= a.packets)
      || (a.fatal && acls == a.packets && events <= e.packets)
    }
  }

  lemma Arrive(read: bytes, pending: bytes, later: bytes, n: nat)
    requires n <= |later|
    ensures read + ((pending + later[..n]) + later[n..]) == read + (pending + later)
  {
    assert (pending + later[..n]) + later[n..] == pending + later;
  }

  lemma Grouped(read: bytes, pending: bytes, later: bytes)
    ensures read + (pending + later) == (read + pending) + later
  {
  }

  /** What a channel has delivered is a prefix of what its whole stream holds. */
  lemma DeliveredSoFar(p: Packetizer, kind: byte, delivered: seq<bytes>, consumed: bytes, t: bytes)
    requires Tracks(p, kind, delivered, consumed)
    ensures delivered <= ParseChannel(kind, consumed + t).packets
    ensures t == [] ==> ParseChannel(kind, consumed).packets == delivered && !ParseChannel(kind, consumed).fatal
  {
    hide ParseChannel, HeadOf;
    ChannelAppend(kind, consumed, t);
  }

  /** ACL packets sent by one end through `WriteSafely` and received by the other, whatever the pattern of
      short writes, retries and short reads: unless a write gave up, the packets received are those sent. */
  method Exchange(sender: Mct, receiver: Mct, eventFd: Fd, aclFd: Fd, packets: seq<bytes>)
    requires sender != receiver && AllWellFormed(ACL_DATA, packets)
    requires sender.SentOnWires() && sender.intact && sender.sentCommands == [] && sender.sentAcls == []
    requires !sender.aborted
    requires receiver.Valid() && !receiver.aborted && receiver.eventsRead == [] && receiver.aclsRead == []
    requires eventFd != aclFd && eventFd.pending == [] && aclFd.pending == []
    modifies sender, sender.command, sender.aclOut, receiver, eventFd, aclFd
    modifies receiver.eventPacketizer, receiver.eventPacketizer.preamble, receiver.eventPacketizer.packet
    modifies receiver.aclPacketizer, receiver.aclPacketizer.preamble, receiver.aclPacketizer.packet
    ensures sender.sentAcls == packets && !sender.aborted
    ensures !sender.aclOut.gaveUp ==> sender.intact
    ensures sender.intact ==> !receiver.aborted && receiver.acls == packets && receiver.events == []
  {
    hide ParseChannel, HeadOf, Concat, Tracks;
    SendAll(sender, packets);
    var nothing: bytes, stream := [], sender.aclOut.wire;
    assert nothing + nothing == nothing && nothing + stream == stream;
    receiver.Serve(eventFd, aclFd, nothing, stream);
    NothingYet(EVENT);
    ChannelRoundTrip(ACL_DATA, packets);
  }

  /** Sends one ACL packet after the other. */
  method SendAll(sender: Mct, packets: seq<bytes>)
    requires sender.SentOnWires() && sender.intact && sender.sentAcls == [] && !sender.aborted
    modifies sender.command, sender.aclOut, sender`sentCommands, sender`sentAcls, sender`intact, sender`aborted
    ensures sender.SentOnWires() && sender.sentAcls == packets && !sender.aborted
    ensures !sender.aclOut.gaveUp ==> sender.intact
  {
    var i := 0;
    while i < |packets|
      invariant 0 <= i <= |packets| && sender.sentAcls == packets[..i] && sender.SentOnWires() && !sender.aborted
      invariant !sender.aclOut.gaveUp ==> sender.intact
    {
      var ret := sender.Send(ACL_DATA, packets[i]);
      assert packets[..i + 1] == packets[..i] + [packets[i]];
      i := i + 1;
    }
  }

  lemma {:induction false} ConcatAppend(packets: seq<bytes>, packet: bytes)
    ensures Concat(packets + [packet]) == Concat(packets) + packet
  {
    if packets == [] {
      assert [] + [packet] == [packet];
    } else {
      ConcatAppend(packets[1..], packet);
      assert (packets + [packet])[1..] == packets[1..] + [packet];
    }
  }

  /** Nothing that arrives later undoes an abort. */
  lemma {:induction false} ChannelFatalStays(kind: byte, s: bytes, t: bytes)
    requires Framed(kind) && ParseChannel(kind, s).fatal
    ensures ParseChannel(kind, s + t).fatal && ParseChannel(kind, s + t).packets == ParseChannel(kind, s).packets
    decreases |s|
  {
    hide ParseChannel, HeadOf;
    ChannelStep(kind, s);
    HeadStays(kind, s, t);
    if HeadOf(kind, s).Whole? {
      PacketStays(kind, s, t);
      ChannelFatalStays(kind, s[HeadOf(kind, s).size..], t);
    } else {
      ChannelStep(kind, s + t);
    }
  }
}
