/** The globals of radiomod.c and vendor_interface.cc as the three threads update them in place, and what
    every schedule of the threads keeps true of these globals. */
module FirmwareHost {
  import opened Bytes
  import opened FirmwareInit

  class Host {
    // radiomod.c
    var cmdStatus: Status
    var wOpCode: int
    var fgGetEFUSE: bool
    var addr: bytes
    var mutex: Option<Thread>
    // internal_command
    var cb: Option<Callback>
    var opcode: int
    // the threads
    var pc: Pc
    var i: nat
    var first: nat
    var buffer: Command
    var watcher: Watcher
    var closer: Closer
    // what went where
    var arrived: seq<bytes>
    var stack: seq<bytes>
    var handled: seq<bytes>
    var sent: seq<Command>
    var acks: seq<bytes>
    var report: Option<bool>

    /** As an earlier init, or none, has left the statics. */
    constructor (s: State)
      requires Initial(s)
      ensures Snapshot() == s && Valid()
    {
      cmdStatus, wOpCode, fgGetEFUSE, addr, mutex := s.status, s.wOpCode, s.getEfuse, s.addr, s.owner;
      cb, opcode, pc, i, first, buffer := s.cb, s.internalOp, s.pc, s.i, s.first, s.buffer;
      watcher, closer, arrived, stack, handled := s.watcher, s.closer, s.arrived, s.stack, s.handled;
      sent, acks, report := s.sent, s.acks, s.report;
      new;
      InitialInv(s);
    }

    /** The invariant of the three threads, on the fields. */
    ghost predicate Valid()
      reads this
    {
      Inv(Snapshot())
    }

    ghost function Snapshot(): State
      reads this
    {
      State(cmdStatus, wOpCode, fgGetEFUSE, addr, cb, opcode, mutex, pc, i, first, buffer, watcher, closer,
            arrived, stack, handled, sent, acks, report)
    }

    /** The init thread goes on by one access to shared state. */
    method InitStep(allocFails: bool)
      modifies this
      ensures Snapshot() == InitNext(old(Snapshot()), allocFails)
    {
      match pc {
        case Start => ChooseStart(allocFails);
        case Test => LoopTest(allocFails);
        case Alloc => LoopTest(allocFails);
        case Lock1 => SetPending(allocFails);
        case Locked1 => SetPending(allocFails);
        case SetOpcode => CommandFunction(allocFails);
        case SetCallback => TransmitOld(allocFails);
        case SetInternal => TransmitOld(allocFails);
        case Send => TransmitOld(allocFails);
        case Lock2 => AwaitEvent(allocFails);
        case Locked2 => AwaitEvent(allocFails);
        case Waiting =>
        case Succeed => CallFirmwareConfigured(allocFails);
        case Fail => CallFirmwareConfigured(allocFails);
        case Done =>
      }
    }

    /** Before the loop. */
    method ChooseStart(allocFails: bool)
      requires pc == Start
      modifies this
      ensures Snapshot() == InitNext(old(Snapshot()), allocFails)
    {
      if addr == DEFAULT_ADDR || addr == ZERO_ADDR {
        fgGetEFUSE := true;
      }
      i := if fgGetEFUSE then 0 else 1;
      first, pc := i, Test;
    }

    /** The loop condition, and the buffer. */
    method LoopTest(allocFails: bool)
      requires pc == Test || pc == Alloc
      modifies this
      ensures Snapshot() == InitNext(old(Snapshot()), allocFails)
    {
      if pc == Alloc {
        pc := if allocFails then Fail else Lock1;
      } else if i < |SCRIPT| && cmdStatus != CmdTerminate {
        pc := Alloc;
      } else {
        pc := Succeed;
      }
    }

    /** The first critical section. */
    method SetPending(allocFails: bool)
      requires pc == Lock1 || pc == Locked1
      modifies this
      ensures Snapshot() == InitNext(old(Snapshot()), allocFails)
    {
      if pc == Lock1 {
        if mutex.None? {
          mutex, pc := Some(InitThread), Locked1;
        }
        return;
      }
      if cmdStatus != CmdTerminate {
        cmdStatus, pc := CmdPending, SetOpcode;
      } else {
        pc := Succeed;
      }
      mutex := None;
    }

    /** A GORMcmd function up to its call of transmit_old. */
    method CommandFunction(allocFails: bool)
      requires pc == SetOpcode
      modifies this
      ensures Snapshot() == InitNext(old(Snapshot()), allocFails)
    {
      hide InitNext;
      ghost var s := Snapshot();
      CommandStep(s, allocFails);
      if i >= |SCRIPT| {
        return;
      }
      wOpCode := SCRIPT[i];
      buffer := Command(wOpCode, []);
      if i == 1 {
        fgGetEFUSE := false;
        buffer := Command(wOpCode, addr);
      }
      pc := SetCallback;
    }

    /** transmit_old: callback, opcode, packet, each visible to the watcher before the next. */
    method TransmitOld(allocFails: bool)
      requires pc == SetCallback || pc == SetInternal || pc == Send
      modifies this
      ensures Snapshot() == InitNext(old(Snapshot()), allocFails)
    {
      if pc == SetCallback {
        cb, pc := Some(CallbackOf(i)), SetInternal;
      } else if pc == SetInternal {
        opcode, pc := wOpCode, Send;
      } else {
        sent, pc := sent + [buffer], Lock2;
      }
    }

    /** The second critical section, with the wait. */
    method AwaitEvent(allocFails: bool)
      requires pc == Lock2 || pc == Locked2
      modifies this
      ensures Snapshot() == InitNext(old(Snapshot()), allocFails)
    {
      if pc == Lock2 {
        if mutex.None? {
          mutex, pc := Some(InitThread), Locked2;
        }
        return;
      }
      if cmdStatus == CmdPending {
        pc := Waiting;
      } else if cmdStatus == CmdFail {
        pc := Fail;
      } else {
        i, pc := i + 1, Test;
      }
      mutex := None;
    }

    method CallFirmwareConfigured(allocFails: bool)
      requires pc == Succeed || pc == Fail
      modifies this
      ensures Snapshot() == InitNext(old(Snapshot()), allocFails)
    {
      report, pc := Some(pc == Succeed), Done;
    }

    /** pthread_cond_signal, or a wakeup without one. */
    method Wake()
      modifies this`pc
      ensures Snapshot() == Signalled(old(Snapshot()))
    {
      if pc == Waiting {
        pc := Lock2;
      }
    }

    /** The watcher reads an event. */
    method OnEvent(event: bytes)
      modifies this
      ensures Snapshot() == Step(old(Snapshot()), Arrive(event))
    {
      if watcher == Idle {
        watcher, arrived := ReadCallback(event), arrived + [event];
      }
    }

    /** The watcher goes on in HandleIncomingEvent or in a callback. */
    method WatcherStep()
      modifies this
      ensures Snapshot() == WatcherNext(old(Snapshot()))
    {
      match watcher {
        case Idle =>
        case Stopped =>
        case ReadCallback(event) => HandleIncomingEvent(event);
        case Match(event) => HandleIncomingEvent(event);
        case Take(event) => HandleIncomingEvent(event);
        case Handle(saved, event) => RunCallback(saved, event);
        case TakeMutex(success, event) => Complete(success, event);
        case SetStatus(success, event) => Complete(success, event);
      }
    }

    /** HandleIncomingEvent, up to the call of the callback. */
    method HandleIncomingEvent(event: bytes)
      requires watcher == ReadCallback(event) || watcher == Match(event) || watcher == Take(event)
      modifies this
      ensures Snapshot() == WatcherNext(old(Snapshot()))
    {
      hide Completes, Matches;
      if watcher == Take(event) {
        if cb.Some? {
          var savedCb := cb.value;
          cb, watcher := None, Handle(savedCb, event);
        }
      } else if watcher == ReadCallback(event) && cb.Some? {
        watcher := Match(event);
      } else if watcher == Match(event) && Matches(event, opcode) {
        watcher := Take(event);
      } else {
        stack, watcher := stack + [event], Idle;
      }
    }

    /** A callback, up to its critical section. */
    method RunCallback(saved: Callback, event: bytes)
      requires watcher == Handle(saved, event)
      modifies this
      ensures Snapshot() == WatcherNext(old(Snapshot()))
    {
      hide Completes, AddrBytes, Reversed;
      var success := Completes(event, if saved == GetLocalBdAddr then 0x1009 else wOpCode);
      if saved == GetLocalBdAddr {
        addr := Reversed(AddrBytes(event));
      }
      handled, watcher := handled + [event], TakeMutex(success, event);
    }

    /** The critical section of a callback: the status is set and the init thread woken. */
    method Complete(success: bool, event: bytes)
      requires watcher == TakeMutex(success, event) || watcher == SetStatus(success, event)
      modifies this
      ensures Snapshot() == WatcherNext(old(Snapshot()))
    {
      hide Completes, Matches, Reversed, AddrBytes, InitNext;
      if watcher == TakeMutex(success, event) {
        if mutex.None? {
          mutex, watcher := Some(WatcherThread), SetStatus(success, event);
        }
        return;
      }
      ghost var s := Snapshot();
      cmdStatus := if success then CmdSuccess else CmdFail;
      if success && !OnlyLeaving(pc) {
        acks := acks + [event];
      }
      mutex, watcher := None, Idle;
      assert Snapshot() == s.(status := if success then CmdSuccess else CmdFail,
                              acks := if success && !OnlyLeaving(s.pc) then s.acks + [event] else s.acks,
                              owner := None, watcher := Idle);
      Wake();
    }

    /** notify_thread_exit, with the mutex held. */
    method NotifyThreadExit()
      requires closer == NotifyLocked
      modifies this
      ensures Snapshot() == CloserNext(old(Snapshot()))
    {
      ghost var s := Snapshot();
      cmdStatus, mutex, closer := CmdTerminate, None, Joining;
      assert Snapshot() == s.(status := CmdTerminate, owner := None, closer := Joining);
      Wake();
    }

    /** Close goes on. */
    method CloserStep()
      modifies this
      ensures Snapshot() == CloserNext(old(Snapshot()))
    {
      match closer {
        case Open =>
          if watcher == Idle { watcher, closer := Stopped, Cleanup; }
        case Cleanup =>
          if pc == Done {
            closer := Joining;
          } else if mutex.None? {
            mutex, closer := Some(CloserThread), NotifyLocked;
          }
        case NotifyLocked =>
          NotifyThreadExit();
        case Joining =>
          if pc == Done { closer := Closed; }
        case Closed =>
      }
    }

    /** Whichever thread is scheduled. */
    method Act(a: Action)
      requires Valid()
      modifies this
      ensures Valid() && Snapshot() == Step(old(Snapshot()), a)
    {
      hide Inv, InitNext, WatcherNext, CloserNext, Signalled;
      StepKeepsInv(Snapshot(), a);
      match a {
        case InitStep(allocFails) => InitStep(allocFails);
        case SpuriousWakeup => Wake();
        case Arrive(event) => OnEvent(event);
        case WatcherStep => WatcherStep();
        case CloserStep => CloserStep();
      }
    }

    /** Any schedule of the threads, from any start that an earlier init can have left. Afterwards the
        commands sent are the script's, in order; each but the last was completed by its own event; each
        event went to one sink; a waiting thread is owed its reply, under its own opcode; a success
        reported without a termination is one of the whole script, and a failure is not; a closed host has ended
        its thread; and with no callback left over the first command is the one the configured address asks for. */
    method Schedule(actions: seq<Action>)
      requires Initial(Snapshot()) && Valid()
      modifies this
      ensures Valid() && OfScript(sent, first) && CompletedButLast(sent, acks)
      ensures multiset(arrived) == multiset(stack) + multiset(handled) + multiset(InFlight(watcher))
      ensures pc == Waiting ==>
                && cmdStatus == CmdPending && i < |SCRIPT| && opcode == SCRIPT[i]
                && (cb == Some(CallbackOf(i)) || Completing(watcher))
      ensures report == Some(true) && cmdStatus != CmdTerminate && old(cmdStatus) != CmdTerminate ==>
                |sent| == |acks| == |SCRIPT| - first
      ensures closer == Closed ==> pc == Done && (cb.Some? ==> cmdStatus == CmdTerminate)
      ensures (pc == Done <==> report.Some?) && (report == Some(false) ==> |acks| < |SCRIPT| - first)
      ensures forall k | 0 <= k < |handled| :: Answers(handled[k], old(Snapshot()))
      ensures old(cb).None? && sent != [] ==>
                && (sent[0].op == 0x1009 <==> WantsEfuse(old(Snapshot())))
                && (!WantsEfuse(old(Snapshot())) ==> sent[0] == Command(0xFC1A, old(addr)) && addr == old(addr))
    {
      hide After, Step, Initial, Inv, OfScript, CompletedButLast, Answers, WantsEfuse;
      ghost var s := Snapshot();
      StartIs(s);
      var k := 0;
      while k < |actions|
        invariant 0 <= k <= |actions| && Valid() && Snapshot() == After(s, actions[..k])
      {
        AfterOne(s, actions[..k], actions[k]);
        assert actions[..k + 1] == actions[..k] + [actions[k]];
        Act(actions[k]);
        k := k + 1;
      }
      assert actions[..k] == actions;
      Results(s, actions);
    }
  }

  lemma CommandStep(s: State, allocFails: bool)
    requires s.pc == SetOpcode
    ensures InitNext(s, allocFails) ==
            if s.i < |SCRIPT|
            then s.(wOpCode := SCRIPT[s.i], buffer := Command(SCRIPT[s.i], if s.i == 1 then s.addr else []),
                    getEfuse := s.getEfuse && s.i != 1, pc := SetCallback)
            else s
  {
  }

  lemma StartIs(s: State)
    ensures After(s, []) == s
  {
  }

  /** What is known after a run, in one place. */
  lemma Results(s: State, actions: seq<Action>)
    requires Initial(s)
    ensures var t := After(s, actions);
            && OfScript(t.sent, t.first) && CompletedButLast(t.sent, t.acks)
            && multiset(t.arrived) == multiset(t.stack) + multiset(t.handled) + multiset(InFlight(t.watcher))
            && (t.pc == Waiting ==>
                  && t.status == CmdPending && t.i < |SCRIPT| && t.internalOp == SCRIPT[t.i]
                  && (t.cb == Some(CallbackOf(t.i)) || Completing(t.watcher)))
            && (t.report == Some(true) && t.status != CmdTerminate && s.status != CmdTerminate ==>
                  |t.sent| == |t.acks| == |SCRIPT| - t.first)
            && (t.closer == Closed ==> t.pc == Done && (t.cb.Some? ==> t.status == CmdTerminate))
            && (t.pc == Done <==> t.report.Some?) && (t.report == Some(false) ==> |t.acks| < |SCRIPT| - t.first)
            && (forall k | 0 <= k < |t.handled| :: Answers(t.handled[k], s))
            && (s.cb.None? && t.sent != [] ==>
                  && (t.sent[0].op == 0x1009 <==> WantsEfuse(s))
                  && (!WantsEfuse(s) ==> t.sent[0] == Command(0xFC1A, s.addr) && t.addr == s.addr))
  {
    hide Answers, WantsEfuse;
    hide After, Initial, Inv, OfScript, CompletedButLast;
    AtMostOneOutstanding(s, actions);
    EachEventToOneSink(s, actions);
    NoLostWakeup(s, actions);
    RunKeepsFailing(s, actions);
    OnlyAnswersAreTaken(s, actions);
    if s.cb.None? {
      FirstCommand(s, actions);
    }
    if s.status != CmdTerminate {
      SuccessMeansCompleted(s, actions);
    }
    if After(s, actions).closer == Closed {
      ClosedMeans(s, actions);
    }
  }

  lemma ClosedMeans(s: State, actions: seq<Action>)
    requires Initial(s) && After(s, actions).closer == Closed
    ensures var t := After(s, actions); t.pc == Done && (t.cb.Some? ==> t.status == CmdTerminate)
  {
    hide After, Inv;
    InitialInv(s);
    RunKeepsInv(s, actions);
    ClosedIsDone(s, actions);
    NoCallbackLeft(After(s, actions));
  }
}
