/** Firmware initialisation: one thread sends a script of commands, the watcher thread completes them,
    and a closing thread may end it. Every step a thread can take between two others is an action. */
module FirmwareInit {
  import opened Bytes

  // ----- the script -----

  /** The opcodes of bt_init_preload_script_6630, in order. */
  const SCRIPT: seq<int> := [0x1009, 0xFC1A, 0xFC72, 0xFC79, 0xFC93, 0xFC7A, 0xFC22, 0xFCBE, 0x1804]

  const COMMAND_COMPLETE_EVENT: byte := 0x0E

  const DEFAULT_ADDR: bytes := [0x00, 0x00, 0x46, 0x66, 0x30, 0x01]
  const ZERO_ADDR: bytes := [0, 0, 0, 0, 0, 0]

  datatype Callback = GetLocalBdAddr | CommonComplete

  function CallbackOf(i: nat): Callback { if i == 0 then GetLocalBdAddr else CommonComplete }

  /** A byte of an event; one past its end reads as some value, here zero. */
  function ByteAt(event: bytes, k: nat): int { if k < |event| then event[k] else 0 }

  /** The opcode field of a Command Complete event. */
  function OpcodeOf(event: bytes): int { ByteAt(event, 3) + 0x100 * ByteAt(event, 4) }

  /** A Command Complete event for `op` with status 0. */
  predicate Completes(event: bytes, op: int) {
    ByteAt(event, 0) == COMMAND_COMPLETE_EVENT && OpcodeOf(event) == op && ByteAt(event, 5) == 0
  }

  /** internal_command_event_match. */
  predicate Matches(event: bytes, op: int) {
    ByteAt(event, 0) == COMMAND_COMPLETE_EVENT && OpcodeOf(event) == op
  }

  function Reversed(s: bytes): (r: bytes)
    requires |s| == 6
    ensures |r| == 6
  {
    [s[5], s[4], s[3], s[2], s[1], s[0]]
  }

  /** The six bytes behind the status of a Read BD_ADDR reply. */
  function AddrBytes(event: bytes): (s: bytes)
    ensures |s| == 6
  {
    [AddrByte(event, 6), AddrByte(event, 7), AddrByte(event, 8),
     AddrByte(event, 9), AddrByte(event, 10), AddrByte(event, 11)]
  }

  function AddrByte(event: bytes, k: nat): byte { ByteAt(event, k) }

  // ----- the state -----

  datatype Status = CmdSuccess | CmdFail | CmdPending | CmdTerminate

  datatype Thread = InitThread | WatcherThread | CloserThread

  /** Where the init thread is in GORM_FW_Init_Thread and in the command function and transmit_old it
      calls. */
  datatype Pc =
    | Start          // before the start index is chosen
    | Test           // at the loop condition
    | Alloc          // allocating the command's buffer
    | Lock1          // about to take the mutex to set the status pending
    | Locked1        // holding it
    | SetOpcode      // in the command function
    | SetCallback    // in transmit_old, about to store the callback
    | SetInternal    // ... and then the opcode
    | Send           // ... and then to send
    | Lock2          // about to take the mutex to wait for the event
    | Locked2        // holding it, at the wait loop's condition
    | Waiting        // in pthread_cond_wait
    | Succeed | Fail // about to report
    | Done

  /** Where the watcher thread is with the event it has read. */
  datatype Watcher =
    | Idle
    | ReadCallback(event: bytes)
    | Match(event: bytes)
    | Take(event: bytes)
    | Handle(saved: Callback, event: bytes)
    | TakeMutex(success: bool, event: bytes)
    | SetStatus(success: bool, event: bytes)
    | Stopped

  /** Where VendorInterface::Close is. */
  datatype Closer = Open | Cleanup | NotifyLocked | Joining | Closed

  /** A command's opcode, and the address when it is the one that sets it (the last byte of the address
      goes first on the wire); the other parameters come from NVRAM and properties unchanged. */
  datatype Command = Command(op: int, addr: bytes)

  datatype State = State(
    // globals of radiomod.c
    status: Status, wOpCode: int, getEfuse: bool, addr: bytes,
    // internal_command of vendor_interface.cc
    cb: Option<Callback>, internalOp: int,
    owner: Option<Thread>,
    pc: Pc, i: nat, first: nat, buffer: Command,
    watcher: Watcher,
    closer: Closer,
    // what happened
    arrived: seq<bytes>, stack: seq<bytes>, handled: seq<bytes>,
    sent: seq<Command>, acks: seq<bytes>, report: Option<bool>)

  /** A start: no event in flight, and a callback left from an earlier init only together with a status
      of terminate. The status, the opcodes, the flag and the address are whatever was left. */
  predicate Initial(s: State) {
    && s.pc == Start && s.watcher == Idle && s.closer == Open && s.owner == None
    && (s.cb.Some? ==> s.status == CmdTerminate)
    && |s.addr| == 6 && s.i == 0 && s.first == 0
    && s.arrived == [] && s.stack == [] && s.handled == [] && s.sent == [] && s.acks == [] && s.report == None
  }

  // ----- the steps -----

  datatype Action =
    | InitStep(allocFails: bool)
    | SpuriousWakeup
    | Arrive(event: bytes)
    | WatcherStep
    | CloserStep

  /** The init thread's next step; at a lock that is held, and inside the wait, it stays. */
  function InitNext(s: State, allocFails: bool): State {
    match s.pc
    case Start =>
      var efuse := s.getEfuse || s.addr == DEFAULT_ADDR || s.addr == ZERO_ADDR;
      var first := if efuse then 0 else 1;
      s.(getEfuse := efuse, i := first, first := first, pc := Test)
    case Test => s.(pc := if s.i < |SCRIPT| && s.status != CmdTerminate then Alloc else Succeed)
    case Alloc => s.(pc := if allocFails then Fail else Lock1)
    case Lock1 => if s.owner.None? then s.(owner := Some(InitThread), pc := Locked1) else s
    case Locked1 =>
      if s.status != CmdTerminate then s.(status := CmdPending, owner := None, pc := SetOpcode)
      else s.(owner := None, pc := Succeed)
    case SetOpcode =>
      if s.i < |SCRIPT|
      then s.(wOpCode := SCRIPT[s.i], buffer := Command(SCRIPT[s.i], if s.i == 1 then s.addr else []),
              getEfuse := s.getEfuse && s.i != 1, pc := SetCallback)
      else s
    case SetCallback => s.(cb := Some(CallbackOf(s.i)), pc := SetInternal)
    case SetInternal => s.(internalOp := s.wOpCode, pc := Send)
    case Send =>
      s.(sent := s.sent + [s.buffer], pc := Lock2)
    case Lock2 => if s.owner.None? then s.(owner := Some(InitThread), pc := Locked2) else s
    case Locked2 =>
      match s.status {
        case CmdPending => s.(owner := None, pc := Waiting)
        case CmdFail => s.(owner := None, pc := Fail)
        case _ => s.(owner := None, i := s.i + 1, pc := Test)
      }
    case Waiting => s
    case Succeed => s.(report := Some(true), pc := Done)
    case Fail => s.(report := Some(false), pc := Done)
    case Done => s
  }

  /** Where the thread has no command of its own under way: a completion then is of an earlier init's. */
  predicate OnlyLeaving(pc: Pc) { pc == Start || pc == Test || pc == Succeed || pc == Done }

  /** pthread_cond_signal, or a wakeup without one: a waiting thread goes for the mutex again. */
  function Signalled(s: State): State { if s.pc == Waiting then s.(pc := Lock2) else s }

  /** HandleIncomingEvent and the callbacks of radiomod.c, one access to shared state at a time. */
  function WatcherNext(s: State): State {
    match s.watcher
    case Idle => s
    case Stopped => s
    case ReadCallback(event) =>
      if s.cb.Some? then s.(watcher := Match(event)) else s.(stack := s.stack + [event], watcher := Idle)
    case Match(event) =>
      if Matches(event, s.internalOp) then s.(watcher := Take(event))
      else s.(stack := s.stack + [event], watcher := Idle)
    case Take(event) =>
      if s.cb.Some? then s.(cb := None, watcher := Handle(s.cb.value, event)) else s
    case Handle(saved, event) =>
      var success := Completes(event, if saved == GetLocalBdAddr then 0x1009 else s.wOpCode);
      s.(handled := s.handled + [event],
         addr := if saved == GetLocalBdAddr then Reversed(AddrBytes(event)) else s.addr,
         watcher := TakeMutex(success, event))
    case TakeMutex(success, event) =>
      if s.owner.None? then s.(owner := Some(WatcherThread), watcher := SetStatus(success, event)) else s
    case SetStatus(success, event) =>
      Signalled(s.(status := if success then CmdSuccess else CmdFail,
                   acks := if success && !OnlyLeaving(s.pc) then s.acks + [event] else s.acks,
                   owner := None, watcher := Idle))
  }

  /** VendorInterface::Close: the watcher is joined between two events, then the init thread is told to
      end, unless it has, and joined. */
  function CloserNext(s: State): State {
    match s.closer
    case Open => if s.watcher == Idle then s.(watcher := Stopped, closer := Cleanup) else s
    case Cleanup =>
      if s.pc == Done then s.(closer := Joining)
      else if s.owner.None? then s.(owner := Some(CloserThread), closer := NotifyLocked)
      else s
    case NotifyLocked => Signalled(s.(status := CmdTerminate, owner := None, closer := Joining))
    case Joining => if s.pc == Done then s.(closer := Closed) else s
    case Closed => s
  }

  /** An event is read only when the watcher is through with the one before. */
  function Step(s: State, a: Action): State {
    match a
    case InitStep(allocFails) => InitNext(s, allocFails)
    case SpuriousWakeup => Signalled(s)
    case Arrive(event) =>
      if s.watcher == Idle then s.(watcher := ReadCallback(event), arrived := s.arrived + [event]) else s
    case WatcherStep => WatcherNext(s)
    case CloserStep => CloserNext(s)
  }

  /** Every interleaving: actions of the three threads and the controller in any order. */
  function After(s: State, actions: seq<Action>): State {
    if actions == [] then s else Step(After(s, actions[..|actions| - 1]), actions[|actions| - 1])
  }

  // ----- what every step keeps -----

  /** A reply is expected: a callback is registered, or the watcher is completing the command. */
  predicate Expecting(s: State) {
    s.cb.Some? || Completing(s.watcher)
  }

  predicate Completing(w: Watcher) { w.Handle? || w.TakeMutex? || w.SetStatus? }

  /** Each thread that is past a lock, and no other, holds the mutex. */
  predicate MutexHeld(s: State) {
    && (s.owner == Some(InitThread) <==> s.pc == Locked1 || s.pc == Locked2)
    && (s.owner == Some(WatcherThread) <==> s.watcher.SetStatus?)
    && (s.owner == Some(CloserThread) <==> s.closer == NotifyLocked)
  }

  /** Only the watcher takes the callback, and only Close stops the watcher. */
  predicate WatcherFits(s: State) {
    && (s.watcher.Match? || s.watcher.Take? ==> s.cb.Some?)
    && (Completing(s.watcher) ==> s.cb.None?)
    && (s.watcher == Stopped <==> s.closer != Open)
  }

  /** These commands are the script's from `first` on. */
  predicate OfScript(sent: seq<Command>, first: nat) {
    && first + |sent| <= |SCRIPT|
    && forall j | 0 <= j < |sent| :: sent[j].op == SCRIPT[first + j]
  }

  /** The commands sent are the script's, in order and without a gap, up to where the thread is. */
  predicate SentInOrder(s: State) {
    && s.first <= s.i && OfScript(s.sent, s.first)
    && (s.pc == Start ==> s.sent == [] && s.acks == [] && s.i == s.first)
    && (Before(s.pc) || Issuing(s.pc) ==> |s.sent| == s.i - s.first)
    && (Sent(s.pc) ==> |s.sent| == s.i - s.first + 1)
    && (Before(s.pc) ==> s.i <= |SCRIPT|)
    && (InLoop(s.pc) || Issuing(s.pc) || Sent(s.pc) ==> s.i < |SCRIPT|)
    && ((Issuing(s.pc) && s.pc != SetOpcode) || Sent(s.pc) ==> s.wOpCode == SCRIPT[s.i] && s.buffer.op == SCRIPT[s.i])
    && (s.pc == Send || Sent(s.pc) ==> s.internalOp == SCRIPT[s.i])
  }

  predicate InLoop(pc: Pc) { pc == Alloc || pc == Lock1 || pc == Locked1 }

  predicate Before(pc: Pc) { pc == Test || InLoop(pc) }

  predicate Issuing(pc: Pc) { pc == SetOpcode || pc == SetCallback || pc == SetInternal || pc == Send }

  predicate Sent(pc: Pc) { pc == Lock2 || pc == Locked2 || pc == Waiting }

  /** The events that completed a command: one for each of the first commands, in order. */
  predicate Completed(acks: seq<bytes>, first: nat) {
    && first + |acks| <= |SCRIPT|
    && forall j | 0 <= j < |acks| :: Completes(acks[j], SCRIPT[first + j])
  }

  /** While the status says terminate, the thread does not wait. Until Close has stopped the watcher that
      status is left over from an earlier init, and this one has done nothing yet. */
  predicate Terminated(s: State) {
    && s.pc != Waiting
    && (s.watcher != Stopped ==> s.sent == [] && s.acks == [] && OnlyLeaving(s.pc))
    && (Issuing(s.pc) ==> |s.sent| <= |s.acks|)
  }

  /** Until then: how far the completions are, by where the thread is. */
  predicate InStep(s: State) {
    && (s.pc == Start || Before(s.pc) ==> s.cb.None? && !Completing(s.watcher) && |s.acks| == s.i - s.first)
    && (s.pc == SetOpcode || s.pc == SetCallback ==>
          s.status == CmdPending && s.cb.None? && !Completing(s.watcher) && |s.acks| == s.i - s.first)
    && (s.pc == SetInternal || s.pc == Send || Sent(s.pc) ==>
          if Expecting(s) then s.status == CmdPending && |s.acks| == s.i - s.first && Promised(s)
          else s.pc != Waiting && ((s.status == CmdSuccess && |s.acks| == s.i - s.first + 1)
                                   || (s.status == CmdFail && |s.acks| == s.i - s.first)))
    && (s.pc == Succeed || s.pc == Fail || s.pc == Done ==> !Expecting(s))
  }

  /** The callback at work is the current command's, and succeeds only on its completion. */
  predicate Promised(s: State) {
    && s.i < |SCRIPT|
    && (s.cb.Some? ==> s.cb.value == CallbackOf(s.i))
    && (s.watcher.Handle? ==> s.watcher.saved == CallbackOf(s.i))
    && (s.watcher.TakeMutex? && s.watcher.success ==> Completes(s.watcher.event, SCRIPT[s.i]))
    && (s.watcher.SetStatus? && s.watcher.success ==> Completes(s.watcher.event, SCRIPT[s.i]))
  }

  /** What is known whatever the status is. */
  predicate Sound(s: State) {
    && MutexHeld(s) && WatcherFits(s) && SentInOrder(s) && Completed(s.acks, s.first)
    && |s.sent| <= |s.acks| + 1
    && s.first <= 1 && |s.addr| == 6
    && (s.report.Some? ==> s.pc == Done)
  }

  predicate Phase(s: State) {
    if s.status == CmdTerminate then Terminated(s) else InStep(s)
  }

  predicate Inv(s: State) { Sound(s) && Phase(s) }

  lemma InitialInv(s: State)
    requires Initial(s)
    ensures Inv(s)
  {
  }

  lemma OneMoreSent(sent: seq<Command>, first: nat, next: Command)
    requires OfScript(sent, first) && first + |sent| < |SCRIPT| && next.op == SCRIPT[first + |sent|]
    ensures OfScript(sent + [next], first)
  {
  }

  lemma OneMoreCompleted(acks: seq<bytes>, first: nat, event: bytes)
    requires Completed(acks, first)
    ensures first + |acks| < |SCRIPT| && Completes(event, SCRIPT[first + |acks|]) ==> Completed(acks + [event], first)
  {
  }

  // Each step of the init thread, and of the others, keeps the invariant.

  lemma StartKeepsInv(s: State, allocFails: bool)
    requires Inv(s) && s.pc == Start
    ensures Inv(InitNext(s, allocFails))
  {
    hide Completes, Matches, OpcodeOf;
  }

  lemma TestKeepsInv(s: State, allocFails: bool)
    requires Inv(s) && s.pc == Test
    ensures Inv(InitNext(s, allocFails))
  {
    hide Completes, Matches, OpcodeOf, OfScript, Completed;
  }

  lemma AllocKeepsInv(s: State, allocFails: bool)
    requires Inv(s) && s.pc == Alloc
    ensures Inv(InitNext(s, allocFails))
  {
    hide Completes, Matches, OpcodeOf, OfScript, Completed;
  }

  lemma Lock1KeepsInv(s: State, allocFails: bool)
    requires Inv(s) && s.pc == Lock1
    ensures Inv(InitNext(s, allocFails))
  {
    hide Completes, Matches, OpcodeOf, OfScript, Completed;
  }

  lemma PendingKeepsInv(s: State, allocFails: bool)
    requires Inv(s) && s.pc == Locked1
    ensures Inv(InitNext(s, allocFails))
  {
    hide Completes, Matches, OpcodeOf, OfScript, Completed;
  }

  lemma CommandKeepsInv(s: State, allocFails: bool)
    requires Inv(s) && s.pc == SetOpcode
    ensures Inv(InitNext(s, allocFails))
  {
    hide Completes, Matches, OpcodeOf, OfScript, Completed;
  }

  lemma RegisterKeepsInv(s: State, allocFails: bool)
    requires Inv(s) && s.pc == SetCallback
    ensures Inv(InitNext(s, allocFails))
  {
    hide Completes, Matches, OpcodeOf, OfScript, Completed;
  }

  lemma SetInternalKeepsInv(s: State, allocFails: bool)
    requires Inv(s) && s.pc == SetInternal
    ensures Inv(InitNext(s, allocFails))
  {
    hide Completes, Matches, OpcodeOf, OfScript, Completed;
  }

  lemma SendKeepsInv(s: State, allocFails: bool)
    requires Inv(s) && s.pc == Send
    ensures Inv(InitNext(s, allocFails))
  {
    hide Completes, Matches, OpcodeOf, OfScript, Completed;
    OneMoreSent(s.sent, s.first, s.buffer);
  }

  lemma Lock2KeepsInv(s: State, allocFails: bool)
    requires Inv(s) && s.pc == Lock2
    ensures Inv(InitNext(s, allocFails))
  {
    hide Completes, Matches, OpcodeOf, OfScript, Completed;
  }

  lemma WaitKeepsInv(s: State, allocFails: bool)
    requires Inv(s) && s.pc == Locked2 && s.status == CmdPending
    ensures Inv(InitNext(s, allocFails))
  {
    hide Completes, Matches, OpcodeOf, OfScript, Completed;
  }

  lemma FailureKeepsInv(s: State, allocFails: bool)
    requires Inv(s) && s.pc == Locked2 && s.status == CmdFail
    ensures Inv(InitNext(s, allocFails))
  {
    hide Completes, Matches, OpcodeOf, OfScript, Completed;
  }

  lemma SuccessKeepsInv(s: State, allocFails: bool)
    requires Inv(s) && s.pc == Locked2 && s.status == CmdSuccess
    ensures Inv(InitNext(s, allocFails))
  {
    hide Completes, Matches, OpcodeOf, OfScript, Completed;
  }

  lemma LeaveKeepsInv(s: State, allocFails: bool)
    requires Inv(s) && s.pc == Locked2 && s.status == CmdTerminate
    ensures Inv(InitNext(s, allocFails))
  {
    hide Completes, Matches, OpcodeOf, OfScript, Completed;
  }

  lemma SucceedKeepsInv(s: State, allocFails: bool)
    requires Inv(s) && s.pc == Succeed
    ensures Inv(InitNext(s, allocFails))
  {
    hide Completes, Matches, OpcodeOf, OfScript, Completed;
  }

  lemma FailKeepsInv(s: State, allocFails: bool)
    requires Inv(s) && s.pc == Fail
    ensures Inv(InitNext(s, allocFails))
  {
    hide Completes, Matches, OpcodeOf, OfScript, Completed;
  }

  lemma InitKeepsInv(s: State, allocFails: bool)
    requires Inv(s)
    ensures Inv(InitNext(s, allocFails))
  {
    hide Inv, InitNext;
    match s.pc {
      case Start => StartKeepsInv(s, allocFails);
      case Test => TestKeepsInv(s, allocFails);
      case Alloc => AllocKeepsInv(s, allocFails);
      case Lock1 => Lock1KeepsInv(s, allocFails);
      case Locked1 => PendingKeepsInv(s, allocFails);
      case SetOpcode => CommandKeepsInv(s, allocFails);
      case SetCallback => RegisterKeepsInv(s, allocFails);
      case SetInternal => SetInternalKeepsInv(s, allocFails);
      case Send => SendKeepsInv(s, allocFails);
      case Lock2 => Lock2KeepsInv(s, allocFails);
      case Locked2 => DecisionKeepsInv(s, allocFails);
      case Waiting => RestKeepsInv(s, allocFails);
      case Succeed => SucceedKeepsInv(s, allocFails);
      case Fail => FailKeepsInv(s, allocFails);
      case Done => RestKeepsInv(s, allocFails);
    }
  }

  lemma RestKeepsInv(s: State, allocFails: bool)
    requires Inv(s) && (s.pc == Waiting || s.pc == Done)
    ensures Inv(InitNext(s, allocFails))
  {
    hide Inv;
  }

  lemma DecisionKeepsInv(s: State, allocFails: bool)
    requires Inv(s) && s.pc == Locked2
    ensures Inv(InitNext(s, allocFails))
  {
    hide Inv, InitNext;
    match s.status
    case CmdPending => WaitKeepsInv(s, allocFails);
    case CmdFail => FailureKeepsInv(s, allocFails);
    case CmdSuccess => SuccessKeepsInv(s, allocFails);
    case CmdTerminate => LeaveKeepsInv(s, allocFails);
  }

  lemma RegisteredKeepsInv(s: State)
    requires Inv(s) && s.watcher.ReadCallback? && s.cb.Some?
    ensures Inv(WatcherNext(s))
  {
    hide Completes, Matches, OpcodeOf, OfScript, Completed;
  }

  lemma UnregisteredKeepsInv(s: State)
    requires Inv(s) && s.watcher.ReadCallback? && s.cb.None?
    ensures Inv(WatcherNext(s))
  {
    hide Completes, Matches, OpcodeOf, OfScript, Completed;
  }

  lemma MatchedKeepsInv(s: State)
    requires Inv(s) && s.watcher.Match? && Matches(s.watcher.event, s.internalOp)
    ensures Inv(WatcherNext(s))
  {
    hide Completes, Matches, OpcodeOf, OfScript, Completed;
  }

  lemma UnmatchedKeepsInv(s: State)
    requires Inv(s) && s.watcher.Match? && !Matches(s.watcher.event, s.internalOp)
    ensures Inv(WatcherNext(s))
  {
    hide Completes, Matches, OpcodeOf, OfScript, Completed;
  }

  lemma TakeKeepsInv(s: State)
    requires Inv(s) && s.watcher.Take?
    ensures Inv(WatcherNext(s))
  {
    hide Completes, Matches, OpcodeOf, OfScript, Completed;
  }

  lemma HandleKeepsInv(s: State)
    requires Inv(s) && s.watcher.Handle?
    ensures Inv(WatcherNext(s))
  {
    hide Completes, Matches, OpcodeOf, OfScript, Completed;
  }

  lemma TakeMutexKeepsInv(s: State)
    requires Inv(s) && s.watcher.TakeMutex?
    ensures Inv(WatcherNext(s))
  {
    hide Completes, Matches, OpcodeOf, OfScript, Completed;
  }

  lemma SetSuccessKeepsInv(s: State)
    requires Inv(s) && s.watcher.SetStatus? && s.watcher.success && s.status != CmdTerminate && s.pc != Waiting
    ensures Inv(WatcherNext(s))
  {
    hide Completes, Matches, OpcodeOf, OfScript, Completed;
    OneMoreCompleted(s.acks, s.first, s.watcher.event);
  }

  lemma SetAndWakeKeepsInv(s: State)
    requires Inv(s) && s.watcher.SetStatus? && s.watcher.success && s.pc == Waiting
    ensures Inv(WatcherNext(s))
  {
    hide Completes, Matches, OpcodeOf, OfScript, Completed;
    OneMoreCompleted(s.acks, s.first, s.watcher.event);
  }

  lemma SetStaleKeepsInv(s: State)
    requires Inv(s) && s.watcher.SetStatus? && s.watcher.success && s.status == CmdTerminate
    ensures Inv(WatcherNext(s))
  {
    hide Completes, Matches, OpcodeOf, OfScript, Completed;
  }

  lemma SetFailureKeepsInv(s: State)
    requires Inv(s) && s.watcher.SetStatus? && !s.watcher.success
    ensures Inv(WatcherNext(s))
  {
    hide Completes, Matches, OpcodeOf, OfScript, Completed;
  }

  lemma WatcherKeepsInv(s: State)
    requires Inv(s)
    ensures Inv(WatcherNext(s))
  {
    hide Inv, Matches;
    match s.watcher
    case Idle =>
    case ReadCallback(_) =>
      if s.cb.Some? { RegisteredKeepsInv(s); } else { UnregisteredKeepsInv(s); }
    case Match(event) =>
      if Matches(event, s.internalOp) { MatchedKeepsInv(s); } else { UnmatchedKeepsInv(s); }
    case Take(_) => TakeKeepsInv(s);
    case Handle(_, _) => HandleKeepsInv(s);
    case TakeMutex(_, _) => TakeMutexKeepsInv(s);
    case SetStatus(success, _) =>
      if !success { SetFailureKeepsInv(s); }
      else if s.pc == Waiting { SetAndWakeKeepsInv(s); }
      else if s.status == CmdTerminate { SetStaleKeepsInv(s); }
      else { SetSuccessKeepsInv(s); }
    case Stopped =>
  }

  lemma StopKeepsInv(s: State)
    requires Inv(s) && s.closer == Open
    ensures Inv(CloserNext(s))
  {
    hide Completes, Matches, OpcodeOf, OfScript, Completed;
  }

  lemma SkipKeepsInv(s: State)
    requires Inv(s) && s.closer == Cleanup && s.pc == Done
    ensures Inv(CloserNext(s))
  {
    hide Completes, Matches, OpcodeOf, OfScript, Completed;
  }

  lemma EnterKeepsInv(s: State)
    requires Inv(s) && s.closer == Cleanup && s.pc != Done
    ensures Inv(CloserNext(s))
  {
    hide Completes, Matches, OpcodeOf, OfScript, Completed;
  }

  lemma NotifyKeepsInv(s: State)
    requires Inv(s) && s.closer == NotifyLocked
    ensures Inv(CloserNext(s))
  {
    hide Completes, Matches, OpcodeOf, OfScript, Completed;
  }

  lemma JoinKeepsInv(s: State)
    requires Inv(s) && s.closer == Joining
    ensures Inv(CloserNext(s))
  {
    hide Completes, Matches, OpcodeOf, OfScript, Completed;
  }

  lemma CloserKeepsInv(s: State)
    requires Inv(s)
    ensures Inv(CloserNext(s))
  {
    hide Inv;
    match s.closer
    case Open => StopKeepsInv(s);
    case Cleanup =>
      if s.pc == Done { SkipKeepsInv(s); } else { EnterKeepsInv(s); }
    case NotifyLocked => NotifyKeepsInv(s);
    case Joining => JoinKeepsInv(s);
    case Closed =>
  }

  lemma WakeupKeepsInv(s: State)
    requires Inv(s)
    ensures Inv(Signalled(s))
  {
    hide Completes, Matches, OpcodeOf, OfScript, Completed;
  }

  lemma ArriveKeepsInv(s: State, event: bytes)
    requires Inv(s)
    ensures Inv(Step(s, Arrive(event)))
  {
    hide Completes, Matches, OpcodeOf, OfScript, Completed;
  }

  lemma StepKeepsInv(s: State, a: Action)
    requires Inv(s)
    ensures Inv(Step(s, a))
  {
    hide Inv, InitNext, WatcherNext, CloserNext, Signalled;
    match a
    case InitStep(allocFails) => InitKeepsInv(s, allocFails);
    case SpuriousWakeup => WakeupKeepsInv(s);
    case Arrive(event) => ArriveKeepsInv(s, event);
    case WatcherStep => WatcherKeepsInv(s);
    case CloserStep => CloserKeepsInv(s);
  }

  /** The invariant holds after every interleaving. */
  lemma {:induction false} RunKeepsInv(s: State, actions: seq<Action>)
    requires Inv(s)
    ensures Inv(After(s, actions))
  {
    hide Inv, Step;
    if actions != [] {
      RunKeepsInv(s, actions[..|actions| - 1]);
      StepKeepsInv(After(s, actions[..|actions| - 1]), actions[|actions| - 1]);
    }
  }

  // ----- safety -----

  /** Each of these commands but the last has been completed by its own event. */
  predicate CompletedButLast(sent: seq<Command>, acks: seq<bytes>) {
    forall j | 0 <= j < |sent| - 1 :: j < |acks| && Completes(acks[j], sent[j].op)
  }

  /** At most one command is outstanding: the commands sent are the script's in order, and each but the
      last has been completed by its own Command Complete event with status 0. */
  lemma AtMostOneOutstanding(s: State, actions: seq<Action>)
    requires Initial(s)
    ensures var t := After(s, actions);
            OfScript(t.sent, t.first) && CompletedButLast(t.sent, t.acks)
  {
    InitialInv(s);
    RunKeepsInv(s, actions);
    hide After, Initial, Completes, SentInOrder, MutexHeld, Phase;
    var t := After(s, actions);
    forall j | 0 <= j < |t.sent| - 1
      ensures j < |t.acks| && Completes(t.acks[j], t.sent[j].op)
    {
      assert t.sent[j].op == SCRIPT[t.first + j];
    }
  }

  /** A success, reported or about to be, is one of the whole script; and before Close the status does
      not become terminate. */
  predicate Honest(s: State) {
    && (s.closer == Open ==> s.status != CmdTerminate)
    && (s.status != CmdTerminate && (s.pc == Succeed || s.report == Some(true)) ==>
          |s.acks| == |SCRIPT| - s.first == |s.sent|)
  }

  lemma LoopKeepsHonest(s: State, allocFails: bool)
    requires Inv(s) && Honest(s) && Before(s.pc)
    ensures Honest(InitNext(s, allocFails))
  {
    hide Completes, Matches, OfScript, Completed, MutexHeld, WatcherFits, Promised;
  }

  lemma InitKeepsHonest(s: State, allocFails: bool)
    requires Inv(s) && Honest(s)
    ensures Honest(InitNext(s, allocFails))
  {
    hide Inv, Honest, InitNext;
    if Before(s.pc) {
      LoopKeepsHonest(s, allocFails);
    } else if s.pc == Succeed || s.pc == Fail {
      ReportKeepsHonest(s, allocFails);
    } else {
      QuietKeepsHonest(s, allocFails);
    }
  }

  lemma ReportKeepsHonest(s: State, allocFails: bool)
    requires Inv(s) && Honest(s) && (s.pc == Succeed || s.pc == Fail)
    ensures Honest(InitNext(s, allocFails))
  {
    hide Sound, Phase;
  }

  lemma QuietKeepsHonest(s: State, allocFails: bool)
    requires Inv(s) && Honest(s) && !Before(s.pc) && s.pc != Succeed && s.pc != Fail
    ensures Honest(InitNext(s, allocFails))
  {
    hide Phase, SentInOrder, MutexHeld, WatcherFits, OfScript, Completed;
    var t := InitNext(s, allocFails);
    assert s.pc != Done ==> t.pc != Succeed && t.report == s.report && t.status == s.status && t.closer == s.closer;
  }

  lemma WatcherKeepsHonest(s: State)
    requires Inv(s) && Honest(s)
    ensures Honest(WatcherNext(s))
  {
    hide Completes, Matches, OfScript, Completed, MutexHeld, SentInOrder, AddrBytes, Reversed;
  }

  lemma OthersKeepHonest(s: State, a: Action)
    requires Inv(s) && Honest(s) && !a.InitStep? && !a.WatcherStep?
    ensures Honest(Step(s, a))
  {
    hide OfScript, Completed, MutexHeld, InitNext, WatcherNext, SentInOrder, Promised;
  }

  lemma StepKeepsHonest(s: State, a: Action)
    requires Inv(s) && Honest(s)
    ensures Honest(Step(s, a))
  {
    hide Inv, Honest, InitNext, WatcherNext, CloserNext, Signalled;
    if a.InitStep? { InitKeepsHonest(s, a.allocFails); }
    else if a.WatcherStep? { WatcherKeepsHonest(s); }
    else { OthersKeepHonest(s, a); }
  }

  lemma InitialHonest(s: State)
    requires Initial(s) && s.status != CmdTerminate
    ensures Inv(s) && Honest(s)
  {
    InitialInv(s);
  }

  lemma {:induction false} RunKeepsHonest(s: State, actions: seq<Action>)
    requires Inv(s) && Honest(s)
    ensures Inv(After(s, actions)) && Honest(After(s, actions))
  {
    hide Inv, Honest, Step;
    if actions != [] {
      var t, a := After(s, actions[..|actions| - 1]), actions[|actions| - 1];
      RunKeepsHonest(s, actions[..|actions| - 1]);
      StepKeepsInv(t, a);
      StepKeepsHonest(t, a);
    }
  }

  /** From a status other than terminate: a success report while the status is not terminate means that
      the whole script was sent and every command of it was completed. */
  lemma SuccessMeansCompleted(s: State, actions: seq<Action>)
    requires Initial(s) && s.status != CmdTerminate
    ensures var t := After(s, actions);
            t.report == Some(true) && t.status != CmdTerminate ==> AllCompleted(t)
  {
    hide Inv, Honest, After, Initial, AllCompleted;
    var t := After(s, actions);
    InitialHonest(s);
    RunKeepsHonest(s, actions);
    if t.report == Some(true) && t.status != CmdTerminate {
      HonestSuccess(t);
    }
  }

  lemma HonestSuccess(t: State)
    requires Inv(t) && Honest(t) && t.report == Some(true) && t.status != CmdTerminate
    ensures AllCompleted(t)
  {
    hide Phase, MutexHeld, WatcherFits, OfScript, Completed;
  }

  predicate AllCompleted(t: State) {
    && |t.sent| == |SCRIPT| - t.first && OfScript(t.sent, t.first)
    && |t.acks| == |SCRIPT| - t.first && Completed(t.acks, t.first)
  }

  /** The thread is done when it has reported; a failure, reported or about to be, is not one of the whole script. */
  predicate Failing(s: State) {
    && (s.pc == Done <==> s.report.Some?)
    && (s.pc == Alloc ==> |s.acks| == s.i - s.first)
    && (s.pc == Fail || s.report == Some(false) ==> |s.acks| < |SCRIPT| - s.first)
  }

  lemma InitKeepsFailing(s: State, allocFails: bool)
    requires Inv(s) && Failing(s)
    ensures Failing(InitNext(s, allocFails))
  {
    hide Completes, Matches, OfScript, Completed, MutexHeld, WatcherFits, Promised;
  }

  lemma WatcherKeepsFailing(s: State)
    requires Inv(s) && Failing(s)
    ensures Failing(WatcherNext(s))
  {
    hide Completes, Matches, OfScript, Completed, MutexHeld, SentInOrder, AddrBytes, Reversed, Promised;
  }

  lemma OthersKeepFailing(s: State, a: Action)
    requires Failing(s) && !a.InitStep? && !a.WatcherStep?
    ensures Failing(Step(s, a))
  {
    hide InitNext, WatcherNext;
  }

  lemma {:induction false} RunKeepsFailing(s: State, actions: seq<Action>)
    requires Initial(s)
    ensures Inv(After(s, actions)) && Failing(After(s, actions))
  {
    if actions == [] {
      InitialInv(s);
    } else {
      var t, a := After(s, actions[..|actions| - 1]), actions[|actions| - 1];
      RunKeepsFailing(s, actions[..|actions| - 1]);
      StepKeepsInv(t, a);
      hide Initial, Failing, Inv, InitNext, WatcherNext, CloserNext, Signalled;
      if a.InitStep? { InitKeepsFailing(t, a.allocFails); }
      else if a.WatcherStep? { WatcherKeepsFailing(t); }
      else { OthersKeepFailing(t, a); }
    }
  }

  lemma YesOrNo(report: Option<bool>)
    requires report.Some?
    ensures report == Some(true) || report == Some(false)
  {
    match report
    case Some(b) =>
      if b { assert report == Some(true); } else { assert report == Some(false); }
  }

  /** The thread ends with a report. A failure means that some command was not completed; and from a status other
      than terminate, while it is not terminate, success is reported exactly when all were. */
  lemma ReportIsExact(s: State, actions: seq<Action>)
    requires Initial(s)
    ensures var t := After(s, actions);
            && (t.pc == Done <==> t.report.Some?)
            && (t.report == Some(false) ==> !AllCompleted(t))
            && (t.report.Some? && s.status != CmdTerminate && t.status != CmdTerminate ==>
                  (t.report == Some(true) <==> AllCompleted(t)))
  {
    hide Inv, After, Initial;
    RunKeepsFailing(s, actions);
    if After(s, actions).report.Some? {
      YesOrNo(After(s, actions).report);
    }
    if s.status != CmdTerminate {
      SuccessMeansCompleted(s, actions);
    }
  }

  /** No allocation fails. */
  predicate MemoryLasts(actions: seq<Action>) { forall i | 0 <= i < |actions| :: actions[i] != InitStep(true) }

  /** A failure, reported or about to be, is that of the last command's event. */
  predicate FailedByEvent(s: State) {
    && ((s.pc == Fail || s.report == Some(false)) && s.status != CmdTerminate ==> s.status == CmdFail)
    && (s.status == CmdTerminate && s.watcher != Stopped ==> s.report != Some(false))
  }

  lemma InvMeans(s: State)
    requires Inv(s)
    ensures WatcherFits(s) && MutexHeld(s)
  {
  }

  lemma InitKeepsFailedByEvent(s: State)
    requires Inv(s) && FailedByEvent(s)
    ensures FailedByEvent(InitNext(s, false))
  {
    hide MutexHeld, WatcherFits, SentInOrder, Completed, InStep;
  }

  lemma WatcherKeepsFailedByEvent(s: State)
    requires Inv(s) && Failing(s) && FailedByEvent(s)
    ensures FailedByEvent(WatcherNext(s))
  {
    hide Completes, Matches, OfScript, Completed, MutexHeld, SentInOrder, AddrBytes, Reversed, Promised;
  }

  lemma OthersKeepFailedByEvent(s: State, a: Action)
    requires WatcherFits(s) && MutexHeld(s) && FailedByEvent(s) && !a.InitStep? && !a.WatcherStep?
    ensures FailedByEvent(Step(s, a))
  {
    hide InitNext, WatcherNext;
  }

  lemma StepKeepsFailedByEvent(s: State, a: Action)
    requires Inv(s) && Failing(s) && FailedByEvent(s) && a != InitStep(true)
    ensures FailedByEvent(Step(s, a))
  {
    hide Inv, Failing, FailedByEvent, InitNext, WatcherNext, CloserNext, Signalled;
    if a.InitStep? {
      assert a == InitStep(false);
      InitKeepsFailedByEvent(s);
    } else if a.WatcherStep? {
      WatcherKeepsFailedByEvent(s);
    } else {
      assert WatcherFits(s) && MutexHeld(s) by { InvMeans(s); }
      OthersKeepFailedByEvent(s, a);
    }
  }

  lemma {:induction false} RunKeepsFailedByEvent(s: State, actions: seq<Action>)
    requires Initial(s) && MemoryLasts(actions)
    ensures Inv(After(s, actions)) && Failing(After(s, actions)) && FailedByEvent(After(s, actions))
  {
    RunKeepsFailing(s, actions);
    if actions != [] {
      hide Initial, Inv, Step, Failing, FailedByEvent;
      var n := |actions| - 1;
      RunKeepsFailedByEvent(s, actions[..n]);
      StepKeepsFailedByEvent(After(s, actions[..n]), actions[n]);
    }
  }

  /** While allocations succeed, a reported failure is due to an event that did not complete its command. */
  lemma FailureIsTheEvents(s: State, actions: seq<Action>)
    requires Initial(s) && MemoryLasts(actions)
    ensures var t := After(s, actions);
            t.report == Some(false) && t.status != CmdTerminate ==> t.status == CmdFail
  {
    hide After, Initial, Inv;
    RunKeepsFailedByEvent(s, actions);
  }

  /** A failed allocation is reported as a failure, whatever follows it. */
  lemma {:induction false} AllocationFailureIsFinal(s: State, actions: seq<Action>)
    requires s.pc == Alloc && s.report == None
    ensures var t := After(InitNext(s, true), actions); (t.pc == Fail && t.report == None) || (t.pc == Done && t.report == Some(false))
  {
    if actions != [] {
      AllocationFailureIsFinal(s, actions[..|actions| - 1]);
      hide After, Completes, Matches, AddrBytes, Reversed;
    }
  }

  function Opcodes(sent: seq<Command>): seq<int> {
    if sent == [] then [] else Opcodes(sent[..|sent| - 1]) + [sent[|sent| - 1].op]
  }

  lemma {:induction false} OpcodesOneByOne(sent: seq<Command>)
    ensures |Opcodes(sent)| == |sent| && forall j | 0 <= j < |sent| :: Opcodes(sent)[j] == sent[j].op
  {
    if sent != [] {
      OpcodesOneByOne(sent[..|sent| - 1]);
    }
  }

  /** A completed script by its opcodes: the eFUSE read if it is wanted, the address, seven settings. */
  lemma CompletedOpcodes(t: State)
    requires AllCompleted(t) && t.first <= 1
    ensures var rest := [0xFC1A, 0xFC72, 0xFC79, 0xFC93, 0xFC7A, 0xFC22, 0xFCBE, 0x1804];
            Opcodes(t.sent) == if t.first == 0 then [0x1009] + rest else rest
  {
    OpcodesOneByOne(t.sent);
    var rest := [0xFC1A, 0xFC72, 0xFC79, 0xFC93, 0xFC7A, 0xFC22, 0xFCBE, 0x1804];
    assert forall j | 0 <= j < 8 :: rest[j] == SCRIPT[1 + j];
    assert forall j | 0 <= j < |t.sent| :: Opcodes(t.sent)[j] == SCRIPT[t.first + j];
  }

  /** Once the watcher is stopped, no action undoes a termination. */
  lemma TerminateStays(s: State, a: Action)
    requires Inv(s) && s.status == CmdTerminate && s.closer != Open
    ensures Step(s, a).status == CmdTerminate
  {
    hide Completes, Matches, OfScript, Completed, SentInOrder;
  }

  /** Nobody calls Close. */
  predicate NeverClosed(actions: seq<Action>) { forall i | 0 <= i < |actions| :: actions[i] != CloserStep }

  lemma OnlyCloseTerminates(s: State, a: Action)
    requires s.closer == Open && s.status != CmdTerminate && a != CloserStep
    ensures Step(s, a).closer == Open && Step(s, a).status != CmdTerminate
  {
    hide Completes, Matches, AddrBytes, Reversed;
  }

  lemma {:induction false} StatusWithoutClose(s: State, actions: seq<Action>)
    requires s.closer == Open && s.status != CmdTerminate && NeverClosed(actions)
    ensures After(s, actions).status != CmdTerminate && After(s, actions).closer == Open
  {
    hide Step;
    if actions != [] {
      var n := |actions| - 1;
      StatusWithoutClose(s, actions[..n]);
      OnlyCloseTerminates(After(s, actions[..n]), actions[n]);
    }
  }

  /** Without Close, success means completion for every run exactly when the status left by an earlier
      init is not terminate: with it, the loop is left at once and success reported for nothing. */
  lemma SuccessIsCompletionExactly(s: State)
    requires Initial(s)
    ensures (forall actions | NeverClosed(actions) && After(s, actions).report == Some(true) ::
               AllCompleted(After(s, actions)))
            <==> s.status != CmdTerminate
  {
    if s.status == CmdTerminate {
      var run := [InitStep(false), InitStep(false), InitStep(false)];
      TerminatedAtStart(s);
      assert NeverClosed(run) && !AllCompleted(After(s, run));
    } else {
      InitialInv(s);
      hide Inv, Step;
      forall actions | NeverClosed(actions) && After(s, actions).report == Some(true)
        ensures AllCompleted(After(s, actions))
      {
        StatusWithoutClose(s, actions);
        SuccessMeansCompleted(s, actions);
      }
    }
  }

  lemma AfterOne(s: State, actions: seq<Action>, a: Action)
    ensures After(s, actions + [a]) == Step(After(s, actions), a)
  {
    assert (actions + [a])[..|actions|] == actions;
  }

  lemma TerminatedAtStart(s: State)
    requires Initial(s) && s.status == CmdTerminate
    ensures var t := After(s, [InitStep(false), InitStep(false), InitStep(false)]);
            t.report == Some(true) && t.sent == [] && t.first <= 1
  {
    hide After, InitNext;
    var a := InitStep(false);
    AfterOne(s, [], a);
    AfterOne(s, [a], a);
    AfterOne(s, [a, a], a);
    assert [] + [a] == [a] && [a] + [a] == [a, a] && [a, a] + [a] == [a, a, a];
    AfterNothing(s);
    LeavesAtOnce(s);
  }

  lemma AfterNothing(s: State)
    ensures After(s, []) == s
  {
  }

  lemma LeavesAtOnce(s: State)
    requires Initial(s) && s.status == CmdTerminate
    ensures var t := InitNext(InitNext(InitNext(s, false), false), false);
            t.report == Some(true) && t.sent == [] && t.first <= 1
  {
    var s1 := InitNext(s, false);
    assert s1.pc == Test && s1.status == CmdTerminate && s1.sent == [] && s1.first <= 1;
    var s2 := InitNext(s1, false);
    assert s2.pc == Succeed && s2.sent == [] && s2.first == s1.first;
  }

  // ----- routing -----

  /** The event the watcher has read and not yet given to either side. */
  function InFlight(w: Watcher): seq<bytes> {
    match w
    case ReadCallback(event) => [event]
    case Match(event) => [event]
    case Take(event) => [event]
    case Handle(_, event) => [event]
    case _ => []
  }

  /** The events that arrived are, each once, those of the two sinks and those in flight. */
  predicate Conserved(arrived: seq<bytes>, stack: seq<bytes>, handled: seq<bytes>, inFlight: seq<bytes>) {
    multiset(arrived) == multiset(stack) + multiset(handled) + multiset(inFlight)
  }

  lemma EventMoves(arrived: seq<bytes>, stack: seq<bytes>, handled: seq<bytes>, event: bytes)
    ensures Conserved(arrived, stack, handled, []) ==> Conserved(arrived + [event], stack, handled, [event])
    ensures Conserved(arrived, stack, handled, [event]) ==> Conserved(arrived, stack + [event], handled, [])
    ensures Conserved(arrived, stack, handled, [event]) ==> Conserved(arrived, stack, handled + [event], [])
  {
  }

  predicate Routed(s: State) { Conserved(s.arrived, s.stack, s.handled, InFlight(s.watcher)) }

  lemma WatcherKeepsRouted(s: State)
    requires Routed(s)
    ensures Routed(WatcherNext(s))
  {
    hide Completes, Matches, AddrBytes, Reversed, Conserved;
    if InFlight(s.watcher) != [] {
      EventMoves(s.arrived, s.stack, s.handled, InFlight(s.watcher)[0]);
    }
  }

  lemma OthersKeepRouted(s: State, a: Action)
    requires Routed(s) && !a.WatcherStep?
    ensures Routed(Step(s, a))
  {
    hide WatcherNext, Conserved;
    if a.Arrive? {
      EventMoves(s.arrived, s.stack, s.handled, a.event);
    }
  }

  lemma {:induction false} RunKeepsRouted(s: State, actions: seq<Action>)
    requires Routed(s)
    ensures Routed(After(s, actions))
  {
    hide WatcherNext, InitNext, CloserNext, Signalled, Routed;
    if actions != [] {
      var t, a := After(s, actions[..|actions| - 1]), actions[|actions| - 1];
      RunKeepsRouted(s, actions[..|actions| - 1]);
      if a.WatcherStep? { WatcherKeepsRouted(t); } else { OthersKeepRouted(t, a); }
    }
  }

  lemma InitialRouted(s: State)
    requires Initial(s)
    ensures Routed(s)
  {
  }

  /** Each event is given to exactly one sink, the internal callback or the stack, and none is lost. */
  lemma EachEventToOneSink(s: State, actions: seq<Action>)
    requires Initial(s)
    ensures var t := After(s, actions);
            multiset(t.arrived) == multiset(t.stack) + multiset(t.handled) + multiset(InFlight(t.watcher))
  {
    InitialRouted(s);
    RunKeepsRouted(s, actions);
    hide After, Initial;
  }

  // ----- an init that succeeds -----

  /** Some run leads from one state to the other. */
  ghost predicate Leads(s: State, t: State) { exists actions :: After(s, actions) == t }

  lemma LeadsTo(s: State, t: State, a: Action)
    requires Leads(s, t)
    ensures Leads(s, Step(t, a))
  {
    hide Step;
    var actions :| After(s, actions) == t;
    AfterOne(s, actions, a);
  }

  lemma LeadsNowhere(s: State)
    ensures Leads(s, s)
  {
    assert After(s, []) == s;
  }

  /** At the loop condition, with nothing under way. */
  predicate BetweenCommands(s: State) {
    s.pc == Test && s.owner.None? && s.watcher == Idle && s.closer == Open && s.cb.None? && s.status != CmdTerminate
  }

  /** The state in which a command's event is awaited. */
  function Awaiting(s: State): State
    requires s.i < |SCRIPT|
  {
    var command := Command(SCRIPT[s.i], if s.i == 1 then s.addr else []);
    s.(status := CmdPending, wOpCode := SCRIPT[s.i], buffer := command, getEfuse := s.getEfuse && s.i != 1,
       cb := Some(CallbackOf(s.i)), internalOp := SCRIPT[s.i], sent := s.sent + [command], pc := Waiting)
  }

  lemma CommandIsSent(s0: State, s: State)
    requires Leads(s0, s) && BetweenCommands(s) && s.i < |SCRIPT|
    ensures Leads(s0, Awaiting(s))
  {
    hide Leads, Step;
    var t := s;
    t := InitOnce(s0, t, s.(pc := Alloc));
    t := InitOnce(s0, t, s.(pc := Lock1));
    t := InitOnce(s0, t, s.(owner := Some(InitThread), pc := Locked1));
    t := InitOnce(s0, t, s.(status := CmdPending, owner := None, pc := SetOpcode));
    CommandIsIssued(s0, t);
    assert Awaiting(t) == Awaiting(s);
  }

  lemma CommandIsIssued(s0: State, s: State)
    requires Leads(s0, s) && s.pc == SetOpcode && s.i < |SCRIPT| && s.status == CmdPending && s.owner.None?
    ensures Leads(s0, Awaiting(s))
  {
    hide Leads, Step;
    var t := s;
    var command := Command(SCRIPT[s.i], if s.i == 1 then s.addr else []);
    var u := t.(wOpCode := SCRIPT[s.i], buffer := command, getEfuse := s.getEfuse && s.i != 1);
    t := InitOnce(s0, t, u.(pc := SetCallback));
    t := InitOnce(s0, t, u.(cb := Some(CallbackOf(s.i)), pc := SetInternal));
    t := InitOnce(s0, t, u.(cb := Some(CallbackOf(s.i)), internalOp := SCRIPT[s.i], pc := Send));
    t := InitOnce(s0, t, t.(sent := s.sent + [command], pc := Lock2));
    t := InitOnce(s0, t, t.(owner := Some(InitThread), pc := Locked2));
    t := InitOnce(s0, t, t.(owner := None, pc := Waiting));
    assert t == Awaiting(s);
  }

  lemma InitOnce(s0: State, s: State, t: State) returns (next: State)
    requires Leads(s0, s) && InitNext(s, false) == t
    ensures next == t && Leads(s0, t)
  {
    hide InitNext;
    LeadsTo(s0, s, InitStep(false));
    next := t;
  }

  lemma WatcherOnce(s0: State, s: State, t: State) returns (next: State)
    requires Leads(s0, s) && WatcherNext(s) == t
    ensures next == t && Leads(s0, t)
  {
    hide WatcherNext;
    LeadsTo(s0, s, WatcherStep);
    next := t;
  }

  /** The state after a command's event has been completed by the watcher and the thread has gone on. */
  function Gone(w: State, event: bytes): State {
    w.(arrived := w.arrived + [event], handled := w.handled + [event], acks := w.acks + [event], cb := None,
       addr := if w.i == 0 then Reversed(AddrBytes(event)) else w.addr, status := CmdSuccess, i := w.i + 1, pc := Test)
  }

  lemma EventIsCompleted(s0: State, w: State, event: bytes)
    requires Leads(s0, w) && w.pc == Waiting && w.owner.None? && w.watcher == Idle && w.status == CmdPending
    requires w.i < |SCRIPT| && w.cb == Some(CallbackOf(w.i)) && w.internalOp == w.wOpCode == SCRIPT[w.i]
    requires Completes(event, SCRIPT[w.i])
    ensures Leads(s0, Gone(w, event))
  {
    hide Leads, Step, AddrBytes, Reversed;
    assert Matches(event, SCRIPT[w.i]) && (w.i == 0 ==> SCRIPT[w.i] == 0x1009);
    hide Completes, Matches;
    var t := w.(arrived := w.arrived + [event], watcher := ReadCallback(event));
    LeadsTo(s0, w, Arrive(event));
    assert Step(w, Arrive(event)) == t by { ArriveIsRead(w, event); }
    t := WatcherOnce(s0, t, t.(watcher := Match(event)));
    t := WatcherOnce(s0, t, t.(watcher := Take(event)));
    t := WatcherOnce(s0, t, t.(cb := None, watcher := Handle(CallbackOf(w.i), event)));
    t := WatcherOnce(s0, t, t.(handled := w.handled + [event], watcher := TakeMutex(true, event),
                               addr := if w.i == 0 then Reversed(AddrBytes(event)) else w.addr));
    StatusIsSet(s0, t, event);
    assert t.(status := CmdSuccess, acks := t.acks + [event], watcher := Idle, i := t.i + 1, pc := Test) == Gone(w, event);
  }

  /** The callback's critical section and the thread's. */
  lemma StatusIsSet(s0: State, s: State, event: bytes)
    requires Leads(s0, s) && s.pc == Waiting && s.owner.None? && s.watcher == TakeMutex(true, event)
    ensures Leads(s0, s.(status := CmdSuccess, acks := s.acks + [event], watcher := Idle, i := s.i + 1, pc := Test))
  {
    hide Leads, Step;
    var t := s;
    t := WatcherOnce(s0, t, t.(owner := Some(WatcherThread), watcher := SetStatus(true, event)));
    t := WatcherOnce(s0, t, t.(status := CmdSuccess, acks := s.acks + [event], owner := None, watcher := Idle, pc := Lock2));
    t := InitOnce(s0, t, t.(owner := Some(InitThread), pc := Locked2));
    t := InitOnce(s0, t, t.(owner := None, i := s.i + 1, pc := Test));
  }

  lemma ArriveIsRead(s: State, event: bytes)
    requires s.watcher == Idle
    ensures Step(s, Arrive(event)) == s.(arrived := s.arrived + [event], watcher := ReadCallback(event))
  {
  }

  /** A Command Complete event with status 0. */
  function Completion(op: int): bytes
    requires 0 <= op < 0x1_0000
  {
    [COMMAND_COMPLETE_EVENT, 4, 1, op % 0x100, op / 0x100, 0]
  }

  lemma CompletionCompletes(i: nat)
    requires i < |SCRIPT|
    ensures 0 <= SCRIPT[i] < 0x1_0000 && Completes(Completion(SCRIPT[i]), SCRIPT[i])
  {
    assert forall j | 0 <= j < |SCRIPT| :: 0 <= SCRIPT[j] < 0x1_0000;
  }

  lemma {:induction false} RestCompletes(s0: State, s: State) returns (t: State)
    requires Leads(s0, s) && BetweenCommands(s) && s.i <= |SCRIPT|
    ensures Leads(s0, t) && BetweenCommands(t) && t.i == |SCRIPT|
    decreases |SCRIPT| - s.i
  {
    hide Leads;
    t := s;
    if s.i < |SCRIPT| {
      CommandIsSent(s0, s);
      CompletionCompletes(s.i);
      hide Completes;
      EventIsCompleted(s0, Awaiting(s), Completion(SCRIPT[s.i]));
      t := RestCompletes(s0, Gone(Awaiting(s), Completion(SCRIPT[s.i])));
    }
  }

  /** From every start but a left-over terminate, some run completes the whole script and reports success. */
  lemma ScriptCanComplete(s: State)
    requires Initial(s) && s.status != CmdTerminate
    ensures exists actions :: After(s, actions).report == Some(true) && AllCompleted(After(s, actions))
  {
    hide Leads, Step, AllCompleted, After;
    LeadsNowhere(s);
    var t := InitOnce(s, s, InitNext(s, false));
    t := RestCompletes(s, t);
    t := InitOnce(s, t, t.(pc := Succeed));
    t := InitOnce(s, t, t.(report := Some(true), pc := Done));
    var actions := RunOf(s, t);
    SuccessMeansCompleted(s, actions);
  }

  lemma RunOf(s: State, t: State) returns (actions: seq<Action>)
    requires Leads(s, t)
    ensures After(s, actions) == t
  {
    actions :| After(s, actions) == t;
  }

  // ----- which events are taken -----

  /** A Command Complete event for a command of the script, or for the opcode left registered by an earlier init. */
  predicate Answers(event: bytes, at: State) {
    Matches(event, at.internalOp) || exists j :: 0 <= j < |SCRIPT| && Matches(event, SCRIPT[j])
  }

  predicate OpcodeKnown(op: int, at: State) { op == at.internalOp || exists j :: 0 <= j < |SCRIPT| && op == SCRIPT[j] }

  /** Nothing else is taken from the stack. */
  predicate TakesAnswers(s: State, at: State) {
    && OpcodeKnown(s.internalOp, at)
    && (s.watcher.Take? || s.watcher.Handle? ==> Answers(s.watcher.event, at))
    && forall k | 0 <= k < |s.handled| :: Answers(s.handled[k], at)
  }

  lemma InitTakesAnswers(s: State, at: State, allocFails: bool)
    requires Inv(s) && TakesAnswers(s, at)
    ensures TakesAnswers(InitNext(s, allocFails), at)
  {
    hide Completes, Matches, OfScript, Completed, MutexHeld, WatcherFits, Phase, Answers;
    if s.pc == SetInternal {
      assert s.wOpCode == SCRIPT[s.i];
    }
  }

  lemma WatcherTakesAnswers(s: State, at: State)
    requires TakesAnswers(s, at)
    ensures TakesAnswers(WatcherNext(s), at)
  {
    hide Completes, Matches, AddrBytes, Reversed, Answers, OpcodeKnown;
    if s.watcher.Match? && Matches(s.watcher.event, s.internalOp) {
      MatchAnswers(s.watcher.event, s.internalOp, at);
    }
  }

  lemma MatchAnswers(event: bytes, op: int, at: State)
    requires OpcodeKnown(op, at) && Matches(event, op)
    ensures Answers(event, at)
  {
    hide Matches;
  }

  lemma OthersTakeAnswers(s: State, at: State, a: Action)
    requires TakesAnswers(s, at) && !a.InitStep? && !a.WatcherStep?
    ensures TakesAnswers(Step(s, a), at)
  {
    hide InitNext, WatcherNext, Answers, OpcodeKnown;
  }

  lemma {:induction false} RunTakesAnswers(s: State, actions: seq<Action>)
    requires Initial(s)
    ensures Inv(After(s, actions)) && TakesAnswers(After(s, actions), s)
  {
    if actions == [] {
      InitialInv(s);
    } else {
      var t, a := After(s, actions[..|actions| - 1]), actions[|actions| - 1];
      RunTakesAnswers(s, actions[..|actions| - 1]);
      StepKeepsInv(t, a);
      hide Initial, TakesAnswers, Inv, InitNext, WatcherNext, CloserNext, Signalled;
      if a.InitStep? { InitTakesAnswers(t, s, a.allocFails); }
      else if a.WatcherStep? { WatcherTakesAnswers(t, s); }
      else { OthersTakeAnswers(t, s, a); }
    }
  }

  /** On every interleaving the callbacks are given nothing but Command Complete events for the script's opcodes
      and the one left registered at the start; with EachEventToOneSink, all others go to the stack. */
  lemma OnlyAnswersAreTaken(s: State, actions: seq<Action>)
    requires Initial(s)
    ensures forall k | 0 <= k < |After(s, actions).handled| :: Answers(After(s, actions).handled[k], s)
  {
    hide After, Initial, Inv, Answers;
    RunTakesAnswers(s, actions);
  }

  /** A Command Complete event by its bytes: length, credits, the opcode low byte first, status, parameters. */
  lemma EventByItsBytes(n: byte, credits: byte, lo: byte, hi: byte, status: byte, params: bytes, op: int)
    ensures var event := [0x0E, n, credits, lo, hi, status] + params;
            && (Matches(event, op) <==> op == lo as int + 0x100 * (hi as int))
            && (Completes(event, op) <==> op == lo as int + 0x100 * (hi as int) && status == 0)
            && (|params| >= 6 ==> AddrBytes(event) == params[..6])
  {
  }

  /** No other kind of event is taken. */
  lemma OtherEventsDoNotMatch(event: bytes, op: int)
    requires event == [] || event[0] != 0x0E
    ensures !Matches(event, op) && !Completes(event, op)
  {
  }

  // ----- no lost wakeup -----

  /** Whenever the init thread waits, the status is pending and its reply will be taken: the callback of the
      command in question is registered under its opcode, or the watcher is completing the command. */
  lemma NoLostWakeup(s: State, actions: seq<Action>)
    requires Initial(s)
    ensures var t := After(s, actions);
            t.pc == Waiting ==>
              && t.status == CmdPending && t.i < |SCRIPT| && t.internalOp == SCRIPT[t.i]
              && (t.cb == Some(CallbackOf(t.i)) || Completing(t.watcher))
  {
    hide After, Initial, Inv;
    InitialInv(s);
    RunKeepsInv(s, actions);
    WaitingIsPromised(After(s, actions));
  }

  lemma WaitingIsPromised(t: State)
    requires Inv(t)
    ensures t.pc == Waiting ==>
              && t.status == CmdPending && t.i < |SCRIPT| && t.internalOp == SCRIPT[t.i]
              && (t.cb == Some(CallbackOf(t.i)) || Completing(t.watcher))
  {
    hide Completes, Matches, OfScript, Completed;
  }

  // ----- the reply reaches the thread -----

  /** The init thread has sent its command; the watcher is completing it with this event and has not touched
      the status yet. `at` is the state in which the event arrived. */
  predicate Replying(s: State, at: State, event: bytes) {
    && Sent(s.pc) && s.i == at.i && s.i < |SCRIPT| && s.status == CmdPending
    && s.stack == at.stack && s.acks == at.acks
    && WatcherReplies(s, event) && s.handled == at.handled + if Noting(s.watcher) then [event] else []
  }

  predicate Noting(w: Watcher) { w.TakeMutex? || w.SetStatus? }

  predicate WatcherReplies(s: State, event: bytes)
    requires s.i < |SCRIPT|
  {
    match s.watcher
    case ReadCallback(e) => e == event && s.cb == Some(CallbackOf(s.i))
    case Match(e) => e == event && s.cb == Some(CallbackOf(s.i))
    case Take(e) => e == event && s.cb == Some(CallbackOf(s.i))
    case Handle(saved, e) => e == event && saved == CallbackOf(s.i) && s.cb.None?
    case TakeMutex(success, e) => e == event && success == Completes(event, SCRIPT[s.i]) && s.cb.None?
    case SetStatus(success, e) => e == event && success == Completes(event, SCRIPT[s.i]) && s.cb.None?
    case _ => false
  }

  /** The event has been taken by the callback, the status says what the event says, and the thread is awake. */
  predicate Replied(s: State, at: State, event: bytes)
    requires at.i < |SCRIPT|
  {
    var success := Completes(event, SCRIPT[at.i]);
    && s.pc == Lock2 && s.i == at.i && s.watcher == Idle && s.owner == None && s.cb == None
    && s.status == (if success then CmdSuccess else CmdFail)
    && s.handled == at.handled + [event] && s.stack == at.stack
    && s.acks == if success then at.acks + [event] else at.acks
  }

  /** How many steps the watcher is from being through with its event. */
  function StepsLeft(w: Watcher): nat {
    match w
    case ReadCallback(_) => 6
    case Match(_) => 5
    case Take(_) => 4
    case Handle(_, _) => 3
    case TakeMutex(_, _) => 2
    case SetStatus(_, _) => 1
    case _ => 0
  }

  /** The watcher is at a mutex that another thread holds. */
  predicate Blocked(s: State) { s.watcher.TakeMutex? && s.owner.Some? }

  /** The watcher's steps in a run, without those in which it is blocked. */
  function WatcherMoves(s: State, actions: seq<Action>): nat {
    if actions == [] then 0
    else
      var n := |actions| - 1;
      WatcherMoves(s, actions[..n]) + if actions[n].WatcherStep? && !Blocked(After(s, actions[..n])) then 1 else 0
  }

  /** What the invariant says of a command that has been sent. */
  lemma SentMeans(s: State)
    requires Inv(s) && Sent(s.pc)
    ensures s.i < |SCRIPT| && s.wOpCode == SCRIPT[s.i] && s.internalOp == SCRIPT[s.i]
    ensures s.cb.Some? && s.watcher != Stopped ==> s.status == CmdPending && s.cb == Some(CallbackOf(s.i))
    ensures s.watcher.SetStatus? ==> s.pc != Locked2
    ensures s.watcher != Stopped ==> s.closer == Open
    ensures s.closer == Open && s.owner.Some? && s.watcher.TakeMutex? ==> s.pc == Locked2
  {
    hide Completes, Matches, OfScript, Completed;
    if s.owner.Some? && s.closer == Open && s.watcher.TakeMutex? && s.pc != Locked2 {
      NoOtherThread(s.owner);
    }
  }

  lemma OthersWhileReplying(s: State, at: State, event: bytes, a: Action)
    requires Inv(s) && Replying(s, at, event) && !a.WatcherStep?
    ensures Replying(Step(s, a), at, event) && Step(s, a).watcher == s.watcher
  {
    hide Inv, Completes, Matches;
    SentMeans(s);
  }

  lemma WatcherWhileReplying(s: State, at: State, event: bytes)
    requires Inv(s) && Replying(s, at, event) && Matches(event, SCRIPT[at.i])
    ensures var t := WatcherNext(s);
            if Blocked(s) then t == s
            else Replied(t, at, event) || (Replying(t, at, event) && StepsLeft(t.watcher) < StepsLeft(s.watcher))
  {
    hide Inv, Completes, Matches, AddrBytes, Reversed;
    SentMeans(s);
  }

  /** While the event is being completed the watcher can be blocked only by the init thread, and that thread's
      next step lets it go on. */
  lemma BlockedForOneStep(s: State, at: State, event: bytes, allocFails: bool)
    requires Inv(s) && Replying(s, at, event) && Blocked(s)
    ensures s.owner == Some(InitThread) && !Blocked(InitNext(s, allocFails))
  {
    hide Completes, Matches, OfScript, Completed;
    SentMeans(s);
  }

  /** Progress, under every interleaving: once a Command Complete event for the command that has been sent
      reaches an idle watcher, then by the watcher's sixth step, those at a held mutex not counted and whatever
      all threads do in between, the callback has taken the event, the status is set by the event's own status
      and the init thread is awake. */
  lemma ReplyWakesTheThread(s: State, event: bytes, actions: seq<Action>)
    requires Inv(s) && Sent(s.pc) && s.cb.Some? && s.watcher == Idle
    requires s.i < |SCRIPT| && Matches(event, SCRIPT[s.i])
    requires WatcherMoves(Step(s, Arrive(event)), actions) >= 6
    ensures exists k :: 0 <= k <= |actions| && Replied(After(Step(s, Arrive(event)), actions[..k]), s, event)
  {
    hide Inv, Matches, Step, Replying, Replied, Sent;
    var a := Step(s, Arrive(event));
    StepKeepsInv(s, Arrive(event));
    ArrivedIsReplying(s, event);
    ReplyRun(a, s, event, actions);
  }

  lemma ArrivedIsReplying(s: State, event: bytes)
    requires Inv(s) && Sent(s.pc) && s.cb.Some? && s.watcher == Idle && s.i < |SCRIPT|
    ensures Replying(Step(s, Arrive(event)), s, event) && StepsLeft(Step(s, Arrive(event)).watcher) == 6
  {
    hide Inv;
    SentMeans(s);
  }

  lemma {:induction false} ReplyRun(a: State, at: State, event: bytes, actions: seq<Action>)
    requires Inv(a) && Replying(a, at, event) && Matches(event, SCRIPT[at.i])
    ensures (exists k :: 0 <= k <= |actions| && Replied(After(a, actions[..k]), at, event))
            || (var t := After(a, actions);
                && Inv(t) && Replying(t, at, event)
                && 1 <= StepsLeft(t.watcher) && StepsLeft(t.watcher) + WatcherMoves(a, actions) <= StepsLeft(a.watcher))
  {
    hide Inv, Step, Completes, Matches, Replied;
    if actions != [] {
      var n := |actions| - 1;
      var t, action := After(a, actions[..n]), actions[n];
      ReplyRun(a, at, event, actions[..n]);
      if k :| 0 <= k <= n && Replied(After(a, actions[..n][..k]), at, event) {
        assert actions[..n][..k] == actions[..k];
      } else {
        StepKeepsInv(t, action);
        ReplyStep(t, at, event, action);
        assert actions[..|actions|] == actions;
      }
    }
  }

  lemma ReplyStep(t: State, at: State, event: bytes, action: Action)
    requires Inv(t) && Replying(t, at, event) && Matches(event, SCRIPT[at.i])
    ensures var u := Step(t, action);
            || Replied(u, at, event)
            || (Replying(u, at, event) && StepsLeft(u.watcher) <= StepsLeft(t.watcher)
                && (action.WatcherStep? && !Blocked(t) ==> StepsLeft(u.watcher) < StepsLeft(t.watcher)))
  {
    hide Inv, Completes, Matches, Replied, Replying;
    if action.WatcherStep? {
      WatcherWhileReplying(t, at, event);
    } else {
      OthersWhileReplying(t, at, event, action);
    }
  }

  /** How many steps of its own the init thread is from its end once the status says terminate. */
  function Rank(pc: Pc): nat {
    match pc
    case Done => 0
    case Succeed => 1
    case Fail => 1
    case Test => 2
    case Start => 3
    case Locked1 => 2
    case Lock1 => 3
    case Alloc => 4
    case Locked2 => 3
    case Lock2 => 4
    case Waiting => 5
    case Send => 5
    case SetInternal => 6
    case SetCallback => 7
    case SetOpcode => 8
  }

  /** Close has told the thread to end. */
  predicate Told(s: State) { s.closer == Joining || s.closer == Closed }

  lemma FreeForInit(s: State)
    requires Inv(s) && s.status == CmdTerminate && Told(s) && (s.pc == Lock1 || s.pc == Lock2)
    ensures s.owner.None?
  {
    assert MutexHeld(s) && Terminated(s);
    NoOtherThread(s.owner);
  }

  lemma NoOtherThread(owner: Option<Thread>)
    requires owner != Some(InitThread) && owner != Some(WatcherThread) && owner != Some(CloserThread)
    ensures owner.None?
  {
    match owner
    case None =>
    case Some(InitThread) =>
    case Some(WatcherThread) =>
    case Some(CloserThread) =>
  }

  lemma InitTowardsEnd(s: State, allocFails: bool)
    requires Inv(s) && s.status == CmdTerminate && Told(s) && s.pc != Done
    ensures Told(InitNext(s, allocFails))
    ensures Rank(InitNext(s, allocFails).pc) < Rank(s.pc)
  {
    hide Completes, Matches, OfScript, Completed, InStep;
    if s.pc == Lock1 || s.pc == Lock2 {
      FreeForInit(s);
    }
  }

  lemma OthersTowardsEnd(s: State, a: Action)
    requires Inv(s) && s.status == CmdTerminate && Told(s) && !a.InitStep?
    ensures Told(Step(s, a)) && Step(s, a).pc == s.pc
  {
    hide Completes, Matches, OfScript, Completed, InStep, SentInOrder, InitNext;
  }

  lemma TowardsEnd(s: State, a: Action)
    requires Inv(s) && s.status == CmdTerminate && Told(s)
    ensures Told(Step(s, a))
    ensures Rank(Step(s, a).pc) <= Rank(s.pc)
    ensures a.InitStep? && s.pc != Done ==> Rank(Step(s, a).pc) < Rank(s.pc)
  {
    hide Inv, Rank, Told;
    if !a.InitStep? {
      OthersTowardsEnd(s, a);
    } else if s.pc != Done {
      InitTowardsEnd(s, a.allocFails);
    }
  }

  function InitSteps(actions: seq<Action>): nat {
    if actions == [] then 0
    else InitSteps(actions[..|actions| - 1]) + if actions[|actions| - 1].InitStep? then 1 else 0
  }

  /** Once told, the thread is through after at most eight steps of its own, whatever the others do in
      between; it waits for nobody. */
  lemma TerminateEndsThread(s: State, actions: seq<Action>)
    requires Inv(s) && s.status == CmdTerminate && Told(s) && InitSteps(actions) >= 8
    ensures After(s, actions).pc == Done
  {
    TowardsEndRun(s, actions);
  }

  /** Close having told the thread, the status says so until the thread is through. */
  predicate ToldMeansTerminate(s: State) { Told(s) && s.pc != Done ==> s.status == CmdTerminate }

  lemma StepKeepsTold(s: State, a: Action)
    requires Inv(s) && ToldMeansTerminate(s)
    ensures ToldMeansTerminate(Step(s, a))
  {
    hide Inv, Completes, Matches, AddrBytes, Reversed;
    if s.status == CmdTerminate && s.closer != Open {
      TerminateStays(s, a);
    }
  }

  lemma {:induction false} RunKeepsTold(s: State, actions: seq<Action>)
    requires Initial(s)
    ensures Inv(After(s, actions)) && ToldMeansTerminate(After(s, actions))
  {
    if actions == [] {
      InitialInv(s);
    } else {
      hide Initial, Inv, Step, ToldMeansTerminate;
      RunKeepsTold(s, actions[..|actions| - 1]);
      StepKeepsInv(After(s, actions[..|actions| - 1]), actions[|actions| - 1]);
      StepKeepsTold(After(s, actions[..|actions| - 1]), actions[|actions| - 1]);
    }
  }

  /** From every start: once Close has been through its notification, eight steps of the init thread, among whatever
      others, end it. */
  lemma CloseEndsThread(s: State, before: seq<Action>, after: seq<Action>)
    requires Initial(s) && Told(After(s, before)) && InitSteps(after) >= 8
    ensures After(After(s, before), after).pc == Done
  {
    hide Initial, Inv, Step, Told;
    RunKeepsTold(s, before);
    if After(s, before).pc == Done {
      DoneStays(After(s, before), after);
    } else {
      TerminateEndsThread(After(s, before), after);
    }
  }

  /** How many steps Close is from returning. */
  function CloseRank(c: Closer): nat {
    match c
    case Open => 4
    case Cleanup => 3
    case NotifyLocked => 2
    case Joining => 1
    case Closed => 0
  }

  /** Close is at the watcher's event, at a held mutex, or at the join of a thread that has not ended. */
  predicate CloseBlocked(s: State) {
    match s.closer
    case Open => s.watcher != Idle
    case Cleanup => s.pc != Done && s.owner.Some?
    case Joining => s.pc != Done
    case _ => false
  }

  /** Its steps in a run, without those in which it is blocked. */
  function CloseMoves(s: State, actions: seq<Action>): nat {
    if actions == [] then 0
    else
      var n := |actions| - 1;
      CloseMoves(s, actions[..n]) + if actions[n].CloserStep? && !CloseBlocked(After(s, actions[..n])) then 1 else 0
  }

  lemma CloseAdvances(s: State, a: Action)
    ensures CloseRank(Step(s, a).closer) <= CloseRank(s.closer)
    ensures a.CloserStep? && !CloseBlocked(s) && s.closer != Closed ==> CloseRank(Step(s, a).closer) < CloseRank(s.closer)
  {
    if !a.CloserStep? {
      OthersLeaveCloser(s, a);
    } else {
      hide InitNext, WatcherNext;
    }
  }

  lemma OthersLeaveCloser(s: State, a: Action)
    requires !a.CloserStep?
    ensures Step(s, a).closer == s.closer
  {
    hide Completes, Matches, AddrBytes, Reversed, CloserNext, OnlyLeaving;
  }

  /** Close returns after at most four steps of its own, those in which it is blocked not counted. */
  lemma CloseReturns(s: State, actions: seq<Action>)
    requires CloseMoves(s, actions) >= 4
    ensures After(s, actions).closer == Closed
  {
    CloseRun(s, actions);
  }

  lemma {:induction false} CloseRun(s: State, actions: seq<Action>)
    ensures var t := After(s, actions);
            t.closer == Closed || CloseRank(t.closer) + CloseMoves(s, actions) <= CloseRank(s.closer) <= 4
  {
    hide Step, CloseRank, CloseBlocked;
    ClosedRank(s.closer);
    if actions != [] {
      var n := |actions| - 1;
      CloseRun(s, actions[..n]);
      CloseAdvances(After(s, actions[..n]), actions[n]);
      ClosedRank(After(s, actions).closer);
      ClosedRank(After(s, actions[..n]).closer);
    }
  }

  lemma ClosedRank(c: Closer)
    ensures CloseRank(c) == 0 <==> c == Closed
    ensures CloseRank(c) <= 4
  {
  }

  lemma {:induction false} DoneStays(s: State, actions: seq<Action>)
    requires s.pc == Done
    ensures After(s, actions).pc == Done
  {
    if actions != [] {
      DoneStays(s, actions[..|actions| - 1]);
      hide After, Completes, Matches, AddrBytes, Reversed;
    }
  }

  lemma {:induction false} TowardsEndRun(s: State, actions: seq<Action>)
    requires Inv(s) && s.status == CmdTerminate && Told(s)
    ensures var t := After(s, actions);
            && Inv(t) && t.status == CmdTerminate && Told(t)
            && (t.pc == Done || Rank(t.pc) + InitSteps(actions) <= Rank(s.pc))
  {
    hide Inv, Step, Rank;
    if actions != [] {
      var n := |actions| - 1;
      var t := After(s, actions[..n]);
      TowardsEndRun(s, actions[..n]);
      StepKeepsInv(t, actions[n]);
      TerminateStays(t, actions[n]);
      TowardsEnd(t, actions[n]);
      if t.pc == Done {
        DoneIsLast(Step(t, actions[n]), t);
      }
    }
  }

  lemma DoneIsLast(t: State, s: State)
    requires Rank(t.pc) <= Rank(s.pc) && s.pc == Done
    ensures t.pc == Done
  {
  }

  // ----- the address -----

  /** The address kept is that of the first reply accepted. */
  predicate Kept(acks: seq<bytes>, addr: bytes) {
    acks != [] ==> addr == Reversed(AddrBytes(acks[0]))
  }

  /** A command carries the address of the first reply accepted. */
  predicate Carries(c: Command, acks: seq<bytes>) {
    acks != [] && c.addr == Reversed(AddrBytes(acks[0]))
  }

  /** A first reply being completed has left its address already. */
  predicate Noted(w: Watcher, acks: seq<bytes>, addr: bytes) {
    (w.TakeMutex? || w.SetStatus?) && acks == [] ==> addr == Reversed(AddrBytes(w.event))
  }

  /** The address bytes of the eFUSE reply, once it is accepted, are what is kept, and what the next
      command carries. */
  predicate AddressRelayed(s: State) {
    s.first == 0 && s.pc != Start ==>
      && (s.status != CmdTerminate ==> Noted(s.watcher, s.acks, s.addr))
      && Kept(s.acks, s.addr)
      && ((s.pc == SetCallback || s.pc == SetInternal || s.pc == Send) && s.i == 1 ==> Carries(s.buffer, s.acks))
      && (|s.sent| >= 2 ==> Carries(s.sent[1], s.acks))
  }

  lemma StartKeepsAddress(s: State, allocFails: bool)
    requires Inv(s) && AddressRelayed(s) && s.pc == Start
    ensures AddressRelayed(InitNext(s, allocFails))
  {
    hide Completes, Matches, OfScript, Completed, AddrBytes, Reversed, MutexHeld, WatcherFits;
  }

  lemma CommandKeepsAddress(s: State, allocFails: bool)
    requires Inv(s) && AddressRelayed(s) && s.pc == SetOpcode
    ensures AddressRelayed(InitNext(s, allocFails))
  {
    hide Completes, Matches, OfScript, Completed, AddrBytes, Reversed, MutexHeld, WatcherFits;
  }

  lemma SendKeepsAddress(s: State, allocFails: bool)
    requires Inv(s) && AddressRelayed(s) && s.pc == Send
    ensures AddressRelayed(InitNext(s, allocFails))
  {
    hide Completes, Matches, OfScript, Completed, AddrBytes, Reversed, MutexHeld, WatcherFits;
  }

  lemma OtherPcKeepsAddress(s: State, allocFails: bool)
    requires Inv(s) && AddressRelayed(s) && s.pc != Start && s.pc != SetOpcode && s.pc != Send
    ensures AddressRelayed(InitNext(s, allocFails))
  {
    hide Completes, Matches, OfScript, Completed, AddrBytes, Reversed, MutexHeld, WatcherFits;
  }

  lemma InitKeepsAddress(s: State, allocFails: bool)
    requires Inv(s) && AddressRelayed(s)
    ensures AddressRelayed(InitNext(s, allocFails))
  {
    hide Inv, AddressRelayed, InitNext;
    if s.pc == Start { StartKeepsAddress(s, allocFails); }
    else if s.pc == SetOpcode { CommandKeepsAddress(s, allocFails); }
    else if s.pc == Send { SendKeepsAddress(s, allocFails); }
    else { OtherPcKeepsAddress(s, allocFails); }
  }

  lemma HandleKeepsAddress(s: State)
    requires Inv(s) && AddressRelayed(s) && s.watcher.Handle?
    ensures AddressRelayed(WatcherNext(s))
  {
    hide Completes, Matches, OfScript, Completed, AddrBytes, Reversed, MutexHeld;
  }

  lemma SetStatusKeepsAddress(s: State)
    requires Inv(s) && AddressRelayed(s) && s.watcher.SetStatus?
    ensures AddressRelayed(WatcherNext(s))
  {
    hide Completes, Matches, OfScript, Completed, AddrBytes, Reversed, MutexHeld;
  }

  lemma RoutingFrame(s: State)
    requires !s.watcher.Handle? && !s.watcher.SetStatus?
    ensures var t := WatcherNext(s);
            && t.first == s.first && t.pc == s.pc && t.i == s.i && t.status == s.status && t.addr == s.addr
            && t.acks == s.acks && t.sent == s.sent && t.buffer == s.buffer
  {
    hide Matches;
  }

  lemma RoutingKeepsAddress(s: State)
    requires AddressRelayed(s) && !s.watcher.Handle? && !s.watcher.SetStatus?
    ensures AddressRelayed(WatcherNext(s))
  {
    hide WatcherNext, Kept, Carries, Noted;
    RoutingFrame(s);
    NotedStays(s);
  }

  lemma NotedStays(s: State)
    requires !s.watcher.Handle? && !s.watcher.SetStatus?
    ensures Noted(s.watcher, s.acks, s.addr) ==> Noted(WatcherNext(s).watcher, s.acks, s.addr)
  {
    hide Matches, AddrBytes, Reversed;
  }

  lemma WatcherKeepsAddress(s: State)
    requires Inv(s) && AddressRelayed(s)
    ensures AddressRelayed(WatcherNext(s))
  {
    hide Inv, AddressRelayed, WatcherNext;
    if s.watcher.Handle? { HandleKeepsAddress(s); }
    else if s.watcher.SetStatus? { SetStatusKeepsAddress(s); }
    else { RoutingKeepsAddress(s); }
  }

  lemma CloserKeepsAddress(s: State)
    requires AddressRelayed(s)
    ensures AddressRelayed(CloserNext(s))
  {
    hide AddrBytes, Reversed, Kept, Carries;
  }

  lemma OthersKeepAddress(s: State, a: Action)
    requires AddressRelayed(s) && (a.SpuriousWakeup? || a.Arrive?)
    ensures AddressRelayed(Step(s, a))
  {
    hide AddrBytes, Reversed, Kept, Carries, InitNext, WatcherNext, CloserNext;
  }

  lemma {:induction false} RunKeepsAddress(s: State, actions: seq<Action>)
    requires Initial(s)
    ensures Inv(After(s, actions)) && AddressRelayed(After(s, actions))
  {
    if actions == [] {
      InitialInv(s);
    } else {
      var t, a := After(s, actions[..|actions| - 1]), actions[|actions| - 1];
      RunKeepsAddress(s, actions[..|actions| - 1]);
      StepKeepsInv(t, a);
      hide Initial, AddressRelayed, InitNext, WatcherNext, CloserNext, Signalled, Sound, Phase;
      if a.InitStep? { InitKeepsAddress(t, a.allocFails); }
      else if a.WatcherStep? { WatcherKeepsAddress(t); }
      else if a.CloserStep? { CloserKeepsAddress(t); }
      else { OthersKeepAddress(t, a); }
    }
  }

  /** When the script starts with reading the eFUSE address, the address command puts on the wire exactly
      the six address bytes of the accepted reply. */
  lemma AddressGoesBackOut(s: State, actions: seq<Action>)
    requires Initial(s)
    ensures var t := After(s, actions);
            t.first == 0 && |t.sent| >= 2 ==>
              && t.sent[1].op == 0xFC1A && t.acks != [] && Completes(t.acks[0], 0x1009)
              && |t.sent[1].addr| == 6 && Reversed(t.sent[1].addr) == AddrBytes(t.acks[0])
  {
    hide After, Initial, Inv, AddrBytes, Reversed, Completes;
    var t := After(s, actions);
    RunKeepsAddress(s, actions);
    LogsOf(t);
    if t.first == 0 && |t.sent| >= 2 {
      assert t.sent[1].op == SCRIPT[1] && Completes(t.acks[0], SCRIPT[0]);
      ReversedTwice(AddrBytes(t.acks[0]));
    }
  }

  lemma LogsOf(t: State)
    requires Inv(t)
    ensures OfScript(t.sent, t.first) && Completed(t.acks, t.first) && |t.sent| <= |t.acks| + 1
    ensures t.pc == Start ==> t.sent == []
  {
  }

  lemma ReversedTwice(s: bytes)
    requires |s| == 6
    ensures Reversed(Reversed(s)) == s
  {
  }

  // ----- where the script starts -----

  /** The address is to be read from the eFUSE: an earlier wish is left, or the configured address is all zero or
      the default of the chip. */
  predicate WantsEfuse(s: State) {
    s.getEfuse || s.addr == [0, 0, 0, 0, 0, 0] || s.addr == [0x00, 0x00, 0x46, 0x66, 0x30, 0x01]
  }

  /** The script starts as `at` says, with no callback left from an earlier init; without the eFUSE the address
      sent is the configured one. The wish is gone once the address command has been built. */
  predicate Started(s: State, at: State) {
    && (s.pc == Start ==> NotYet(s, at))
    && (s.pc != Start ==>
          && s.first == (if WantsEfuse(at) then 0 else 1)
          && s.getEfuse == (WantsEfuse(at) && !AddressBuilt(s))
          && (s.first == 1 ==> Configured(s, at)))
  }

  predicate NotYet(s: State, at: State) {
    s.addr == at.addr && s.getEfuse == at.getEfuse && s.cb.None? && !Completing(s.watcher) && s.sent == []
  }

  /** The command function of the address has been called. */
  predicate AddressBuilt(s: State) {
    s.first + |s.sent| >= 2 || (s.i == 1 && (s.pc == SetCallback || s.pc == SetInternal || s.pc == Send))
  }

  /** The address stays as configured, and goes out as it is. */
  predicate Configured(s: State, at: State) {
    && s.addr == at.addr
    && s.cb != Some(GetLocalBdAddr) && !(s.watcher.Handle? && s.watcher.saved == GetLocalBdAddr)
    && ((s.pc == SetCallback || s.pc == SetInternal || s.pc == Send) && s.i == 1 ==> s.buffer == Command(0xFC1A, at.addr))
    && (s.sent != [] ==> s.sent[0] == Command(0xFC1A, at.addr))
  }

  lemma BeginKeepsStarted(s: State, at: State, allocFails: bool)
    requires Started(s, at) && s.pc == Start
    ensures Started(InitNext(s, allocFails), at)
  {
  }

  lemma BuildKeepsStarted(s: State, at: State, allocFails: bool)
    requires SentInOrder(s) && Started(s, at) && s.pc == SetOpcode
    ensures Started(InitNext(s, allocFails), at)
  {
    hide OfScript, Completing, WantsEfuse, NotYet;
  }

  lemma IssueKeepsStarted(s: State, at: State, allocFails: bool)
    requires SentInOrder(s) && Started(s, at) && (s.pc == SetCallback || s.pc == SetInternal || s.pc == Send)
    ensures Started(InitNext(s, allocFails), at)
  {
    hide OfScript, Completing, WantsEfuse, NotYet;
  }

  predicate Late(pc: Pc) { pc == SetCallback || pc == SetInternal || pc == Send }

  /** Nothing that `Started` speaks of is different, but a callback may have been taken. */
  predicate Untouched(s: State, t: State) {
    && t.first == s.first && t.getEfuse == s.getEfuse && t.addr == s.addr && t.buffer == s.buffer && t.sent == s.sent
    && (t.pc == Start <==> s.pc == Start) && (Late(t.pc) <==> Late(s.pc)) && (Late(s.pc) ==> t.i == s.i)
    && (t.cb == s.cb || t.cb.None?)
    && (t.watcher.Handle? ==> t.watcher == s.watcher || s.cb == Some(t.watcher.saved))
    && (Completing(t.watcher) ==> Completing(s.watcher) || s.cb.Some?)
  }

  lemma UntouchedIsStarted(s: State, t: State, at: State)
    requires Started(s, at) && Untouched(s, t)
    ensures Started(t, at)
  {
    hide Completing, WantsEfuse;
  }

  lemma QuietIsUntouched(s: State, allocFails: bool)
    requires s.pc != Start && !Issuing(s.pc)
    ensures Untouched(s, InitNext(s, allocFails))
  {
    hide Completing;
  }

  lemma RoutingIsUntouched(s: State)
    requires !s.watcher.Handle?
    ensures Untouched(s, WatcherNext(s))
  {
    hide Completes, Matches, AddrBytes, Reversed;
  }

  lemma OthersAreUntouched(s: State, a: Action)
    requires !a.InitStep? && !a.WatcherStep?
    ensures Untouched(s, Step(s, a))
  {
    hide InitNext, WatcherNext;
  }

  lemma InitKeepsStarted(s: State, at: State, allocFails: bool)
    requires Inv(s) && Started(s, at)
    ensures Started(InitNext(s, allocFails), at)
  {
    assert SentInOrder(s);
    hide Inv, Started, InitNext, SentInOrder;
    if s.pc == Start { BeginKeepsStarted(s, at, allocFails); }
    else if s.pc == SetOpcode { BuildKeepsStarted(s, at, allocFails); }
    else if Issuing(s.pc) { IssueKeepsStarted(s, at, allocFails); }
    else { QuietIsUntouched(s, allocFails); UntouchedIsStarted(s, InitNext(s, allocFails), at); }
  }

  lemma HandleKeepsStarted(s: State, at: State)
    requires Started(s, at) && s.watcher.Handle?
    ensures Started(WatcherNext(s), at)
  {
    hide Completes, Matches, AddrBytes, Reversed;
  }

  lemma {:induction false} RunKeepsStarted(s: State, actions: seq<Action>)
    requires Initial(s) && s.cb.None?
    ensures Inv(After(s, actions)) && Started(After(s, actions), s)
  {
    if actions == [] {
      InitialInv(s);
    } else {
      var t, a := After(s, actions[..|actions| - 1]), actions[|actions| - 1];
      RunKeepsStarted(s, actions[..|actions| - 1]);
      StepKeepsInv(t, a);
      hide Initial, Started, Inv, InitNext, WatcherNext, CloserNext, Signalled, Untouched;
      if a.InitStep? {
        InitKeepsStarted(t, s, a.allocFails);
      } else if a.WatcherStep? && t.watcher.Handle? {
        HandleKeepsStarted(t, s);
      } else {
        if a.WatcherStep? { RoutingIsUntouched(t); } else { OthersAreUntouched(t, a); }
        UntouchedIsStarted(t, Step(t, a), s);
      }
    }
  }

  /** With no callback left over, the first command of every run reads the eFUSE address if and only if that was
      wished for or the configured address is a default one; otherwise it sets the configured address. */
  lemma FirstCommand(s: State, actions: seq<Action>)
    requires Initial(s) && s.cb.None?
    ensures var t := After(s, actions);
            t.sent != [] ==>
              && (t.sent[0].op == 0x1009 <==> WantsEfuse(s))
              && (!WantsEfuse(s) ==> t.sent[0] == Command(0xFC1A, s.addr) && t.addr == s.addr)
  {
    hide After, Initial, Inv;
    RunKeepsStarted(s, actions);
    LogsOf(After(s, actions));
  }

  /** The wish to read the eFUSE does not outlive the address command. */
  lemma WishIsForgotten(s: State, actions: seq<Action>)
    requires Initial(s) && s.cb.None?
    ensures var t := After(s, actions);
            t.pc != Start ==> t.getEfuse == (WantsEfuse(s) && !AddressBuilt(t))
    ensures var t := After(s, actions); t.sent != [] && t.sent[|t.sent| - 1].op != 0x1009 ==> !t.getEfuse
  {
    hide After, Initial;
    RunKeepsStarted(s, actions);
    LogsOf(After(s, actions));
  }

  // ----- one init after another -----

  /** The next init, after Close: the statics of both files keep their values, the address comes from
      NVRAM again. */
  function Restarted(t: State, addr: bytes): State {
    State(t.status, t.wOpCode, t.getEfuse, addr, t.cb, t.internalOp, None, Start, 0, 0, t.buffer, Idle, Open,
          [], [], [], [], [], None)
  }

  /** Whatever an init and its Close leave behind is a start for which all of the above holds. */
  lemma NextInitIsInitial(s: State, actions: seq<Action>, addr: bytes)
    requires Initial(s) && |addr| == 6 && After(s, actions).closer == Closed
    ensures Initial(Restarted(After(s, actions), addr))
  {
    hide After;
    InitialInv(s);
    RunKeepsInv(s, actions);
    ClosedIsDone(s, actions);
    NoCallbackLeft(After(s, actions));
  }

  /** A callback is left over only by a terminated init. */
  lemma NoCallbackLeft(t: State)
    requires Inv(t) && t.pc == Done
    ensures t.cb.Some? ==> t.status == CmdTerminate
  {
  }

  predicate ClosedAfterDone(s: State) { s.closer == Closed ==> s.pc == Done }

  lemma StepKeepsClosedAfterDone(s: State, a: Action)
    requires ClosedAfterDone(s)
    ensures ClosedAfterDone(Step(s, a))
  {
    hide Completes, Matches, AddrBytes, Reversed;
  }

  /** Close returns only when the init thread has ended. */
  lemma {:induction false} ClosedIsDone(s: State, actions: seq<Action>)
    requires ClosedAfterDone(s)
    ensures ClosedAfterDone(After(s, actions))
  {
    hide Step, ClosedAfterDone;
    if actions != [] {
      ClosedIsDone(s, actions[..|actions| - 1]);
      StepKeepsClosedAfterDone(After(s, actions[..|actions| - 1]), actions[|actions| - 1]);
    }
  }
}
