/**
 The AT channel as a protocol: one reader thread and any number of command threads
 around commandmutex, requestmutex and their condition variables.  A wait ends when
 its thread has been woken by a signal, when its time is up, or for no reason at all
 (`Spurious`); no fairness is assumed.
 */
module AtChannel {
  import opened Bytes
  import opened AtDispatch

  /** `text` is what the caller's arguments format to; `formats` when they go through the
      static buffer, `timed` when the wait for the final response has a limit. */
  datatype Command = Command(kind: CommandType, prefix: string, smsPDU: Option<string>, wantsResponse: bool,
                             text: string, formats: bool, timed: bool)

  datatype Result = Done | ResponseError | CommandPending | TimedOut | ChannelClosed | WriteError | NoText

  /** Where a command thread stands in at_send_command_full. */
  datatype Thread =
    | Idle
    | Entering(cmd: Command)            // about to lock commandmutex
    | Trying(cmd: Command)              // about to try requestmutex
    | AwaitingRequest(cmd: Command)     // waiting on requestcond
    | Checking(cmd: Command)            // requestmutex just taken
    | Writing(cmd: Command)             // the slot is filled, writeline is next
    | Looking(cmd: Command)             // at the condition of the wait loop
    | AwaitingFinal(cmd: Command)       // waiting on commandcond
    | Handing(cmd: Command)             // the loop has ended
    | Clearing(cmd: Command, res: Result)  // at `finally`
    | Leaving(cmd: Command, res: Result)   // about to unlock commandmutex

  datatype Reader = Reading | Wanting(line: string) | Processing(line: string) | Releasing | Closing | Ended

  datatype Holder = Nobody | TheReader | Thread(t: nat)

  /** One line that processLine has seen; `id` counts commands. */
  datatype Entry = Entry(line: string, sink: Sink, id: nat)

  /** A response given to a caller. */
  datatype Answer = Answer(id: nat, cmd: Command, response: Response)

  /** A text that a thread has put into the static buffer. */
  datatype Format = Format(t: nat, text: string)

  /** A line written to the modem, and what others formatted since its thread did. */
  datatype Line = Line(cmd: Command, text: string, since: seq<string>)

  datatype Channel = Channel(
    commandMutex: Holder, requestMutex: Option<nat>, slot: Slot, readerClosed: bool, hooked: bool,
    reader: Reader, threads: seq<Thread>, woken: set<nat>, strbuf: string,
    // history: the current command's number, lines seen, handler calls, PDUs sent, answers,
    // texts formatted, threads that had to wait since they entered, lines written
    id: nat, log: seq<Entry>, handled: seq<string>, sent: seq<string>, answers: seq<Answer>,
    formatted: seq<Format>, waited: set<nat>, written: seq<Line>)

  /** `u` is the waiter that a signal on commandcond picks. */
  datatype Action =
    | Receive(line: string) | LockReader | Process(u: nat) | UnlockReader
    | EndOfFile | CloseReader(u: nat) | CloseChannel(u: nat)
    | Call(t: nat, cmd: Command) | Lock(t: nat) | TryRequest(t: nat) | WakeRequest(t: nat) | Check(t: nat)
    | Write(t: nat, failed: bool) | Look(t: nat) | WakeFinal(t: nat, timedOut: bool) | Hand(t: nat)
    | Clear(t: nat) | Leave(t: nat) | Retry(t: nat) | Spurious(t: nat)

  /** `hooked`: whether onReaderClosed is set when the stream ends. */
  function Init(n: nat, hooked: bool): Channel {
    Channel(Nobody, None, Slot(NoResult, "", None, None), false, hooked, Reading, seq(n, _ => Idle), {}, "",
            0, [], [], [], [], [], {}, [])
  }

  function At(c: Channel, t: nat): Thread {
    if t < |c.threads| then c.threads[t] else Idle
  }

  function Put(c: Channel, t: nat, s: Thread): Channel
    requires t < |c.threads|
  {
    c.(threads := c.threads[t := s])
  }

  // ----- texts -----

  const BUFFSIZE := 512

  /** What vsnprintf leaves in the buffer: the text, up to 511 characters of it. */
  function Cut(text: string): (r: string)
    ensures r <= text && |r| == Min(|text|, BUFFSIZE - 1)
  {
    if |text| < BUFFSIZE then text else text[..BUFFSIZE - 1]
  }

  /** The line the caller asked for. */
  function Own(cmd: Command): string {
    if cmd.formats then Cut(cmd.text) else cmd.text
  }

  /** The line writeline is given. */
  function Given(c: Channel, cmd: Command): string {
    if cmd.formats then c.strbuf else cmd.text
  }

  /** What other threads have formatted since `t` last did. */
  function Since(formatted: seq<Format>, t: nat): seq<string> {
    if formatted == [] then []
    else
      var last := formatted[|formatted| - 1];
      if last.t == t then [] else Since(formatted[..|formatted| - 1], t) + [last.text]
  }

  // ----- condition variables -----

  /** Those a signal on commandcond can wake. */
  function FinalWaiters(c: Channel): set<nat> {
    set t | 0 <= t < |c.threads| && c.threads[t].AwaitingFinal? && t !in c.woken
  }

  function RequestWaiters(c: Channel): set<nat> {
    set t | 0 <= t < |c.threads| && c.threads[t].AwaitingRequest?
  }

  /** pthread_cond_signal picks a waiter if there is one. */
  predicate CanPick(c: Channel, u: nat) {
    FinalWaiters(c) != {} ==> u in FinalWaiters(c)
  }

  function Signal(c: Channel, u: nat): Channel {
    if u in FinalWaiters(c) then c.(woken := c.woken + {u}) else c
  }

  /** pthread_cond_broadcast wakes all that wait on requestcond. */
  function Broadcast(c: Channel): Channel {
    c.(woken := c.woken + RequestWaiters(c))
  }

  // ----- steps -----

  predicate Enabled(c: Channel, a: Action) {
    match a
    case Receive(_) => c.reader.Reading?
    case LockReader => c.reader.Wanting? && c.commandMutex.Nobody?
    case Process(u) => c.reader.Processing? && CanPick(c, u)
    case UnlockReader => c.reader.Releasing?
    case EndOfFile => c.reader.Reading?
    case CloseReader(u) => c.reader.Closing? && c.commandMutex.Nobody? && CanPick(c, u)
    case CloseChannel(u) => c.commandMutex.Nobody? && CanPick(c, u)    // at_close
    case Call(t, _) => t < |c.threads| && At(c, t).Idle?
    case Lock(t) => At(c, t).Entering? && c.commandMutex.Nobody?
    case TryRequest(t) => At(c, t).Trying?
    case WakeRequest(t) => At(c, t).AwaitingRequest? && t in c.woken && c.commandMutex.Nobody?
    case Check(t) => At(c, t).Checking?
    case Write(t, failed) => At(c, t).Writing? && (c.readerClosed ==> failed)
    case Look(t) => At(c, t).Looking? && c.slot.response.Some?
    case WakeFinal(t, timedOut) =>
      && At(c, t).AwaitingFinal? && c.commandMutex.Nobody?
      && if timedOut then At(c, t).cmd.timed else t in c.woken
    case Hand(t) => At(c, t).Handing? && c.slot.response.Some?
    case Clear(t) => At(c, t).Clearing?
    case Leave(t) => At(c, t).Leaving?
    case Retry(t) => At(c, t).Leaving? && !At(c, t).cmd.formats    // at_handshake under the same lock
    case Spurious(t) => At(c, t).AwaitingRequest? || At(c, t).AwaitingFinal?
  }

  function Apply(c: Channel, a: Action): Channel
    requires Enabled(c, a)
  {
    match a
    case Receive(line) => c.(reader := Wanting(line))
    case LockReader => c.(commandMutex := TheReader, reader := Processing(c.reader.line))
    case Process(u) => ProcessLine(c, u)
    case UnlockReader => c.(commandMutex := Nobody, reader := Reading)
    case EndOfFile => c.(reader := if c.hooked && !c.readerClosed then Closing else Ended)
    case CloseReader(u) => Signal(c, u).(readerClosed := true, reader := Ended)
    case CloseChannel(u) => Signal(c, u).(readerClosed := true)
    case Call(t, cmd) => Put(c, t, Entering(cmd))
    case Lock(t) => Enter(c, t)
    case TryRequest(t) =>
      if c.requestMutex.None? then Put(c, t, Checking(At(c, t).cmd)).(requestMutex := Some(t))
      else Put(c, t, AwaitingRequest(At(c, t).cmd)).(
        commandMutex := Nobody, woken := c.woken - {t}, waited := c.waited + {t})
    case WakeRequest(t) => Put(c, t, Trying(At(c, t).cmd)).(commandMutex := Thread(t))
    case Check(t) => Occupy(c, t)
    case Write(t, failed) => WriteLine(c, t, failed)
    case Look(t) =>
      var cmd := At(c, t).cmd;
      if c.slot.response.value.finalResponse.None? && !c.readerClosed
      then Put(c, t, AwaitingFinal(cmd)).(commandMutex := Nobody, woken := c.woken - {t})
      else Put(c, t, Handing(cmd))
    case WakeFinal(t, timedOut) =>
      var cmd := At(c, t).cmd;
      Put(c, t, if timedOut then Clearing(cmd, TimedOut) else Looking(cmd)).(commandMutex := Thread(t))
    case Hand(t) => HandOver(c, t)
    case Clear(t) =>
      Broadcast(Put(c, t, Leaving(At(c, t).cmd, At(c, t).res))).(
        slot := Slot(c.slot.kind, "", None, None), requestMutex := None)
    case Leave(t) => Put(c, t, Idle).(commandMutex := Nobody)
    case Retry(t) => Put(c, t, Trying(At(c, t).cmd)).(waited := c.waited - {t})
    case Spurious(t) => c.(woken := c.woken + {t})
  }

  /** processLine, with the signal of handleFinalResponse. */
  function ProcessLine(c: Channel, u: nat): Channel
    requires c.reader.Processing?
  {
    var line := c.reader.line;
    var sink := SinkOf(c.slot, line);
    (if sink.FinalSuccess? || sink.FinalError? then Signal(c, u) else c).(
      slot := Dispatch(c.slot, line), reader := Releasing,
      log := c.log + [Entry(line, sink, c.id)],
      handled := c.handled + if sink.Unsolicited? then [line] else [],
      sent := c.sent + if sink.Prompt? then [c.slot.smsPDU.value] else [])
  }

  /** commandmutex taken, and the text formatted; no text is an error. */
  function Enter(c: Channel, t: nat): Channel
    requires At(c, t).Entering?
  {
    var cmd := At(c, t).cmd;
    Put(c, t, if cmd.formats && cmd.text == "" then Leaving(cmd, NoText) else Trying(cmd)).(
      commandMutex := Thread(t), waited := c.waited - {t},
      strbuf := if cmd.formats then Cut(cmd.text) else c.strbuf,
      formatted := c.formatted + if cmd.formats then [Format(t, Cut(cmd.text))] else [])
  }

  /** From the check for a pending command to the call of writeline. */
  function Occupy(c: Channel, t: nat): Channel
    requires At(c, t).Checking?
  {
    var cmd := At(c, t).cmd;
    if c.slot.response.Some? then Put(c, t, Clearing(cmd, CommandPending))
    else Put(c, t, Writing(cmd)).(
      slot := Slot(cmd.kind, cmd.prefix, cmd.smsPDU, Some(Response(false, None, []))), id := c.id + 1)
  }

  function WriteLine(c: Channel, t: nat, failed: bool): Channel
    requires At(c, t).Writing?
  {
    var cmd := At(c, t).cmd;
    if failed then Put(c, t, Clearing(cmd, if c.readerClosed then ChannelClosed else WriteError))
    else Put(c, t, Looking(cmd)).(
      written := c.written + [Line(cmd, Given(c, cmd), if cmd.formats then Since(c.formatted, t) else [])])
  }

  function HandOver(c: Channel, t: nat): Channel
    requires At(c, t).Handing? && c.slot.response.Some?
  {
    var cmd := At(c, t).cmd;
    var r := c.slot.response.value;
    var res := if c.readerClosed then ChannelClosed else if r.success then Done else ResponseError;
    var upright := r.(intermediates := Reversed(r.intermediates));
    Put(c, t, Clearing(cmd, res)).(
      slot := c.slot.(response := None),
      answers := c.answers + if cmd.wantsResponse then [Answer(c.id, cmd, upright)] else [])
  }

  predicate Reaches(from: Channel, run: seq<Action>, c: Channel)
    decreases run
  {
    if run == [] then c == from
    else Enabled(from, run[0]) && Reaches(Apply(from, run[0]), run[1..], c)
  }

  /** A run goes on with one step, and with three. */
  lemma {:induction false} ReachMore(c: Channel, run: seq<Action>, mid: Channel, a: Action)
    requires Reaches(c, run, mid) && Enabled(mid, a)
    ensures Reaches(c, run + [a], Apply(mid, a))
    decreases run
  {
    if run == [] {
      assert (run + [a])[1..] == [];
    } else {
      assert (run + [a])[1..] == run[1..] + [a];
      ReachMore(Apply(c, run[0]), run[1..], mid, a);
    }
  }

  lemma Three(c: Channel, run: seq<Action>, mid: Channel, a: Action, a': Action, a'': Action)
    requires Reaches(c, run, mid) && Enabled(mid, a) && Enabled(Apply(mid, a), a')
    requires Enabled(Apply(Apply(mid, a), a'), a'')
    ensures Reaches(c, run + [a, a', a''], Apply(Apply(Apply(mid, a), a'), a''))
  {
    ReachMore(c, run, mid, a);
    ReachMore(c, run + [a], Apply(mid, a), a');
    ReachMore(c, run + [a] + [a'], Apply(Apply(mid, a), a'), a'');
    assert run + [a] + [a'] + [a''] == run + [a, a', a''];
  }

  // ----- who holds what -----

  predicate HoldsCommand(s: Thread) {
    !s.Idle? && !s.Entering? && !s.AwaitingRequest? && !s.AwaitingFinal?
  }

  predicate HoldsRequest(s: Thread) {
    s.Checking? || s.Writing? || s.Looking? || s.AwaitingFinal? || s.Handing? || s.Clearing?
  }

  /** Past the check and not yet through with the response. */
  predicate Occupies(s: Thread) {
    s.Writing? || s.Looking? || s.AwaitingFinal? || s.Handing?
  }

  ghost predicate Locks(c: Channel) {
    && (forall t: nat :: HoldsCommand(At(c, t)) <==> c.commandMutex == Thread(t))
    && (forall t: nat :: HoldsRequest(At(c, t)) <==> c.requestMutex == Some(t))
    && (c.reader.Processing? || c.reader.Releasing? <==> c.commandMutex == TheReader)
  }

  /** The slot is the one of the command at `s`. */
  predicate Fits(slot: Slot, s: Thread) {
    && (Occupies(s) ==> slot.response.Some? && slot.kind == s.cmd.kind && slot.prefix == s.cmd.prefix)
    && (s.Checking? ==> slot.response.None?)
    && (s.Clearing? || s.Leaving? ==> s.res != CommandPending)
  }

  ghost predicate SlotOwned(c: Channel) {
    && (c.slot.response.Some? ==> c.requestMutex.Some?)
    && (forall t: nat :: Fits(c.slot, At(c, t)))
  }

  ghost predicate Inv(c: Channel) {
    Locks(c) && SlotOwned(c)
  }

  // ----- one step -----

  /** Only thread `t` moves, to `s`. */
  ghost predicate Moves(c: Channel, c': Channel, t: nat, s: Thread) {
    t < |c.threads| && c'.threads == c.threads[t := s] && c'.reader == c.reader
  }

  /** Thread `t` moves to `s`; the mutexes go where its states say. */
  lemma MoveLocks(c: Channel, c': Channel, t: nat, s: Thread)
    requires Locks(c) && Moves(c, c', t, s)
    requires HoldsCommand(At(c, t)) || HoldsCommand(s) ==> HoldsCommand(At(c, t)) || c.commandMutex.Nobody?
    requires c'.commandMutex == if HoldsCommand(s) then Thread(t)
                                else if HoldsCommand(At(c, t)) then Nobody else c.commandMutex
    requires HoldsRequest(s) ==> HoldsRequest(At(c, t)) || c.requestMutex.None?
    requires c'.requestMutex == if HoldsRequest(s) then Some(t)
                                else if HoldsRequest(At(c, t)) then None else c.requestMutex
    ensures Locks(c')
  {
    assert At(c', t) == s;
    forall u: nat | u != t ensures At(c', u) == At(c, u) {}
  }

  lemma LocksStep(c: Channel, a: Action)
    requires Inv(c) && Enabled(c, a)
    ensures Locks(Apply(c, a))
  {
    if OfThread(a) {
      ThreadLocks(c, a, a.t);
    } else {
      OtherLocks(c, a);
    }
  }

  /** Steps that move a command thread. */
  predicate OfThread(a: Action) {
    a.Call? || a.Lock? || a.TryRequest? || a.WakeRequest? || a.Check? || a.Write? || a.Look? || a.WakeFinal?
    || a.Hand? || a.Clear? || a.Leave? || a.Retry?
  }

  /** The others stay where they are. */
  lemma Stays(c: Channel, a: Action, u: nat)
    requires Enabled(c, a) && (OfThread(a) ==> u != a.t)
    ensures At(Apply(c, a), u) == At(c, u)
  {
  }

  lemma OtherLocks(c: Channel, a: Action)
    requires Inv(c) && Enabled(c, a) && !OfThread(a)
    ensures Locks(Apply(c, a))
  {
    var c' := Apply(c, a);
    assert c'.threads == c.threads && c'.requestMutex == c.requestMutex;
    forall t: nat ensures At(c', t) == At(c, t) {}
  }

  lemma ThreadLocks(c: Channel, a: Action, t: nat)
    requires Inv(c) && Enabled(c, a) && OfThread(a) && t == a.t
    ensures Locks(Apply(c, a))
  {
    var c' := Apply(c, a);
    MoveLocks(c, c', t, At(c', t));
  }

  /** A thread's move that leaves the slot alone. */
  lemma MoveFits(c: Channel, c': Channel, t: nat, s: Thread)
    requires SlotOwned(c) && Moves(c, c', t, s) && c'.slot == c.slot && Fits(c.slot, s)
    requires c.slot.response.Some? ==> c'.requestMutex.Some?
    ensures SlotOwned(c')
  {
    forall u: nat ensures Fits(c'.slot, At(c', u)) {
      assert Fits(c.slot, At(c, u));
    }
  }

  /** No other thread than the owner of requestmutex minds what is in the slot. */
  lemma OwnerFits(c: Channel, c': Channel, t: nat, s: Thread)
    requires Inv(c) && Moves(c, c', t, s) && HoldsRequest(At(c, t)) && Fits(c'.slot, s)
    requires c'.slot.response.Some? ==> c'.requestMutex.Some?
    ensures SlotOwned(c')
  {
    forall u: nat ensures Fits(c'.slot, At(c', u)) {
      assert Fits(c.slot, At(c, u)) && (HoldsRequest(At(c, u)) <==> c.requestMutex == Some(u));
    }
  }

  lemma DispatchFits(c: Channel, c': Channel)
    requires SlotOwned(c) && c.reader.Processing? && c'.slot == Dispatch(c.slot, c.reader.line)
    requires c'.threads == c.threads && c'.requestMutex == c.requestMutex
    ensures SlotOwned(c')
  {
    forall t: nat ensures Fits(c'.slot, At(c', t)) {
      assert Fits(c.slot, At(c, t));
    }
  }

  lemma SlotStep(c: Channel, a: Action)
    requires Inv(c) && Enabled(c, a)
    ensures SlotOwned(Apply(c, a))
  {
    var c' := Apply(c, a);
    match a
    case Process(_) => DispatchFits(c, c');
    case Check(t) => OwnerFits(c, c', t, At(c', t));
    case Hand(t) => OwnerFits(c, c', t, At(c', t));
    case Clear(t) => OwnerFits(c, c', t, At(c', t));
    case _ => RestFits(c, a);
  }

  lemma RestFits(c: Channel, a: Action)
    requires Inv(c) && Enabled(c, a) && !a.Process? && !a.Check? && !a.Hand? && !a.Clear?
    ensures SlotOwned(Apply(c, a))
  {
    var c' := Apply(c, a);
    if OfThread(a) {
      StayFits(c, a);
      MoveFits(c, c', a.t, At(c', a.t));
    } else {
      forall u: nat ensures Fits(c'.slot, At(c', u)) {
        Stays(c, a, u);
        assert Fits(c.slot, At(c, u));
      }
    }
  }

  lemma StayFits(c: Channel, a: Action)
    requires Inv(c) && Enabled(c, a) && OfThread(a) && !a.Check? && !a.Hand? && !a.Clear?
    ensures var c' := Apply(c, a);
            && c'.slot == c.slot && Fits(c.slot, At(c', a.t)) && Moves(c, c', a.t, At(c', a.t))
            && (c.slot.response.Some? ==> c'.requestMutex.Some?)
  {
    assert Fits(c.slot, At(c, a.t));
  }

  lemma {:induction false} RunInv(c: Channel, run: seq<Action>, c': Channel)
    requires Inv(c) && Reaches(c, run, c')
    ensures Inv(c')
    decreases run
  {
    if run != [] {
      LocksStep(c, run[0]);
      SlotStep(c, run[0]);
      RunInv(Apply(c, run[0]), run[1..], c');
    }
  }

  lemma InitInv(n: nat, hooked: bool)
    ensures Inv(Init(n, hooked))
  {
    var c := Init(n, hooked);
    assert forall t: nat :: At(c, t).Idle?;
  }

  /** In every run: the slot is filled only while one thread, past its check, owns
      requestmutex; no two hold commandmutex; nobody dereferences an empty slot; no
      command is ever told that another one is pending. */
  lemma EveryRunExcludes(n: nat, hooked: bool, run: seq<Action>, c: Channel)
    requires Reaches(Init(n, hooked), run, c)
    ensures c.slot.response.Some? ==> c.requestMutex.Some? && HoldsRequest(At(c, c.requestMutex.value))
    ensures forall t: nat, u: nat :: HoldsRequest(At(c, t)) && HoldsRequest(At(c, u)) ==> t == u
    ensures forall t: nat, u: nat :: HoldsCommand(At(c, t)) && HoldsCommand(At(c, u)) ==> t == u
    ensures forall t: nat :: HoldsCommand(At(c, t)) ==> !c.reader.Processing? && !c.reader.Releasing?
    ensures forall t: nat :: Occupies(At(c, t)) ==> c.slot.response.Some?
    ensures forall t: nat :: At(c, t).Checking? ==> c.slot.response.None?
    ensures forall t: nat :: At(c, t).Leaving? ==> At(c, t).res != CommandPending
  {
    InitInv(n, hooked);
    RunInv(Init(n, hooked), run, c);
    assert forall t: nat :: Fits(c.slot, At(c, t));
  }
}
