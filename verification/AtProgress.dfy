/**
 No wake-up is lost: who waits unwoken on requestcond waits for an owner of
 requestmutex, and who waits unwoken on commandcond for a line that has not come.  So
 the channel comes to rest, and at rest a thread that has not returned waits for the
 modem or behind one that does.
 */
module AtProgress {
  import opened Bytes
  import opened AtChannel

  /** No final response and no end of the reader. */
  predicate Unanswered(c: Channel) {
    c.slot.response.Some? && c.slot.response.value.finalResponse.None? && !c.readerClosed
  }

  predicate WakeAt(c: Channel, t: nat) {
    && (At(c, t).AwaitingRequest? && t !in c.woken ==> c.requestMutex.Some?)
    && (At(c, t).AwaitingFinal? && t !in c.woken ==> Unanswered(c))
  }

  ghost predicate Wakes(c: Channel) {
    && (forall t: nat :: WakeAt(c, t))
    && (c.reader.Closing? ==> c.hooked)
    && (c.reader.Ended? ==> c.readerClosed || !c.hooked)
  }

  /** Only the owner of requestmutex waits on commandcond, so a signal picks it. */
  lemma OneFinalWaiter(c: Channel, t: nat, u: nat)
    requires Locks(c) && CanPick(c, u) && At(c, t).AwaitingFinal? && t !in c.woken
    ensures t == u && u in FinalWaiters(c)
  {
    assert t in FinalWaiters(c) && u in FinalWaiters(c);
    assert c.requestMutex == Some(t) <==> HoldsRequest(At(c, t));
    assert c.requestMutex == Some(u) <==> HoldsRequest(At(c, u));
  }

  lemma SignalWakes(c: Channel, a: Action, t: nat)
    requires Inv(c) && Wakes(c) && Enabled(c, a) && (a.Process? || a.CloseReader? || a.CloseChannel?)
    ensures WakeAt(Apply(c, a), t)
  {
    assert WakeAt(c, t) && Fits(c.slot, At(c, t));
    if At(c, t).AwaitingFinal? && t !in c.woken {
      OneFinalWaiter(c, t, a.u);
    }
  }

  /** What a thread's own move does to its wait. */
  lemma OwnWakes(c: Channel, a: Action)
    requires Inv(c) && Wakes(c) && Enabled(c, a) && OfThread(a)
    ensures WakeAt(Apply(c, a), a.t)
  {
    assert WakeAt(c, a.t) && Fits(c.slot, At(c, a.t));
  }

  lemma OtherWakes(c: Channel, a: Action, t: nat)
    requires Inv(c) && Wakes(c) && Enabled(c, a) && OfThread(a) && t != a.t
    ensures WakeAt(Apply(c, a), t)
  {
    var c' := Apply(c, a);
    assert WakeAt(c, t) && At(c', t) == At(c, t);
    assert (HoldsRequest(At(c, t)) <==> c.requestMutex == Some(t));
    assert (HoldsRequest(At(c, a.t)) <==> c.requestMutex == Some(a.t));
    if a.Clear? && At(c, t).AwaitingRequest? {
      assert t in RequestWaiters(Put(c, a.t, At(c', a.t)));
    }
  }

  lemma WakesStep(c: Channel, a: Action)
    requires Inv(c) && Wakes(c) && Enabled(c, a)
    ensures Wakes(Apply(c, a))
  {
    var c' := Apply(c, a);
    forall t: nat ensures WakeAt(c', t) {
      if OfThread(a) {
        if t == a.t {
          OwnWakes(c, a);
        } else {
          OtherWakes(c, a, t);
        }
      } else if a.Process? || a.CloseReader? || a.CloseChannel? {
        SignalWakes(c, a, t);
      } else {
        assert WakeAt(c, t);
      }
    }
  }

  lemma {:induction false} RunWakes(c: Channel, run: seq<Action>, c': Channel)
    requires Inv(c) && Wakes(c) && Reaches(c, run, c')
    ensures Inv(c') && Wakes(c') && c'.hooked == c.hooked
    decreases run
  {
    if run != [] {
      LocksStep(c, run[0]);
      SlotStep(c, run[0]);
      WakesStep(c, run[0]);
      RunWakes(Apply(c, run[0]), run[1..], c');
    }
  }

  lemma Reached(n: nat, hooked: bool, run: seq<Action>, c: Channel)
    requires Reaches(Init(n, hooked), run, c)
    ensures Inv(c) && Wakes(c) && c.hooked == hooked
  {
    InitInv(n, hooked);
    RunWakes(Init(n, hooked), run, c);
  }

  /** In every run no wake-up is lost. */
  lemma NoLostWakeUp(n: nat, hooked: bool, run: seq<Action>, c: Channel, t: nat)
    requires Reaches(Init(n, hooked), run, c) && t !in c.woken
    ensures At(c, t).AwaitingRequest? ==> c.requestMutex.Some? && c.requestMutex != Some(t)
    ensures At(c, t).AwaitingFinal? ==> Unanswered(c)
  {
    Reached(n, hooked, run, c);
    assert WakeAt(c, t) && (HoldsRequest(At(c, t)) <==> c.requestMutex == Some(t));
  }

  // ----- who can step -----

  /** The step a thread takes next by itself. */
  function NextOf(c: Channel, t: nat): Action
    requires !At(c, t).Idle?
  {
    match At(c, t)
    case Entering(_) => Lock(t)
    case Trying(_) => TryRequest(t)
    case AwaitingRequest(_) => WakeRequest(t)
    case Checking(_) => Check(t)
    case Writing(_) => Write(t, c.readerClosed)
    case Looking(_) => Look(t)
    case AwaitingFinal(_) => WakeFinal(t, t !in c.woken)
    case Handing(_) => Hand(t)
    case Clearing(_, _) => Clear(t)
    case Leaving(_, _) => Leave(t)
  }

  predicate CanStep(c: Channel, t: nat) {
    !At(c, t).Idle? && Enabled(c, NextOf(c, t))
  }

  /** A wait that only a line, the end of the stream or at_close can end. */
  predicate WaitsForModem(c: Channel, t: nat) {
    At(c, t).AwaitingFinal? && !At(c, t).cmd.timed && t !in c.woken && Unanswered(c)
  }

  /** A wait for the thread that has requestmutex. */
  predicate WaitsBehind(c: Channel, t: nat, u: nat) {
    At(c, t).AwaitingRequest? && t !in c.woken && c.requestMutex == Some(u) && u != t
  }

  lemma HolderCanStep(c: Channel, t: nat)
    requires Inv(c) && HoldsCommand(At(c, t))
    ensures CanStep(c, t)
  {
    assert Fits(c.slot, At(c, t));
  }

  lemma ReaderCanStep(c: Channel)
    requires Inv(c) && c.commandMutex.TheReader?
    ensures Enabled(c, UnlockReader) || exists u :: Enabled(c, Process(u))
  {
    if c.reader.Processing? {
      var u :| FinalWaiters(c) != {} ==> u in FinalWaiters(c);
      assert Enabled(c, Process(u));
    }
  }

  /** Outside commandmutex, a thread is woken, or waits for the modem or behind the owner. */
  lemma WaiterWaits(c: Channel, t: nat)
    requires Inv(c) && Wakes(c) && c.commandMutex.Nobody? && !At(c, t).Idle? && !CanStep(c, t)
    ensures WaitsForModem(c, t) || (c.requestMutex.Some? && WaitsBehind(c, t, c.requestMutex.value))
  {
    assert WakeAt(c, t);
    assert HoldsCommand(At(c, t)) <==> c.commandMutex == Thread(t);
    assert HoldsRequest(At(c, t)) <==> c.requestMutex == Some(t);
  }

  /** The owner of requestmutex never waits behind another. */
  lemma OwnerWaits(c: Channel, u: nat)
    requires Inv(c) && Wakes(c) && c.commandMutex.Nobody? && c.requestMutex == Some(u)
    ensures CanStep(c, u) || WaitsForModem(c, u)
  {
    assert HoldsRequest(At(c, u)) <==> c.requestMutex == Some(u);
    if !CanStep(c, u) {
      WaiterWaits(c, u);
    }
  }

  /** Somebody can step, or `t` waits for the modem, or behind one that does. */
  predicate Going(c: Channel, t: nat) {
    match c.commandMutex
    case TheReader => c.reader.Processing? || c.reader.Releasing?
    case Thread(u) => CanStep(c, u)
    case Nobody =>
      || CanStep(c, t) || WaitsForModem(c, t)
      || (c.requestMutex.Some? && var u := c.requestMutex.value;
          WaitsBehind(c, t, u) && (CanStep(c, u) || WaitsForModem(c, u)))
  }

  lemma InvGoing(c: Channel, t: nat)
    requires Inv(c) && Wakes(c) && !At(c, t).Idle?
    ensures Going(c, t)
  {
    match c.commandMutex
    case TheReader =>
    case Thread(u) =>
      assert HoldsCommand(At(c, u)) <==> c.commandMutex == Thread(u);
      HolderCanStep(c, u);
    case Nobody =>
      if !CanStep(c, t) && !WaitsForModem(c, t) {
        WaiterWaits(c, t);
        OwnerWaits(c, c.requestMutex.value);
      }
  }

  /** No deadlock in any run: with a thread inside a command, the holder of commandmutex
      can step; if nobody holds it, the thread itself can, or it waits for the modem, or
      it waits behind the owner of requestmutex, which can step or waits for the modem. */
  lemma NoDeadlock(n: nat, hooked: bool, run: seq<Action>, c: Channel, t: nat)
    requires Reaches(Init(n, hooked), run, c) && !At(c, t).Idle?
    ensures Going(c, t)
    ensures c.commandMutex.TheReader? ==> Enabled(c, UnlockReader) || exists u :: Enabled(c, Process(u))
  {
    Reached(n, hooked, run, c);
    InvGoing(c, t);
    if c.commandMutex.TheReader? {
      ReaderCanStep(c);
    }
  }

  // ----- coming to rest -----

  /** Steps that need no new line, call, retry or close, and no spurious wake-up. */
  predicate Internal(a: Action) {
    a.LockReader? || a.Process? || a.UnlockReader? || a.CloseReader? || (OfThread(a) && !a.Call? && !a.Retry?)
  }

  predicate InternalRun(c: Channel, run: seq<Action>, c': Channel) {
    Reaches(c, run, c') && forall a <- run :: Internal(a)
  }

  /** Steps a thread may still take; what a broadcast gives the others is less than what
      its thread has left behind. */
  function Weight(c: Channel, t: nat): nat {
    var more := 2 * |c.threads|;
    var up := if t in c.woken then 2 else 0;
    match At(c, t)
    case Idle => 0
    case Leaving(_, _) => 1
    case Clearing(_, _) => more + 2
    case Handing(_) => more + 3
    case AwaitingFinal(_) => more + 4 + up
    case Looking(_) => more + 5
    case Writing(_) => more + 7
    case Checking(_) => more + 8
    case AwaitingRequest(_) => more + 9 + up
    case Trying(_) => more + 10
    case Entering(_) => more + 12
  }

  function ReaderWeight(r: Reader): nat {
    match r
    case Reading => 0
    case Wanting(_) => 5
    case Processing(_) => 4
    case Releasing => 1
    case Closing => 3
    case Ended => 0
  }

  function Sum(c: Channel, n: nat): nat {
    if n == 0 then 0 else Sum(c, n - 1) + Weight(c, n - 1)
  }

  function Measure(c: Channel): nat {
    Sum(c, |c.threads|) + ReaderWeight(c.reader)
  }

  /** One thread changes by `d`, the others by at most `k`. */
  lemma {:induction false} SumChange(c: Channel, c': Channel, n: nat, t: nat, d: int, k: nat)
    requires Weight(c', t) <= Weight(c, t) + d
    requires forall u: nat :: u < n && u != t ==> Weight(c', u) <= Weight(c, u) + k
    ensures Sum(c', n) <= Sum(c, n) + k * (if t < n then n - 1 else n) + if t < n then d else 0
  {
    if n > 0 {
      SumChange(c, c', n - 1, t, d, k);
      assert k * n == k * (n - 1) + k;
      assert n > 1 ==> k * (n - 1) == k * (n - 2) + k;
    }
  }

  lemma SignalMeasure(c: Channel, a: Action)
    requires Inv(c) && Enabled(c, a) && (a.Process? || a.CloseReader?)
    ensures Measure(Apply(c, a)) < Measure(c)
  {
    SignalWeights(c, a);
    SumChange(c, Apply(c, a), |c.threads|, a.u, 2, 0);
  }

  /** The thread signalled can move again; the reader comes nearer its end by more. */
  lemma SignalWeights(c: Channel, a: Action)
    requires Inv(c) && Enabled(c, a) && (a.Process? || a.CloseReader?)
    ensures var c' := Apply(c, a);
            && c'.threads == c.threads && ReaderWeight(c'.reader) + 2 < ReaderWeight(c.reader)
            && Weight(c', a.u) <= Weight(c, a.u) + 2 && forall u: nat :: u != a.u ==> Weight(c', u) <= Weight(c, u)
  {
  }

  lemma ClearMeasure(c: Channel, t: nat)
    requires At(c, t).Clearing?
    ensures Measure(Apply(c, Clear(t))) < Measure(c)
  {
    SumChange(c, Apply(c, Clear(t)), |c.threads|, t, -(2 * |c.threads|) - 1, 2);
  }

  lemma MoveMeasure(c: Channel, a: Action)
    requires Inv(c) && Enabled(c, a) && Internal(a) && OfThread(a) && !a.Clear?
    ensures Measure(Apply(c, a)) < Measure(c)
  {
    var c', t := Apply(c, a), a.t;
    MoveWeight(c, a);
    forall u: nat | u < |c.threads| && u != t ensures Weight(c', u) <= Weight(c, u) {
      assert At(c', u) == At(c, u);
    }
    SumChange(c, c', |c.threads|, t, -1, 0);
  }

  lemma MoveWeight(c: Channel, a: Action)
    requires Inv(c) && Enabled(c, a) && Internal(a) && OfThread(a) && !a.Clear?
    ensures Weight(Apply(c, a), a.t) < Weight(c, a.t)
  {
  }

  lemma SameSum(c: Channel, c': Channel, n: nat)
    requires c'.threads == c.threads && c'.woken == c.woken
    ensures Sum(c', n) == Sum(c, n)
  {
  }

  lemma InternalStep(c: Channel, a: Action)
    requires Inv(c) && Enabled(c, a) && Internal(a)
    ensures Measure(Apply(c, a)) < Measure(c)
  {
    match a
    case Process(_) => SignalMeasure(c, a);
    case CloseReader(_) => SignalMeasure(c, a);
    case LockReader => SameSum(c, Apply(c, a), |c.threads|);
    case UnlockReader => SameSum(c, Apply(c, a), |c.threads|);
    case Clear(t) => ClearMeasure(c, t);
    case _ => MoveMeasure(c, a);
  }

  /** However they are interleaved, internal steps come to an end. */
  lemma {:induction false} InternalRunsEnd(c: Channel, run: seq<Action>, c': Channel)
    requires Inv(c) && InternalRun(c, run, c')
    ensures |run| + Measure(c') <= Measure(c)
    decreases run
  {
    if run != [] {
      LocksStep(c, run[0]);
      SlotStep(c, run[0]);
      InternalStep(c, run[0]);
      InternalRunsEnd(Apply(c, run[0]), run[1..], c');
    }
  }

  ghost predicate AtRest(c: Channel) {
    forall a :: Enabled(c, a) ==> !Internal(a)
  }

  lemma RestWaits(c: Channel, t: nat)
    requires Inv(c) && Wakes(c) && AtRest(c) && !At(c, t).Idle?
    ensures WaitsForModem(c, t) || exists u :: WaitsBehind(c, t, u) && WaitsForModem(c, u)
  {
    InvGoing(c, t);
    if c.commandMutex.TheReader? {
      ReaderCanStep(c);
    }
    forall u | CanStep(c, u) ensures false {
      assert Internal(NextOf(c, u));
    }
  }

  /** Where they end, whoever has not returned waits for the modem, or behind one that
      does; and with the stream at its end and a handler set, everybody has returned. */
  lemma AtRestWaits(n: nat, hooked: bool, run: seq<Action>, c: Channel, t: nat)
    requires Reaches(Init(n, hooked), run, c) && AtRest(c)
    ensures At(c, t).Idle? || WaitsForModem(c, t) || exists u :: WaitsBehind(c, t, u) && WaitsForModem(c, u)
    ensures c.readerClosed || (hooked && c.reader.Ended?) ==> At(c, t).Idle?
  {
    Reached(n, hooked, run, c);
    if !At(c, t).Idle? {
      RestWaits(c, t);
    }
  }

  // ----- a wait that never ends -----

  /** The stream has ended, and nobody has been told. */
  ghost predicate Stranded(c: Channel, t: nat) {
    && Inv(c) && c.reader.Ended? && Unanswered(c)
    && (At(c, t).AwaitingFinal? || At(c, t).Looking?) && !At(c, t).cmd.timed
  }

  lemma StrandedStep(c: Channel, a: Action, t: nat)
    requires Stranded(c, t) && Enabled(c, a) && !a.CloseChannel?
    ensures Stranded(Apply(c, a), t)
  {
    LocksStep(c, a);
    SlotStep(c, a);
    assert HoldsRequest(At(c, t)) <==> c.requestMutex == Some(t);
    if OfThread(a) {
      assert HoldsRequest(At(c, a.t)) <==> c.requestMutex == Some(a.t);
    }
  }

  /** Without a handler for the end of the stream, a command without a time limit that
      waits there does not return in any run without at_close. */
  lemma {:induction false} StrandedForEver(c: Channel, run: seq<Action>, c': Channel, t: nat)
    requires Stranded(c, t) && Reaches(c, run, c') && forall a <- run :: !a.CloseChannel?
    ensures Stranded(c', t)
    decreases run
  {
    if run != [] {
      StrandedStep(c, run[0], t);
      StrandedForEver(Apply(c, run[0]), run[1..], c', t);
    }
  }

  /** Its answer is there, or it is past needing one. */
  ghost predicate Finishing(c: Channel, t: nat) {
    && Inv(c)
    && match At(c, t)
       case AwaitingFinal(_) => !Unanswered(c)
       case Looking(_) => !Unanswered(c)
       case s => s.Idle? || s.Handing? || s.Clearing? || s.Leaving?
  }

  lemma FinishingStep(c: Channel, a: Action, t: nat)
    requires Finishing(c, t) && Enabled(c, a) && Internal(a)
    ensures Finishing(Apply(c, a), t)
  {
    LocksStep(c, a);
    SlotStep(c, a);
    if OfThread(a) && a.t == t {
      OwnFinishing(c, a);
    } else {
      OtherFinishing(c, a, t);
    }
  }

  lemma OwnFinishing(c: Channel, a: Action)
    requires OfThread(a) && Finishing(c, a.t) && Enabled(c, a) && Internal(a) && Inv(Apply(c, a))
    ensures Finishing(Apply(c, a), a.t)
  {
    assert Fits(c.slot, At(c, a.t));
  }

  lemma OtherFinishing(c: Channel, a: Action, t: nat)
    requires Finishing(c, t) && Enabled(c, a) && Internal(a) && (OfThread(a) ==> a.t != t) && Inv(Apply(c, a))
    ensures Finishing(Apply(c, a), t)
  {
    Stays(c, a, t);
    assert HoldsRequest(At(c, t)) <==> c.requestMutex == Some(t);
    if OfThread(a) {
      assert HoldsRequest(At(c, a.t)) <==> c.requestMutex == Some(a.t);
    }
  }

  /** Internal steps until there are none. */
  lemma {:induction false} Finish(c: Channel, t: nat) returns (run: seq<Action>, c': Channel)
    requires Finishing(c, t)
    ensures InternalRun(c, run, c') && AtRest(c') && Finishing(c', t)
    decreases Measure(c)
  {
    if a :| Enabled(c, a) && Internal(a) {
      InternalStep(c, a);
      FinishingStep(c, a, t);
      var more;
      more, c' := Finish(Apply(c, a), t);
      run := [a] + more;
    } else {
      run, c' := [], c;
    }
  }

  ghost predicate NeverReturns(c: Channel, t: nat) {
    forall run: seq<Action>, c': Channel :: Reaches(c, run, c') && (forall a <- run :: !a.CloseChannel?) ==>
        !At(c', t).Idle?
  }

  lemma UnansweredNeverReturns(c: Channel, t: nat)
    requires Stranded(c, t)
    ensures NeverReturns(c, t)
  {
    forall run: seq<Action>, c': Channel | Reaches(c, run, c') && (forall a <- run :: !a.CloseChannel?)
      ensures !At(c', t).Idle?
    {
      StrandedForEver(c, run, c', t);
    }
  }

  lemma AnsweredReturns(n: nat, hooked: bool, run: seq<Action>, c: Channel, t: nat)
    requires Reaches(Init(n, hooked), run, c) && At(c, t).AwaitingFinal? && !Unanswered(c)
    ensures !NeverReturns(c, t)
  {
    Reached(n, hooked, run, c);
    var more, c' := Finish(c, t);
    RunWakes(c, more, c');
    RestIsIdle(c', t);
    assert forall a <- more :: !a.CloseChannel?;
  }

  lemma RestIsIdle(c: Channel, t: nat)
    requires Wakes(c) && Finishing(c, t) && AtRest(c)
    ensures At(c, t).Idle?
  {
    if !At(c, t).Idle? {
      RestWaits(c, t);
    }
  }

  /** After the end of the stream, a command without a time limit that waits for its final
      response never returns, unless somebody calls at_close, if and only if none has
      come and the reader's end has not been noted; and then no handler was set. */
  lemma StrandedIff(n: nat, hooked: bool, run: seq<Action>, c: Channel, t: nat)
    requires Reaches(Init(n, hooked), run, c) && c.reader.Ended? && At(c, t).AwaitingFinal? && !At(c, t).cmd.timed
    ensures NeverReturns(c, t) <==> Unanswered(c)
    ensures NeverReturns(c, t) ==> !hooked
  {
    Reached(n, hooked, run, c);
    if Unanswered(c) {
      UnansweredNeverReturns(c, t);
    } else {
      AnsweredReturns(n, hooked, run, c, t);
    }
  }

  /** A command of thread `t` that never returns after the end of the stream. */
  ghost predicate Strands(n: nat, hooked: bool, cmd: Command, run: seq<Action>, c: Channel, t: nat) {
    Reaches(Init(n, hooked), run, c) && c.reader.Ended? && At(c, t) == AwaitingFinal(cmd) && NeverReturns(c, t)
  }

  lemma Asks(n: nat, hooked: bool, cmd: Command) returns (c: Channel)
    requires n > 0 && !cmd.timed && (cmd.formats ==> cmd.text != "")
    ensures Reaches(Init(n, hooked), [Call(0, cmd), Lock(0), TryRequest(0)], c) && c.hooked == hooked
    ensures |c.threads| == n && c.threads[0] == Checking(cmd) && c.slot.response.None? && !c.readerClosed
    ensures c.reader.Reading?
  {
    var c0 := Init(n, hooked);
    assert [] + [Call(0, cmd), Lock(0), TryRequest(0)] == [Call(0, cmd), Lock(0), TryRequest(0)];
    Three(c0, [], c0, Call(0, cmd), Lock(0), TryRequest(0));
    c := Apply(Apply(Apply(c0, Call(0, cmd)), Lock(0)), TryRequest(0));
  }

  /** The stream ends while a command waits, and no handler is set. */
  lemma EndsWaiting(n: nat, cmd: Command) returns (run: seq<Action>, c: Channel)
    requires n > 0 && !cmd.timed && (cmd.formats ==> cmd.text != "")
    ensures Reaches(Init(n, false), run, c) && c.reader.Ended? && At(c, 0) == AwaitingFinal(cmd) && Unanswered(c)
  {
    run := [Call(0, cmd), Lock(0), TryRequest(0)];
    c := Asks(n, false, cmd);
    Three(Init(n, false), run, c, Check(0), Write(0, false), Look(0));
    run, c := run + [Check(0), Write(0, false), Look(0)], Apply(Apply(Apply(c, Check(0)), Write(0, false)), Look(0));
    ReachMore(Init(n, false), run, c, EndOfFile);
    run, c := run + [EndOfFile], Apply(c, EndOfFile);
  }

  /** Whether any run strands it, short of at_close, is decided before the call: a command
      without a time limit can be left for ever at the end of the stream if and only if no
      handler is set. */
  lemma StrandsIff(n: nat, hooked: bool, cmd: Command)
    requires n > 0 && !cmd.timed && (cmd.formats ==> cmd.text != "")
    ensures !hooked <==> exists run, c, t :: Strands(n, hooked, cmd, run, c, t)
  {
    if hooked {
      forall run, c, t | Strands(n, hooked, cmd, run, c, t) ensures false {
        StrandedIff(n, hooked, run, c, t);
      }
    } else {
      var run, c := EndsWaiting(n, cmd);
      StrandedIff(n, hooked, run, c, 0);
      assert Strands(n, hooked, cmd, run, c, 0);
    }
  }
}
