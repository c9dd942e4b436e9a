/**
 The channel with a modem that gives one final response for each line written to it, in
 order: whose command a final response is taken for.
 */
module AtModem {
  import opened Bytes
  import opened AtDispatch
  import opened AtChannel

  /** A final response taken for command `id`, and the command it was given for. */
  datatype Final = Final(id: nat, owedTo: nat)

  /** `owed` are the commands whose lines the modem has yet to answer, `due` is the one that
      the line in the reader's hands answers. */
  datatype Modem = Modem(c: Channel, owed: seq<nat>, due: Option<nat>, finals: seq<Final>)

  function Start(n: nat, hooked: bool): Modem {
    Modem(Init(n, hooked), [], None, [])
  }

  predicate CanDo(m: Modem, a: Action) {
    Enabled(m.c, a) && (a.Receive? && IsFinal(a.line) ==> m.owed != [])
  }

  function Do(m: Modem, a: Action): Modem
    requires CanDo(m, a)
  {
    match a
    case Receive(line) =>
      if IsFinal(line) then Modem(Apply(m.c, a), m.owed[1..], Some(m.owed[0]), m.finals)
      else Modem(Apply(m.c, a), m.owed, None, m.finals)
    case Process(_) =>
      Modem(Apply(m.c, a), m.owed, None,
            m.finals + if m.due.Some? && m.c.slot.response.Some? then [Final(m.c.id, m.due.value)] else [])
    case Write(_, failed) => Modem(Apply(m.c, a), m.owed + if failed then [] else [m.c.id], m.due, m.finals)
    case _ => m.(c := Apply(m.c, a))
  }

  predicate Runs(from: Modem, run: seq<Action>, m: Modem)
    decreases run
  {
    if run == [] then m == from else CanDo(from, run[0]) && Runs(Do(from, run[0]), run[1..], m)
  }

  /** The commands with an answer still to come, in order. */
  function Outstanding(m: Modem): seq<nat> {
    (if m.due.Some? then [m.due.value] else []) + m.owed
  }

  predicate HasLine(r: Reader) {
    r.Wanting? || r.Processing?
  }

  /** In order, and none above `top`. */
  ghost predicate UpTo(o: seq<nat>, top: nat) {
    && (forall i, j :: 0 <= i < j < |o| ==> o[i] < o[j])
    && (forall i <- o :: i <= top)
  }

  ghost predicate Owing(m: Modem) {
    && UpTo(Outstanding(m), m.c.id)
    && (m.due.Some? <==> HasLine(m.c.reader) && IsFinal(m.c.reader.line))
    && (forall t: nat :: At(m.c, t).Writing? ==> m.c.id !in Outstanding(m))
  }

  /** No step but the check of a free slot gives a new number. */
  lemma SameId(c: Channel, a: Action)
    requires Enabled(c, a)
    ensures Apply(c, a).id == if a.Check? && c.slot.response.None? then c.id + 1 else c.id
    ensures a.Check? && c.slot.response.None? ==> At(Apply(c, a), a.t).Writing?
    ensures !a.Receive? && !a.LockReader? && !a.Process? && !a.UnlockReader? && !a.EndOfFile? && !a.CloseReader? ==>
              Apply(c, a).reader == c.reader
  {
  }

  lemma OneWriter(c: Channel, t: nat, u: nat)
    requires Inv(c) && HoldsRequest(At(c, t)) && HoldsRequest(At(c, u))
    ensures t == u
  {
    assert HoldsRequest(At(c, t)) <==> c.requestMutex == Some(t);
    assert HoldsRequest(At(c, u)) <==> c.requestMutex == Some(u);
  }

  /** Who is about to write after a step was so before it, or has just got the slot. */
  lemma WriterBefore(c: Channel, a: Action, t: nat)
    requires Inv(c) && Enabled(c, a) && At(Apply(c, a), t).Writing?
    ensures At(c, t).Writing? || (a.Check? && a.t == t && c.slot.response.None?)
    ensures !(a.Check? && a.t != t) && (a.Write? ==> a.t != t)
  {
    if !OfThread(a) || a.t != t {
      Stays(c, a, t);
      if a.Check? {
        OneWriter(c, a.t, t);
      }
    }
  }

  /** What is outstanding gains the line written, and loses the one that is processed. */
  lemma OutstandingStep(m: Modem, a: Action)
    requires Owing(m) && CanDo(m, a)
    ensures Outstanding(Do(m, a)) == if a.Write? && !a.failed then Outstanding(m) + [m.c.id]
                                     else if a.Process? && m.due.Some? then Outstanding(m)[1..]
                                     else Outstanding(m)
  {
  }

  lemma DueStep(m: Modem, a: Action)
    requires Owing(m) && CanDo(m, a)
    ensures var m' := Do(m, a); m'.due.Some? <==> HasLine(m'.c.reader) && IsFinal(m'.c.reader.line)
  {
  }

  lemma OwingStep(m: Modem, a: Action)
    requires Inv(m.c) && Owing(m) && CanDo(m, a)
    ensures Owing(Do(m, a))
  {
    SameId(m.c, a);
    OutstandingStep(m, a);
    DueStep(m, a);
    if a.Write? {
      assert At(m.c, a.t).Writing?;
      OneMore(Outstanding(m), m.c.id);
    } else {
      OneLess(Outstanding(m), m.c.id, Do(m, a).c.id);
    }
    forall t: nat | At(Do(m, a).c, t).Writing? ensures Do(m, a).c.id !in Outstanding(Do(m, a)) {
      NotWritten(m, a, t);
    }
  }

  lemma OneMore(o: seq<nat>, id: nat)
    requires UpTo(o, id) && id !in o
    ensures UpTo(o + [id], id)
  {
    assert forall i :: 0 <= i < |o| ==> o[i] in o;
  }

  lemma OneLess(o: seq<nat>, id: nat, id': nat)
    requires UpTo(o, id) && id <= id'
    ensures UpTo(o, id') && (o != [] ==> UpTo(o[1..], id'))
  {
    if o != [] {
      assert forall i :: i in o[1..] ==> i in o;
    }
  }

  /** A number is outstanding only once its line is written. */
  lemma NotWritten(m: Modem, a: Action, t: nat)
    requires Inv(m.c) && Owing(m) && CanDo(m, a) && At(Do(m, a).c, t).Writing?
    ensures Do(m, a).c.id !in Outstanding(Do(m, a))
  {
    SameId(m.c, a);
    OutstandingStep(m, a);
    WriterBefore(m.c, a, t);
    if a.Write? {
      OneWriter(m.c, a.t, t);
    }
  }

  lemma {:induction false} RunOwing(m: Modem, run: seq<Action>, m': Modem)
    requires Inv(m.c) && Owing(m) && Runs(m, run, m')
    ensures Inv(m'.c) && Owing(m')
    decreases run
  {
    if run != [] {
      LocksStep(m.c, run[0]);
      SlotStep(m.c, run[0]);
      OwingStep(m, run[0]);
      RunOwing(Do(m, run[0]), run[1..], m');
    }
  }

  /** In every run, a final response that is about to be taken for the pending command was
      given for it if and only if no earlier command has an answer still to come. */
  lemma OwnAnswerIff(n: nat, hooked: bool, run: seq<Action>, m: Modem)
    requires Runs(Start(n, hooked), run, m) && m.c.reader.Processing? && IsFinal(m.c.reader.line)
    ensures m.due.Some? && (m.due.value == m.c.id <==> forall i <- Outstanding(m) :: i == m.c.id)
  {
    InitInv(n, hooked);
    RunOwing(Start(n, hooked), run, m);
    var o := Outstanding(m);
    assert o[0] == m.due.value && o[0] in o;
  }

  // ----- runs in which nobody gives up -----

  /** No command leaves with its answer still to come. */
  predicate Patient(m: Modem, a: Action) {
    a.Clear? ==> Outstanding(m) == []
  }

  predicate AllPatient(from: Modem, run: seq<Action>)
    decreases run
  {
    run == [] || (CanDo(from, run[0]) && Patient(from, run[0]) && AllPatient(Do(from, run[0]), run[1..]))
  }

  /** Only the owner of the slot can have an answer outstanding, and only once it has written. */
  ghost predicate OnlyOwn(m: Modem) {
    && (Outstanding(m) == [] || Outstanding(m) == [m.c.id])
    && (m.c.requestMutex.None? ==> Outstanding(m) == [])
    && (forall t: nat :: At(m.c, t).Checking? || At(m.c, t).Writing? ==> Outstanding(m) == [])
    && (forall f <- m.finals :: f.id == f.owedTo)
  }

  /** A thread before its line is written was there before, or has just got requestmutex. */
  lemma EarlyBefore(c: Channel, a: Action, t: nat)
    requires Inv(c) && Enabled(c, a) && (At(Apply(c, a), t).Checking? || At(Apply(c, a), t).Writing?)
    ensures At(c, t).Checking? || At(c, t).Writing? || c.requestMutex.None?
    ensures a.Write? ==> a.t != t
  {
    if !OfThread(a) || a.t != t {
      Stays(c, a, t);
    }
  }

  lemma MutexFreed(c: Channel, a: Action)
    requires Enabled(c, a) && Apply(c, a).requestMutex.None?
    ensures c.requestMutex.None? || a.Clear?
  {
  }

  lemma FinalsStep(m: Modem, a: Action)
    requires OnlyOwn(m) && CanDo(m, a)
    ensures forall f <- Do(m, a).finals :: f.id == f.owedTo
  {
    if m.due.Some? {
      assert Outstanding(m)[0] == m.due.value;
    }
  }

  lemma OnlyOwnStep(m: Modem, a: Action)
    requires Inv(m.c) && Owing(m) && OnlyOwn(m) && CanDo(m, a) && Patient(m, a)
    ensures OnlyOwn(Do(m, a))
  {
    var m' := Do(m, a);
    SameId(m.c, a);
    OutstandingStep(m, a);
    FinalsStep(m, a);
    if m'.c.requestMutex.None? {
      MutexFreed(m.c, a);
    }
    if a.Write? {
      assert At(m.c, a.t).Writing? && (HoldsRequest(At(m.c, a.t)) <==> m.c.requestMutex == Some(a.t));
    }
    if a.Check? {
      assert At(m.c, a.t).Checking?;
    }
    forall t: nat | At(m'.c, t).Checking? || At(m'.c, t).Writing? ensures Outstanding(m') == [] {
      EarlyBefore(m.c, a, t);
      if a.Write? {
        OneWriter(m.c, a.t, t);
      }
    }
  }

  lemma {:induction false} RunOnlyOwn(m: Modem, run: seq<Action>, m': Modem)
    requires Inv(m.c) && Owing(m) && OnlyOwn(m) && Runs(m, run, m') && AllPatient(m, run)
    ensures OnlyOwn(m')
    decreases run
  {
    if run != [] {
      LocksStep(m.c, run[0]);
      SlotStep(m.c, run[0]);
      OwingStep(m, run[0]);
      OnlyOwnStep(m, run[0]);
      RunOnlyOwn(Do(m, run[0]), run[1..], m');
    }
  }

  /** In every run in which no command gives up before its answer has come, every final
      response was taken for the command it was given for. */
  lemma PatientRunsGetTheirOwn(n: nat, hooked: bool, run: seq<Action>, m: Modem)
    requires Runs(Start(n, hooked), run, m) && AllPatient(Start(n, hooked), run)
    ensures forall f <- m.finals :: f.id == f.owedTo
  {
    InitInv(n, hooked);
    RunOnlyOwn(Start(n, hooked), run, m);
  }

  // ----- an answer that comes late -----

  lemma {:induction false} RunsMore(from: Modem, run: seq<Action>, m: Modem, a: Action)
    requires Runs(from, run, m) && CanDo(m, a)
    ensures Runs(from, run + [a], Do(m, a))
    decreases run
  {
    if run == [] {
      assert (run + [a])[1..] == [];
    } else {
      assert (run + [a])[1..] == run[1..] + [a];
      RunsMore(Do(from, run[0]), run[1..], m, a);
    }
  }

  /** Nobody is inside a command. */
  predicate Quiet(c: Channel) {
    c.commandMutex.Nobody? && c.requestMutex.None? && c.slot.response.None? && !c.readerClosed && c.reader.Reading?
  }

  predicate Sendable(x: Command) {
    x.formats ==> x.text != ""
  }

  lemma Enters(from: Modem, run: seq<Action>, m: Modem, t: nat, x: Command) returns (run': seq<Action>, m': Modem)
    requires Runs(from, run, m) && Quiet(m.c) && t < |m.c.threads| && At(m.c, t).Idle? && Sendable(x)
    ensures Runs(from, run', m') && At(m'.c, t) == Checking(x) && m'.owed == m.owed && m'.due == m.due
    ensures m'.c.id == m.c.id && |m'.c.threads| == |m.c.threads| && m'.finals == m.finals
    ensures m'.c.slot.response.None? && !m'.c.readerClosed && m'.c.reader.Reading?
    ensures forall u: nat :: u != t ==> At(m'.c, u) == At(m.c, u)
  {
    RunsMore(from, run, m, Call(t, x));
    run', m' := run + [Call(t, x)], Do(m, Call(t, x));
    RunsMore(from, run', m', Lock(t));
    run', m' := run' + [Lock(t)], Do(m', Lock(t));
    RunsMore(from, run', m', TryRequest(t));
    run', m' := run' + [TryRequest(t)], Do(m', TryRequest(t));
  }

  lemma Waits(from: Modem, run: seq<Action>, m: Modem, t: nat, x: Command) returns (run': seq<Action>, m': Modem)
    requires Runs(from, run, m) && At(m.c, t) == Checking(x) && m.c.slot.response.None? && !m.c.readerClosed
    requires m.c.reader.Reading?
    ensures Runs(from, run', m') && At(m'.c, t) == AwaitingFinal(x) && m'.owed == m.owed + [m.c.id + 1]
    ensures m'.due == m.due && m'.c.id == m.c.id + 1 && |m'.c.threads| == |m.c.threads| && m'.finals == m.finals
    ensures m'.c.slot.response.Some? && m'.c.commandMutex.Nobody? && !m'.c.readerClosed && m'.c.reader.Reading?
    ensures forall u: nat :: u != t ==> At(m'.c, u) == At(m.c, u)
  {
    run', m' := Writes(from, run, m, t, x);
    run', m' := Looks(from, run', m', t, x);
  }

  lemma Looks(from: Modem, run: seq<Action>, m: Modem, t: nat, x: Command) returns (run': seq<Action>, m': Modem)
    requires Runs(from, run, m) && At(m.c, t) == Looking(x) && !m.c.readerClosed
    requires m.c.slot.response == Some(Response(false, None, []))
    ensures Runs(from, run', m') && At(m'.c, t) == AwaitingFinal(x) && m' == m.(c := m'.c)
    ensures m'.c.id == m.c.id && |m'.c.threads| == |m.c.threads| && m'.c.slot == m.c.slot
    ensures m'.c.commandMutex.Nobody? && !m'.c.readerClosed && m'.c.reader == m.c.reader
    ensures forall u: nat :: u != t ==> At(m'.c, u) == At(m.c, u)
  {
    RunsMore(from, run, m, Look(t));
    run', m' := run + [Look(t)], Do(m, Look(t));
  }

  lemma Writes(from: Modem, run: seq<Action>, m: Modem, t: nat, x: Command) returns (run': seq<Action>, m': Modem)
    requires Runs(from, run, m) && At(m.c, t) == Checking(x) && m.c.slot.response.None? && !m.c.readerClosed
    ensures Runs(from, run', m') && At(m'.c, t) == Looking(x) && m'.owed == m.owed + [m.c.id + 1]
    ensures m'.due == m.due && m'.c.id == m.c.id + 1 && |m'.c.threads| == |m.c.threads| && m'.finals == m.finals
    ensures m'.c.slot.response == Some(Response(false, None, [])) && !m'.c.readerClosed && m'.c.reader == m.c.reader
    ensures forall u: nat :: u != t ==> At(m'.c, u) == At(m.c, u)
  {
    RunsMore(from, run, m, Check(t));
    Checked(m, t, x);
    run', m' := WritesOut(from, run + [Check(t)], Do(m, Check(t)), t, x);
  }

  lemma Checked(m: Modem, t: nat, x: Command)
    requires At(m.c, t) == Checking(x) && m.c.slot.response.None?
    ensures var m' := Do(m, Check(t));
            && m' == m.(c := m'.c) && At(m'.c, t) == Writing(x) && |m'.c.threads| == |m.c.threads|
            && m'.c.slot.response == Some(Response(false, None, [])) && m'.c.id == m.c.id + 1
            && m'.c.readerClosed == m.c.readerClosed && m'.c.reader == m.c.reader
            && forall u: nat :: u != t ==> At(m'.c, u) == At(m.c, u)
  {
  }

  lemma WritesOut(from: Modem, run: seq<Action>, m: Modem, t: nat, x: Command) returns (run': seq<Action>, m': Modem)
    requires Runs(from, run, m) && At(m.c, t) == Writing(x) && !m.c.readerClosed
    ensures Runs(from, run', m') && At(m'.c, t) == Looking(x) && m'.owed == m.owed + [m.c.id]
    ensures m'.due == m.due && m'.c.id == m.c.id && |m'.c.threads| == |m.c.threads| && m'.finals == m.finals
    ensures m'.c.slot == m.c.slot && !m'.c.readerClosed && m'.c.reader == m.c.reader
    ensures forall u: nat :: u != t ==> At(m'.c, u) == At(m.c, u)
  {
    RunsMore(from, run, m, Write(t, false));
    run', m' := run + [Write(t, false)], Do(m, Write(t, false));
  }

  lemma GivesUp(from: Modem, run: seq<Action>, m: Modem, t: nat, x: Command) returns (run': seq<Action>, m': Modem)
    requires Runs(from, run, m) && At(m.c, t) == AwaitingFinal(x) && x.timed && m.c.commandMutex.Nobody?
    requires !m.c.readerClosed && m.c.reader.Reading?
    ensures Runs(from, run', m') && Quiet(m'.c) && At(m'.c, t).Idle? && m'.owed == m.owed && m'.due == m.due
    ensures m'.c.id == m.c.id && |m'.c.threads| == |m.c.threads| && m'.finals == m.finals
    ensures forall u: nat :: u != t ==> At(m'.c, u) == At(m.c, u)
  {
    RunsMore(from, run, m, WakeFinal(t, true));
    run', m' := Leaves(from, run + [WakeFinal(t, true)], Do(m, WakeFinal(t, true)), t);
  }

  lemma Leaves(from: Modem, run: seq<Action>, m: Modem, t: nat) returns (run': seq<Action>, m': Modem)
    requires Runs(from, run, m) && At(m.c, t).Clearing? && !m.c.readerClosed && m.c.reader.Reading?
    ensures Runs(from, run', m') && Quiet(m'.c) && At(m'.c, t).Idle? && m'.owed == m.owed && m'.due == m.due
    ensures m'.c.id == m.c.id && |m'.c.threads| == |m.c.threads| && m'.finals == m.finals
    ensures forall u: nat :: u != t ==> At(m'.c, u) == At(m.c, u)
  {
    RunsMore(from, run, m, Clear(t));
    run', m' := run + [Clear(t)], Do(m, Clear(t));
    RunsMore(from, run', m', Leave(t));
    run', m' := run' + [Leave(t)], Do(m', Leave(t));
  }

  /** The modem answers with OK. */
  lemma Answers(from: Modem, run: seq<Action>, m: Modem) returns (run': seq<Action>, m': Modem)
    requires Runs(from, run, m) && m.c.slot.response.Some? && m.c.commandMutex.Nobody? && m.c.reader.Reading?
    requires m.owed != []
    ensures Runs(from, run', m') && m'.finals == m.finals + [Final(m.c.id, m.owed[0])]
  {
    assert StartsWith("OK", FinalSuccesses[0]);
    assert IsFinal("OK");
    RunsMore(from, run, m, Receive("OK"));
    run', m' := run + [Receive("OK")], Do(m, Receive("OK"));
    RunsMore(from, run', m', LockReader);
    run', m' := run' + [LockReader], Do(m', LockReader);
    var u :| FinalWaiters(m'.c) != {} ==> u in FinalWaiters(m'.c);
    RunsMore(from, run', m', Process(u));
    run', m' := run' + [Process(u)], Do(m', Process(u));
  }

  /** A command that gives up leaves its answer to the next: for any two commands, the first
      with a time limit, there is such a run. */
  lemma LateAnswerGoesOn(x: Command, y: Command)
    requires Sendable(x) && Sendable(y) && x.timed
    ensures exists run, m :: Runs(Start(2, true), run, m) && m.finals == [Final(2, 1)]
  {
    var from := Start(2, true);
    var run, m := Enters(from, [], from, 0, x);
    run, m := Waits(from, run, m, 0, x);
    run, m := GivesUp(from, run, m, 0, x);
    run, m := Enters(from, run, m, 1, y);
    run, m := Waits(from, run, m, 1, y);
    run, m := Answers(from, run, m);
    assert m.finals == [] + [Final(2, 1)];
  }
}
