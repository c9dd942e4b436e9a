/**
 What a command returns, and what it sends behind the prompt: the result and the answer of
 each command in terms of the lines that came while it was pending.
 */
module AtResults {
  import opened Bytes
  import opened AtDispatch
  import opened AtChannel
  import opened AtHistory

  // ----- the lines of one command -----

  /** The lines that came during command `id`, in arrival order. */
  function LinesDuring(log: seq<Entry>, id: nat): seq<string> {
    if log == [] then []
    else LinesDuring(log[..|log| - 1], id) + if log[|log| - 1].id == id then [log[|log| - 1].line] else []
  }

  /** The last line that reads as a final response. */
  function LastFinal(lines: seq<string>): Option<string> {
    if lines == [] then None
    else if IsFinal(lines[|lines| - 1]) then Some(lines[|lines| - 1])
    else LastFinal(lines[..|lines| - 1])
  }

  predicate Succeeds(f: Option<string>) {
    f.Some? && StartsWithAny(f.value, FinalSuccesses)
  }

  const PROMPT := "> "

  /** The lines with the digit or prefix that the command asks for, but for final ones and
      the prompt that its PDU is sent behind. */
  function Fitting(cmd: Command, lines: seq<string>): seq<string> {
    if lines == [] then []
    else
      var before, line := lines[..|lines| - 1], lines[|lines| - 1];
      var isPrompt := cmd.smsPDU.Some? && line == PROMPT && PROMPT !in before;
      Fitting(cmd, before) + if Accepts(cmd.kind, cmd.prefix, line) && !IsFinal(line) && !isPrompt then [line] else []
  }

  /** NUMERIC and SINGLELINE take the first of them. */
  function Wanted(cmd: Command, lines: seq<string>): seq<string> {
    var fit := Fitting(cmd, lines);
    if OnlyOne(cmd.kind) && fit != [] then [fit[0]] else fit
  }

  /** The response that these lines make. */
  function Reply(cmd: Command, lines: seq<string>): Response {
    Response(Succeeds(LastFinal(lines)), LastFinal(lines), Wanted(cmd, lines))
  }

  predicate NoTextFor(cmd: Command) {
    cmd.formats && cmd.text == ""
  }

  predicate NoAnswerYet(c: Channel) {
    forall a <- c.answers :: a.id != c.id
  }

  /** The latest answer is the reply to the latest command. */
  predicate Answered(c: Channel, cmd: Command, lines: seq<string>) {
    c.answers != [] && c.answers[|c.answers| - 1] == Answer(c.id, cmd, Reply(cmd, lines))
  }

  /** The line written last is the command's. */
  predicate Wrote(c: Channel, cmd: Command) {
    c.written != [] && c.written[|c.written| - 1].cmd == cmd
  }

  predicate Handed(res: Result) {
    res.Done? || res.ResponseError? || res.ChannelClosed?
  }

  /** What the result of command `cmd` says, `lines` being those that came during it. */
  ghost predicate Means(c: Channel, cmd: Command, res: Result, lines: seq<string>) {
    var f := LastFinal(lines);
    && (Handed(res) && f.Some? ==> if cmd.wantsResponse then Answered(c, cmd, lines) else NoAnswerYet(c))
    && match res
       case Done => !c.readerClosed && Succeeds(f) && Wrote(c, cmd)
       case ResponseError => !c.readerClosed && f.Some? && !Succeeds(f) && Wrote(c, cmd)
       case ChannelClosed => c.readerClosed
       case WriteError => !c.readerClosed && f.None? && NoAnswerYet(c)
       case TimedOut => cmd.timed && NoAnswerYet(c)
       case NoText => true
       case CommandPending => false
  }

  /** The pending response is the reply so far, and the PDU waits for the prompt. */
  predicate Heard(slot: Slot, cmd: Command, lines: seq<string>) {
    && slot.response.Some? && Upright(slot.response.value) == Reply(cmd, lines)
    && slot.kind == cmd.kind && slot.prefix == cmd.prefix
    && slot.smsPDU == if PROMPT in lines then None else cmd.smsPDU
  }

  ghost predicate Stands(c: Channel, s: Thread) {
    var lines := LinesDuring(c.log, c.id);
    && (Occupies(s) ==> Heard(c.slot, s.cmd, lines) && NoAnswerYet(c))
    && (s.Writing? ==> LastFinal(lines).None?)
    && (Occupies(s) && !s.Writing? ==> Wrote(c, s.cmd))
    && (s.Handing? ==> LastFinal(lines).Some? || c.readerClosed)
    && (s.Clearing? || s.Leaving? ==> Means(c, s.cmd, s.res, lines) && (s.res.NoText? <==> NoTextFor(s.cmd)))
    && (!s.Idle? && !s.Entering? && !s.Leaving? ==> !NoTextFor(s.cmd))
  }

  ghost predicate Results(c: Channel) {
    forall t: nat :: Stands(c, At(c, t))
  }

  // ----- one line -----

  lemma LinesDuringSnoc(log: seq<Entry>, e: Entry)
    ensures LinesDuring(log + [e], e.id) == LinesDuring(log, e.id) + [e.line]
  {
    assert (log + [e])[..|log|] == log;
  }

  lemma PromptIsNotFinal()
    ensures !IsFinal(PROMPT)
  {
    forall s | s in FinalSuccesses + FinalErrors ensures !StartsWith(PROMPT, s) {
      assert s[0] != '>';
    }
    assert forall i :: 0 <= i < |FinalSuccesses| ==> FinalSuccesses[i] in FinalSuccesses + FinalErrors;
    assert forall i :: 0 <= i < |FinalErrors| ==> FinalErrors[i] in FinalSuccesses + FinalErrors;
  }

  /** One more line in the reply. */
  lemma ReplySnoc(cmd: Command, lines: seq<string>, line: string)
    ensures LastFinal(lines + [line]) == if IsFinal(line) then Some(line) else LastFinal(lines)
    ensures var isPrompt := cmd.smsPDU.Some? && line == PROMPT && PROMPT !in lines;
            var takes := && Accepts(cmd.kind, cmd.prefix, line) && !IsFinal(line) && !isPrompt
                         && (OnlyOne(cmd.kind) ==> Wanted(cmd, lines) == []);
            Wanted(cmd, lines + [line]) == Wanted(cmd, lines) + if takes then [line] else []
  {
    assert (lines + [line])[..|lines|] == lines;
  }

  /** A line leaves the pending response the reply so far. */
  lemma HearsLine(slot: Slot, cmd: Command, lines: seq<string>, line: string)
    requires Heard(slot, cmd, lines)
    ensures Heard(Dispatch(slot, line), cmd, lines + [line])
  {
    ReplySnoc(cmd, lines, line);
    PromptIsNotFinal();
    var r := slot.response.value;
    assert Reversed([line] + r.intermediates) == Reversed(r.intermediates) + [line] by {
      assert ([line] + r.intermediates)[1..] == r.intermediates;
    }
  }

  lemma {:induction false} NothingHeard(log: seq<Entry>, id: nat)
    requires forall e <- log :: e.id < id
    ensures LinesDuring(log, id) == []
  {
    if log != [] {
      NothingHeard(log[..|log| - 1], id);
    }
  }

  // ----- one step -----

  /** What `Stands` speaks of, besides the thread. */
  predicate SameFacts(c: Channel, c': Channel) {
    && c'.log == c.log && c'.id == c.id && c'.answers == c.answers
    && c'.slot == c.slot && c'.readerClosed == c.readerClosed && c'.written == c.written
  }

  lemma StandsStill(c: Channel, c': Channel, s: Thread)
    requires Stands(c, s) && SameFacts(c, c')
    ensures Stands(c', s)
  {
  }

  /** While a thread holds commandmutex, the others change nothing of it. */
  lemma HeldFacts(c: Channel, a: Action, u: nat)
    requires Inv(c) && Enabled(c, a) && HoldsCommand(At(c, u)) && (OfThread(a) ==> a.t != u)
    ensures SameFacts(c, Apply(c, a))
  {
    assert c.commandMutex == Thread(u);
    if OfThread(a) {
      assert HoldsCommand(At(c, a.t)) <==> c.commandMutex == Thread(a.t);
    }
  }

  /** Nor do they, but for lines and closing, while it waits for its final response. */
  lemma WaitingFacts(c: Channel, a: Action, u: nat)
    requires Inv(c) && Enabled(c, a) && At(c, u).AwaitingFinal? && (OfThread(a) ==> a.t != u) && !a.Process?
    ensures SameFacts(c, Apply(c, a).(readerClosed := c.readerClosed))
  {
    assert c.requestMutex == Some(u);
    if OfThread(a) {
      assert HoldsRequest(At(c, a.t)) <==> c.requestMutex == Some(a.t);
    }
  }

  lemma OthersStand(c: Channel, a: Action, u: nat)
    requires Inv(c) && Results(c) && Enabled(c, a) && (OfThread(a) ==> a.t != u) && !a.Process?
    ensures Stands(Apply(c, a), At(Apply(c, a), u))
  {
    var s := At(c, u);
    Stays(c, a, u);
    assert Stands(c, s);
    if HoldsCommand(s) {
      HeldFacts(c, a, u);
      StandsStill(c, Apply(c, a), s);
    } else if s.AwaitingFinal? {
      WaitingFacts(c, a, u);
      WaiterStays(c, Apply(c, a), s);
    } else {
      OutsideStands(c, Apply(c, a), s);
    }
  }

  lemma WaiterStays(c: Channel, c': Channel, s: Thread)
    requires Stands(c, s) && s.AwaitingFinal? && SameFacts(c, c'.(readerClosed := c.readerClosed))
    ensures Stands(c', s)
  {
  }

  lemma OutsideStands(c: Channel, c': Channel, s: Thread)
    requires Stands(c, s) && (s.Idle? || s.Entering? || s.AwaitingRequest?)
    ensures Stands(c', s)
  {
  }

  lemma ProcessStands(c: Channel, a: Action, u: nat)
    requires Inv(c) && Results(c) && a.Process? && Enabled(c, a)
    ensures Stands(Apply(c, a), At(c, u))
  {
    var s := At(c, u);
    assert Stands(c, s) && (HoldsCommand(s) <==> c.commandMutex == Thread(u));
    if s.AwaitingFinal? {
      WaiterStands(c, a.u, s);
    }
  }

  lemma WaiterStands(c: Channel, u: nat, s: Thread)
    requires Stands(c, s) && s.AwaitingFinal? && c.reader.Processing?
    ensures Stands(ProcessLine(c, u), s)
  {
    var line, lines, c' := c.reader.line, LinesDuring(c.log, c.id), ProcessLine(c, u);
    ProcessFacts(c, u, line);
    LinesDuringSnoc(c.log, Entry(line, SinkOf(c.slot, line), c.id));
    HearsLine(c.slot, s.cmd, lines, line);
    WaiterHears(c', s, lines + [line]);
  }

  lemma ProcessFacts(c: Channel, u: nat, line: string)
    requires c.reader.Processing? && line == c.reader.line
    ensures var c' := ProcessLine(c, u);
            && c'.slot == Dispatch(c.slot, line) && c'.log == c.log + [Entry(line, SinkOf(c.slot, line), c.id)]
            && c'.id == c.id && c'.answers == c.answers && c'.written == c.written
  {
  }

  lemma WaiterHears(c: Channel, s: Thread, lines: seq<string>)
    requires s.AwaitingFinal? && Heard(c.slot, s.cmd, lines) && lines == LinesDuring(c.log, c.id)
    requires NoAnswerYet(c) && Wrote(c, s.cmd) && !NoTextFor(s.cmd)
    ensures Stands(c, s)
  {
  }

  lemma CheckStands(c: Channel, t: nat)
    requires Inv(c) && History(c) && Results(c) && At(c, t).Checking?
    ensures Stands(Occupy(c, t), At(Occupy(c, t), t))
  {
    assert Fits(c.slot, At(c, t)) && Stands(c, At(c, t));
    NothingHeard(c.log, c.id + 1);
  }

  lemma HandStands(c: Channel, t: nat)
    requires Inv(c) && Results(c) && Enabled(c, Hand(t))
    ensures Stands(HandOver(c, t), At(HandOver(c, t), t))
  {
    assert Stands(c, At(c, t));
  }

  /** A thread's own step. */
  lemma OwnStands(c: Channel, a: Action, t: nat)
    requires Inv(c) && History(c) && Results(c) && Enabled(c, a) && OfThread(a) && a.t == t
    ensures Stands(Apply(c, a), At(Apply(c, a), t))
  {
    assert Stands(c, At(c, t));
    match a
    case Check(_) => CheckStands(c, t);
    case Hand(_) => HandStands(c, t);
    case Clear(_) => ClearStands(c, t);
    case Write(_, failed) => WriteStands(c, t, failed);
    case Look(_) => LookStands(c, t);
    case Lock(_) => LockStands(c, t);
    case TryRequest(_) => TryStands(c, t);
    case WakeFinal(_, timedOut) => WakeStands(c, t, timedOut);
    case _ => MovesStand(c, a, t);
  }

  lemma MovesStand(c: Channel, a: Action, t: nat)
    requires Stands(c, At(c, t)) && Enabled(c, a) && OfThread(a) && a.t == t
    requires !a.Check? && !a.Hand? && !a.Clear? && !a.Write? && !a.Look? && !a.WakeFinal? && !a.Lock?
    requires !a.TryRequest?
    ensures Stands(Apply(c, a), At(Apply(c, a), t))
  {
  }

  lemma LockStands(c: Channel, t: nat)
    requires Stands(c, At(c, t)) && Enabled(c, Lock(t))
    ensures Stands(Enter(c, t), At(Enter(c, t), t))
  {
  }

  lemma TryStands(c: Channel, t: nat)
    requires Stands(c, At(c, t)) && Enabled(c, TryRequest(t))
    ensures Stands(Apply(c, TryRequest(t)), At(Apply(c, TryRequest(t)), t))
  {
  }

  lemma LookStands(c: Channel, t: nat)
    requires Stands(c, At(c, t)) && Enabled(c, Look(t))
    ensures Stands(Apply(c, Look(t)), At(Apply(c, Look(t)), t))
  {
  }

  lemma WakeStands(c: Channel, t: nat, timedOut: bool)
    requires Stands(c, At(c, t)) && Enabled(c, WakeFinal(t, timedOut))
    ensures Stands(Apply(c, WakeFinal(t, timedOut)), At(Apply(c, WakeFinal(t, timedOut)), t))
  {
    var c', cmd := Apply(c, WakeFinal(t, timedOut)), At(c, t).cmd;
    var s := if timedOut then Clearing(cmd, TimedOut) else Looking(cmd);
    assert At(c', t) == s && Stands(c, s);
    StandsStill(c, c', s);
  }

  lemma ClearStands(c: Channel, t: nat)
    requires Stands(c, At(c, t)) && Enabled(c, Clear(t))
    ensures Stands(Apply(c, Clear(t)), At(Apply(c, Clear(t)), t))
  {
  }

  lemma WriteStands(c: Channel, t: nat, failed: bool)
    requires Stands(c, At(c, t)) && Enabled(c, Write(t, failed))
    ensures Stands(WriteLine(c, t, failed), At(WriteLine(c, t, failed), t))
  {
  }

  lemma ResultsStep(c: Channel, a: Action)
    requires Inv(c) && History(c) && Results(c) && Enabled(c, a)
    ensures Results(Apply(c, a))
  {
    forall u: nat ensures Stands(Apply(c, a), At(Apply(c, a), u)) {
      if a.Process? {
        Stays(c, a, u);
        ProcessStands(c, a, u);
      } else if OfThread(a) && a.t == u {
        OwnStands(c, a, u);
      } else {
        OthersStand(c, a, u);
      }
    }
  }

  lemma {:induction false} RunResults(c: Channel, run: seq<Action>, c': Channel)
    requires Inv(c) && History(c) && Results(c) && Reaches(c, run, c')
    ensures Inv(c') && Results(c')
    decreases run
  {
    if run != [] {
      LocksStep(c, run[0]);
      SlotStep(c, run[0]);
      HistoryStep(c, run[0]);
      ResultsStep(c, run[0]);
      RunResults(Apply(c, run[0]), run[1..], c');
    }
  }

  lemma ReachedResults(n: nat, hooked: bool, run: seq<Action>, c: Channel)
    requires Reaches(Init(n, hooked), run, c)
    ensures Inv(c) && Results(c)
  {
    InitInv(n, hooked);
    assert forall t: nat :: At(Init(n, hooked), t).Idle?;
    RunResults(Init(n, hooked), run, c);
  }

  // ----- what a caller is told -----

  /** In every run, of a command that is about to return: it had no text if and only if its
      arguments format to none.  If it did not run out of time either, it is done if and
      only if the stream is open and the last final response to it is OK or CONNECT, is
      told of an error if and only if the stream is open and that is another one, that the
      channel is closed if and only if it is, and that the write failed if and only if the
      stream is open and no final response has come; with one it has been given its reply,
      made of the lines that came during it, exactly when it wants one.  One that is done or
      told of an error has written its line.  Only a command with a time limit runs out of
      time, and then it is given no answer. */
  lemma EveryResultMeans(n: nat, hooked: bool, run: seq<Action>, c: Channel, t: nat)
    requires Reaches(Init(n, hooked), run, c) && (At(c, t).Clearing? || At(c, t).Leaving?)
    ensures var s, lines := At(c, t), LinesDuring(c.log, c.id);
            var f := LastFinal(lines);
            && (s.res.NoText? <==> s.cmd.formats && s.cmd.text == "")
            && (s.res.TimedOut? ==> s.cmd.timed && NoAnswerYet(c))
            && (!s.res.NoText? && !s.res.TimedOut? ==>
                  && (s.res.Done? <==> !c.readerClosed && f.Some? && StartsWithAny(f.value, FinalSuccesses))
                  && (s.res.ResponseError? <==>
                        !c.readerClosed && f.Some? && !StartsWithAny(f.value, FinalSuccesses))
                  && (s.res.ChannelClosed? <==> c.readerClosed)
                  && (s.res.WriteError? <==> !c.readerClosed && f.None?)
                  && (s.res.Done? || s.res.ResponseError? ==> Wrote(c, s.cmd))
                  && (f.Some? ==> if s.cmd.wantsResponse then Answered(c, s.cmd, lines) else NoAnswerYet(c)))
  {
    ReachedResults(n, hooked, run, c);
    assert Stands(c, At(c, t));
  }

  /** In every run: a line sends a PDU behind the prompt if and only if it is the first
      prompt of a command that waits and has one, and sends the PDU of that command; and the
      handler is called with it if and only if it is neither that, nor final, nor adds to
      the reply. */
  lemma WaitingLine(n: nat, hooked: bool, run: seq<Action>, c: Channel, t: nat, u: nat)
    requires Reaches(Init(n, hooked), run, c) && At(c, t).AwaitingFinal? && Enabled(c, Process(u))
    ensures var pdu := At(c, t).cmd.smsPDU;
            var sends := c.reader.line == PROMPT && PROMPT !in LinesDuring(c.log, c.id) && pdu.Some?;
            Apply(c, Process(u)).sent == c.sent + if sends then [pdu.value] else []
    ensures var pdu := At(c, t).cmd.smsPDU;
            var line, lines := c.reader.line, LinesDuring(c.log, c.id);
            var sends := line == PROMPT && PROMPT !in lines && pdu.Some?;
            var adds := Wanted(At(c, t).cmd, lines + [line]) != Wanted(At(c, t).cmd, lines);
            Apply(c, Process(u)).handled == c.handled + if sends || IsFinal(line) || adds then [] else [line]
  {
    ReachedResults(n, hooked, run, c);
    PromptIsNotFinal();
    ReplySnoc(At(c, t).cmd, LinesDuring(c.log, c.id), c.reader.line);
    assert Stands(c, At(c, t));
  }

  /** Nothing else sends one, and the handler is called with every line while nobody waits. */
  lemma NobodyWaits(n: nat, hooked: bool, run: seq<Action>, c: Channel, a: Action)
    requires Reaches(Init(n, hooked), run, c) && Enabled(c, a)
    requires a.Process? ==> forall t: nat :: !At(c, t).AwaitingFinal?
    ensures Apply(c, a).sent == c.sent
    ensures Apply(c, a).handled == c.handled + if a.Process? then [c.reader.line] else []
  {
    if a.Process? && c.slot.response.Some? {
      InitInv(n, hooked);
      RunInv(Init(n, hooked), run, c);
      var t := c.requestMutex.value;
      assert HoldsRequest(At(c, t)) && (HoldsCommand(At(c, t)) <==> c.commandMutex == Thread(t));
    }
  }
}
