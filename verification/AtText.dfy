/**
 The text of a command: formatted into one static buffer on entry, and given to
 writeline only once requestmutex is had.  A thread that waits for it on requestcond
 gives up commandmutex, and others may format theirs meanwhile.
 */
module AtText {
  import opened Bytes
  import opened AtDispatch
  import opened AtChannel

  /** Between the formatting and writeline. */
  predicate Before(s: Thread) {
    s.Trying? || s.AwaitingRequest? || s.Checking? || s.Writing?
  }

  /** What the buffer holds for a thread that formatted `own`. */
  function Held(own: string, since: seq<string>): string {
    if since == [] then own else since[|since| - 1]
  }

  /** The buffer holds the thread's text or what was last formatted since, and that is
      nothing if the thread has not had to wait. */
  ghost predicate TextAt(c: Channel, t: nat) {
    Before(At(c, t)) && At(c, t).cmd.formats ==>
      && c.strbuf == Held(Own(At(c, t).cmd), Since(c.formatted, t))
      && (t !in c.waited ==> Since(c.formatted, t) == [])
      && (At(c, t).AwaitingRequest? ==> t in c.waited)
  }

  ghost predicate Texts(c: Channel) {
    && (forall t: nat :: TextAt(c, t))
    && (forall w <- c.written :: w.text == Held(Own(w.cmd), w.since))
  }

  lemma SinceMore(formatted: seq<Format>, f: Format, t: nat)
    ensures Since(formatted + [f], t) == if f.t == t then [] else Since(formatted, t) + [f.text]
  {
    assert (formatted + [f])[..|formatted|] == formatted;
  }

  lemma EnterText(c: Channel, t: nat, u: nat)
    requires Inv(c) && Texts(c) && At(c, t).Entering? && c.commandMutex.Nobody?
    ensures TextAt(Enter(c, t), u)
  {
    assert TextAt(c, u) && (HoldsCommand(At(c, u)) <==> c.commandMutex == Thread(u));
    if u == t {
      OwnEntry(c, t);
    } else {
      assert At(Enter(c, t), u) == At(c, u);
      OtherEntry(c, t, u);
    }
  }

  lemma OwnEntry(c: Channel, t: nat)
    requires At(c, t).Entering?
    ensures TextAt(Enter(c, t), t)
  {
    SinceMore(c.formatted, Format(t, Own(At(c, t).cmd)), t);
  }

  lemma OtherEntry(c: Channel, t: nat, u: nat)
    requires TextAt(c, u) && At(c, t).Entering? && u != t && At(Enter(c, t), u) == At(c, u)
    requires Before(At(c, u)) ==> At(c, u).AwaitingRequest?
    ensures TextAt(Enter(c, t), u)
  {
    var c', text := Enter(c, t), Cut(At(c, t).cmd.text);
    assert u in c'.waited <==> u in c.waited;
    if Before(At(c, u)) && At(c, t).cmd.formats {
      SinceMore(c.formatted, Format(t, text), u);
      LastHeld(Own(At(c, u).cmd), Since(c.formatted, u), text);
      assert c'.strbuf == text && c'.formatted == c.formatted + [Format(t, text)];
    }
  }

  lemma LastHeld(own: string, since: seq<string>, text: string)
    ensures Held(own, since + [text]) == text
  {
  }

  /** A step that formats nothing. */
  lemma KeepText(c: Channel, a: Action, u: nat)
    requires Inv(c) && Texts(c) && Enabled(c, a) && !a.Lock?
    ensures TextAt(Apply(c, a), u)
  {
    var c' := Apply(c, a);
    assert TextAt(c, u) && c'.formatted == c.formatted && c'.strbuf == c.strbuf;
    if !OfThread(a) || a.t != u {
      Stays(c, a, u);
    } else {
      OwnText(c, a);
    }
  }

  lemma OwnText(c: Channel, a: Action)
    requires OfThread(a) && TextAt(c, a.t) && Enabled(c, a) && !a.Lock?
    ensures TextAt(Apply(c, a), a.t)
  {
    OwnStage(c, a);
  }

  /** A thread gets there only from a stage before it, and to wait only marked so. */
  lemma OwnStage(c: Channel, a: Action)
    requires OfThread(a) && Enabled(c, a) && !a.Lock?
    ensures var c', t := Apply(c, a), a.t;
            && c'.strbuf == c.strbuf && c'.formatted == c.formatted && (t in c.waited && !a.Retry? ==> t in c'.waited)
            && (Before(At(c', t)) ==>
                  (a.Retry? && !At(c', t).cmd.formats) || (Before(At(c, t)) && At(c', t).cmd == At(c, t).cmd))
            && (At(c', t).AwaitingRequest? ==> t in c'.waited)
  {
  }

  lemma TextStep(c: Channel, a: Action)
    requires Inv(c) && Texts(c) && Enabled(c, a)
    ensures Texts(Apply(c, a))
  {
    var c' := Apply(c, a);
    forall u: nat ensures TextAt(c', u) {
      if a.Lock? {
        EnterText(c, a.t, u);
      } else {
        KeepText(c, a, u);
      }
    }
    assert TextAt(c, if a.Write? then a.t else 0);
  }

  lemma {:induction false} RunTexts(c: Channel, run: seq<Action>, c': Channel)
    requires Inv(c) && Texts(c) && Reaches(c, run, c')
    ensures Texts(c')
    decreases run
  {
    if run != [] {
      LocksStep(c, run[0]);
      SlotStep(c, run[0]);
      TextStep(c, run[0]);
      RunTexts(Apply(c, run[0]), run[1..], c');
    }
  }

  /** In every run, the line about to be written is the caller's own if and only if the
      command is not formatted, or nobody has formatted a text since, or the last text
      formatted is the same; a command that never had to wait for requestmutex is safe. */
  lemma OwnLineIff(n: nat, hooked: bool, run: seq<Action>, c: Channel, t: nat)
    requires Reaches(Init(n, hooked), run, c) && At(c, t).Writing?
    ensures var cmd, since := At(c, t).cmd, Since(c.formatted, t);
            && (Given(c, cmd) == Own(cmd) <==> !cmd.formats || since == [] || since[|since| - 1] == Own(cmd))
            && (t !in c.waited ==> Given(c, cmd) == Own(cmd))
  {
    InitInv(n, hooked);
    RunTexts(Init(n, hooked), run, c);
    assert TextAt(c, t);
  }

  /** The same of all lines that a run has written. */
  lemma EveryLineIff(n: nat, hooked: bool, run: seq<Action>, c: Channel)
    requires Reaches(Init(n, hooked), run, c)
    ensures forall w <- c.written :: w.text == Own(w.cmd) <==> w.since == [] || w.since[|w.since| - 1] == Own(w.cmd)
  {
    InitInv(n, hooked);
    RunTexts(Init(n, hooked), run, c);
  }

  // ----- a text that is lost -----

  /** A command that only occupies the channel until its time is up. */
  const FIRST := Command(NoResult, "", None, false, "AT", false, true)

  const BUSY: seq<Action> := [Call(0, FIRST), Lock(0), TryRequest(0), Check(0), Write(0, false), Look(0)]

  function Race(x: Command, y: Command): seq<Action> {
    BUSY + [Call(1, x), Lock(1), TryRequest(1)] + [Call(2, y), Lock(2), TryRequest(2)]
    + [WakeFinal(0, true)] + [Clear(0)] + [Leave(0)] + [WakeRequest(1), TryRequest(1), Check(1), Write(1, false)]
  }

  /** The channel while `owner` has requestmutex and waits. */
  ghost predicate Busy(c: Channel, threads: seq<Thread>) {
    && c.commandMutex.Nobody? && c.requestMutex == Some(0) && c.threads == threads && c.woken == {}
    && !c.readerClosed && c.slot.response.Some? && c.slot.response.value.finalResponse.None?
  }

  lemma FirstEnters() returns (c: Channel)
    ensures Reaches(Init(3, true), [Call(0, FIRST), Lock(0), TryRequest(0)], c)
    ensures c.threads == [Checking(FIRST), Idle, Idle]
    ensures c.requestMutex == Some(0) && c.woken == {} && c.formatted == []
    ensures c.slot.response.None? && !c.readerClosed
  {
    var c0 := Init(3, true);
    assert [] + [Call(0, FIRST), Lock(0), TryRequest(0)] == [Call(0, FIRST), Lock(0), TryRequest(0)];
    Three(c0, [], c0, Call(0, FIRST), Lock(0), TryRequest(0));
    c := Apply(Apply(Apply(c0, Call(0, FIRST)), Lock(0)), TryRequest(0));
  }

  lemma FirstWaits() returns (c: Channel)
    ensures Reaches(Init(3, true), BUSY, c) && Busy(c, [AwaitingFinal(FIRST), Idle, Idle]) && c.formatted == []
  {
    var run := [Call(0, FIRST), Lock(0), TryRequest(0)];
    assert run + [Check(0), Write(0, false), Look(0)] == BUSY;
    c := FirstEnters();
    Three(Init(3, true), run, c, Check(0), Write(0, false), Look(0));
    c := Apply(Apply(Apply(c, Check(0)), Write(0, false)), Look(0));
  }

  /** One more command is formatted and has to wait. */
  lemma OneMoreWaits(run: seq<Action>, c: Channel, threads: seq<Thread>, t: nat, x: Command) returns (c': Channel)
    requires Reaches(Init(3, true), run, c) && Busy(c, threads) && t < |threads| && threads[t].Idle?
    requires x.formats && x.text != ""
    ensures Reaches(Init(3, true), run + [Call(t, x), Lock(t), TryRequest(t)], c')
    ensures Busy(c', threads[t := AwaitingRequest(x)])
    ensures c'.formatted == c.formatted + [Format(t, Own(x))] && c'.strbuf == Own(x) && t in c'.waited
  {
    Three(Init(3, true), run, c, Call(t, x), Lock(t), TryRequest(t));
    c' := Apply(Apply(Apply(c, Call(t, x)), Lock(t)), TryRequest(t));
  }

  lemma BothWait(x: Command, y: Command) returns (c: Channel)
    requires x.formats && y.formats && x.text != "" && y.text != ""
    ensures var run := BUSY + [Call(1, x), Lock(1), TryRequest(1)] + [Call(2, y), Lock(2), TryRequest(2)];
            Reaches(Init(3, true), run, c)
    ensures Busy(c, [AwaitingFinal(FIRST), AwaitingRequest(x), AwaitingRequest(y)])
    ensures c.formatted == [Format(1, Own(x))] + [Format(2, Own(y))] && c.strbuf == Own(y)
  {
    var run := BUSY + [Call(1, x), Lock(1), TryRequest(1)];
    c := FirstWaits();
    c := OneMoreWaits(BUSY, c, [AwaitingFinal(FIRST), Idle, Idle], 1, x);
    c := OneMoreWaits(run, c, [AwaitingFinal(FIRST), AwaitingRequest(x), Idle], 2, y);
  }

  /** The owner's time is up. */
  lemma FirstTimesOut(run: seq<Action>, c: Channel, threads: seq<Thread>) returns (c': Channel)
    requires Reaches(Init(3, true), run, c) && Busy(c, threads) && |threads| == 3 && threads[0] == AwaitingFinal(FIRST)
    ensures Reaches(Init(3, true), run + [WakeFinal(0, true)], c')
    ensures c'.threads == threads[0 := Clearing(FIRST, TimedOut)] && !c'.readerClosed
    ensures c'.strbuf == c.strbuf && c'.formatted == c.formatted
  {
    ReachMore(Init(3, true), run, c, WakeFinal(0, true));
    c' := Apply(c, WakeFinal(0, true));
  }

  /** It leaves, and the one that waits behind it is woken. */
  lemma FirstLeaves(run: seq<Action>, c: Channel, x: Command) returns (c': Channel)
    requires Reaches(Init(3, true), run, c) && |c.threads| == 3 && c.threads[0].Clearing? && !c.readerClosed
    requires c.threads[1] == AwaitingRequest(x)
    ensures Reaches(Init(3, true), run + [Clear(0)] + [Leave(0)], c')
    ensures At(c', 1) == AwaitingRequest(x) && 1 in c'.woken && c'.commandMutex.Nobody? && c'.requestMutex.None?
    ensures c'.slot.response.None? && !c'.readerClosed && c'.strbuf == c.strbuf && c'.formatted == c.formatted
  {
    ReachMore(Init(3, true), run, c, Clear(0));
    c' := Apply(c, Clear(0));
    ReachMore(Init(3, true), run + [Clear(0)], c', Leave(0));
    c' := Apply(c', Leave(0));
  }

  /** The first of them goes on to write what the buffer holds. */
  lemma SecondWrites(run: seq<Action>, c: Channel, x: Command) returns (c': Channel)
    requires Reaches(Init(3, true), run, c) && At(c, 1) == AwaitingRequest(x) && x.formats && 1 in c.woken
    requires c.commandMutex.Nobody? && c.requestMutex.None? && c.slot.response.None? && !c.readerClosed
    ensures Reaches(Init(3, true), run + [WakeRequest(1), TryRequest(1), Check(1)] + [Write(1, false)], c')
    ensures Line(x, c.strbuf, Since(c.formatted, 1)) in c'.written
  {
    Three(Init(3, true), run, c, WakeRequest(1), TryRequest(1), Check(1));
    c' := Apply(Apply(Apply(c, WakeRequest(1)), TryRequest(1)), Check(1));
    ReachMore(Init(3, true), run + [WakeRequest(1), TryRequest(1), Check(1)], c', Write(1, false));
    c' := Apply(c', Write(1, false));
  }

  /** Any two formatted commands that wait behind a third can end in the first writing the
      text of the second. */
  lemma TextIsLost(x: Command, y: Command)
    requires x.formats && y.formats && x.text != "" && y.text != ""
    ensures exists c :: Reaches(Init(3, true), Race(x, y), c) && Line(x, Own(y), [Own(y)]) in c.written
  {
    var c := BothWait(x, y);
    var run := BUSY + [Call(1, x), Lock(1), TryRequest(1)] + [Call(2, y), Lock(2), TryRequest(2)];
    SinceMore([], Format(1, Own(x)), 1);
    SinceMore([Format(1, Own(x))], Format(2, Own(y)), 1);
    c := FirstTimesOut(run, c, [AwaitingFinal(FIRST), AwaitingRequest(x), AwaitingRequest(y)]);
    run := run + [WakeFinal(0, true)];
    c := FirstLeaves(run, c, x);
    run := run + [Clear(0)] + [Leave(0)];
    assert c.formatted == [Format(1, Own(x))] + [Format(2, Own(y))];
    assert Since(c.formatted, 1) == [Own(y)];
    c := SecondWrites(run, c, x);
    assert Line(x, Own(y), [Own(y)]) in c.written;
    assert run + [WakeRequest(1), TryRequest(1), Check(1)] + [Write(1, false)] == Race(x, y);
  }
}
