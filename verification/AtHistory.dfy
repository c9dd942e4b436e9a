/**
 What becomes of the lines: every answer given, the pending response, the handler's
 calls and the PDUs sent agree with the log of lines that processLine has seen.
 */
module AtHistory {
  import opened Bytes
  import opened AtDispatch
  import opened AtChannel

  // ----- what happened to the lines -----

  /** The lines of the log that went to `sink` during command `id`, in arrival order. */
  function LinesTo(log: seq<Entry>, sink: Sink, id: nat): seq<string> {
    if log == [] then []
    else
      var rest, e := LinesTo(log[..|log| - 1], sink, id), log[|log| - 1];
      if e.sink == sink && e.id == id then rest + [e.line] else rest
  }

  /** The last final response of command `id`. */
  function FinalOf(log: seq<Entry>, id: nat): Option<Entry> {
    if log == [] then None
    else
      var e := log[|log| - 1];
      if (e.sink.FinalSuccess? || e.sink.FinalError?) && e.id == id then Some(e) else FinalOf(log[..|log| - 1], id)
  }

  function AllTo(log: seq<Entry>, sink: Sink): seq<string> {
    if log == [] then []
    else
      var rest, e := AllTo(log[..|log| - 1], sink), log[|log| - 1];
      if e.sink == sink then rest + [e.line] else rest
  }

  /** A response, its intermediates oldest first, tells what the log has for command `id`. */
  ghost predicate Tells(r: Response, log: seq<Entry>, id: nat, kind: CommandType, prefix: string) {
    && r.intermediates == LinesTo(log, Intermediate, id)
    && r.finalResponse == (match FinalOf(log, id) case None => None case Some(e) => Some(e.line))
    && r.success == (FinalOf(log, id).Some? && FinalOf(log, id).value.sink.FinalSuccess?)
    && (forall line <- r.intermediates :: Accepts(kind, prefix, line))
    && (OnlyOne(kind) ==> |r.intermediates| <= 1)
  }

  function Upright(r: Response): Response {
    r.(intermediates := Reversed(r.intermediates))
  }

  ghost predicate History(c: Channel) {
    && (c.slot.response.Some? ==> Tells(Upright(c.slot.response.value), c.log, c.id, c.slot.kind, c.slot.prefix))
    && (c.slot.response.None? ==> forall a <- c.answers :: a.id <= c.id)
    && (c.slot.response.Some? ==> forall a <- c.answers :: a.id < c.id)
    && (forall a <- c.answers :: Tells(a.response, c.log, a.id, a.cmd.kind, a.cmd.prefix))
    && (forall e <- c.log :: e.id <= c.id)
    && c.handled == AllTo(c.log, Unsolicited)
    && |c.sent| == |AllTo(c.log, Prompt)|
    && (forall i: nat :: |LinesTo(c.log, Prompt, i)| <= 1)
    && (c.slot.response.Some? && c.slot.smsPDU.Some? ==> LinesTo(c.log, Prompt, c.id) == [])
  }

  // ----- the history over one step -----

  lemma LinesToSnoc(log: seq<Entry>, e: Entry, sink: Sink, id: nat)
    ensures LinesTo(log + [e], sink, id)
            == LinesTo(log, sink, id) + if e.sink == sink && e.id == id then [e.line] else []
  {
    assert (log + [e])[..|log|] == log;
  }

  lemma AllToSnoc(log: seq<Entry>, e: Entry, sink: Sink)
    ensures AllTo(log + [e], sink) == AllTo(log, sink) + if e.sink == sink then [e.line] else []
  {
    assert (log + [e])[..|log|] == log;
  }

  lemma FinalOfSnoc(log: seq<Entry>, e: Entry, id: nat)
    ensures FinalOf(log + [e], id)
            == if (e.sink.FinalSuccess? || e.sink.FinalError?) && e.id == id then Some(e) else FinalOf(log, id)
  {
    assert (log + [e])[..|log|] == log;
  }

  lemma {:induction false} FreshId(log: seq<Entry>, id: nat)
    requires forall e <- log :: e.id < id
    ensures FinalOf(log, id).None? && forall sink :: LinesTo(log, sink, id) == []
  {
    if log != [] {
      FreshId(log[..|log| - 1], id);
    }
  }

  /** The pending response goes on telling its part of the log. */
  lemma DispatchTells(s: Slot, log: seq<Entry>, id: nat, line: string)
    requires s.response.Some? && Tells(Upright(s.response.value), log, id, s.kind, s.prefix)
    ensures var s' := Dispatch(s, line);
            Tells(Upright(s'.response.value), log + [Entry(line, SinkOf(s, line), id)], id, s.kind, s.prefix)
  {
    var e := Entry(line, SinkOf(s, line), id);
    LinesToSnoc(log, e, Intermediate, id);
    FinalOfSnoc(log, e, id);
    assert Reversed([line] + s.response.value.intermediates) == Reversed(s.response.value.intermediates) + [line] by {
      assert ([line] + s.response.value.intermediates)[1..] == s.response.value.intermediates;
    }
  }

  /** An answer already given is not touched by a line of a later command, nor by an
      unsolicited one. */
  lemma OldTells(r: Response, log: seq<Entry>, e: Entry, id: nat, kind: CommandType, prefix: string)
    requires Tells(r, log, id, kind, prefix) && (e.id != id || e.sink.Unsolicited?)
    ensures Tells(r, log + [e], id, kind, prefix)
  {
    LinesToSnoc(log, e, Intermediate, id);
    FinalOfSnoc(log, e, id);
  }

  lemma ProcessHistory(c: Channel, u: nat)
    requires History(c) && c.reader.Processing?
    ensures History(ProcessLine(c, u))
  {
    var c', line := ProcessLine(c, u), c.reader.line;
    var e := Entry(line, SinkOf(c.slot, line), c.id);
    AllToSnoc(c.log, e, Unsolicited);
    AllToSnoc(c.log, e, Prompt);
    if c.slot.response.Some? {
      DispatchTells(c.slot, c.log, c.id, line);
    }
    forall a | a in c'.answers ensures Tells(a.response, c'.log, a.id, a.cmd.kind, a.cmd.prefix) {
      OldTells(a.response, c.log, e, a.id, a.cmd.kind, a.cmd.prefix);
    }
    forall i: nat
      ensures LinesTo(c'.log, Prompt, i)
              == LinesTo(c.log, Prompt, i) + if e.sink.Prompt? && i == c.id then [line] else []
    {
      LinesToSnoc(c.log, e, Prompt, i);
    }
  }

  lemma OccupyHistory(c: Channel, t: nat)
    requires History(c) && At(c, t).Checking? && c.slot.response.None?
    ensures History(Occupy(c, t))
  {
    FreshId(c.log, c.id + 1);
  }

  lemma HandHistory(c: Channel, t: nat)
    requires History(c) && SlotOwned(c) && At(c, t).Handing?
    ensures History(HandOver(c, t))
  {
  }

  lemma ClearHistory(c: Channel, c': Channel)
    requires History(c) && c'.slot.response.None?
    requires c'.log == c.log && c'.id == c.id && c'.answers == c.answers && c'.handled == c.handled && c'.sent == c.sent
    ensures History(c')
  {
  }

  /** History speaks of the slot and the history alone. */
  lemma SameHistory(c: Channel, c': Channel)
    requires History(c) && c'.slot == c.slot
    requires c'.log == c.log && c'.id == c.id && c'.answers == c.answers && c'.handled == c.handled && c'.sent == c.sent
    ensures History(c')
  {
  }

  lemma RestHistory(c: Channel, a: Action)
    requires History(c) && Enabled(c, a) && !a.Process? && !a.Check? && !a.Hand? && !a.Clear?
    ensures History(Apply(c, a))
  {
    Untouched(c, a);
    SameHistory(c, Apply(c, a));
  }

  lemma Untouched(c: Channel, a: Action)
    requires Enabled(c, a) && !a.Process? && !a.Check? && !a.Hand? && !a.Clear?
    ensures var c' := Apply(c, a); c'.slot == c.slot && c'.log == c.log && c'.id == c.id
    ensures var c' := Apply(c, a); c'.answers == c.answers && c'.handled == c.handled && c'.sent == c.sent
  {
  }

  lemma HistoryStep(c: Channel, a: Action)
    requires Inv(c) && History(c) && Enabled(c, a)
    ensures History(Apply(c, a))
  {
    var c' := Apply(c, a);
    match a
    case Process(u) => ProcessHistory(c, u);
    case Check(t) =>
      assert Fits(c.slot, At(c, t));
      OccupyHistory(c, t);
    case Hand(t) =>
      assert Fits(c.slot, At(c, t));
      HandHistory(c, t);
    case Clear(_) => ClearHistory(c, c');
    case _ => RestHistory(c, a);
  }

  lemma {:induction false} RunHistory(c: Channel, run: seq<Action>, c': Channel)
    requires Inv(c) && History(c) && Reaches(c, run, c')
    ensures History(c')
    decreases run
  {
    if run != [] {
      LocksStep(c, run[0]);
      SlotStep(c, run[0]);
      HistoryStep(c, run[0]);
      RunHistory(Apply(c, run[0]), run[1..], c');
    }
  }

  /** In every run: each answer lists, in arrival order, exactly the lines that were
      taken as intermediate responses while its command was pending, at most one for
      NUMERIC and SINGLELINE, each with the digit or prefix its command asked for; its
      final response is the last one that arrived; and the handler has been called with
      exactly the lines that went nowhere else, in order. */
  lemma EveryRunDeliversLines(n: nat, hooked: bool, run: seq<Action>, c: Channel)
    requires Reaches(Init(n, hooked), run, c)
    ensures forall a <- c.answers :: Tells(a.response, c.log, a.id, a.cmd.kind, a.cmd.prefix)
    ensures c.handled == AllTo(c.log, Unsolicited)
    ensures forall i: nat :: |LinesTo(c.log, Prompt, i)| <= 1
    ensures |c.sent| == |AllTo(c.log, Prompt)|
  {
    InitInv(n, hooked);
    RunHistory(Init(n, hooked), run, c);
  }
}
