/**
 What one line from the modem does to the pending command slot of the AT channel
 (processLine), as a function of the slot.
 */
module AtDispatch {
  import opened Bytes

  datatype CommandType = NoResult | Numeric | SingleLine | MultiLine

  /** `intermediates` is the list as the reader builds it: newest first. */
  datatype Response = Response(success: bool, finalResponse: Option<string>, intermediates: seq<string>)

  /** The fields under commandmutex. */
  datatype Slot = Slot(kind: CommandType, prefix: string, smsPDU: Option<string>, response: Option<Response>)

  /** Where a line goes. */
  datatype Sink = Unsolicited | Intermediate | FinalSuccess | FinalError | Prompt

  predicate StartsWith(line: string, prefix: string) {
    |prefix| <= |line| && line[..|prefix|] == prefix
  }

  predicate StartsWithAny(line: string, prefixes: seq<string>) {
    exists i :: 0 <= i < |prefixes| && StartsWith(line, prefixes[i])
  }

  const FinalErrors := ["ERROR", "+CMS ERROR:", "+CME ERROR:", "NO CARRIER", "NO ANSWER", "NO DIALTONE"]
  const FinalSuccesses := ["OK", "CONNECT"]
  predicate IsFinal(line: string) {
    StartsWithAny(line, FinalSuccesses) || StartsWithAny(line, FinalErrors)
  }

  const SmsUnsoliciteds := ["+CMT:", "+CDS:", "+CBM:"]

  /** What the reader's loop hands on: a line to processLine, or the two lines of an SMS to
      the unsolicited handler. */
  datatype Delivery = ToProcess(line: string) | Sms(first: string, second: string)

  /** The first line of an SMS without a second one is dropped at the end of the stream. */
  function Deliveries(lines: seq<string>): seq<Delivery> {
    if lines == [] then []
    else if !StartsWithAny(lines[0], SmsUnsoliciteds) then [ToProcess(lines[0])] + Deliveries(lines[1..])
    else if |lines| == 1 then []
    else [Sms(lines[0], lines[1])] + Deliveries(lines[2..])
  }

  /** The lines so far have been handed on, and none is held back. */
  ghost predicate Settled(lines: seq<string>, ds: seq<Delivery>) {
    forall more: seq<string> :: Deliveries(lines + more) == ds + Deliveries(more)
  }

  lemma NothingSettled()
    ensures Settled([], [])
  {
    forall more: seq<string> ensures Deliveries([] + more) == [] + Deliveries(more) {
      assert [] + more == more;
    }
  }

  lemma SettledLine(lines: seq<string>, ds: seq<Delivery>, line: string)
    requires Settled(lines, ds) && !StartsWithAny(line, SmsUnsoliciteds)
    ensures Settled(lines + [line], ds + [ToProcess(line)])
  {
    forall more: seq<string>
      ensures Deliveries((lines + [line]) + more) == (ds + [ToProcess(line)]) + Deliveries(more)
    {
      Group(lines, [line], more);
      Group(ds, [ToProcess(line)], Deliveries(more));
      assert ([line] + more)[1..] == more;
    }
  }

  lemma SettledSms(lines: seq<string>, ds: seq<Delivery>, first: string, second: string)
    requires Settled(lines, ds) && StartsWithAny(first, SmsUnsoliciteds)
    ensures Settled(lines + [first] + [second], ds + [Sms(first, second)])
  {
    forall more: seq<string>
      ensures Deliveries((lines + [first] + [second]) + more) == (ds + [Sms(first, second)]) + Deliveries(more)
    {
      assert (lines + [first] + [second]) + more == lines + ([first, second] + more);
      Group(ds, [Sms(first, second)], Deliveries(more));
      assert ([first, second] + more)[2..] == more;
    }
  }

  lemma SettledEnd(lines: seq<string>, ds: seq<Delivery>, last: seq<string>)
    requires Settled(lines, ds) && (last == [] || (|last| == 1 && StartsWithAny(last[0], SmsUnsoliciteds)))
    ensures Deliveries(lines + last) == ds
  {
    assert ds + Deliveries(last) == ds;
  }

  predicate StartsWithDigit(line: string) {
    line != "" && '0' <= line[0] <= '9'
  }

  /** The lines a command of this kind takes as intermediate responses. */
  predicate Accepts(kind: CommandType, prefix: string, line: string) {
    match kind
    case NoResult => false
    case Numeric => StartsWithDigit(line)
    case SingleLine => StartsWith(line, prefix)
    case MultiLine => StartsWith(line, prefix)
  }

  predicate OnlyOne(kind: CommandType) {
    kind.Numeric? || kind.SingleLine?
  }

  function SinkOf(s: Slot, line: string): Sink {
    if s.response.None? then Unsolicited
    else if StartsWithAny(line, FinalSuccesses) then FinalSuccess
    else if StartsWithAny(line, FinalErrors) then FinalError
    else if s.smsPDU.Some? && line == "> " then Prompt
    else if Accepts(s.kind, s.prefix, line) && (OnlyOne(s.kind) ==> s.response.value.intermediates == [])
    then Intermediate
    else Unsolicited
  }

  function Dispatch(s: Slot, line: string): Slot {
    match SinkOf(s, line)
    case Unsolicited => s
    case Prompt => s.(smsPDU := None)
    case FinalSuccess => s.(response := Some(s.response.value.(success := true, finalResponse := Some(line))))
    case FinalError => s.(response := Some(s.response.value.(success := false, finalResponse := Some(line))))
    case Intermediate =>
      s.(response := Some(s.response.value.(intermediates := [line] + s.response.value.intermediates)))
  }

  function Reversed<T>(s: seq<T>): (r: seq<T>)
    ensures |r| == |s|
    ensures forall i :: 0 <= i < |s| ==> r[i] == s[|s| - 1 - i]
  {
    if s == [] then [] else Reversed(s[1..]) + [s[0]]
  }
}
