/**
 Lines of the AT stream: what the reader takes from its buffer, against the lines
 of the whole stream.
 */
module AtLines {

  predicate IsEol(c: char) { c == '\r' || c == '\n' }

  const PROMPT: string := "> "

  function SkipNewlines(s: string): (t: string)
    ensures |t| <= |s|
  {
    if s != "" && IsEol(s[0]) then SkipNewlines(s[1..]) else s
  }

  /** Index of the first CR or LF, or the length. */
  function FirstEol(s: string): (i: nat)
    ensures i <= |s|
  {
    if s == "" || IsEol(s[0]) then 0 else 1 + FirstEol(s[1..])
  }

  datatype Taken = NoLine | Line(line: string, rest: string)

  /** The first nonempty CR/LF-free run that a CR or LF ends. */
  function CutLine(s: string): (r: Taken)
    ensures r.Line? ==> |r.rest| < |s|
  {
    var t := SkipNewlines(s);
    var i := FirstEol(t);
    if i < |t| then Line(t[..i], t[i + 1..]) else NoLine
  }

  /** What the reader finds in buffered text: findNextEOL after the newlines are
      skipped.  Text that is just the SMS prompt is a line of its own. */
  function NextLine(text: string): (r: Taken)
    ensures r.Line? ==> |r.rest| < |text|
  {
    if SkipNewlines(text) == PROMPT then Line(PROMPT, "") else CutLine(text)
  }

  /** All lines the reader takes from buffered text, and the text left. */
  function Extract(text: string): (seq<string>, string)
    decreases |text|
  {
    match NextLine(text)
    case NoLine => ([], text)
    case Line(line, rest) => ([line] + Extract(rest).0, Extract(rest).1)
  }

  /** All lines of a run in which read() delivers these chunks. */
  function RunLines(text: string, chunks: seq<string>): seq<string>
    decreases chunks
  {
    var (lines, left) := Extract(text);
    if chunks == [] then lines else lines + RunLines(left + chunks[0], chunks[1..])
  }

  /** The reference: all lines of a stream, without regard to reads and prompts. */
  function Lines(s: string): seq<string>
    decreases |s|
  {
    match CutLine(s)
    case NoLine => []
    case Line(line, rest) => [line] + Lines(rest)
  }

  /** The first line does not begin with the prompt, unless it is the prompt alone and ended. */
  predicate FirstSafe(s: string) {
    PROMPT <= SkipNewlines(s) ==> CutLine(s).Line? && CutLine(s).line == PROMPT
  }

  predicate PromptSafe(s: string)
    decreases |s|
  {
    FirstSafe(s) && match CutLine(s) case NoLine => true case Line(_, rest) => PromptSafe(rest)
  }

  function Concat(chunks: seq<string>): string {
    if chunks == [] then "" else chunks[0] + Concat(chunks[1..])
  }

  lemma {:induction false} SkipAppend(a: string, b: string)
    ensures SkipNewlines(a + b) == if SkipNewlines(a) == "" then SkipNewlines(b) else SkipNewlines(a) + b
  {
    if a == "" {
      assert a + b == b;
    } else if IsEol(a[0]) {
      assert (a + b)[1..] == a[1..] + b;
      SkipAppend(a[1..], b);
    }
  }

  lemma {:induction false} EolAppend(a: string, b: string)
    ensures FirstEol(a + b) == if FirstEol(a) < |a| then FirstEol(a) else |a| + FirstEol(b)
  {
    if a == "" {
      assert a + b == b;
    } else if !IsEol(a[0]) {
      assert (a + b)[1..] == a[1..] + b;
      EolAppend(a[1..], b);
    }
  }

  /** More text behind a complete line leaves that line alone. */
  lemma CutAppend(a: string, b: string)
    requires CutLine(a).Line?
    ensures CutLine(a + b) == Line(CutLine(a).line, CutLine(a).rest + b)
  {
    var t := SkipNewlines(a);
    var i := FirstEol(t);
    var u := t + b;
    assert SkipNewlines(a + b) == u by { SkipAppend(a, b); }
    assert FirstEol(u) == i by { EolAppend(t, b); }
    CutIs(a + b, u, i);
    assert u[..i] == t[..i] && u[i + 1..] == t[i + 1..] + b;
  }

  lemma CutIs(s: string, t: string, i: nat)
    requires SkipNewlines(s) == t && FirstEol(t) == i < |t|
    ensures CutLine(s) == Line(t[..i], t[i + 1..])
  {
  }

  /** After the prompt came alone, a prompt-safe stream goes on with a newline. */
  lemma CutPrompt(a: string, b: string)
    requires SkipNewlines(a) == PROMPT && FirstSafe(a + b)
    ensures b != "" && IsEol(b[0]) && CutLine(a + b) == Line(PROMPT, b[1..])
  {
    SkipAppend(a, b);
    EolAppend(PROMPT, b);
    var u := PROMPT + b;
    assert FirstEol(PROMPT) == 2;
    assert u[..2] == PROMPT;
    assert PROMPT <= u;
    var i := FirstEol(u);
    assert |u[..i]| == i;
    assert u[3..] == b[1..];
  }

  /** A newline in front of a stream is neutral. */
  lemma CutNewline(b: string)
    requires b != "" && IsEol(b[0])
    ensures CutLine(b) == CutLine(b[1..]) && SkipNewlines(b) == SkipNewlines(b[1..])
  {
  }

  lemma LinesNewline(b: string)
    requires b != "" && IsEol(b[0])
    ensures Lines(b) == Lines(b[1..]) && PromptSafe(b) == PromptSafe(b[1..])
  {
    CutNewline(b);
  }

  lemma NothingLeft(s: string)
    requires s == ""
    ensures Extract(s) == ([], s)
  {
  }

  lemma AfterPrompt(a: string, b: string)
    requires SkipNewlines(a) == PROMPT && PromptSafe(a + b)
    ensures Extract(a) == ([PROMPT], "")
    ensures Lines(a + b) == [PROMPT] + Lines(b) && PromptSafe(b)
  {
    CutPrompt(a, b);
    LinesNewline(b);
    NothingLeft("");
    assert [PROMPT] + [] == [PROMPT];
  }

  lemma AfterLine(a: string, b: string)
    requires SkipNewlines(a) != PROMPT && CutLine(a).Line? && PromptSafe(a + b)
    ensures var Line(line, rest) := CutLine(a);
            && Extract(a) == ([line] + Extract(rest).0, Extract(rest).1)
            && Lines(a + b) == [line] + Lines(rest + b) && PromptSafe(rest + b)
  {
    CutAppend(a, b);
  }

  /** Taking the buffered lines first and the rest of the stream after changes nothing. */
  lemma {:induction false} ExtractThenLines(a: string, b: string)
    requires PromptSafe(a + b)
    ensures Lines(a + b) == Extract(a).0 + Lines(Extract(a).1 + b) && PromptSafe(Extract(a).1 + b)
    decreases |a|
  {
    if SkipNewlines(a) == PROMPT {
      AfterPrompt(a, b);
      assert "" + b == b;
    } else if CutLine(a).Line? {
      var Line(line, rest) := CutLine(a);
      AfterLine(a, b);
      ExtractThenLines(rest, b);
      AppendAssoc(line, Extract(rest).0, Lines(Extract(rest).1 + b));
    } else {
      assert Extract(a) == ([], a);
    }
  }

  lemma AppendAssoc(line: string, x: seq<string>, y: seq<string>)
    ensures [line] + (x + y) == ([line] + x) + y
  {
  }

  /** The lines do not depend on how read() divides a prompt-safe stream. */
  lemma {:induction false} RunIsLines(text: string, chunks: seq<string>)
    requires PromptSafe(text + Concat(chunks))
    ensures RunLines(text, chunks) == Lines(text + Concat(chunks))
    decreases chunks
  {
    var left := Extract(text).1;
    ExtractThenLines(text, Concat(chunks));
    if chunks == [] {
      assert Lines(left + "") == [] by {
        ExtractLeaves(text);
        assert left + "" == left;
      }
    } else {
      ConcatHead(left, chunks);
      RunIsLines(left + chunks[0], chunks[1..]);
    }
  }

  lemma ConcatHead(left: string, chunks: seq<string>)
    requires chunks != []
    ensures left + Concat(chunks) == (left + chunks[0]) + Concat(chunks[1..])
  {
  }

  lemma {:induction false} ExtractLeaves(text: string)
    ensures NextLine(Extract(text).1).NoLine? && Lines(Extract(text).1) == []
    decreases |text|
  {
    match NextLine(text)
    case NoLine =>
    case Line(_, rest) => ExtractLeaves(rest);
  }

  // ----- lines that are written are read -----

  predicate IsLine(s: string) {
    s != "" && forall c <- s :: !IsEol(c)
  }

  predicate IsEnd(s: string) {
    forall c <- s :: IsEol(c)
  }

  /** Lines, each with its CRs and LFs behind it. */
  function Written(ls: seq<string>, ends: seq<string>): string
    requires |ends| == |ls|
  {
    if ls == [] then "" else ls[0] + (ends[0] + Written(ls[1..], ends[1..]))
  }

  lemma {:induction false} SkipEnd(e: string, s: string)
    requires IsEnd(e)
    ensures Lines(e + s) == Lines(s)
  {
    if e == "" {
      assert e + s == s;
    } else {
      assert (e + s)[1..] == e[1..] + s;
      LinesNewline(e + s);
      SkipEnd(e[1..], s);
    }
  }

  lemma {:induction false} FirstEolIs(l: string, s: string)
    requires (forall c <- l :: !IsEol(c)) && s != "" && IsEol(s[0])
    ensures FirstEol(l + s) == |l|
  {
    if l == "" {
      assert l + s == s;
    } else {
      assert (l + s)[1..] == l[1..] + s;
      FirstEolIs(l[1..], s);
    }
  }

  lemma LineInFront(l: string, s: string)
    requires IsLine(l) && s != "" && IsEol(s[0])
    ensures Lines(l + s) == [l] + Lines(s[1..])
  {
    FirstEolIs(l, s);
    assert (l + s)[0] == l[0];
    CutIs(l + s, l + s, |l|);
    assert (l + s)[..|l|] == l && (l + s)[|l| + 1..] == s[1..];
  }

  /** The lines of a stream are those written into it, whatever CRs and LFs end them and
      stand in front. */
  lemma {:induction false} LinesBack(lead: string, ls: seq<string>, ends: seq<string>)
    requires IsEnd(lead) && |ends| == |ls| && (forall i :: 0 <= i < |ls| ==> IsLine(ls[i]))
    requires forall i :: 0 <= i < |ends| ==> ends[i] != "" && IsEnd(ends[i])
    ensures Lines(lead + Written(ls, ends)) == ls
    decreases |ls|
  {
    SkipEnd(lead, Written(ls, ends));
    if ls != [] {
      var rest := Written(ls[1..], ends[1..]);
      LinesBack("", ls[1..], ends[1..]);
      assert "" + rest == rest;
      EndedLine(ls[0], ends[0], rest);
    }
  }

  lemma EndedLine(l: string, e: string, rest: string)
    requires IsLine(l) && e != "" && IsEnd(e)
    ensures Lines(l + (e + rest)) == [l] + Lines(rest)
  {
    LineInFront(l, e + rest);
    assert (e + rest)[1..] == e[1..] + rest;
    SkipEnd(e[1..], rest);
  }

  // ----- and only of a prompt-safe stream -----

  lemma {:induction false} SkipIsSuffix(s: string)
    ensures var t := SkipNewlines(s); s[|s| - |t|..] == t
    ensures var t := SkipNewlines(s); SkipNewlines(s[..|s| - |t|]) == "" && (t != "" ==> !IsEol(t[0]))
  {
    if s != "" && IsEol(s[0]) {
      SkipIsSuffix(s[1..]);
      var n := |s| - |SkipNewlines(s)|;
      assert s[..n][1..] == s[1..][..n - 1];
    }
  }

  lemma {:induction false} EolIsLocal(s: string)
    ensures FirstEol(s[..FirstEol(s)]) == FirstEol(s)
    ensures FirstEol(s) < |s| ==> FirstEol(s[..FirstEol(s) + 1]) == FirstEol(s)
  {
    if s != "" && !IsEol(s[0]) {
      EolIsLocal(s[1..]);
      var i := FirstEol(s);
      assert s[..i][1..] == s[1..][..i - 1];
      assert i < |s| ==> s[..i + 1][1..] == s[1..][..i];
    }
  }

  /** The text up to the end of its first line holds that line. */
  lemma CutPrefix(s: string)
    requires CutLine(s).Line?
    ensures var r := CutLine(s).rest;
            var p := s[..|s| - |r|];
            p + r == s && CutLine(p) == Line(CutLine(s).line, "") && SkipNewlines(p) != PROMPT
  {
    var t := SkipNewlines(s);
    var i := FirstEol(t);
    var n := |s| - |t|;
    var x, y, r := s[..n], t[..i + 1], t[i + 1..];
    SkipIsSuffix(s);
    CutBehind(x, y, t, i);
    SplitThree(s, n, i + 1);
  }

  /** A line and its end behind newlines. */
  lemma CutBehind(x: string, y: string, t: string, i: nat)
    requires SkipNewlines(x) == "" && i == FirstEol(t) < |t| && t != "" && !IsEol(t[0]) && y == t[..i + 1]
    ensures CutLine(x + y) == Line(t[..i], "") && SkipNewlines(x + y) != PROMPT
  {
    SkipStops(t, i + 1);
    SkipAppend(x, y);
    EolIsLocal(t);
    CutIs(x + y, y, i);
    assert y[..i] == t[..i];
    CutNotPrompt(x + y);
  }

  lemma SplitThree(s: string, n: nat, m: nat)
    requires n + m <= |s|
    ensures s[..n + m] == s[..n] + s[n..][..m] && s[..n + m] + s[n..][m..] == s
  {
  }

  lemma {:induction false} SkipStops(t: string, k: nat)
    requires t != "" && !IsEol(t[0]) && 0 < k <= |t|
    ensures SkipNewlines(t[..k]) == t[..k]
  {
  }

  lemma CutNotPrompt(s: string)
    requires CutLine(s).Line?
    ensures SkipNewlines(s) != PROMPT
  {
    assert FirstEol(PROMPT) == 2;
  }

  /** A run in which read() delivers the stream in two pieces, cut at `k`. */
  function TwoReads(s: string, k: nat): seq<string>
    requires k <= |s|
  {
    Extract(s[..k]).0 + Extract(Extract(s[..k]).1 + s[k..]).0
  }

  /** The cut right behind an unsafe prompt changes the lines. */
  lemma {:induction false} UnsafeSplits(s: string) returns (k: nat)
    requires !PromptSafe(s)
    ensures 0 < k <= |s| && TwoReads(s, k) != Lines(s)
    decreases |s|
  {
    if !FirstSafe(s) {
      k := CutBehindPrompt(s);
    } else {
      var Line(line, rest) := CutLine(s);
      var k' := UnsafeSplits(rest);
      k := |s| - |rest| + k';
      CutPrefix(s);
      var p := s[..|s| - |rest|];
      assert s[..k] == p + rest[..k'] && s[k..] == rest[k'..];
      ExtractFirst(p, rest[..k'], line);
      AppendAssoc(line, Extract(rest[..k']).0, Extract(Extract(rest[..k']).1 + rest[k'..]).0);
      assert TwoReads(s, k) == [line] + TwoReads(rest, k');
      assert TwoReads(s, k)[1..] == TwoReads(rest, k') && Lines(s)[1..] == Lines(rest);
    }
  }

  lemma ExtractFirst(p: string, q: string, line: string)
    requires CutLine(p) == Line(line, "") && SkipNewlines(p) != PROMPT
    ensures Extract(p + q) == ([line] + Extract(q).0, Extract(q).1)
  {
    CutAppend(p, q);
    assert "" + q == q;
    SkipAppend(p, q);
    CutNotPrompt(p + q);
  }

  lemma CutBehindPrompt(s: string) returns (k: nat)
    requires !FirstSafe(s)
    ensures 0 < k <= |s| && TwoReads(s, k) != Lines(s)
  {
    var t := SkipNewlines(s);
    var n := |s| - |t|;
    k := n + 2;
    SkipIsSuffix(s);
    assert s[..k] == s[..n] + PROMPT;
    SkipAppend(s[..n], PROMPT);
    assert SkipNewlines(PROMPT) == PROMPT;
    NothingLeft("");
    assert [PROMPT] + [] == [PROMPT];
    assert Extract(s[..k]) == ([PROMPT], "");
    assert TwoReads(s, k)[0] == PROMPT;
  }

  /** What read() can deliver: it returns 0 only at the end. */
  predicate IsDivision(chunks: seq<string>, s: string) {
    Concat(chunks) == s && forall c <- chunks :: c != ""
  }

  /** The lines of a stream are the same under every division by read() exactly when
      the stream is prompt-safe. */
  lemma ChunkingIrrelevantIff(s: string)
    ensures (forall chunks: seq<string> | IsDivision(chunks, s) :: RunLines("", chunks) == Lines(s)) <==> PromptSafe(s)
  {
    if PromptSafe(s) {
      forall chunks: seq<string> | IsDivision(chunks, s) ensures RunLines("", chunks) == Lines(s) {
        assert "" + Concat(chunks) == s;
        RunIsLines("", chunks);
      }
    } else {
      var chunks := UnsafeDivision(s);
      assert IsDivision(chunks, s);
    }
  }

  lemma UnsafeDivision(s: string) returns (chunks: seq<string>)
    requires !PromptSafe(s)
    ensures IsDivision(chunks, s) && RunLines("", chunks) != Lines(s)
  {
    var k := UnsafeSplits(s);
    if k < |s| {
      chunks := [s[..k], s[k..]];
      TwoChunks(s, k);
    } else {
      chunks := [s];
      OneChunk(s);
    }
  }

  lemma TwoChunks(s: string, k: nat)
    requires k < |s|
    ensures RunLines("", [s[..k], s[k..]]) == TwoReads(s, k)
    ensures Concat([s[..k], s[k..]]) == s
  {
    var chunks := [s[..k], s[k..]];
    NothingLeft("");
    assert chunks[1..] == [s[k..]] && chunks[1..][1..] == [];
    assert "" + s[..k] == s[..k];
    assert RunLines("", chunks) == [] + RunLines(s[..k], [s[k..]]);
    assert Concat(chunks[1..]) == s[k..] + "" == s[k..];
    assert s[..k] + s[k..] == s;
  }

  lemma OneChunk(s: string)
    ensures RunLines("", [s]) == TwoReads(s, |s|) && Concat([s]) == s
  {
    NothingLeft("");
    var left := Extract(s).1;
    ExtractLeaves(s);
    assert s[..|s|] == s && s[|s|..] == "" && left + "" == left;
    assert Extract(left) == ([], left);
    assert "" + s == s && Extract(s).0 + [] == Extract(s).0;
    assert [s][1..] == [];
    assert RunLines("", [s]) == [] + RunLines(s, []);
  }
}
