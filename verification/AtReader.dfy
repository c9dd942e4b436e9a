/**
 readline of the AT channel on its fixed buffer: the cursor, the partial line moved
 to the front, the two extra terminators behind every read, and the buffer thrown
 away when a line does not fit.
 */
module AtReader {
  import opened Bytes
  import opened AtDispatch
  import opened AtContext
  import opened AtLines
  import opened AtWindow

  const MAX_AT_RESPONSE: nat := 8 * 1024

  /** The stream behind the file descriptor; read() returns any nonempty part of what
      is left, and nothing at the end. */
  class Source {
    var data: string

    method Read(cap: nat) returns (chunk: string)
      requires 0 < cap
      modifies this
      ensures old(data) == chunk + data && |chunk| <= cap
      ensures chunk == "" <==> old(data) == ""
    {
      if data == "" {
        return "";
      }
      var n: nat :| 0 < n && n <= cap && n <= |data|;
      chunk, data := data[..n], data[n..];
    }
  }

  /** Where findNextEOL should point for clean text that begins at index `at`. */
  function EolOf(text: string, at: nat): Option<nat> {
    if text == PROMPT then Some(at + 2)
    else if FirstEol(text) < |text| then Some(at + FirstEol(text))
    else None
  }

  class LineReader {
    var buf: array<char>
    var cur: nat
    /** Where the bytes read so far end. */
    ghost var fill: nat

    /** The cursor is before a terminator. */
    ghost predicate Bounded()
      reads this, buf
    {
      && buf.Length == MAX_AT_RESPONSE + 1
      && cur <= fill <= MAX_AT_RESPONSE
      && buf[fill] == '\0'
    }

    /** Unread text is followed by both terminators. */
    ghost predicate Valid()
      reads this, buf
    {
      Bounded() && (cur < fill ==> fill < MAX_AT_RESPONSE && buf[fill + 1] == '\0')
    }

    ghost function Unread(): string
      requires Bounded()
      reads this, buf
    {
      buf[cur..fill]
    }

    constructor ()
      ensures Valid() && fresh(buf) && Unread() == ""
    {
      buf := new char[MAX_AT_RESPONSE + 1](_ => '\0');
      cur, fill := 0, 0;
    }

    method SkipOverNewlines()
      requires Valid()
      modifies this`cur
      ensures Valid() && Unread() == SkipNewlines(old(Unread()))
    {
      while buf[cur] == '\r' || buf[cur] == '\n'
        invariant cur <= fill && SkipNewlines(buf[cur..fill]) == SkipNewlines(old(Unread()))
        decreases fill - cur
      {
        assert buf[cur..fill][1..] == buf[cur + 1..fill];
        cur := cur + 1;
      }
    }

    /** findNextEOL at the cursor; None for NULL. */
    method FindNextEol() returns (eol: Option<nat>)
      requires Valid()
      ensures eol.Some? ==> cur <= eol.value <= fill && (eol.value == fill ==> cur < fill)
      ensures '\0' !in Unread() ==> eol == EolOf(Unread(), cur)
    {
      if buf[cur] == '>' && buf[cur + 1] == ' ' && buf[cur + 2] == '\0' {
        assert '\0' !in Unread() ==> Unread() == PROMPT by {
          if cur + 2 < fill {
            assert Unread()[2] == '\0';
          }
        }
        return Some(cur + 2);
      }
      var p := cur;
      while buf[p] != '\0' && buf[p] != '\r' && buf[p] != '\n'
        invariant cur <= p <= fill
        invariant FirstEol(Unread()) == p - cur + FirstEol(buf[p..fill])
        decreases fill - p
      {
        assert buf[p..fill][1..] == buf[p + 1..fill];
        p := p + 1;
      }
      if buf[p] == '\0' {
        assert '\0' !in Unread() ==> p == fill by {
          if p < fill {
            assert Unread()[p - cur] == '\0';
          }
        }
        return None;
      }
      assert buf[p..fill][0] == buf[p];
      return Some(p);
    }

    /** memmove of the partial line, with its terminator, to the front. */
    method MoveUp() returns (len: nat)
      requires Bounded()
      modifies this, buf
      ensures Bounded() && buf == old(buf) && cur == 0 && len == fill <= old(fill) - old(cur)
      ensures '\0' !in old(Unread()) ==> Unread() == old(Unread())
    {
      len := 0;
      while buf[cur + len] != '\0'
        invariant cur + len <= fill && '\0' !in buf[cur..cur + len]
        decreases fill - (cur + len)
      {
        len := len + 1;
      }
      assert '\0' !in Unread() ==> cur + len == fill by {
        if cur + len < fill {
          assert Unread()[len] == '\0';
        }
      }
      CopyDown(cur, len + 1);
      assert buf[..len + 1][len] == '\0';
      assert buf[..len + 1][..len] == buf[..len] == old(buf[cur..cur + len]);
      cur, fill := 0, len;
    }

    method CopyDown(from: nat, n: nat)
      requires from + n <= buf.Length
      modifies buf
      ensures buf[..n] == old(buf[from..from + n])
    {
      for k := 0 to n
        invariant buf[..k] == old(buf[from..from + k])
        invariant buf[from + k..] == old(buf[from + k..])
      {
        assert buf[from + k..][0] == old(buf[from + k..])[0];
        buf[k] := buf[from + k];
      }
    }

    /** What one read adds at p_read, with the two terminators behind it. */
    method Store(pRead: nat, chunk: string)
      requires Bounded() && pRead == fill && pRead + |chunk| + 1 <= MAX_AT_RESPONSE
      modifies this`fill, buf
      ensures Valid() && fill == pRead + |chunk| && Unread() == old(Unread()) + chunk
    {
      ghost var was := buf[..pRead];
      for k := 0 to |chunk|
        invariant buf[..pRead + k] == was + chunk[..k]
      {
        buf[pRead + k] := chunk[k];
      }
      buf[pRead + |chunk|] := '\0';
      buf[pRead + |chunk| + 1] := '\0';
      fill := pRead + |chunk|;
      assert buf[..fill] == was + chunk;
      assert buf[cur..fill] == buf[..fill][cur..];
    }

    /** What readline does before it reads: an empty buffer is reset, a complete line
        is found, a partial one is moved up. */
    method Prepare() returns (eol: Option<nat>, pRead: nat)
      requires Valid()
      modifies this, buf
      ensures buf == old(buf) && Bounded() && (eol.Some? ==> Valid())
      ensures eol.Some? ==> cur <= eol.value <= fill && (eol.value == fill ==> cur < fill)
      ensures eol.None? ==> cur == 0 && pRead == fill
      ensures |Unread()| <= |old(Unread())|
      ensures '\0' !in old(Unread()) ==>
                Unread() == SkipNewlines(old(Unread())) && '\0' !in Unread() && eol == EolOf(Unread(), cur)
    {
      if buf[cur] == '\0' {
        assert '\0' !in Unread() ==> cur == fill by {
          if cur < fill {
            assert Unread()[0] == '\0';
          }
        }
        cur, fill := 0, 0;
        buf[cur] := '\0';
        return None, 0;
      }
      SkipOverNewlines();
      SkipKeepsClean(old(Unread()));
      eol := FindNextEol();
      pRead := 0;
      if eol.None? {
        pRead := MoveUp();
      }
    }

    /** The bytes of one read go behind the text, and the line end is looked for again. */
    method Refill(pRead: nat, chunk: string, ghost text: string, ghost chunks: seq<string>) returns (eol: Option<nat>)
      requires Bounded() && pRead == fill && pRead + |chunk| + 1 <= MAX_AT_RESPONSE
      modifies this, buf
      ensures buf == old(buf) && Valid() && fill == pRead + |chunk| && cur >= old(cur)
      ensures eol.Some? ==> cur <= eol.value <= fill && (eol.value == fill ==> cur < fill)
      ensures old(Sees(text, chunks, Unread(), cur, None)) && '\0' !in chunk ==>
                Sees(text, chunks + [chunk], Unread(), cur, eol)
    {
      ghost var seen := Sees(text, chunks, Unread(), cur, None) && '\0' !in chunk;
      ghost var view := Unread();
      Store(pRead, chunk);
      SkipOverNewlines();
      if seen {
        SeesMore(text, chunks, chunk, view, cur);
      }
      eol := FindNextEol();
    }

    /** A terminator over the line end; the cursor goes behind it. */
    method TakeLine(eol: nat) returns (line: string)
      requires Valid() && cur <= eol <= fill && (eol == fill ==> cur < fill)
      modifies this, buf
      ensures buf == old(buf) && Valid()
      ensures line == old(Unread())[..eol - old(cur)]
      ensures Unread() == if eol == old(fill) then "" else old(Unread())[eol - old(cur) + 1..]
    {
      line := buf[cur..eol];
      assert eol < fill ==> Unread()[eol - cur + 1..] == buf[eol + 1..fill];
      buf[eol] := '\0';
      cur := eol + 1;
      if fill < cur {
        fill := cur;
      }
    }

    /** The state of one readline at the head of its loop: `text` was unread and
        `data` not yet read when it began, `chunks` are its reads so far. */
    ghost predicate Midway(src: Source, text: string, data: string, chunks: seq<string>, ditched: bool,
                           eol: Option<nat>, pRead: nat)
      reads this, buf, src
    {
      && Bounded() && data == Concat(chunks) + src.data && (forall c <- chunks :: c != "")
      && (eol.None? ==> pRead == fill)
      && (eol.Some? ==> Valid() && cur <= eol.value <= fill && (eol.value == fill ==> cur < fill))
      && (Clean(text, data) && !ditched ==> Sees(text, chunks, Unread(), cur, eol))
      && (Clean(text, data) && !ditched && eol.None? ==> fill == |SkipNewlines(text)| + |Concat(chunks)|)
      && (ditched ==> !(Clean(text, data) && Fits(text + data)))
      && fill - cur + |src.data| <= |text| + |data|
    }

    /** The buffer is thrown away when no room is left. */
    method DitchIfFull(src: Source, pRead: nat, ghost text: string, ghost data: string, ghost chunks: seq<string>,
                       ghost was: bool)
      returns (pRead': nat, ghost ditched: bool)
      requires Midway(src, text, data, chunks, was, None, pRead)
      modifies this, buf
      ensures buf == old(buf) && Midway(src, text, data, chunks, ditched, None, pRead')
      ensures pRead' + 2 < MAX_AT_RESPONSE
    {
      pRead', ditched := pRead, was;
      if 0 >= MAX_AT_RESPONSE - pRead - 2 {
        if Clean(text, data) && !was && Fits(text + data) {
          WindowFits(text, chunks, src.data, Unread(), cur);
        }
        cur, fill := 0, 0;
        buf[cur] := '\0';
        pRead', ditched := 0, true;
      }
    }

    /** One turn of the loop; at the end of the stream it reads nothing. */
    method Turn(src: Source, pRead: nat, ghost text: string, ghost data: string, ghost chunks: seq<string>,
                ghost was: bool)
      returns (eof: bool, eol: Option<nat>, pRead': nat, ghost chunks': seq<string>, ghost ditched: bool)
      requires Midway(src, text, data, chunks, was, None, pRead)
      modifies this, buf, src
      ensures buf == old(buf) && Midway(src, text, data, chunks', ditched, eol, pRead')
      ensures if eof then src.data == "" && chunks' == chunks && eol == None else |src.data| < |old(src.data)|
    {
      pRead', ditched := DitchIfFull(src, pRead, text, data, chunks, was);
      ghost var before := src.data;
      var chunk := src.Read(MAX_AT_RESPONSE - pRead' - 2);
      chunks' := chunks;
      if chunk == "" {
        return true, None, pRead', chunks', ditched;
      }
      ConcatSnoc(chunks, chunk);
      CleanPart(text, Concat(chunks), chunk, src.data);
      eof := false;
      eol := Refill(pRead', chunk, text, chunks);
      pRead' := pRead' + |chunk|;
      chunks' := chunks + [chunk];
    }

    /** readline; `chunks` are the reads it made, `ditched` tells whether it threw the
        buffer away.  The waiting and the error returns of poll() are left out. */
    method ReadLine(src: Source) returns (line: Option<string>, ghost chunks: seq<string>, ghost ditched: bool)
      requires Valid()
      modifies this, buf, src
      ensures buf == old(buf) && Bounded() && (line.Some? ==> Valid())
      ensures LineRead(old(Unread()), old(src.data), line, chunks, ditched, Unread(), src.data)
    {
      ghost var text, data := Unread(), src.data;
      chunks, ditched := [], false;
      var eol, pRead := Prepare();
      if Clean(text, data) {
        FirstView(text, cur);
      }
      while eol.None?
        invariant buf == old(buf) && Midway(src, text, data, chunks, ditched, eol, pRead)
        decreases |src.data|
      {
        var eof;
        eof, eol, pRead, chunks, ditched := Turn(src, pRead, text, data, chunks, ditched);
        if eof {
          return None, chunks, ditched;
        }
      }
      line := LastTurn(src, pRead, text, data, chunks, ditched, eol);
    }

    /** The loop has found a line end. */
    method LastTurn(src: Source, pRead: nat, ghost text: string, ghost data: string, ghost chunks: seq<string>,
                    ghost ditched: bool, eol: Option<nat>)
      returns (line: Option<string>)
      requires eol.Some? && Midway(src, text, data, chunks, ditched, eol, pRead)
      modifies this, buf
      ensures buf == old(buf) && Valid() && line.Some?
      ensures LineRead(text, data, line, chunks, ditched, Unread(), src.data)
    {
      if Clean(text, data) && !ditched {
        TakenAt(text, chunks, Unread(), cur, eol.value);
      }
      var l := TakeLine(eol.value);
      line := Some(l);
    }

    /** The reader's loop: readline until the stream ends, and for an SMS twice. */
    method ReadAll(src: Source)
        returns (ds: seq<Delivery>, ghost lines: seq<string>, ghost chunks: seq<string>, ghost ditched: bool)
      requires Valid() && Unread() == ""
      modifies this, buf, src
      ensures IsDivision(chunks, old(src.data)) && ds == Deliveries(lines)
      ensures '\0' !in old(src.data) && !ditched ==> lines == RunLines("", chunks)
      ensures '\0' !in old(src.data) && Fits(old(src.data)) ==> !ditched
      ensures '\0' !in old(src.data) && Fits(old(src.data)) && PromptSafe(old(src.data)) ==>
                lines == Lines(old(src.data))
    {
      ghost var data := src.data;
      ds, lines, chunks, ditched := [], [], [], false;
      OnCourseAtFirst(data);
      NothingSettled();
      while true
        invariant buf == old(buf) && Valid() && OnCourse(data, chunks, lines, Unread(), src.data, ditched)
        invariant Settled(lines, ds)
        decreases |Unread()| + |src.data|
      {
        var line;
        line, chunks, ditched := Round(src, data, chunks, lines, ditched);
        if line.None? {
          SettledEnd(lines, ds, []);
          assert lines + [] == lines;
          break;
        }
        var sms := StartsWithOneOf(line.value, SmsUnsoliciteds);
        if sms {
          var second;
          second, chunks, ditched := Round(src, data, chunks, lines + [line.value], ditched);
          if second.None? {
            SettledEnd(lines, ds, [line.value]);
            lines := lines + [line.value];
            break;
          }
          SettledSms(lines, ds, line.value, second.value);
          lines, ds := lines + [line.value] + [second.value], ds + [Sms(line.value, second.value)];
        } else {
          SettledLine(lines, ds, line.value);
          lines, ds := lines + [line.value], ds + [ToProcess(line.value)];
        }
      }
      if PromptSafe(data) {
        assert "" + Concat(chunks) == data;
        RunIsLines("", chunks);
      }
    }

    /** One readline of the loop. */
    method Round(src: Source, ghost data: string, ghost chunks: seq<string>, ghost lines: seq<string>,
                 ghost ditched: bool)
        returns (line: Option<string>, ghost chunks': seq<string>, ghost ditched': bool)
      requires Valid() && OnCourse(data, chunks, lines, Unread(), src.data, ditched)
      modifies this, buf, src
      ensures buf == old(buf) && Bounded()
      ensures line.Some? ==> Valid() && OnCourse(data, chunks', lines + [line.value], Unread(), src.data, ditched')
                             && |Unread()| + |src.data| < old(|Unread()| + |src.data|)
      ensures line.None? ==>
                && IsDivision(chunks', data) && ('\0' !in data && !ditched' ==> lines == RunLines("", chunks'))
                && ('\0' !in data && Fits(data) ==> !ditched')
    {
      ghost var text, left := Unread(), src.data;
      ghost var got, thrown;
      line, got, thrown := ReadLine(src);
      NextRound(data, chunks, lines, text, left, ditched, line, got, thrown, Unread(), src.data);
      chunks', ditched' := chunks + got, ditched || thrown;
      if line.None? {
        assert Concat(chunks') + "" == Concat(chunks');
      }
    }
  }

  /** What one readline does, from the text unread and the data to come before it to
      those after it. */
  ghost predicate LineRead(text: string, data: string, line: Option<string>, chunks: seq<string>, ditched: bool,
                           rest: string, left: string) {
    && data == Concat(chunks) + left && (forall c <- chunks :: c != "")
    && (if line.None? then left == "" else |rest| + |left| < |text| + |data|)
    && (Clean(text, data) && !ditched ==>
          if line.Some? then Yields(text, chunks, line.value, rest) && '\0' !in rest else Silent(text, chunks))
    && (Clean(text, data) && Fits(text + data) ==> !ditched)
  }

  /** The run so far, in the view of the reader's loop. */
  ghost predicate OnCourse(data: string, chunks: seq<string>, lines: seq<string>, unread: string, left: string,
                           ditched: bool) {
    && data == Concat(chunks) + left && (forall c <- chunks :: c != "")
    && ('\0' !in data && !ditched ==> '\0' !in unread && Continues(chunks, lines, unread))
    && ('\0' !in data && Fits(data) ==> !ditched && Fits(unread + left))
  }

  lemma OnCourseAtFirst(data: string)
    ensures OnCourse(data, [], [], "", data, false)
  {
    assert "" + data == data;
    forall more: seq<string> ensures RunLines("", [] + more) == [] + RunLines("", more) {
      assert [] + more == more;
    }
  }

  lemma NextRound(data: string, chunks: seq<string>, lines: seq<string>, text: string, left: string, ditched: bool,
                  line: Option<string>, got: seq<string>, thrown: bool, rest: string, left': string)
    requires OnCourse(data, chunks, lines, text, left, ditched)
    requires LineRead(text, left, line, got, thrown, rest, left')
    ensures data == Concat(chunks + got) + left' && forall c <- chunks + got :: c != ""
    ensures line.Some? ==> OnCourse(data, chunks + got, lines + [line.value], rest, left', ditched || thrown)
    ensures line.None? && '\0' !in data && !ditched && !thrown ==> lines == RunLines("", chunks + got)
    ensures '\0' !in data && Fits(data) ==> !ditched && !thrown
  {
    ConcatAppend(chunks, got);
    assert Concat(chunks) + (Concat(got) + left') == Concat(chunks + got) + left';
    if '\0' !in data && !ditched {
      assert Clean(text, left);
      if !thrown {
        if line.Some? {
          ContinuesStep(chunks, lines, text, got, line.value, rest);
          YieldsFit(text, got, line.value, rest, left');
        } else {
          ContinuesEnd(chunks, lines, text, got);
        }
      }
    }
  }

  /** The lines of the run so far, and how it goes on from the unread text. */
  ghost predicate Continues(chunks: seq<string>, lines: seq<string>, unread: string) {
    forall more: seq<string> {:trigger RunLines(unread, more)} ::
      RunLines("", chunks + more) == lines + RunLines(unread, more)
  }

  lemma ContinuesStep(chunks: seq<string>, lines: seq<string>, text: string, got: seq<string>, line: string,
                      rest: string)
    requires Continues(chunks, lines, text) && Yields(text, got, line, rest)
    ensures Continues(chunks + got, lines + [line], rest)
  {
    forall more: seq<string>
      ensures RunLines("", (chunks + got) + more) == (lines + [line]) + RunLines(rest, more)
    {
      RunAfterYield(text, got, line, rest, more);
      assert (chunks + got) + more == chunks + (got + more);
      assert RunLines("", chunks + (got + more)) == lines + RunLines(text, got + more);
    }
  }

  lemma ContinuesEnd(chunks: seq<string>, lines: seq<string>, text: string, got: seq<string>)
    requires Continues(chunks, lines, text) && Silent(text, got)
    ensures RunLines("", chunks + got) == lines
  {
    RunOfSilent(text, got);
    assert RunLines("", chunks + got) == lines + RunLines(text, got);
  }

  lemma {:induction false} YieldsNext(text: string, chunks: seq<string>, line: string, rest: string)
    requires Yields(text, chunks, line, rest)
    ensures NextLine(text + Concat(chunks)) == Line(line, rest)
    decreases chunks
  {
    if chunks == [] {
      assert text + Concat(chunks) == text;
    } else {
      ConcatHead(text, chunks);
      YieldsNext(text + chunks[0], chunks[1..], line, rest);
    }
  }

  lemma YieldsFit(text: string, chunks: seq<string>, line: string, rest: string, data: string)
    requires Yields(text, chunks, line, rest)
    ensures Fits(text + (Concat(chunks) + data)) ==> Fits(rest + data)
  {
    if Fits(text + (Concat(chunks) + data)) {
      var t := text + Concat(chunks);
      YieldsNext(text, chunks, line, rest);
      RestIsSuffix(t, data);
      Group(text, Concat(chunks), data);
      FitsSuffix(t + data, |t| - |rest|);
    }
  }

  lemma CleanPart(text: string, before: string, chunk: string, after: string)
    ensures Clean(text, before + (chunk + after)) ==> '\0' !in chunk
  {
  }

  /** Text without NUL bytes, buffered and still to come. */
  predicate Clean(text: string, data: string) {
    '\0' !in text && '\0' !in data
  }

  /** What the buffer shows after the reads `chunks`, none of which but the last brought a line. */
  ghost predicate Sees(text: string, chunks: seq<string>, view: string, at: nat, eol: Option<nat>) {
    && '\0' !in view
    && view == SkipNewlines(text + Concat(chunks))
    && eol == EolOf(view, at)
    && (eol.None? ==> Silent(text, chunks))
    && (eol.Some? ==> var t := NextLine(text + Concat(chunks)); t.Line? && Yields(text, chunks, t.line, t.rest))
  }

  lemma FirstView(text: string, at: nat)
    requires '\0' !in text
    ensures var view := SkipNewlines(text); Sees(text, [], view, at, EolOf(view, at))
  {
    assert text + Concat([]) == text;
    SkipKeepsClean(text);
  }

  lemma SeesMore(text: string, chunks: seq<string>, chunk: string, view: string, at: nat)
    requires '\0' !in view && '\0' !in chunk
    requires view == SkipNewlines(text + Concat(chunks)) && Silent(text, chunks)
    ensures var view' := SkipNewlines(view + chunk); Sees(text, chunks + [chunk], view', at, EolOf(view', at))
  {
    var acc := text + Concat(chunks);
    var view', chunks' := SkipNewlines(view + chunk), chunks + [chunk];
    ConcatSnoc(chunks, chunk);
    Group(text, Concat(chunks), chunk);
    SkipNext(acc, chunk);
    SkipKeepsClean(view + chunk);
    SilentSnoc(text, chunks, chunk);
    SeesAll(text, chunks', acc + chunk, view', at);
  }

  lemma SeesAll(text: string, chunks: seq<string>, all: string, view: string, at: nat)
    requires all == text + Concat(chunks) && view == SkipNewlines(all) && '\0' !in view
    requires match NextLine(all)
             case NoLine => Silent(text, chunks)
             case Line(line, rest) => Yields(text, chunks, line, rest)
    ensures Sees(text, chunks, view, at, EolOf(view, at))
  {
    EolOrLine(all, at);
  }

  /** findNextEOL finds an end exactly when there is a line to take. */
  lemma EolOrLine(t: string, at: nat)
    ensures EolOf(SkipNewlines(t), at).Some? <==> NextLine(t).Line?
  {
  }

  /** The line and the rest that the cursor and the line end delimit are those taken. */
  lemma TakenAt(text: string, chunks: seq<string>, view: string, at: nat, eol: nat)
    requires Sees(text, chunks, view, at, Some(eol))
    ensures at <= eol <= at + |view|
    ensures Yields(text, chunks, view[..eol - at], if eol == at + |view| then "" else view[eol - at + 1..])
  {
    assert PROMPT[..2] == PROMPT;
  }

  lemma WindowFits(text: string, chunks: seq<string>, data: string, view: string, at: nat)
    requires Sees(text, chunks, view, at, None) && Fits(text + (Concat(chunks) + data))
    ensures |SkipNewlines(text)| + |Concat(chunks)| <= LIMIT
  {
    var c := Concat(chunks);
    SkipFits(text, c + data);
    SkipNext(text, c);
    assert SkipNewlines(text) + (c + data) == (SkipNewlines(text) + c) + data;
    FitsWindow(SkipNewlines(text) + c, data);
  }

  lemma {:induction false} SkipKeepsClean(text: string)
    ensures '\0' !in text ==> '\0' !in SkipNewlines(text)
  {
    if text != "" && IsEol(text[0]) {
      SkipKeepsClean(text[1..]);
    }
  }
}