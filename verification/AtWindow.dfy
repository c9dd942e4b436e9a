/**
 Facts about the text one call of readline has in view: reads that bring no line,
 and streams whose lines fit the buffer.
 */
module AtWindow {
  import opened AtLines

  /** None of the reads `chunks` completes a line behind `text`. */
  predicate Silent(text: string, chunks: seq<string>)
    decreases chunks
  {
    NextLine(text).NoLine? && (chunks == [] || Silent(text + chunks[0], chunks[1..]))
  }

  /** One readline: `line` comes with the last of the reads `chunks`, or without any. */
  predicate Yields(text: string, chunks: seq<string>, line: string, rest: string)
    decreases chunks
  {
    if chunks == [] then NextLine(text) == Line(line, rest)
    else NextLine(text).NoLine? && Yields(text + chunks[0], chunks[1..], line, rest)
  }

  lemma {:induction false} ConcatAppend(a: seq<string>, b: seq<string>)
    ensures Concat(a + b) == Concat(a) + Concat(b)
  {
    if a == [] {
      assert a + b == b;
    } else {
      assert (a + b)[1..] == a[1..] + b;
      ConcatAppend(a[1..], b);
    }
  }

  lemma ConcatSnoc(a: seq<string>, c: string)
    ensures Concat(a + [c]) == Concat(a) + c
  {
    ConcatAppend(a, [c]);
    assert Concat([c]) == c + "" == c by { assert [c][1..] == []; }
  }

  lemma {:induction false} SilentSnoc(text: string, chunks: seq<string>, c: string)
    requires Silent(text, chunks)
    ensures var t := text + Concat(chunks) + c;
            && (NextLine(t).NoLine? ==> Silent(text, chunks + [c]))
            && (NextLine(t).Line? ==> Yields(text, chunks + [c], NextLine(t).line, NextLine(t).rest))
    decreases chunks
  {
    if chunks == [] {
      assert text + Concat(chunks) == text;
      assert (chunks + [c])[1..] == [];
    } else {
      assert (chunks + [c])[1..] == chunks[1..] + [c];
      ConcatHead(text, chunks);
      SilentSnoc(text + chunks[0], chunks[1..], c);
    }
  }

  /** A run goes on after the line that one readline took. */
  lemma {:induction false} RunAfterYield(text: string, chunks: seq<string>, line: string, rest: string,
                                         more: seq<string>)
    requires Yields(text, chunks, line, rest)
    ensures RunLines(text, chunks + more) == [line] + RunLines(rest, more)
    decreases chunks
  {
    if chunks == [] {
      assert chunks + more == more;
      ExtractLine(text, line, rest, more);
    } else {
      assert (chunks + more)[1..] == chunks[1..] + more;
      RunAfterYield(text + chunks[0], chunks[1..], line, rest, more);
      NoneExtracted(text);
    }
  }

  lemma NoneExtracted(text: string)
    requires NextLine(text).NoLine?
    ensures Extract(text) == ([], text)
  {
  }

  lemma ExtractLine(text: string, line: string, rest: string, more: seq<string>)
    requires NextLine(text) == Line(line, rest)
    ensures RunLines(text, more) == [line] + RunLines(rest, more)
  {
    assert Extract(text) == ([line] + Extract(rest).0, Extract(rest).1);
    if more != [] {
      AppendAssoc(line, Extract(rest).0, RunLines(Extract(rest).1 + more[0], more[1..]));
    }
  }

  lemma {:induction false} RunOfSilent(text: string, chunks: seq<string>)
    requires Silent(text, chunks)
    ensures RunLines(text, chunks) == []
    decreases chunks
  {
    NoneExtracted(text);
    if chunks != [] {
      RunOfSilent(text + chunks[0], chunks[1..]);
    }
  }

  // ----- streams whose lines fit -----

  /** The most that may be in the buffer before another read, less one. */
  const LIMIT: nat := 8 * 1024 - 3

  /** No stretch of the stream that completes no line is longer than the buffer takes:
      every line, together with the newlines in front of it, fits. */
  ghost predicate Fits(s: string) {
    forall i, j :: 0 <= i <= j <= |s| && CutLine(s[i..j]).NoLine? ==> j - i <= LIMIT
  }

  lemma FitsSuffix(s: string, n: nat)
    requires Fits(s) && n <= |s|
    ensures Fits(s[n..])
  {
    var t := s[n..];
    forall i, j | 0 <= i <= j <= |t| && CutLine(t[i..j]).NoLine? ensures j - i <= LIMIT {
      assert t[i..j] == s[n + i..n + j];
    }
  }

  lemma FitsWindow(a: string, b: string)
    requires Fits(a + b) && CutLine(a).NoLine?
    ensures |a| <= LIMIT
  {
    assert (a + b)[0..|a|] == a;
  }

  /** What is left behind a line is a suffix. */
  lemma RestIsSuffix(t: string, b: string)
    requires NextLine(t).Line?
    ensures var r := NextLine(t).rest; |r| <= |t| && r + b == (t + b)[|t| - |r|..]
  {
    if SkipNewlines(t) != PROMPT {
      CutPrefix(t);
    }
  }

  lemma SkipFits(text: string, b: string)
    requires Fits(text + b)
    ensures Fits(SkipNewlines(text) + b)
  {
    SkipIsSuffix(text);
    SuffixFits(text, b, SkipNewlines(text));
  }

  lemma SuffixFits(text: string, b: string, t: string)
    requires Fits(text + b) && |t| <= |text| && text[|text| - |t|..] == t
    ensures Fits(t + b)
  {
    var n := |text| - |t|;
    assert (text + b)[n..] == t + b;
    FitsSuffix(text + b, n);
  }

  /** Skipped newlines do not matter to what more text brings. */
  lemma SkipNext(text: string, more: string)
    ensures NextLine(SkipNewlines(text) + more) == NextLine(text + more)
    ensures SkipNewlines(SkipNewlines(text) + more) == SkipNewlines(text + more)
  {
    SkipAppend(text, more);
    SkipAppend(SkipNewlines(text), more);
    SkipIsSuffix(text);
    SkipTwice(text);
  }

  lemma {:induction false} SkipTwice(text: string)
    ensures SkipNewlines(SkipNewlines(text)) == SkipNewlines(text)
  {
    if text != "" && IsEol(text[0]) {
      SkipTwice(text[1..]);
    }
  }
}
