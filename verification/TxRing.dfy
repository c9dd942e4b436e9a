/**
 The transmit ring as the object one thread sees: txBufInit, txBufPush, txBufPop
 and txBufFlush called one after another on an array that wraps.
 */
module TxRing {
  import opened Bytes
  import opened TxRingSteps

  datatype Status = Success | InvArg | InsuffRes

  class TxBuffer {
    var buffer: array<Byte>
    var readPointer: nat
    var writePointer: nat
    var freeSize: nat
    var busySize: nat

    ghost predicate Valid()
      reads this
    {
      && readPointer < buffer.Length && writePointer < buffer.Length
      && freeSize + busySize == buffer.Length
      && writePointer == Wrap(readPointer + busySize, buffer.Length)
    }

    /** The bytes waiting to be popped, oldest first. */
    ghost function Contents(): seq<Byte>
      reads this, buffer
      requires Valid()
    {
      Drain(buffer[..], readPointer, busySize)
    }

    constructor Init(sizeInit: nat)
      requires 0 < sizeInit
      ensures Valid() && fresh(buffer) && buffer.Length == sizeInit
      ensures Contents() == [] && freeSize == sizeInit
    {
      buffer := new Byte[sizeInit];
      readPointer, writePointer := 0, 0;
      freeSize, busySize := sizeInit, 0;
    }

    method Push(bufToPush: array<Byte>) returns (sts: Status)
      requires Valid() && bufToPush != buffer
      modifies this, buffer
      ensures Valid() && buffer == old(buffer)
      ensures sts == if bufToPush.Length <= old(freeSize) then Success else InsuffRes
      ensures Contents() == if sts.Success? then old(Contents()) + bufToPush[..] else old(Contents())
    {
      var sizeToPush := bufToPush.Length;
      if freeSize < sizeToPush {
        return InsuffRes;
      }
      var sizeTop := buffer.Length - writePointer;
      var mcpySz := Min(sizeToPush, sizeTop);
      ModOfAtMost(writePointer + mcpySz, buffer.Length);
      PushSegment(bufToPush, 0, mcpySz, (writePointer + mcpySz) % buffer.Length);
      if sizeToPush - mcpySz != 0 {
        var rest := sizeToPush - mcpySz;
        PushSegment(bufToPush, mcpySz, rest, rest);
      }
      assert bufToPush[..] == bufToPush[..mcpySz] + bufToPush[mcpySz..];
      return Success;
    }

    /** memcpy below the top, the new write pointer, then the counters. */
    method PushSegment(src: array<Byte>, off: nat, len: nat, next: nat)
      requires Valid() && src != buffer && off + len <= src.Length
      requires len <= freeSize && writePointer + len <= buffer.Length
      requires next == Wrap(writePointer + len, buffer.Length)
      modifies this, buffer
      ensures Valid() && buffer == old(buffer)
      ensures Contents() == old(Contents()) + src[off..off + len]
      ensures writePointer == next && readPointer == old(readPointer) && freeSize == old(freeSize) - len
    {
      AppendSegment(buffer[..], readPointer, busySize, src[off..off + len]);
      CopyIn(src, off, len, writePointer);
      writePointer := next;
      busySize := busySize + len;
      freeSize := freeSize - len;
    }

    method CopyIn(src: array<Byte>, off: nat, len: nat, at: nat)
      requires src != buffer && off + len <= src.Length && at + len <= buffer.Length
      modifies buffer
      ensures buffer[..] == old(buffer[..at]) + src[off..off + len] + old(buffer[at + len..])
    {
      for k := 0 to len
        invariant buffer[..] == old(buffer[..at]) + src[off..off + k] + old(buffer[at + k..])
      {
        buffer[at + k] := src[off + k];
      }
    }

    method Pop(bufToPop: array<Byte>, sizeToPop: nat) returns (sts: Status)
      requires Valid() && bufToPop != buffer && sizeToPop <= bufToPop.Length
      modifies this, bufToPop
      ensures Valid() && buffer == old(buffer)
      ensures sts == if sizeToPop <= old(busySize) then Success else InvArg
      ensures old(Contents()) == if sts.Success? then bufToPop[..sizeToPop] + Contents() else Contents()
      ensures bufToPop[..]
              == if sts.Success? then Overlaid(old(bufToPop[..]), 0, bufToPop[..sizeToPop]) else old(bufToPop[..])
    {
      if sizeToPop > busySize {
        return InvArg;
      }
      ghost var was := bufToPop[..];
      var sizeTop := buffer.Length - readPointer;
      var popSz := Min(sizeToPop, sizeTop);
      ModOfAtMost(readPointer + popSz, buffer.Length);
      ghost var taken := PopSegment(bufToPop, 0, popSz, (readPointer + popSz) % buffer.Length);
      if sizeToPop - popSz != 0 {
        var rest := sizeToPop - popSz;
        ghost var more := PopSegment(bufToPop, popSz, rest, rest);
        TwoOverlaid(was, taken, more);
        Group(taken, more, Contents());
        taken := taken + more;
      }
      OverlaidPrefix(was, taken);
      assert bufToPop[..sizeToPop] == bufToPop[..][..sizeToPop] == taken;
      return Success;
    }

    /** memcpy from below the top, the new read pointer, then the counters; `taken` is
        what went out. */
    method PopSegment(dst: array<Byte>, off: nat, len: nat, next: nat) returns (ghost taken: seq<Byte>)
      requires Valid() && dst != buffer && off + len <= dst.Length
      requires len <= busySize && readPointer + len <= buffer.Length
      requires next == Wrap(readPointer + len, buffer.Length)
      modifies this, dst
      ensures Valid() && buffer == old(buffer)
      ensures |taken| == len && dst[..] == Overlaid(old(dst[..]), off, taken)
      ensures taken + Contents() == old(Contents())
      ensures readPointer == next && busySize == old(busySize) - len
    {
      ghost var b := buffer[..];
      taken := b[readPointer..readPointer + len];
      RemoveSegment(b, readPointer, busySize, len, readPointer + len);
      CopyOut(dst, off, len, readPointer);
      assert buffer[..] == b;
      readPointer := next;
      busySize := busySize - len;
      freeSize := freeSize + len;
    }

    method CopyOut(dst: array<Byte>, off: nat, len: nat, at: nat)
      requires dst != buffer && off + len <= dst.Length && at + len <= buffer.Length
      modifies dst
      ensures dst[..] == Overlaid(old(dst[..]), off, buffer[at..at + len])
    {
      ghost var was, b := dst[..], buffer[..];
      for k := 0 to len
        invariant buffer[..] == b && dst[..] == Overlaid(was, off, b[at..at + k])
      {
        OverlaidMore(was, off, b, at, at + k, off + k);
        dst[off + k] := buffer[at + k];
      }
      assert b[at..at + len] == buffer[at..at + len];
    }

    method Flush()
      requires Valid()
      modifies this
      ensures Valid() && buffer == old(buffer)
      ensures Contents() == [] && freeSize == buffer.Length
    {
      readPointer, writePointer := 0, 0;
      freeSize := buffer.Length;
      busySize := 0;
    }
  }

  /** `s` with `t` in place of what stood at `off`. */
  function Overlaid(s: seq<Byte>, off: nat, t: seq<Byte>): (r: seq<Byte>)
    requires off + |t| <= |s|
    ensures |r| == |s|
  {
    s[..off] + t + s[off + |t|..]
  }

  lemma OverlaidMore(s: seq<Byte>, off: nat, b: seq<Byte>, at: nat, end: nat, i: nat)
    requires at <= end < |b| && i == off + (end - at) < |s|
    ensures Overlaid(s, off, b[at..end])[i := b[end]] == Overlaid(s, off, b[at..end + 1])
  {
  }

  lemma TwoOverlaid(s: seq<Byte>, t: seq<Byte>, u: seq<Byte>)
    requires |t| + |u| <= |s|
    ensures Overlaid(Overlaid(s, 0, t), |t|, u) == Overlaid(s, 0, t + u)
  {
  }

  lemma OverlaidPrefix(s: seq<Byte>, t: seq<Byte>)
    requires |t| <= |s|
    ensures Overlaid(s, 0, t)[..|t|] == t
  {
  }

  function Wrap(i: nat, total: nat): nat
    requires i <= 2 * total
  {
    if i < total then i else i - total
  }

  /** A segment stored at the write position is appended to the contents. */
  lemma AppendSegment(buf: seq<Byte>, rp: nat, busy: nat, src: seq<Byte>)
    requires rp < |buf| && busy + |src| <= |buf| && Wrap(rp + busy, |buf|) + |src| <= |buf|
    ensures var wp := Wrap(rp + busy, |buf|);
            Drain(buf[..wp] + src + buf[wp + |src|..], rp, busy + |src|) == Drain(buf, rp, busy) + src
  {
    var wp := Wrap(rp + busy, |buf|);
    var b := buf[..wp] + src + buf[wp + |src|..];
    Spliced(buf, wp, src, b);
    if rp + busy < |buf| {
      AppendBelow(buf, b, rp, busy, src);
    } else {
      AppendAbove(buf, b, rp, busy, src);
    }
  }

  lemma AppendBelow(buf: seq<Byte>, b: seq<Byte>, rp: nat, busy: nat, src: seq<Byte>)
    requires |b| == |buf| && rp + busy + |src| <= |buf|
    requires b[..rp + busy] == buf[..rp + busy] && b[rp + busy..rp + busy + |src|] == src
    ensures Drain(b, rp, busy + |src|) == Drain(buf, rp, busy) + src
  {
    Adjacent(b, rp, rp + busy, rp + busy + |src|);
    SamePiece(b, buf, rp, rp + busy);
  }

  lemma AppendAbove(buf: seq<Byte>, b: seq<Byte>, rp: nat, busy: nat, src: seq<Byte>)
    requires |b| == |buf| && rp < |buf| <= rp + busy && busy + |src| <= |buf|
    requires var wp := rp + busy - |buf|;
             b[..wp] == buf[..wp] && b[wp..wp + |src|] == src && b[wp + |src|..] == buf[wp + |src|..]
    ensures Drain(b, rp, busy + |src|) == Drain(buf, rp, busy) + src
  {
    var wp := rp + busy - |buf|;
    Stretched(b, wp, src);
    SameEnd(b, buf, rp, wp + |src|);
    DrainOver(buf, rp, busy, wp);
    DrainOver(b, rp, busy + |src|, wp + |src|);
    Group(buf[rp..], buf[..wp], src);
  }

  lemma Stretched(b: seq<Byte>, wp: nat, src: seq<Byte>)
    requires wp + |src| <= |b| && b[wp..wp + |src|] == src
    ensures b[..wp + |src|] == b[..wp] + src
  {
    Adjacent(b, 0, wp, wp + |src|);
  }

  /** The contents when they reach the top. */
  lemma DrainOver(buf: seq<Byte>, rp: nat, n: nat, over: nat)
    requires rp <= |buf| <= rp + n && n <= |buf| && over == rp + n - |buf|
    ensures Drain(buf, rp, n) == buf[rp..] + buf[..over]
  {
  }

  lemma Spliced(buf: seq<Byte>, wp: nat, src: seq<Byte>, b: seq<Byte>)
    requires wp + |src| <= |buf| && b == buf[..wp] + src + buf[wp + |src|..]
    ensures |b| == |buf| && b[..wp] == buf[..wp] && b[wp..wp + |src|] == src && b[wp + |src|..] == buf[wp + |src|..]
  {
  }

  lemma SamePiece(b: seq<Byte>, c: seq<Byte>, i: nat, j: nat)
    requires i <= j <= |b| == |c| && b[..j] == c[..j]
    ensures b[i..j] == c[i..j]
  {
    assert b[..j][i..] == c[..j][i..];
  }

  lemma SameEnd(b: seq<Byte>, c: seq<Byte>, i: nat, j: nat)
    requires j <= i <= |b| == |c| && b[j..] == c[j..]
    ensures b[i..] == c[i..]
  {
    assert b[j..][i - j..] == c[j..][i - j..];
  }

  /** A segment at the read position is the head of the contents. */
  lemma RemoveSegment(buf: seq<Byte>, rp: nat, busy: nat, n: nat, next: nat)
    requires rp < |buf| && n <= busy <= |buf| && next == rp + n <= |buf|
    ensures Drain(buf, rp, busy) == buf[rp..next] + Drain(buf, Wrap(next, |buf|), busy - n)
  {
    if rp + busy <= |buf| {
      RemoveBelow(buf, rp, busy, next, busy - n, rp + busy);
    } else {
      RemoveOver(buf, rp, busy, next, busy - n, rp + busy - |buf|);
    }
  }

  lemma RemoveBelow(buf: seq<Byte>, rp: nat, busy: nat, next: nat, left: nat, end: nat)
    requires rp <= next <= |buf| && end == rp + busy == next + left <= |buf|
    ensures Drain(buf, rp, busy) == buf[rp..next] + Drain(buf, Wrap(next, |buf|), left)
  {
    Adjacent(buf, rp, next, end);
  }

  lemma RemoveOver(buf: seq<Byte>, rp: nat, busy: nat, next: nat, left: nat, over: nat)
    requires rp <= next <= |buf| && left <= busy <= |buf| && over == rp + busy - |buf| == next + left - |buf| > 0
    ensures Drain(buf, rp, busy) == buf[rp..next] + Drain(buf, Wrap(next, |buf|), left)
  {
    DrainOver(buf, rp, busy, over);
    Adjacent(buf, rp, next, |buf|);
    if next < |buf| {
      DrainOver(buf, next, left, over);
      Group(buf[rp..next], buf[next..], buf[..over]);
    }
  }
}
