/** DtsFindBSStartCode, DtsGetNaluType and DtsParseAVC as loops over the input buffer. */
module NalParser {
  import opened Bytes
  import opened NalScan

  /** `zeros` zero bytes and a one at `at`. */
  method FindBSStartCode(buf: array<Byte>, at: nat, zeros: nat) returns (found: bool)
    requires at + zeros < buf.Length
    ensures found <==> (forall i :: at <= i < at + zeros ==> buf[i] == 0) && buf[at + zeros] == 1
  {
    found := true;
    var i := 0;
    while i < zeros
      invariant i <= zeros && (found <==> forall k :: at <= k < at + i ==> buf[k] == 0)
    {
      if buf[at + i] != 0 {
        found := false;
      }
      i := i + 1;
    }
    if buf[at + i] != 1 {
      found := false;
    }
  }

  /** Pos behind the first byte that is not zero; the byte behind the buffer is looked at
      when all others are. */
  method SkipZeros(buf: array<Byte>, off: nat, size: nat) returns (pos: nat)
    requires off + size < buf.Length
    ensures pos == FirstNonZero(buf[off..off + size], 0) + 1
  {
    ghost var s := buf[off..off + size];
    pos := 0;
    while pos <= size
      invariant pos <= size + 1 && forall k :: 0 <= k < pos && k < size ==> s[k] == 0
      decreases size + 1 - pos
    {
      pos := pos + 1;
      if buf[off + pos - 1] != 0 {
        FirstIsAt(s, pos - 1);
        return;
      }
    }
    FirstIsAt(s, size);
  }

  lemma FirstIsAt(s: seq<Byte>, k: nat)
    requires k <= |s| && (k < |s| ==> s[k] != 0) && forall i :: 0 <= i < k ==> s[i] == 0
    ensures FirstNonZero(s, 0) == k
  {
    ZerosInFront(s, 0);
  }

  /** The next start code behind `from`: which form, and where it ends. */
  method NextStartCode(buf: array<Byte>, off: nat, size: nat, from: nat) returns (three: bool, two: bool, pos: nat)
    requires off + size < buf.Length && 3 <= from <= size && buf[off + from - 1] == 1
    ensures var s := buf[off..off + size];
            match NextCode(s, from + 1)
            case None => !three && !two && pos == size
            case Some(e) => pos == e && (three <==> s[e - 4] == 0) && (three || two)
  {
    ghost var s := buf[off..off + size];
    three, two, pos := false, false, from;
    while !(three || two) && pos < size
      invariant from <= pos <= size
      invariant if three || two
                then pos > from && HasCode(s, pos) && (three <==> s[pos - 4] == 0)
                     && (forall k :: from < k < pos ==> !HasCode(s, k))
                else forall k :: from < k <= pos ==> !HasCode(s, k)
    {
      pos := pos + 1;
      three := FindBSStartCode(buf, off + pos - 4, 3);
      if !three {
        two := FindBSStartCode(buf, off + pos - 3, 2);
      }
      CodeForms(buf, off, size, pos);
    }
    CodeIs(s, from + 1, pos, three || two);
  }

  /** The two forms in terms of the buffer's bytes. */
  lemma CodeForms(buf: array<Byte>, off: nat, size: nat, pos: nat)
    requires off + size < buf.Length && 4 <= pos <= size
    ensures var s := buf[off..off + size];
            && (HasCode(s, pos) <==>
                 (forall i :: off + pos - 3 <= i < off + pos - 3 + 2 ==> buf[i] == 0) && buf[off + pos - 3 + 2] == 1)
            && (HasCode(s, pos) && s[pos - 4] == 0 <==>
                 (forall i :: off + pos - 4 <= i < off + pos - 4 + 3 ==> buf[i] == 0) && buf[off + pos - 4 + 3] == 1)
  {
    var s := buf[off..off + size];
    assert forall i :: pos - 4 <= i < pos ==> s[i] == buf[off + i];
  }

  lemma CodeIs(s: seq<Byte>, e: nat, pos: nat, found: bool)
    requires e <= pos + 1 && if found then e <= pos && HasCode(s, pos) && forall k :: e <= k < pos ==> !HasCode(s, k)
                             else pos >= |s| && forall k :: e <= k <= pos ==> !HasCode(s, k)
    ensures NextCode(s, e) == if found then Some(pos) else None
  {
    NoCodeBefore(s, e);
  }

  method TrailingZeros(buf: array<Byte>, off: nat, size: nat, end: nat) returns (n: nat)
    requires off + size < buf.Length && end <= size && exists k :: off <= k < off + end && buf[k] != 0
    ensures n == ZerosBefore(buf[off..off + size], end)
  {
    ghost var s := buf[off..off + size];
    n := 0;
    ghost var one :| off <= one < off + end && buf[one] != 0;
    while buf[off + end - 1 - n] == 0
      invariant n < end && off + end - n > one
      invariant forall i :: end - n <= i < end ==> s[i] == 0
      decreases end - n
    {
      n := n + 1;
    }
    assert s[end - n - 1] != 0;
    ZerosBeforeAre(s, end);
  }

  /** The unit behind the start code that ends at `pos`, up to the next one. */
  method MeasureUnit(buf: array<Byte>, off: nat, size: nat, pos: nat) returns (ret: int, nalu: Nalu)
    requires off + size < buf.Length && 3 <= pos <= size && buf[off + pos - 1] == 1
    requires FirstNonZero(buf[off..off + size], 0) == pos - 1
    ensures ret >= 0 && GetNalu(buf[off..off + size], buf[off + size], true) == Found(ret, nalu)
  {
    ghost var s := buf[off..off + size];
    var prefix, lead := 3, 0;
    if pos != 3 {
      prefix, lead := 4, pos - 4;
    }
    var three, two, e := NextStartCode(buf, off, size, pos);
    var trail, rewind: int := 0, 0;
    if three {
      BeforeCode(s, pos, e);
      assert buf[off + pos - 1] != 0;
      trail := TrailingZeros(buf, off, size, e - 4);
    }
    if three {
      rewind := -4;
    } else if two {
      rewind := -3;
    }
    KindAt(buf, off, size, lead + prefix);
    nalu := Nalu(e + rewind - prefix - lead - trail, buf[off + lead + prefix] % 32, prefix);
    ret := e + rewind;
  }

  lemma KindAt(buf: array<Byte>, off: nat, size: nat, i: nat)
    requires off + size < buf.Length && i <= size
    ensures buf[off + i] == At(buf[off..off + size], buf[off + size], i)
  {
  }

  lemma BeforeCode(s: seq<Byte>, pos: nat, e: nat)
    requires 3 <= pos < e && HasCode(s, e) && s[e - 4] == 0 && s[pos - 1] == 1
    ensures pos <= e - 4
  {
  }

  class Scanner {
    /** m_bIsFirstByteStreamNALU */
    var isFirst: bool

    constructor ()
      ensures isFirst
    {
      isFirst := true;
    }

    /** DtsGetNaluType on the `size` bytes `s` from `off` on.  `beyond` behind them is
        looked at, and when that ends a start code, the byte behind it, too: then the
        value returned is one more than the size. */
    method GetNaluType(buf: array<Byte>, off: nat, size: nat, ghost s: seq<Byte>, ghost beyond: Byte, ghost g: Scan)
        returns (ret: int, nalu: Nalu)
      requires off + size < buf.Length && s == buf[off..off + size] && beyond == buf[off + size]
      requires g == GetNalu(s, beyond, isFirst)
      requires LeavesBuffer(s, beyond, isFirst) ==> off + size + 1 < buf.Length
      modifies this
      ensures g == Overrun <==> LeavesBuffer(s, beyond, old(isFirst))
      ensures g == Overrun ==> ret == size + 1 && nalu.len == 0 && nalu.unitType == buf[off + size + 1] % 32 && !isFirst
      ensures g == Bad ==> ret == -1 && isFirst == old(isFirst)
      ensures g.Found? ==> ret == g.ret && nalu == g.nalu && !isFirst
    {
      OverrunIff(s, beyond, isFirst);
      nalu := Nalu(0, 0, 0);
      var pos := SkipZeros(buf, off, size);
      assert At(s, beyond, pos - 1) == buf[off + pos - 1];
      if buf[off + pos - 1] != 1 || pos < 3 || (!isFirst && pos > 4) {
        return -1, nalu;
      }
      isFirst := false;
      if pos > size {
        var prefix, lead := if pos == 3 then 3 else 4, if pos == 3 then 0 else pos - 4;
        return pos, Nalu(pos - prefix - lead, buf[off + lead + prefix] % 32, prefix);
      }
      ret, nalu := MeasureUnit(buf, off, size, pos);
    }

    /** DtsParseAVC on a buffer that it does not leave.  `rest` is what has not been
        passed, and the parse comes to the same from there. */
    method ParseAVC(buf: array<Byte>, size: nat, idrOnly: bool, ghost s: seq<Byte>, ghost beyond: Byte)
        returns (ok: bool, offset: nat, nalType: int)
      requires size < buf.Length && s == buf[0..size] && beyond == buf[size]
      requires !LeavesBuffer(s, beyond, isFirst)
      modifies this
      ensures ParseFrom(s, beyond, old(isFirst), idrOnly, 0) != Outside
      ensures var p := ParseFrom(s, beyond, old(isFirst), idrOnly, 0);
              && (p == Failed ==> !ok && nalType == -1)
              && (p.UnitEnd? ==> ok && offset == p.offset && nalType == p.unitType)
    {
      var pos := 0;
      ghost var p := ParseFrom(s, beyond, isFirst, idrOnly, 0);
      OutsideIff(s, beyond, isFirst, idrOnly, 0);
      ghost var rest, first := s, isFirst;
      while true
        invariant pos <= size && rest == buf[pos..size] && first == isFirst && p != Outside
        invariant p == ParseFrom(rest, beyond, first, idrOnly, pos)
        decreases size - pos
      {
        ghost var g, more, next := ParseTurn(rest, beyond, first, idrOnly, pos, p);
        OverrunIff(rest, beyond, first);
        var ret, nalu := GetNaluType(buf, pos, size - pos, rest, beyond, g);
        if ret <= 0 {
          return false, 0, -1;
        }
        Tail(buf[..], pos, size, ret);
        pos := pos + ret;
        assert pos == next;
        rest, first := more, false;
        var kind := nalu.unitType;
        if kind == 1 || kind == 5 || (!idrOnly && (kind == 6 || kind == 7 || kind == 8)) {
          return true, pos, nalu.unitType;
        }
      }
    }
  }

  lemma Tail(s: seq<Byte>, i: nat, j: nat, n: nat)
    requires i + n <= j <= |s|
    ensures s[i..j][n..] == s[i + n..j]
  {
  }

  /** One turn of the loop: what is found, what is left, and what the parse comes to. */
  lemma ParseTurn(s: seq<Byte>, beyond: Byte, first: bool, idrOnly: bool, pos: nat, p: Parse)
      returns (g: Scan, more: seq<Byte>, next: nat)
    requires p == ParseFrom(s, beyond, first, idrOnly, pos)
    ensures g == GetNalu(s, beyond, first)
    ensures (g == Bad ==> p == Failed) && (g == Overrun ==> p == Outside)
    ensures g.Found? ==> 0 < g.ret <= |s| && more == s[g.ret..] && next == pos + g.ret
                         && p == if Wanted(g.nalu.unitType, idrOnly) then UnitEnd(next, g.nalu.unitType)
                                 else ParseFrom(more, beyond, false, idrOnly, next)
  {
    g := GetNalu(s, beyond, first);
    more, next := [], pos;
    if g.Found? {
      GetNaluAdvances(s, beyond, first);
      more, next := s[g.ret..], pos + g.ret;
    }
  }
}
