/** utf8_to_gsm7 and utf8_from_gsm7: ASCII text as packed septets and back. */
module GsmText {
  import opened Bytes
  import opened HexBits
  import opened GsmBits
  import opened GsmSeptets
  import opened GsmAlphabet
  import opened Utf8

  predicate IsAscii(t: seq<Byte>) {
    forall i :: 0 <= i < |t| ==> t[i] < 128
  }

  function SeptetBits(s: seq<Septet>): (b: Bits)
    ensures |b| == 7 * |s|
  {
    if s == [] then [] else Low(s[0], 7) + SeptetBits(s[1..])
  }

  lemma ValueFits(b: Bits)
    requires |b| == 7
    ensures Value(b) < 128
  {
    ValueBelow(b);
    assert Pow2(7) == 128;
  }

  lemma {:induction false} ValueBelow(b: Bits)
    ensures Value(b) < Pow2(|b|)
  {
    if b != [] {
      ValueBelow(b[1..]);
    }
  }

  function SeptetAt(b: Bits, at: nat): Septet
    requires at + 7 <= |b|
  {
    ValueFits(b[at..at + 7]);
    Value(b[at..at + 7])
  }

  function SeptetsAt(b: Bits, at: nat, n: nat): (s: seq<Septet>)
    requires at + 7 * n <= |b|
    ensures |s| == n
    decreases n
  {
    if n == 0 then [] else [SeptetAt(b, at)] + SeptetsAt(b, at + 7, n - 1)
  }

  /** `now` is `was` with the septets `s` from bit `offset` on and zeros up to the end of
      the last byte; the bits below and the bytes above are as they were. */
  ghost predicate Packed(was: seq<Byte>, now: seq<Byte>, offset: nat, s: seq<Septet>) {
    var end := (offset + 7 * |s| + 7) / 8;
    && |now| == |was| && end <= |was| && now[end..] == was[end..]
    && BitsOfBytes(now[..end]) == BitsOfBytes(was)[..offset] + (SeptetBits(s) + Zeros(8 * end - offset - 7 * |s|))
  }

  // ----- utf8_to_gsm7 -----

  /** What utf8_to_gsm7_count adds up: one or two septets a character, one for a space. */
  method CountSeptets(utf8: seq<Byte>) returns (result: nat)
    requires IsAscii(utf8)
    ensures result == |Septets(utf8)|
  {
    result := 0;
    for i := 0 to |utf8|
      invariant result == |Septets(utf8[..i])|
    {
      assert utf8[..i + 1] == utf8[..i] + [utf8[i]];
      SeptetsSnoc(utf8[..i], utf8[i]);
      var len := 1;
      var nn := UnicharToGsm7(utf8[i]);
      if nn < 0 {
        nn := UnicharToGsm7Extend(utf8[i]);
        len := if nn >= 0 then 2 else 1;
      }
      result := result + len;
    }
    assert utf8[..|utf8|] == utf8;
  }

  /** The septets of one character. */
  method AddChar(writer: BWriter, c: Byte)
    requires writer.Valid() && (writer.offset + 7 * |CharSeptets(c)| + 7) / 8 <= writer.buf.Length
    modifies writer, writer.buf
    ensures writer.Valid() && writer.offset == old(writer.offset) + 7 * |CharSeptets(c)|
    ensures writer.Written() == old(writer.Written()) + SeptetBits(CharSeptets(c))
    ensures writer.buf[writer.at..] == old(writer.buf[..])[writer.at..]
  {
    SmallBits(CharSeptets(c));
    var nn := UnicharToGsm7(c);
    if nn >= 0 {
      writer.Add7(nn);
      return;
    }
    nn := UnicharToGsm7Extend(c);
    if nn >= 0 {
      AddEscaped(writer, nn);
      return;
    }
    writer.Add7(0x20);
  }

  method AddEscaped(writer: BWriter, nn: Septet)
    requires writer.Valid() && (writer.offset + 21) / 8 <= writer.buf.Length
    modifies writer, writer.buf
    ensures writer.Valid() && writer.offset == old(writer.offset) + 14
    ensures writer.Written() == old(writer.Written()) + (Low(ESCAPE, 7) + Low(nn, 7))
    ensures writer.buf[writer.at..] == old(writer.buf[..])[writer.at..]
  {
    ghost var w := writer.Written();
    writer.Add7(ESCAPE);
    writer.Add7(nn);
    Group(w, Low(ESCAPE, 7), Low(nn, 7));
  }

  lemma SmallBits(s: seq<Septet>)
    ensures |s| == 1 ==> SeptetBits(s) == Low(s[0], 7)
    ensures |s| == 2 ==> SeptetBits(s) == Low(s[0], 7) + Low(s[1], 7)
  {
    if |s| == 1 {
      assert s[1..] == [];
    } else if |s| == 2 {
      assert s[1..][1..] == [] && SeptetBits(s[1..]) == Low(s[1], 7) + [];
    }
  }

  /** Without a destination the number of septets; with one, the bit behind the last. */
  method Utf8ToGsm7(utf8: seq<Byte>, dst: array?<Byte>, offset: nat) returns (n: nat)
    requires IsAscii(utf8)
    requires dst != null ==> (offset + 7 * |Septets(utf8)| + 7) / 8 <= dst.Length
    modifies if dst == null then {} else {dst}
    ensures n == if dst == null then |Septets(utf8)| else offset + 7 * |Septets(utf8)|
    ensures dst != null ==> Packed(old(dst[..]), dst[..], offset, Septets(utf8))
  {
    if dst == null {
      n := CountSeptets(utf8);
      return;
    }
    ghost var was := dst[..];
    var writer := new BWriter(dst, offset);
    AddChars(writer, utf8);
    ghost var s := Septets(utf8);
    n := writer.Done();
    IsPacked(was, dst[..], offset, s, writer.at);
  }

  lemma IsPacked(was: seq<Byte>, now: seq<Byte>, offset: nat, s: seq<Septet>, end: nat)
    requires end == (offset + 7 * |s| + 7) / 8 <= |now| == |was|
    requires BitsOfBytes(now[..end]) == (BitsOfBytes(was)[..offset] + SeptetBits(s)) + Zeros(8 * end - offset - 7 * |s|)
    requires now[end..] == was[end..]
    ensures Packed(was, now, offset, s)
  {
    Group(BitsOfBytes(was)[..offset], SeptetBits(s), Zeros(8 * end - offset - 7 * |s|));
  }

  method AddChars(writer: BWriter, utf8: seq<Byte>)
    requires IsAscii(utf8) && writer.Valid() && (writer.offset + 7 * |Septets(utf8)| + 7) / 8 <= writer.buf.Length
    modifies writer, writer.buf
    ensures writer.Valid() && writer.offset == old(writer.offset) + 7 * |Septets(utf8)|
    ensures writer.Written() == old(writer.Written()) + SeptetBits(Septets(utf8))
    ensures writer.at <= writer.buf.Length && writer.buf[writer.at..] == old(writer.buf[..])[writer.at..]
  {
    ghost var w := writer.Written();
    assert w + SeptetBits(Septets(utf8[..0])) == w;
    for i := 0 to |utf8|
      invariant writer.Valid() && writer.offset == old(writer.offset) + 7 * |Septets(utf8[..i])|
      invariant writer.Written() == w + SeptetBits(Septets(utf8[..i]))
      invariant writer.buf[writer.at..] == old(writer.buf[..])[writer.at..]
    {
      NextChar(w, utf8, i);
      AddChar(writer, utf8[i]);
    }
    assert utf8[..|utf8|] == utf8;
  }

  lemma NextChar(w: Bits, t: seq<Byte>, i: nat)
    requires i < |t|
    ensures |Septets(t[..i + 1])| == |Septets(t[..i])| + |CharSeptets(t[i])| <= |Septets(t)|
    ensures w + SeptetBits(Septets(t[..i + 1])) == (w + SeptetBits(Septets(t[..i]))) + SeptetBits(CharSeptets(t[i]))
  {
    SeptetsMore(t, i);
    SeptetBitsAppend(Septets(t[..i]), CharSeptets(t[i]));
    Group(w, SeptetBits(Septets(t[..i])), SeptetBits(CharSeptets(t[i])));
    PrefixSeptets(t, i + 1);
  }

  lemma {:induction false} PrefixSeptets(t: seq<Byte>, i: nat)
    requires i <= |t|
    ensures |Septets(t[..i])| <= |Septets(t)|
    decreases |t| - i
  {
    if i < |t| {
      PrefixSeptets(t, i + 1);
      SeptetsMore(t, i);
    } else {
      assert t[..i] == t;
    }
  }

  lemma SeptetsMore(t: seq<Byte>, i: nat)
    requires i < |t|
    ensures Septets(t[..i + 1]) == Septets(t[..i]) + CharSeptets(t[i])
  {
    assert t[..i + 1] == t[..i] + [t[i]];
    SeptetsSnoc(t[..i], t[i]);
  }

  lemma {:induction false} SeptetBitsAppend(s: seq<Septet>, r: seq<Septet>)
    ensures SeptetBits(s + r) == SeptetBits(s) + SeptetBits(r)
  {
    if s == [] {
      assert s + r == r;
    } else {
      assert (s + r)[1..] == s[1..] + r;
      SeptetBitsAppend(s[1..], r);
      Group(Low(s[0], 7), SeptetBits(s[1..]), SeptetBits(r));
    }
  }

  // ----- utf8_from_gsm7 -----

  /** What utf8_from_gsm7 writes for the septets at bit `at`. */
  function TextAt(b: Bits, at: nat, n: nat): seq<Byte>
    requires at + 7 * n <= |b|
  {
    EncodedAll(Chars(SeptetsAt(b, at, n), false))
  }

  method Utf8FromGsm7(src: array<Byte>, septetOffset: nat, septetCount: nat, utf8: array?<Byte>) returns (result: nat)
    requires septetOffset + 7 * septetCount <= 8 * src.Length && utf8 != src
    requires utf8 != null ==> |TextAt(BitsOfBytes(src[..]), septetOffset, septetCount)| <= utf8.Length
    modifies if utf8 == null then {} else {utf8}
    ensures result == |TextAt(BitsOfBytes(src[..]), septetOffset, septetCount)|
    ensures utf8 != null ==> utf8[..result] == TextAt(BitsOfBytes(src[..]), septetOffset, septetCount)
                             && utf8[result..] == old(utf8[..])[result..]
  {
    ghost var b, was := BitsOfBytes(src[..]), if utf8 == null then [] else utf8[..];
    ghost var s := SeptetsAt(b, septetOffset, septetCount);
    result := ReadText(src, septetOffset, septetCount, utf8, b, s, Chars(s, false), was);
  }

  /** The loop; `b` are the bits of the source, `s` its septets, `all` their characters. */
  method ReadText(src: array<Byte>, septetOffset: nat, septetCount: nat, utf8: array?<Byte>,
                  ghost b: Bits, ghost s: seq<Septet>, ghost all: seq<nat>, ghost was: seq<Byte>) returns (result: nat)
    requires b == BitsOfBytes(src[..]) && septetOffset + 7 * septetCount <= |b| && utf8 != src
    requires s == SeptetsAt(b, septetOffset, septetCount) && all == Chars(s, false)
    requires utf8 != null ==> |EncodedAll(all)| <= utf8.Length && was == utf8[..]
    modifies if utf8 == null then {} else {utf8}
    ensures Holds(utf8, result, all, was)
  {
    var shift: nat, at: nat, escaped := septetOffset % 8, septetOffset / 8, false;
    result := 0;
    ghost var p: nat, rest, out: seq<nat> := septetOffset, s, [];
    for left := septetCount downto 0
      invariant shift < 8 && p == 8 * at + shift && p + 7 * left <= |b| && rest == SeptetsAt(b, p, left)
      invariant all == out + Chars(rest, escaped)
      invariant Holds(utf8, result, out, was)
    {
      var c := ReadSeptet(src, at, shift);
      NextSeptet(b, p, left + 1, c, rest);
      escaped, result, out := TakeSeptet(utf8, result, c, escaped, all, out, rest, was);
      p, rest := p + 7, rest[1..];
      shift, at := NextShift(shift, at);
    }
    assert out + [] == out;
  }

  lemma NextSeptet(b: Bits, p: nat, n: nat, c: Septet, rest: seq<Septet>)
    requires 0 < n && p + 7 * n <= |b| && c == SeptetAt(b, p) && rest == SeptetsAt(b, p, n)
    ensures rest[0] == c && rest[1..] == SeptetsAt(b, p + 7, n - 1)
  {
  }

  method NextShift(shift: nat, at: nat) returns (shift': nat, at': nat)
    requires shift < 8
    ensures shift' < 8 && 8 * at' + shift' == 8 * at + shift + 7
  {
    shift', at' := shift + 7, at;
    if shift' >= 8 {
      shift', at' := shift' - 8, at + 1;
    }
  }

  /** The escape is remembered; any other septet is looked up and written. */
  method TakeSeptet(utf8: array?<Byte>, at: nat, c: Septet, escaped: bool,
                    ghost all: seq<nat>, ghost out: seq<nat>, ghost s: seq<Septet>, ghost was: seq<Byte>)
      returns (escaped': bool, result: nat, ghost out': seq<nat>)
    requires Holds(utf8, at, out, was) && s != [] && s[0] == c && all == out + Chars(s, escaped)
    requires utf8 != null ==> |EncodedAll(all)| <= utf8.Length
    modifies if utf8 == null then {} else {utf8}
    ensures Holds(utf8, result, out', was) && all == out' + Chars(s[1..], escaped')
  {
    if !escaped && c == ESCAPE {
      return true, at, out;
    }
    var v := if escaped then Extended(c) else Basic(c);
    result := PutChar(utf8, at, v, all, out, Chars(s[1..], escaped), was);
    return escaped, result, out + [v];
  }

  method PutChar(utf8: array?<Byte>, at: nat, v: nat, ghost all: seq<nat>, ghost out: seq<nat>, ghost rest: seq<nat>,
                 ghost was: seq<Byte>)
      returns (result: nat)
    requires Holds(utf8, at, out, was) && all == out + ([v] + rest)
    requires utf8 != null ==> |EncodedAll(all)| <= utf8.Length
    modifies if utf8 == null then {} else {utf8}
    ensures Holds(utf8, result, out + [v], was) && all == (out + [v]) + rest
  {
    Taken(all, out, v, rest);
    result := Append(utf8, at, v, out, was);
  }

  lemma Taken(all: seq<nat>, out: seq<nat>, v: nat, rest: seq<nat>)
    requires all == out + ([v] + rest)
    ensures all == (out + [v]) + rest
    ensures |EncodedAll(out)| + |Encoded(v)| <= |EncodedAll(all)|
  {
    Group(out, [v], rest);
    EncodedSnoc(out, v);
    EncodedAppend(out + [v], rest);
  }

  lemma {:induction false} EncodedAppend(s: seq<nat>, r: seq<nat>)
    ensures EncodedAll(s + r) == EncodedAll(s) + EncodedAll(r)
  {
    if s == [] {
      assert s + r == r;
    } else {
      assert (s + r)[1..] == s[1..] + r;
      EncodedAppend(s[1..], r);
    }
  }

  // ----- round trips -----

  /** The septets read are the septets packed, from any bit offset. */
  lemma {:induction false} SeptetsBack(a: Bits, s: seq<Septet>, rest: Bits)
    ensures SeptetsAt(a + (SeptetBits(s) + rest), |a|, |s|) == s
    decreases |s|
  {
    if s != [] {
      var x, y := Low(s[0], 7), SeptetBits(s[1..]);
      Regroup(a, x, y, rest);
      assert (a + (x + (y + rest)))[|a|..|a| + 7] == x;
      ValueLow(s[0], 7);
      assert Pow2(7) == 128;
      SeptetsBack(a + x, s[1..], rest);
    }
  }

  lemma PackedBack(was: seq<Byte>, now: seq<Byte>, offset: nat, s: seq<Septet>)
    requires Packed(was, now, offset, s)
    ensures SeptetsAt(BitsOfBytes(now), offset, |s|) == s
    ensures BitsOfBytes(now)[..offset] == BitsOfBytes(was)[..offset]
  {
    var end := (offset + 7 * |s| + 7) / 8;
    PrefixBits(now, end);
    BitsBack(BitsOfBytes(now), 8 * end, BitsOfBytes(was)[..offset], s, Zeros(8 * end - offset - 7 * |s|));
  }

  lemma BitsBack(b: Bits, end: nat, a: Bits, s: seq<Septet>, z: Bits)
    requires end <= |b| && b[..end] == a + (SeptetBits(s) + z)
    ensures |a| + 7 * |s| <= |b| && b[..|a|] == a && SeptetsAt(b, |a|, |s|) == s
  {
    var f, high := SeptetBits(s), b[end..];
    Pieces(b, end, a, f, z);
    SeptetsBack(a, s, z + high);
  }

  lemma Pieces(b: Bits, end: nat, a: Bits, f: Bits, z: Bits)
    requires end <= |b| && b[..end] == a + (f + z)
    ensures |a| + |f| <= |b| && b[..|a|] == a && b == a + (f + (z + b[end..]))
  {
    var high := b[end..];
    assert b == b[..end] + high;
    Group(a, f + z, high);
    Group(f, z, high);
    assert b[..end][..|a|] == b[..|a|];
  }

  /** Text packed by utf8_to_gsm7 is read back by utf8_from_gsm7 exactly when it is sendable. */
  lemma PackedTextIff(was: seq<Byte>, now: seq<Byte>, offset: nat, t: seq<Byte>)
    requires IsAscii(t) && Packed(was, now, offset, Septets(t))
    ensures TextAt(BitsOfBytes(now), offset, |Septets(t)|) == t <==> Sendable(t)
  {
    PackedBack(was, now, offset, Septets(t));
    TextBackIff(BitsOfBytes(now), offset, t);
  }

  lemma TextBackIff(b: Bits, at: nat, t: seq<Byte>)
    requires IsAscii(t) && at + 7 * |Septets(t)| <= |b| && SeptetsAt(b, at, |Septets(t)|) == Septets(t)
    ensures TextAt(b, at, |Septets(t)|) == t <==> Sendable(t)
  {
    var c := Chars(Septets(t), false);
    TextRoundTripIff(t);
    AsciiEncoded(t);
    if EncodedAll(c) == t {
      CharsSmall(Septets(t), false);
      EncodeDecode(c);
      EncodeDecode(t);
    }
  }

  lemma {:induction false} AsciiEncoded(t: seq<Byte>)
    requires IsAscii(t)
    ensures EncodedAll(t) == t
  {
    if t != [] {
      AsciiEncoded(t[1..]);
      assert t == [t[0]] + t[1..];
    }
  }

  lemma {:induction false} CharsSmall(s: seq<Septet>, escaped: bool)
    ensures forall i :: 0 <= i < |Chars(s, escaped)| ==> Chars(s, escaped)[i] < 0x10000
    decreases s
  {
    if s != [] {
      CharsSmall(s[1..], true);
      CharsSmall(s[1..], false);
      BasicSmall(s[0]);
    }
  }

  lemma BasicSmall(nn: Septet)
    ensures Basic(nn) < 0x10000 && Extended(nn) < 0x10000
  {
  }
}
