/**
 GSM 7-bit packing at any bit offset (section 6.1.2.1 of 3GPP TS 23.038): bwriter_init,
 bwriter_add7, bwriter_done, and the reading of one septet in utf8_from_gsm7.
 */
module GsmSeptets {
  import opened Bytes
  import opened HexBits
  import opened GsmBits

  // ----- writing -----

  class BWriter {
    const buf: array<Byte>
    /** Where dst points. */
    var at: nat
    var pad: nat
    var bits: nat
    var offset: nat

    ghost predicate Valid()
      reads this
    {
      bits < 8 && pad < Pow2(bits) && at <= buf.Length && offset == 8 * at + bits
    }

    /** The bits written, together with those that stood before the start. */
    ghost function Written(): (b: Bits)
      requires Valid()
      reads this, buf
    {
      BitsOfBytes(buf[..at]) + Low(pad, bits)
    }

    /** bwriter_init: the bits of the first byte below the start are kept. */
    constructor (dst: array<Byte>, start: nat)
      requires (start + 7) / 8 <= dst.Length
      ensures Valid() && buf == dst && offset == start
      ensures Written() == BitsOfBytes(dst[..])[..start]
    {
      var shift := start % 8;
      buf, at := dst, start / 8;
      pad := if shift > 0 then dst[start / 8] % Pow2(shift) else 0;
      bits, offset := shift, start;
      new;
      assert Pow2(0) == 1;
      PrefixBits(buf[..], at);
      assert buf[..][..at] == buf[..at];
      if shift > 0 {
        ByteBits(buf[..], at);
        FirstBits(buf[at], shift);
        assert BitsOfBytes(buf[..])[..start]
               == BitsOfBytes(buf[..])[..8 * at] + BitsOfBytes(buf[..])[8 * at..8 * at + 8][..shift];
      }
    }

    method Add7(value: nat)
      requires Valid() && value < 128 && (offset + 7) / 8 <= buf.Length
      modifies this, buf
      ensures Valid() && offset == old(offset) + 7
      ensures Written() == old(Written()) + Low(value, 7)
      ensures buf[at..] == old(buf[..])[at..]
    {
      ghost var w := Written();
      AddSeptet(BitsOfBytes(buf[..at]), pad, value, bits, w);
      pad := BitOr(pad, value * Pow2(bits));
      bits := bits + 7;
      if bits >= 8 {
        Flush(w + Low(value, 7));
      }
      offset := offset + 7;
    }

    /** The lowest byte of the pad goes to the buffer. */
    method Flush(ghost w: Bits)
      requires 8 <= bits < 16 && pad < Pow2(bits) && at < buf.Length
      requires w == BitsOfBytes(buf[..at]) + Low(pad, bits)
      modifies this`at, this`pad, this`bits, buf
      ensures at == old(at) + 1 && bits == old(bits) - 8 && pad < Pow2(bits)
      ensures w == BitsOfBytes(buf[..at]) + Low(pad, bits)
      ensures buf[at..] == old(buf[..])[at..]
    {
      TakeByte(buf[..at], pad, bits);
      buf[at] := pad % 256;
      bits := bits - 8;
      pad := pad / 256;
      at := at + 1;
      assert buf[..at] == old(buf[..at]) + [buf[at - 1]];
    }

    /** bwriter_done: what is left goes out, filled up with zeros. */
    method Done() returns (n: nat)
      requires Valid() && (offset + 7) / 8 <= buf.Length
      modifies this, buf
      ensures n == offset == old(offset) && at == (offset + 7) / 8
      ensures BitsOfBytes(buf[..at]) == old(Written()) + Zeros(8 * at - offset)
      ensures buf[at..] == old(buf[..])[at..]
    {
      ghost var w := Written();
      if bits > 0 {
        LastByte(buf[..at], pad, bits);
        buf[at] := pad % 256;
        pad, bits := 0, 0;
        at := at + 1;
        assert buf[..at] == old(buf[..at]) + [buf[at - 1]];
      }
      return offset;
    }
  }

  /** Keeping the bits below `shift` of a byte. */
  lemma FirstBits(x: Byte, shift: nat)
    requires shift < 8
    ensures x % Pow2(shift) < Pow2(shift)
    ensures Low(x % Pow2(shift), shift) == Low(x, 8)[..shift]
  {
    DivMod(x, Pow2(shift));
    LowModulo(x % Pow2(shift), x / Pow2(shift), shift);
  }

  lemma AddSeptet(b: Bits, pad: nat, value: nat, bits: nat, w: Bits)
    requires pad < Pow2(bits) && value < 128 && w == b + Low(pad, bits)
    ensures 0 <= BitOr(pad, value * Pow2(bits)) < Pow2(bits + 7)
    ensures b + Low(BitOr(pad, value * Pow2(bits)), bits + 7) == w + Low(value, 7)
  {
    Group(b, Low(pad, bits), Low(value, 7));
    OrApart(pad, value, bits);
    LowJoin(pad, value, bits, 7);
    Pow2Sum(7, bits);
    SumBelow(pad, value, Pow2(bits), 128);
  }

  lemma SumBelow(x: nat, v: nat, p: nat, q: nat)
    requires x < p && v < q
    ensures x + v * p < q * p
  {
    assert v * p <= (q - 1) * p;
  }

  lemma TakeByte(s: seq<Byte>, pad: nat, bits: nat)
    requires bits >= 8 && pad < Pow2(bits)
    ensures pad / 256 < Pow2(bits - 8)
    ensures BitsOfBytes(s + [pad % 256]) + Low(pad / 256, bits - 8) == BitsOfBytes(s) + Low(pad, bits)
  {
    assert Pow2(8) == 256;
    SnocBits(s, pad % 256);
    LowByte(pad);
    LowSplit(pad, 8, bits - 8);
    Pow2Sum(8, bits - 8);
    assert pad < 256 * Pow2(bits - 8);
    Group(BitsOfBytes(s), Low(pad, 8), Low(pad / 256, bits - 8));
  }

  lemma LastByte(s: seq<Byte>, pad: nat, bits: nat)
    requires 0 < bits < 8 && pad < Pow2(bits)
    ensures pad < 256 && pad % 256 == pad
    ensures BitsOfBytes(s + [pad]) == (BitsOfBytes(s) + Low(pad, bits)) + Zeros(8 - bits)
  {
    Below256(bits);
    SnocBits(s, pad);
    LowJoin(pad, 0, bits, 8 - bits);
    ZeroBits(8 - bits);
    Group(BitsOfBytes(s), Low(pad, bits), Zeros(8 - bits));
  }

  lemma Below256(bits: nat)
    requires bits <= 8
    ensures Pow2(bits) <= 256
  {
    assert Pow2(8) == 256;
    Pow2Sum(8 - bits, bits);
  }

  lemma ZeroBits(n: nat)
    ensures Low(0, n) == Zeros(n)
  {
    forall i | 0 <= i < n ensures !ValueBit(0, i) {
      assert 0 / Pow2(i) == 0;
    }
  }

  // ----- reading -----

  /** One septet: the byte at `at` from bit `shift` on, and the next byte only where the
      septet reaches it. */
  method ReadSeptet(src: array<Byte>, at: nat, shift: nat) returns (c: nat)
    requires shift < 8 && 8 * at + shift + 7 <= 8 * src.Length
    ensures c == Value(BitsOfBytes(src[..])[8 * at + shift..8 * at + shift + 7]) < 128
  {
    c := src[at] / Pow2(shift) % 128;
    if shift > 1 {
      c := BitOr(src[at + 1] * Pow2(8 - shift), c) % 128;
      SeptetOfTwo(src[at], src[at + 1], shift);
      InTwoBytes(src[..], at, shift);
    } else {
      SeptetOfOne(src[at], shift);
      InOneByte(src[..], at, shift);
    }
  }

  lemma InOneByte(s: seq<Byte>, at: nat, shift: nat)
    requires at < |s| && shift <= 1
    ensures BitsOfBytes(s)[8 * at + shift..8 * at + shift + 7] == Low(s[at], 8)[shift..shift + 7]
  {
    var b, i, f := BitsOfBytes(s), 8 * at, Low(s[at], 8);
    ByteBits(s, at);
    assert b[i..i + |f|] == f;
    SubBits(b, i, f, shift);
  }

  lemma InTwoBytes(s: seq<Byte>, at: nat, shift: nat)
    requires at + 1 < |s| && shift < 8
    ensures BitsOfBytes(s)[8 * at + shift..8 * at + shift + 7] == (Low(s[at], 8) + Low(s[at + 1], 8))[shift..shift + 7]
  {
    ByteBits(s, at);
    ByteBits(s, at + 1);
    var b, i := BitsOfBytes(s), 8 * at;
    SideBySide(b, i, Low(s[at], 8), Low(s[at + 1], 8));
    SubBits(b, i, Low(s[at], 8) + Low(s[at + 1], 8), shift);
  }

  lemma SideBySide(b: Bits, i: nat, x: Bits, y: Bits)
    requires i + |x| + |y| <= |b| && b[i..i + |x|] == x && b[i + |x|..i + |x| + |y|] == y
    ensures b[i..i + |x + y|] == x + y
  {
  }

  lemma SubBits(b: Bits, i: nat, f: Bits, shift: nat)
    requires i + |f| <= |b| && b[i..i + |f|] == f && shift + 7 <= |f|
    ensures b[i + shift..i + shift + 7] == f[shift..shift + 7]
  {
    assert forall k :: 0 <= k < |f| ==> b[i + k] == f[k];
  }

  lemma LowSlice(val: int, n: nat, shift: nat)
    requires shift + 7 <= n
    ensures Value(Low(val, n)[shift..shift + 7]) == val / Pow2(shift) % 128
  {
    forall i | 0 <= i < 7 ensures Low(val, n)[shift..shift + 7][i] == Low(val / Pow2(shift), 7)[i] {
      ShiftedBit(val, i, shift);
    }
    assert Low(val, n)[shift..shift + 7] == Low(val / Pow2(shift), 7);
    ValueLow(val / Pow2(shift), 7);
    assert Pow2(7) == 128;
  }

  lemma SeptetOfOne(x: Byte, shift: nat)
    requires shift <= 1
    ensures Value(Low(x, 8)[shift..shift + 7]) == x / Pow2(shift) % 128
  {
    LowSlice(x, 8, shift);
  }

  lemma SeptetOfTwo(x: Byte, y: Byte, shift: nat)
    requires 1 < shift < 8
    ensures Value((Low(x, 8) + Low(y, 8))[shift..shift + 7]) == BitOr(y * Pow2(8 - shift), x / Pow2(shift) % 128) % 128
  {
    var q, z := x / Pow2(shift), y * Pow2(8 - shift);
    assert Pow2(8) == 256;
    LowJoin(x, y, 8, 8);
    LowSlice(x + y * 256, 16, shift);
    QuotientOfTwo(x, y, shift);
    OrOfTwo(q, y, 8 - shift, z);
  }

  lemma OrOfTwo(q: nat, y: nat, n: nat, z: nat)
    requires q < Pow2(n) && z == y * Pow2(n)
    ensures BitOr(z, q) == q + z
  {
    OrApart(q, y, n);
    OrCommutes(q, z);
  }

  lemma QuotientOfTwo(x: Byte, y: Byte, shift: nat)
    requires 1 < shift < 8
    ensures (x + y * 256) / Pow2(shift) == x / Pow2(shift) + y * Pow2(8 - shift)
    ensures x / Pow2(shift) < Pow2(8 - shift) && x / Pow2(shift) % 128 == x / Pow2(shift)
  {
    var p, q := Pow2(shift), Pow2(8 - shift);
    assert Pow2(8) == 256;
    Pow2Sum(shift, 8 - shift);
    Times(y, p, q);
    QuotientSum(x, y * q, p);
    DivMod(x, p);
    LessFactor(x / p, q, p);
    DivAtMost(x, p);
  }

  lemma DivAtMost(x: Byte, p: nat)
    requires p >= 2
    ensures x / p < 128
  {
    DivMod(x, p);
    LessFactor(x / p, 128, p);
  }

  lemma DivMod(x: int, p: nat)
    requires p > 0
    ensures x == x / p * p + x % p && 0 <= x % p < p
  {
  }

  lemma LessFactor(d: int, q: int, p: nat)
    requires d * p < q * p
    ensures d < q
  {
    Distributes(d - q, q, p);
  }

  lemma Times(y: int, p: int, q: int)
    requires p * q == 256
    ensures y * 256 == (y * q) * p
  {
    assert y * (p * q) == (y * q) * p;
  }

  lemma QuotientSum(x: int, c: int, p: nat)
    requires p > 0
    ensures (x + c * p) / p == x / p + c
  {
    DivMod(x, p);
    Distributes(x / p, c, p);
    QuotientUnique(x + c * p, x / p + c, x % p, p);
  }

  lemma Distributes(a: int, c: int, p: int)
    ensures (a + c) * p == a * p + c * p
  {
  }

  lemma {:induction false} OrCommutes(a: nat, b: nat)
    ensures BitOr(a, b) == BitOr(b, a)
    decreases a + b
  {
    if a != 0 || b != 0 {
      OrCommutes(a / 2, b / 2);
    }
  }
}
