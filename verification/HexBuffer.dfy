/** getbit, setbit, getbits and setbits on a buffer of hex digits. */
module HexBuffer {
  import opened HexBits

  /** The bits of `b` with those of `f` ORed in from bit `at` on. */
  function OrAt(b: Bits, at: nat, f: Bits): (r: Bits)
    ensures |r| == |b|
  {
    seq(|b|, i requires 0 <= i < |b| => b[i] || (at <= i < at + |f| && f[i - at]))
  }

  /** 1 << (3 - bit), as the code computes it. */
  method SetBit(s: array<char>, b: nat, val: bool)
    requires b < 4 * s.Length && IsHex(s[..])
    modifies s
    ensures IsHex(s[..])
    ensures BitsOf(s[..]) == old(BitsOf(s[..]))[b := old(BitsOf(s[..]))[b] || val]
  {
    var byte, bit := b / 4, b % 4;
    ghost var was := s[..];
    assert was[byte] in was;
    OrSets(was[byte], bit, val);
    SetDigit(was, byte, bit, HexDigit(Or(Hex2Int(s[byte]), bit, val)), val);
    s[byte] := HexDigit(Or(Hex2Int(s[byte]), bit, val));
    assert s[..] == was[byte := s[byte]];
  }

  /** One digit replaced: one bit of the string changes. */
  lemma SetDigit(s: string, byte: nat, bit: nat, c: char, val: bool)
    requires byte < |s| && bit < 4 && IsHex(s) && IsHexDigit(c)
    requires DigitBits(c) == DigitBits(s[byte])[bit := DigitBit(s[byte], bit) || val]
    ensures IsHex(s[byte := c])
    ensures var b := 4 * byte + bit; BitsOf(s[byte := c]) == BitsOf(s)[b := BitsOf(s)[b] || val]
  {
    var p, d, r := BitsOf(s[..byte]), DigitBits(s[byte]), BitsOf(s[byte + 1..]);
    DigitInside(s, byte, s[byte]);
    DigitInside(s, byte, c);
    assert s[byte := s[byte]] == s;
    UpdateInside(p, d, r, bit, DigitBit(s[byte], bit) || val);
  }

  lemma DigitInside(s: string, i: nat, c: char)
    requires i < |s|
    ensures BitsOf(s[i := c]) == BitsOf(s[..i]) + (DigitBits(c) + BitsOf(s[i + 1..]))
  {
    assert s[i := c] == s[..i] + ([c] + s[i + 1..]);
    BitsAppend(s[..i], [c] + s[i + 1..]);
    BitsCons(c, s[i + 1..]);
  }

  lemma UpdateInside(p: Bits, d: Bits, r: Bits, i: nat, v: bool)
    requires i < |d|
    ensures p + (d[i := v] + r) == (p + (d + r))[|p| + i := v]
    ensures (p + (d + r))[|p| + i] == d[i]
  {
  }

  lemma BitsCons(c: char, r: string)
    ensures BitsOf([c] + r) == DigitBits(c) + BitsOf(r)
  {
    assert ([c] + r)[1..] == r;
  }

  method SetBits(s: array<char>, start: nat, n: nat, val: int)
    requires start + n <= 4 * s.Length && IsHex(s[..])
    modifies s
    ensures IsHex(s[..]) && BitsOf(s[..]) == OrAt(old(BitsOf(s[..])), start, Field(val, n))
  {
    ghost var was := BitsOf(s[..]);
    OrNothing(was, start, Field(val, n));
    for i := 0 to n
      invariant IsHex(s[..]) && BitsOf(s[..]) == OrAt(was, start, Field(val, n)[..i])
    {
      OrNext(was, start, Field(val, n), i);
      SetBit(s, start + i, ValueBit(val, n - i - 1));
    }
    assert Field(val, n)[..n] == Field(val, n);
  }

  lemma OrNothing(b: Bits, at: nat, f: Bits)
    ensures OrAt(b, at, f[..0]) == b
  {
  }

  lemma OrNext(b: Bits, at: nat, f: Bits, i: nat)
    requires i < |f| && at + |f| <= |b|
    ensures OrAt(b, at, f[..i + 1]) == OrAt(b, at, f[..i])[at + i := OrAt(b, at, f[..i])[at + i] || f[i]]
  {
  }

  /** ORed into zeros, a field stands there; nothing else changes. */
  lemma OrIntoZeros(p: Bits, z: Bits, r: Bits, f: Bits)
    requires |z| == |f| && forall i :: 0 <= i < |z| ==> !z[i]
    ensures OrAt(p + (z + r), |p|, f) == p + (f + r)
  {
  }

  method GetBit(s: string, b: nat) returns (bit: nat)
    requires b < 4 * |s|
    ensures bit == if BitsOf(s)[b] then 1 else 0
  {
    var byte, k := b / 4, b % 4;
    BitsAt(s, byte);
    assert BitsOf(s)[b] == BitsOf(s)[4 * byte..4 * byte + 4][k];
    bit := if DigitBit(s[byte], k) then 1 else 0;
  }

  method GetBits(s: string, start: nat, n: nat) returns (val: nat)
    requires start + n <= 4 * |s|
    ensures val == Number(BitsOf(s)[start..start + n])
  {
    val := 0;
    ghost var f := BitsOf(s)[start..start + n];
    for i := 0 to n
      invariant val == Number(f[..i]) * Pow2(n - i)
    {
      var bit := GetBit(s, start + i);
      assert f[..i + 1][..i] == f[..i] && f[..i + 1][i] == BitsOf(s)[start + i];
      Shifted(Number(f[..i]), bit, n - i - 1);
      val := val + bit * Pow2(n - i - 1);
    }
    assert f[..n] == f;
  }

  lemma Shifted(x: nat, bit: nat, k: nat)
    ensures x * Pow2(k + 1) + bit * Pow2(k) == (2 * x + bit) * Pow2(k)
  {
  }

  /** What setbits writes into zeros, getbits reads back, modulo the width; the bits on
      both sides stay. */
  lemma SetThenGet(p: Bits, z: Bits, r: Bits, val: int, w: nat)
    requires w == Pow2(|z|) && forall i :: 0 <= i < |z| ==> !z[i]
    ensures var b := OrAt(p + (z + r), |p|, Field(val, |z|));
            Number(b[|p|..|p| + |z|]) == val % w && b[..|p|] == p && b[|p| + |z|..] == r
  {
    var f := Field(val, |z|);
    FieldStands(p, z, r, f);
    FieldValue(f, val, |z|);
  }

  lemma FieldStands(p: Bits, z: Bits, r: Bits, f: Bits)
    requires |z| == |f| && forall i :: 0 <= i < |z| ==> !z[i]
    ensures var b := OrAt(p + (z + r), |p|, f); b[|p|..|p| + |z|] == f && b[..|p|] == p && b[|p| + |z|..] == r
  {
    OrIntoZeros(p, z, r, f);
    Slices(p, f, r);
  }

  lemma FieldValue(f: Bits, val: int, n: nat)
    requires f == Field(val, n)
    ensures Number(f) == val % Pow2(n)
  {
    NumberField(val, n);
  }

  lemma Slices(p: Bits, f: Bits, r: Bits)
    ensures var b := p + (f + r); b[|p|..|p| + |f|] == f && b[..|p|] == p && b[|p| + |f|..] == r
  {
  }
}
