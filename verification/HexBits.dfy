/**
 Bit fields in a string of hex digits, as sms.c reads and writes them: bit 0 is the
 top bit of the first digit.
 */
module HexBits {
  import opened Bytes

  type Bits = seq<bool>

  /** hex2int */
  function Hex2Int(c: char): int {
    if c > '9' then c as int - 'A' as int + 10 else c as int - '0' as int
  }

  predicate IsHexDigit(c: char) {
    '0' <= c <= '9' || 'A' <= c <= 'F'
  }

  predicate IsHex(s: string) {
    forall c <- s :: IsHexDigit(c)
  }

  /** 1 << (3 - bit) */
  function Weight(bit: nat): (w: nat)
    ensures w > 0
  {
    if bit == 0 then 8 else if bit == 1 then 4 else if bit == 2 then 2 else 1
  }

  /** getbit within one digit */
  predicate DigitBit(c: char, bit: nat) {
    Hex2Int(c) / Weight(bit) % 2 == 1
  }

  function DigitBits(c: char): (b: Bits)
    ensures |b| == 4
  {
    [DigitBit(c, 0), DigitBit(c, 1), DigitBit(c, 2), DigitBit(c, 3)]
  }

  function BitsOf(s: string): (b: Bits)
    ensures |b| == 4 * |s|
  {
    if s == "" then [] else DigitBits(s[0]) + BitsOf(s[1..])
  }

  /** hextable: "0123456789ABCDEF" */
  function HexDigit(d: nat): (c: char)
    requires d < 16
    ensures IsHexDigit(c) && Hex2Int(c) == d
  {
    if d < 10 then ('0' as nat + d) as char else ('A' as nat + d - 10) as char
  }

  /** `hex2int(c) | (val << (3 - bit))` for a `val` of 0 or 1: a set bit stays set. */
  function Or(d: int, bit: nat, val: bool): int {
    if val && d / Weight(bit) % 2 == 0 then d + Weight(bit) else d
  }

  /** Adding the weight of a clear bit sets that bit and no other. */
  lemma AddWeight(d: nat, bit: nat, k: nat)
    requires d < 16 && bit < 4 && k < 4 && d / Weight(bit) % 2 == 0
    ensures d + Weight(bit) < 16
    ensures (d + Weight(bit)) / Weight(k) % 2 == 1 <==> k == bit || d / Weight(k) % 2 == 1
  {
    match bit
    case 0 => AddEight(d);
    case 1 => AddFour(d);
    case 2 => AddTwo(d);
    case 3 => AddOne(d);
  }

  lemma AddEight(d: nat)
    requires d < 16 && d / 8 % 2 == 0
    ensures d + 8 < 16 && (d + 8) / 8 % 2 == 1 && (d + 8) / 4 % 2 == d / 4 % 2
    ensures (d + 8) / 2 % 2 == d / 2 % 2 && (d + 8) % 2 == d % 2
  {
  }

  lemma AddFour(d: nat)
    requires d < 16 && d / 4 % 2 == 0
    ensures d + 4 < 16 && (d + 4) / 8 % 2 == d / 8 % 2 && (d + 4) / 4 % 2 == 1
    ensures (d + 4) / 2 % 2 == d / 2 % 2 && (d + 4) % 2 == d % 2
  {
  }

  lemma AddTwo(d: nat)
    requires d < 16 && d / 2 % 2 == 0
    ensures d + 2 < 16 && (d + 2) / 8 % 2 == d / 8 % 2
    ensures (d + 2) / 4 % 2 == d / 4 % 2 && (d + 2) / 2 % 2 == 1 && (d + 2) % 2 == d % 2
  {
  }

  lemma AddOne(d: nat)
    requires d < 16 && d % 2 == 0
    ensures d + 1 < 16 && (d + 1) / 8 % 2 == d / 8 % 2
    ensures (d + 1) / 4 % 2 == d / 4 % 2 && (d + 1) / 2 % 2 == d / 2 % 2 && (d + 1) % 2 == 1
  {
  }

  lemma OrSets(c: char, bit: nat, val: bool)
    requires IsHexDigit(c) && bit < 4
    ensures 0 <= Or(Hex2Int(c), bit, val) < 16
    ensures DigitBits(HexDigit(Or(Hex2Int(c), bit, val))) == DigitBits(c)[bit := DigitBit(c, bit) || val]
  {
    var d := Hex2Int(c);
    if val && d / Weight(bit) % 2 == 0 {
      AddWeight(d, bit, 0);
      AddWeight(d, bit, 1);
      AddWeight(d, bit, 2);
      AddWeight(d, bit, 3);
      SetBitsAre(DigitBits(HexDigit(d + Weight(bit))), DigitBits(c), bit);
    } else {
      SameDigit(c, HexDigit(d));
      assert DigitBits(c)[bit := DigitBits(c)[bit]] == DigitBits(c);
    }
  }

  lemma SameDigit(c: char, c': char)
    requires Hex2Int(c) == Hex2Int(c')
    ensures DigitBits(c) == DigitBits(c')
  {
  }

  lemma SetBitsAre(b: Bits, b': Bits, bit: nat)
    requires |b| == |b'| == 4 && bit < 4
    requires forall k :: 0 <= k < 4 ==> (b[k] <==> k == bit || b'[k])
    ensures b == b'[bit := true]
  {
  }

  lemma {:induction false} BitsAt(s: string, i: nat)
    requires i < |s|
    ensures BitsOf(s)[4 * i..4 * i + 4] == DigitBits(s[i])
  {
    if i > 0 {
      BitsAt(s[1..], i - 1);
      assert BitsOf(s)[4 * i..4 * i + 4] == BitsOf(s[1..])[4 * (i - 1)..4 * (i - 1) + 4];
    }
  }

  lemma {:induction false} BitsAppend(s: string, t: string)
    ensures BitsOf(s + t) == BitsOf(s) + BitsOf(t)
  {
    if s == "" {
      assert s + t == t;
    } else {
      assert (s + t)[1..] == s[1..] + t;
      BitsAppend(s[1..], t);
    }
  }

  lemma BitsSlice(s: string, i: nat, j: nat)
    requires i <= j <= |s|
    ensures BitsOf(s)[4 * i..4 * j] == BitsOf(s[i..j])
  {
    ThreePieces(s, i, j, |s|);
    assert s[..|s|] == s && s[j..|s|] == s[j..];
    BitsMiddle(s, s[..i], s[i..j], s[j..]);
  }

  lemma BitsMiddle(s: string, a: string, m: string, z: string)
    requires s == (a + m) + z
    ensures BitsOf(s)[4 * |a|..4 * (|a| + |m|)] == BitsOf(m)
  {
    BitsAppend(a + m, z);
    BitsAppend(a, m);
    MiddleSlice(BitsOf(a), BitsOf(m), BitsOf(z));
  }

  lemma MiddleSlice(a: Bits, m: Bits, z: Bits)
    ensures ((a + m) + z)[|a|..|a| + |m|] == m
  {
  }

  // ----- numbers as bit fields -----

  function Pow2(n: nat): (p: nat)
    ensures p > 0
  {
    if n == 0 then 1 else 2 * Pow2(n - 1)
  }

  /** Value of a field, most significant bit first. */
  function Number(b: Bits): nat {
    if b == [] then 0 else 2 * Number(b[..|b| - 1]) + if b[|b| - 1] then 1 else 0
  }

  /** (val >> k) & 1 */
  predicate ValueBit(val: int, k: nat) {
    val / Pow2(k) % 2 == 1
  }

  /** The low `n` bits of `val`, most significant first. */
  function Field(val: int, n: nat): (b: Bits)
    ensures |b| == n
  {
    seq(n, i requires 0 <= i < n => ValueBit(val, n - 1 - i))
  }

  lemma HalfBit(val: int, k: nat)
    ensures ValueBit(val / 2, k) == ValueBit(val, k + 1)
  {
    var p := Pow2(k);
    var q := val / 2 / p;
    var r := 2 * (val / 2 % p) + val % 2;
    assert val / 2 == p * q + val / 2 % p;
    assert val == q * (2 * p) + r;
    QuotientUnique(val, q, r, 2 * p);
  }

  lemma FieldStep(val: int, n: nat)
    requires n > 0
    ensures Field(val, n) == Field(val / 2, n - 1) + [val % 2 == 1]
  {
    forall i | 0 <= i < n - 1 ensures Field(val, n)[i] == Field(val / 2, n - 1)[i] {
      HalfBit(val, n - 2 - i);
    }
    LowestBit(val);
  }

  /** What is read from a field is what was written, modulo the width of the field. */
  lemma {:induction false} NumberField(val: int, n: nat)
    ensures Number(Field(val, n)) == val % Pow2(n)
    decreases n
  {
    if n > 0 {
      FieldStep(val, n);
      NumberField(val / 2, n - 1);
      ModTwice(val, Pow2(n - 1));
      var b := Field(val, n);
      assert b[..n - 1] == Field(val / 2, n - 1);
    }
  }

  lemma ModTwice(val: int, p: nat)
    requires p > 0
    ensures val % (2 * p) == 2 * (val / 2 % p) + val % 2
  {
    var q := val / 2 / p;
    var r := 2 * (val / 2 % p) + val % 2;
    assert val == 2 * (p * q + val / 2 % p) + val % 2;
    assert val == q * (2 * p) + r;
    QuotientUnique(val, q, r, 2 * p);
  }

  lemma QuotientUnique(a: int, q: int, r: int, t: int)
    requires 0 <= r < t && a == q * t + r
    ensures a % t == r && a / t == q
  {
    var q', r' := a / t, a % t;
    var d := q - q';
    assert d * t == r' - r;
    assert d >= 1 ==> d * t >= t;
    assert d <= -1 ==> d * t <= -t;
  }

  lemma {:induction false} NumberFits(b: Bits)
    ensures Number(b) < Pow2(|b|)
  {
    if b != [] {
      NumberFits(b[..|b| - 1]);
    }
  }

  /** A byte given by its two hex digits. */
  lemma NumberOfByte(s: string)
    requires |s| == 2 && IsHex(s)
    ensures Number(BitsOf(s)) == Hex2Int(s[0]) * 16 + Hex2Int(s[1])
  {
    var b := BitsOf(s);
    assert s[1..] == [s[1]] && BitsOf(s[1..]) == DigitBits(s[1]) + BitsOf(s[1..][1..]);
    assert b == DigitBits(s[0]) + DigitBits(s[1]);
    NumberAppendDigit(DigitBits(s[0]), s[1]);
    NumberAppendDigit([], s[0]);
    assert [] + DigitBits(s[0]) == DigitBits(s[0]);
  }

  lemma NumberAppendDigit(b: Bits, c: char)
    requires IsHexDigit(c)
    ensures Number(b + DigitBits(c)) == 16 * Number(b) + Hex2Int(c)
  {
    var d := DigitBits(c);
    var b1, b2, b3, b4 := b + [d[0]], b + [d[0], d[1]], b + [d[0], d[1], d[2]], b + d;
    assert b4[..|b4| - 1] == b3 && b3[..|b3| - 1] == b2 && b2[..|b2| - 1] == b1 && b1[..|b1| - 1] == b;
    assert Number(b1) == 2 * Number(b) + if d[0] then 1 else 0;
    assert Number(b2) == 2 * Number(b1) + if d[1] then 1 else 0;
    assert Number(b3) == 2 * Number(b2) + if d[2] then 1 else 0;
    assert Number(b4) == 2 * Number(b3) + if d[3] then 1 else 0;
    DigitValue(c);
  }

  lemma DigitValue(c: char)
    requires IsHexDigit(c)
    ensures Hex2Int(c) == (if DigitBit(c, 0) then 8 else 0) + (if DigitBit(c, 1) then 4 else 0)
                        + (if DigitBit(c, 2) then 2 else 0) + (if DigitBit(c, 3) then 1 else 0)
  {
  }

  // ----- fields next to each other -----

  function Zeros(n: nat): (b: Bits)
    ensures |b| == n
  {
    seq(n, _ => false)
  }

  lemma Regroup(a: Bits, x: Bits, y: Bits, rest: Bits)
    ensures a + ((x + y) + rest) == a + (x + (y + rest)) == (a + x) + (y + rest)
  {
  }

  lemma {:induction false} ShiftedBit(val: int, j: nat, k: nat)
    ensures ValueBit(val / Pow2(k), j) == ValueBit(val, j + k)
    decreases k
  {
    if k == 0 {
      assert val / 1 == val;
    } else {
      ShiftedBit(val / 2, j, k - 1);
      HalfOf(val, Pow2(k - 1));
      HalfBit(val, j + k - 1);
    }
  }

  lemma HalfOf(val: int, p: nat)
    requires p > 0
    ensures val / 2 / p == val / (2 * p)
  {
    var q := val / 2 / p;
    var r := 2 * (val / 2 % p) + val % 2;
    assert val / 2 == p * q + val / 2 % p;
    assert val == q * (2 * p) + r;
    QuotientUnique(val, q, r, 2 * p);
  }

  /** A wide field is the fields of its parts. */
  lemma FieldSplit(val: int, n: nat, k: nat)
    ensures Field(val, n + k) == Field(val / Pow2(k), n) + Field(val, k)
  {
    forall i | 0 <= i < n ensures Field(val, n + k)[i] == Field(val / Pow2(k), n)[i] {
      ShiftedBit(val, n - 1 - i, k);
    }
  }

  lemma {:induction false} BitModulo(val: int, c: int, j: nat, n: nat)
    requires j < n
    ensures ValueBit(val + c * Pow2(n), j) == ValueBit(val, j)
    decreases n
  {
    var p := Pow2(n - 1);
    if j > 0 {
      BitModulo(val / 2, c, j - 1, n - 1);
    }
    NextBit(val, c * p, j);
    Doubled(c, p);
  }

  lemma NextBit(val: int, x: int, j: nat)
    requires j > 0 ==> (ValueBit(val / 2 + x, j - 1) <==> ValueBit(val / 2, j - 1))
    ensures ValueBit(val + 2 * x, j) <==> ValueBit(val, j)
  {
    if j == 0 {
      LowestBit(val);
      LowestBit(val + 2 * x);
    } else {
      HigherBit(val, x, j);
    }
  }

  lemma HigherBit(val: int, x: int, j: nat)
    requires j > 0 && (ValueBit(val / 2 + x, j - 1) <==> ValueBit(val / 2, j - 1))
    ensures ValueBit(val + 2 * x, j) <==> ValueBit(val, j)
  {
    HalfBit(val, j - 1);
    HalfBit(val + 2 * x, j - 1);
    assert (val + 2 * x) / 2 == val / 2 + x;
  }

  lemma Doubled(c: int, p: int)
    ensures c * (2 * p) == 2 * (c * p)
  {
  }

  lemma LowestBit(val: int)
    ensures ValueBit(val, 0) == (val % 2 == 1)
  {
    assert Pow2(0) == 1;
    assert val / 1 == val;
  }

  /** Only the low bits of a value count. */
  lemma FieldModulo(val: int, c: int, n: nat)
    ensures Field(val + c * Pow2(n), n) == Field(val, n)
  {
    forall i | 0 <= i < n ensures Field(val + c * Pow2(n), n)[i] == Field(val, n)[i] {
      BitModulo(val, c, n - 1 - i, n);
    }
  }

  /** Three bytes written at once. */
  lemma ThreeBytes(x: nat, y: nat, z: nat)
    requires y < 256 && z < 256
    ensures Field((x * 256 + y) * 256 + z, 24) == Field(x, 8) + (Field(y, 8) + Field(z, 8))
  {
    var v := (x * 256 + y) * 256 + z;
    assert Pow2(8) == 256;
    FieldSplit(v, 16, 8);
    assert v / 256 == x * 256 + y;
    FieldSplit(x * 256 + y, 8, 8);
    FieldModulo(z, x * 256 + y, 8);
    FieldModulo(y, x, 8);
    Regroup([], Field(x, 8), Field(y, 8), Field(z, 8));
    assert [] + ((Field(x, 8) + Field(y, 8)) + Field(z, 8)) == (Field(x, 8) + Field(y, 8)) + Field(z, 8);
    assert [] + (Field(x, 8) + (Field(y, 8) + Field(z, 8))) == Field(x, 8) + (Field(y, 8) + Field(z, 8));
  }
}
