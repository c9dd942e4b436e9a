/** Bits of bytes as the GSM alphabet packs them: the lowest bit of a byte comes first. */
module GsmBits {
  import opened Bytes
  import opened HexBits

  /** The low `n` bits of `val`, lowest first. */
  function Low(val: int, n: nat): (b: Bits)
    ensures |b| == n
  {
    seq(n, i requires 0 <= i < n => ValueBit(val, i))
  }

  function BitsOfBytes(s: seq<Byte>): (b: Bits)
    ensures |b| == 8 * |s|
  {
    if s == [] then [] else BitsOfBytes(s[..|s| - 1]) + Low(s[|s| - 1], 8)
  }

  /** Value of a group of bits, lowest first. */
  function Value(b: Bits): nat {
    if b == [] then 0 else (if b[0] then 1 else 0) + 2 * Value(b[1..])
  }

  /** a | b */
  function BitOr(a: nat, b: nat): nat
    decreases a + b
  {
    if a == 0 && b == 0 then 0 else (if a % 2 == 1 || b % 2 == 1 then 1 else 0) + 2 * BitOr(a / 2, b / 2)
  }

  /** Bits that do not overlap can as well be added. */
  lemma {:induction false} OrApart(a: nat, c: nat, k: nat)
    requires a < Pow2(k)
    ensures BitOr(a, c * Pow2(k)) == a + c * Pow2(k)
    decreases k
  {
    if k == 0 {
      OrZero(c);
    } else {
      var x := c * Pow2(k - 1);
      Doubled(c, Pow2(k - 1));
      OrApart(a / 2, c, k - 1);
      OrStep(a, x);
    }
  }

  lemma {:induction false} OrZero(c: nat)
    ensures BitOr(0, c) == c
  {
    if c != 0 {
      OrZero(c / 2);
    }
  }

  lemma OrStep(a: nat, x: nat)
    requires BitOr(a / 2, x) == a / 2 + x
    ensures BitOr(a, 2 * x) == a + 2 * x
  {
    assert 2 * x / 2 == x && 2 * x % 2 == 0;
  }

  lemma {:induction false} ValueLow(val: int, n: nat)
    ensures Value(Low(val, n)) == val % Pow2(n)
    decreases n
  {
    if n > 0 {
      LowestBit(val);
      assert Low(val, n)[1..] == Low(val / 2, n - 1) by {
        forall i | 0 <= i < n - 1 ensures Low(val, n)[1..][i] == Low(val / 2, n - 1)[i] {
          HalfBit(val, i);
        }
      }
      ValueLow(val / 2, n - 1);
      ModTwice(val, Pow2(n - 1));
    }
  }

  lemma LowSplit(val: int, n: nat, k: nat)
    ensures Low(val, n + k) == Low(val, n) + Low(val / Pow2(n), k)
  {
    forall i | 0 <= i < k ensures Low(val, n + k)[n + i] == Low(val / Pow2(n), k)[i] {
      ShiftedBit(val, i, n);
    }
  }

  lemma LowModulo(val: int, c: int, n: nat)
    ensures Low(val + c * Pow2(n), n) == Low(val, n)
  {
    forall i | 0 <= i < n ensures Low(val + c * Pow2(n), n)[i] == Low(val, n)[i] {
      BitModulo(val, c, i, n);
    }
  }

  /** `v` on top of the `n` bits of `x`. */
  lemma LowJoin(x: nat, v: nat, n: nat, k: nat)
    requires x < Pow2(n)
    ensures Low(x + v * Pow2(n), n + k) == Low(x, n) + Low(v, k)
    ensures (x + v * Pow2(n)) / Pow2(n) == v
  {
    LowSplit(x + v * Pow2(n), n, k);
    QuotientUnique(x + v * Pow2(n), v, x, Pow2(n));
    LowModulo(x, v, n);
  }

  lemma LowByte(v: nat)
    ensures Low(v % 256, 8) == Low(v, 8)
  {
    assert Pow2(8) == 256;
    LowModulo(v % 256, v / 256, 8);
  }

  lemma {:induction false} Pow2Sum(n: nat, k: nat)
    ensures Pow2(n + k) == Pow2(n) * Pow2(k)
    decreases n
  {
    if n > 0 {
      Pow2Sum(n - 1, k);
    }
  }

  lemma {:induction false} ByteBits(s: seq<Byte>, i: nat)
    requires i < |s|
    ensures BitsOfBytes(s)[8 * i..8 * i + 8] == Low(s[i], 8)
  {
    if i < |s| - 1 {
      ByteBits(s[..|s| - 1], i);
      assert BitsOfBytes(s)[8 * i..8 * i + 8] == BitsOfBytes(s[..|s| - 1])[8 * i..8 * i + 8];
    }
  }

  lemma {:induction false} PrefixBits(s: seq<Byte>, i: nat)
    requires i <= |s|
    ensures BitsOfBytes(s)[..8 * i] == BitsOfBytes(s[..i])
    decreases |s|
  {
    if i < |s| {
      PrefixBits(s[..|s| - 1], i);
      assert s[..|s| - 1][..i] == s[..i];
      assert BitsOfBytes(s)[..8 * i] == BitsOfBytes(s[..|s| - 1])[..8 * i];
    } else {
      assert s[..i] == s;
    }
  }

  lemma SnocBits(s: seq<Byte>, x: Byte)
    ensures BitsOfBytes(s + [x]) == BitsOfBytes(s) + Low(x, 8)
  {
    assert (s + [x])[..|s|] == s;
  }
}
