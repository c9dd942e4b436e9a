/**
 DtsCopy422ToNV12: packed 4:2:2 pixels to a luma and a chroma plane, sixteen pixels at a
 time and then two at a time, against its meaning for each byte of the planes.
 */
module Nv12 {
  import opened Bytes

  // ----- the vector operations -----

  /** _mm_load_si128: eight 16-bit lanes, low byte first. */
  function Lanes(s: seq<Byte>): (l: seq<nat>)
    requires |s| == 16
    ensures |l| == 8
  {
    seq(8, i requires 0 <= i < 8 => Lane(s[2 * i], s[2 * i + 1]))
  }

  function Lane(lo: nat, hi: nat): nat {
    lo + 256 * hi
  }

  /** _mm_and_si128 with 0x00ff in every lane */
  function MaskLow(l: seq<nat>): (r: seq<nat>)
    ensures |r| == |l|
  {
    seq(|l|, i requires 0 <= i < |l| => l[i] % 256)
  }

  /** _mm_srli_epi16 by 8 */
  function ShiftDown(l: seq<nat>): (r: seq<nat>)
    ensures |r| == |l|
  {
    seq(|l|, i requires 0 <= i < |l| => l[i] / 256)
  }

  /** One lane of _mm_packus_epi16: signed to unsigned with saturation. */
  function Saturate(x: nat): Byte {
    if x >= 0x8000 then 0 else if x > 255 then 255 else x
  }

  function Pack(a: seq<nat>, b: seq<nat>): (s: seq<Byte>)
    requires |a| == |b| == 8
    ensures |s| == 16 && forall i :: 0 <= i < 16 ==> s[i] == Saturate(if i < 8 then a[i] else b[i - 8])
  {
    Saturated(a) + Saturated(b)
  }

  function Saturated(l: seq<nat>): (s: seq<Byte>)
    ensures |s| == |l| && forall i :: 0 <= i < |l| ==> s[i] == Saturate(l[i])
  {
    if l == [] then [] else Saturated(l[..|l| - 1]) + [Saturate(l[|l| - 1])]
  }

  // ----- their meaning -----

  /** The bytes at even (`odd` = 0) or odd places. */
  function Every(s: seq<Byte>, odd: nat): (r: seq<Byte>)
    requires odd < 2 && |s| % 2 == 0
    ensures |r| == |s| / 2
  {
    seq(|s| / 2, i requires 0 <= i < |s| / 2 => s[2 * i + odd])
  }

  lemma LanesApart(lo: Byte, hi: Byte)
    ensures Saturate(Lane(lo, hi) % 256) == lo && Saturate(Lane(lo, hi) / 256) == hi
  {
  }

  /** Sixteen pixels: masking and packing picks the even bytes, shifting and packing the odd ones. */
  lemma Block(a: seq<Byte>, b: seq<Byte>)
    requires |a| == |b| == 16
    ensures Pack(MaskLow(Lanes(a)), MaskLow(Lanes(b))) == Every(a + b, 0)
    ensures Pack(ShiftDown(Lanes(a)), ShiftDown(Lanes(b))) == Every(a + b, 1)
  {
    forall i | 0 <= i < 16
      ensures Pack(MaskLow(Lanes(a)), MaskLow(Lanes(b)))[i] == (a + b)[2 * i]
              && Pack(ShiftDown(Lanes(a)), ShiftDown(Lanes(b)))[i] == (a + b)[2 * i + 1]
    {
      if i < 8 {
        HalfBlock(a, i);
      } else {
        HalfBlock(b, i - 8);
      }
    }
  }

  lemma HalfBlock(a: seq<Byte>, i: nat)
    requires |a| == 16 && i < 8
    ensures Saturate(MaskLow(Lanes(a))[i]) == a[2 * i] && Saturate(ShiftDown(Lanes(a))[i]) == a[2 * i + 1]
  {
    LanesApart(a[2 * i], a[2 * i + 1]);
  }

  // ----- rows -----

  /** Sixteen bytes to a plane. */
  method Store(dst: array<Byte>, at: nat, s: seq<Byte>)
    requires at + |s| <= dst.Length
    modifies dst
    ensures dst[..] == old(dst[..at]) + s + old(dst[at + |s|..])
  {
    for i := 0 to |s|
      invariant dst[..] == old(dst[..at]) + s[..i] + old(dst[at + i..])
    {
      dst[at + i] := s[i];
    }
  }

  /** A row begun at `at` has its first `x` bytes. */
  ghost predicate RowDone(now: seq<Byte>, was: seq<Byte>, at: nat, src: seq<Byte>, odd: nat, x: nat) {
    && odd < 2 && 2 * x <= |src| && at + x <= |was|
    && now == was[..at] + Every(src[..2 * x], odd) + was[at + x..]
  }

  lemma RowMore(now: seq<Byte>, next: seq<Byte>, was: seq<Byte>, at: nat, src: seq<Byte>, odd: nat, x: nat, n: nat)
    requires RowDone(now, was, at, src, odd, x) && 2 * (x + n) <= |src| && at + x + n <= |was|
    requires next == now[..at + x] + Every(src[2 * x..2 * (x + n)], odd) + now[at + x + n..]
    ensures RowDone(next, was, at, src, odd, x + n)
  {
    var done, more := Every(src[..2 * x], odd), Every(src[2 * x..2 * (x + n)], odd);
    EveryMore(src, odd, 2 * x, 2 * (x + n));
    Carries(now, was[..at], done, was[at + x..], n, at + x);
    assert was[at + x..][n..] == was[at + x + n..];
    Group(was[..at], done, more);
  }

  lemma EveryMore(src: seq<Byte>, odd: nat, i: nat, j: nat)
    requires odd < 2 && i % 2 == 0 && j % 2 == 0 && i <= j <= |src|
    ensures Every(src[..j], odd) == Every(src[..i], odd) + Every(src[i..j], odd)
  {
  }

  lemma Carries(now: seq<Byte>, a: seq<Byte>, b: seq<Byte>, c: seq<Byte>, n: nat, end: nat)
    requires now == a + b + c && n <= |c| && end == |a| + |b|
    ensures now[..end] == a + b && now[end + n..] == c[n..]
  {
  }

  lemma TwoMore(now: seq<Byte>, next: seq<Byte>, was: seq<Byte>, at: nat, src: seq<Byte>, odd: nat, x: nat)
    requires RowDone(now, was, at, src, odd, x) && 2 * x + 4 <= |src| && at + x + 2 <= |was|
    requires next == now[at + x := src[2 * x + odd]][at + x + 1 := src[2 * x + 2 + odd]]
    ensures RowDone(next, was, at, src, odd, x + 2)
  {
    assert Every(src[2 * x..2 * (x + 2)], odd) == [src[2 * x + odd], src[2 * x + 2 + odd]];
    RowMore(now, next, was, at, src, odd, x, 2);
  }

  /** The row `src` of the source lies at `from`. */
  ghost predicate IsRow(srcY: array<Byte>, from: nat, src: seq<Byte>)
    reads srcY
  {
    from + |src| <= srcY.Length && src == srcY[from..from + |src|]
  }

  /** Sixteen pixels to the luma plane. */
  method LumaBlock(srcY: array<Byte>, from: nat, dst: array<Byte>, at: nat, x: nat, ghost was: seq<Byte>,
                   ghost src: seq<Byte>)
    requires srcY != dst && IsRow(srcY, from, src) && 2 * (x + 16) <= |src| && at + x + 16 <= dst.Length
    requires RowDone(dst[..], was, at, src, 0, x)
    modifies dst
    ensures RowDone(dst[..], was, at, src, 0, x + 16)
  {
    ghost var now := dst[..];
    var s1, s2 := srcY[from + 2 * x..from + 2 * x + 16], srcY[from + 2 * x + 16..from + 2 * x + 32];
    Loaded(srcY[..], from, src, x, s1, s2);
    Block(s1, s2);
    Store(dst, at + x, Pack(MaskLow(Lanes(s1)), MaskLow(Lanes(s2))));
    RowMore(now, dst[..], was, at, src, 0, x, 16);
  }

  /** Their chroma to the chroma plane. */
  method ChromaBlock(srcY: array<Byte>, from: nat, dst: array<Byte>, at: nat, x: nat, ghost was: seq<Byte>,
                     ghost src: seq<Byte>)
    requires srcY != dst && IsRow(srcY, from, src) && 2 * (x + 16) <= |src| && at + x + 16 <= dst.Length
    requires RowDone(dst[..], was, at, src, 1, x)
    modifies dst
    ensures RowDone(dst[..], was, at, src, 1, x + 16)
  {
    ghost var now := dst[..];
    var s1, s2 := srcY[from + 2 * x..from + 2 * x + 16], srcY[from + 2 * x + 16..from + 2 * x + 32];
    Loaded(srcY[..], from, src, x, s1, s2);
    Block(s1, s2);
    Store(dst, at + x, Pack(ShiftDown(Lanes(s1)), ShiftDown(Lanes(s2))));
    RowMore(now, dst[..], was, at, src, 1, x, 16);
  }

  lemma Loaded(all: seq<Byte>, from: nat, src: seq<Byte>, x: nat, s1: seq<Byte>, s2: seq<Byte>)
    requires from + |src| <= |all| && src == all[from..from + |src|] && 2 * (x + 16) <= |src|
    requires s1 == all[from + 2 * x..from + 2 * x + 16] && s2 == all[from + 2 * x + 16..from + 2 * x + 32]
    ensures s1 + s2 == src[2 * x..2 * (x + 16)]
  {
    SubSlice(all, from, from + |src|, 2 * x, 2 * x + 16);
    SubSlice(all, from, from + |src|, 2 * x + 16, 2 * x + 32);
    Adjacent(src, 2 * x, 2 * x + 16, 2 * x + 32);
  }

  lemma SubSlice(s: seq<Byte>, i: nat, j: nat, a: nat, b: nat)
    requires i <= j <= |s| && a <= b <= j - i
    ensures s[i..j][a..b] == s[i + a..i + b]
  {
    var t := s[i..j];
    assert forall k :: a <= k < b ==> t[k] == s[i + k];
  }

  /** A block, or a pair of pixels, stays within the columns. */
  lemma StaysInside(x: nat, n: nat, width: nat)
    requires x % 2 == 0 && n % 2 == 0 && x + n <= width
    ensures x + n <= Columns(width) && (x + n) % 2 == 0
  {
  }

  /** Two pixels, without vectors: every other byte from `odd` on. */
  method PixelPair(srcY: array<Byte>, from: nat, dst: array<Byte>, at: nat, x: nat, odd: nat, ghost was: seq<Byte>,
                   ghost src: seq<Byte>)
    requires srcY != dst && IsRow(srcY, from, src) && 2 * x + 4 <= |src| && at + x + 2 <= dst.Length
    requires RowDone(dst[..], was, at, src, odd, x)
    modifies dst
    ensures RowDone(dst[..], was, at, src, odd, x + 2)
  {
    ghost var now := dst[..];
    dst[at + x] := srcY[from + (2 * x + odd)];
    dst[at + x + 1] := srcY[from + (2 * x + 2 + odd)];
    TwoMore(now, dst[..], was, at, src, odd, x);
  }

  /** Columns that are converted: an odd last one is not. */
  function Columns(width: nat): (c: nat)
    ensures c % 2 == 0 && c <= width < c + 2
  {
    width - width % 2
  }

  /** The first row of a pair: luma and chroma. */
  method BothRow(srcY: array<Byte>, from: nat, width: nat, sse2: bool, dstY: array<Byte>, y: nat, dstUV: array<Byte>,
                 uv: nat, ghost src: seq<Byte>)
    requires srcY != dstY && srcY != dstUV && dstY != dstUV && (sse2 ==> width >= 15)
    requires IsRow(srcY, from, src) && |src| == 2 * Columns(width)
    requires y + Columns(width) <= dstY.Length && uv + Columns(width) <= dstUV.Length
    modifies dstY, dstUV
    ensures RowDone(dstY[..], old(dstY[..]), y, src, 0, Columns(width))
    ensures RowDone(dstUV[..], old(dstUV[..]), uv, src, 1, Columns(width))
  {
    var x := 0;
    RowBegins(dstY[..], y, src, 0);
    RowBegins(dstUV[..], uv, src, 1);
    if sse2 {
      x := BothBlocks(srcY, from, width, dstY, y, dstUV, uv, dstY[..], dstUV[..], src);
    }
    BothPairs(srcY, from, width, x, dstY, y, dstUV, uv, old(dstY[..]), old(dstUV[..]), src);
  }

  method BothBlocks(srcY: array<Byte>, from: nat, width: nat, dstY: array<Byte>, y: nat, dstUV: array<Byte>, uv: nat,
                    ghost wasY: seq<Byte>, ghost wasUV: seq<Byte>, ghost src: seq<Byte>) returns (x: nat)
    requires srcY != dstY && srcY != dstUV && dstY != dstUV && width >= 15
    requires IsRow(srcY, from, src) && |src| == 2 * Columns(width)
    requires y + Columns(width) <= dstY.Length && uv + Columns(width) <= dstUV.Length
    requires RowDone(dstY[..], wasY, y, src, 0, 0) && RowDone(dstUV[..], wasUV, uv, src, 1, 0)
    modifies dstY, dstUV
    ensures x % 2 == 0 && x <= Columns(width)
    ensures RowDone(dstY[..], wasY, y, src, 0, x) && RowDone(dstUV[..], wasUV, uv, src, 1, x)
  {
    x := 0;
    while x < width - 15
      invariant x % 2 == 0 && x <= Columns(width)
      invariant RowDone(dstY[..], wasY, y, src, 0, x) && RowDone(dstUV[..], wasUV, uv, src, 1, x)
    {
      StaysInside(x, 16, width);
      LumaBlock(srcY, from, dstY, y, x, wasY, src);
      ChromaBlock(srcY, from, dstUV, uv, x, wasUV, src);
      x := x + 16;
    }
  }

  method BothPairs(srcY: array<Byte>, from: nat, width: nat, start: nat, dstY: array<Byte>, y: nat, dstUV: array<Byte>,
                   uv: nat, ghost wasY: seq<Byte>, ghost wasUV: seq<Byte>, ghost src: seq<Byte>)
    requires srcY != dstY && srcY != dstUV && dstY != dstUV && start % 2 == 0 && start <= Columns(width)
    requires IsRow(srcY, from, src) && |src| == 2 * Columns(width)
    requires y + Columns(width) <= dstY.Length && uv + Columns(width) <= dstUV.Length
    requires RowDone(dstY[..], wasY, y, src, 0, start) && RowDone(dstUV[..], wasUV, uv, src, 1, start)
    modifies dstY, dstUV
    ensures RowDone(dstY[..], wasY, y, src, 0, Columns(width)) && RowDone(dstUV[..], wasUV, uv, src, 1, Columns(width))
  {
    var x := start;
    while x + 1 < width
      invariant x % 2 == 0 && x <= Columns(width)
      invariant RowDone(dstY[..], wasY, y, src, 0, x) && RowDone(dstUV[..], wasUV, uv, src, 1, x)
    {
      StaysInside(x, 2, width);
      PixelPair(srcY, from, dstY, y, x, 0, wasY, src);
      PixelPair(srcY, from, dstUV, uv, x, 1, wasUV, src);
      x := x + 2;
    }
    AtEnd(x, width);
  }

  lemma RowBegins(was: seq<Byte>, at: nat, src: seq<Byte>, odd: nat)
    requires odd < 2 && at <= |was|
    ensures RowDone(was, was, at, src, odd, 0)
  {
    assert was[..at] + [] + was[at..] == was;
  }

  /** The second row of a pair, in vectors: luma only. */
  method LumaBlocks(srcY: array<Byte>, from: nat, width: nat, dstY: array<Byte>, y: nat, ghost src: seq<Byte>)
      returns (x: nat)
    requires srcY != dstY && width >= 15 && IsRow(srcY, from, src) && |src| == 2 * Columns(width)
    requires y + Columns(width) <= dstY.Length
    modifies dstY
    ensures x % 2 == 0 && x <= Columns(width) && RowDone(dstY[..], old(dstY[..]), y, src, 0, x)
  {
    ghost var wasY := dstY[..];
    x := 0;
    RowBegins(wasY, y, src, 0);
    while x < width - 15
      invariant x % 2 == 0 && x <= Columns(width) && RowDone(dstY[..], wasY, y, src, 0, x)
    {
      StaysInside(x, 16, width);
      LumaBlock(srcY, from, dstY, y, x, wasY, src);
      x := x + 16;
    }
  }

  /** The second row of a pair: luma only. */
  method LumaRow(srcY: array<Byte>, from: nat, width: nat, sse2: bool, dstY: array<Byte>, y: nat, ghost src: seq<Byte>)
    requires srcY != dstY && (sse2 ==> width >= 15) && IsRow(srcY, from, src) && |src| == 2 * Columns(width)
    requires y + Columns(width) <= dstY.Length
    modifies dstY
    ensures RowDone(dstY[..], old(dstY[..]), y, src, 0, Columns(width))
  {
    ghost var wasY := dstY[..];
    var x := 0;
    RowBegins(wasY, y, src, 0);
    if sse2 {
      x := LumaBlocks(srcY, from, width, dstY, y, src);
    }
    LumaPairs(srcY, from, width, x, dstY, y, wasY, src);
  }

  method LumaPairs(srcY: array<Byte>, from: nat, width: nat, start: nat, dstY: array<Byte>, y: nat,
                   ghost wasY: seq<Byte>, ghost src: seq<Byte>)
    requires srcY != dstY && start % 2 == 0 && start <= Columns(width)
    requires IsRow(srcY, from, src) && |src| == 2 * Columns(width) && y + Columns(width) <= dstY.Length
    requires RowDone(dstY[..], wasY, y, src, 0, start)
    modifies dstY
    ensures RowDone(dstY[..], wasY, y, src, 0, Columns(width))
  {
    var x := start;
    while x + 1 < width
      invariant x % 2 == 0 && x <= Columns(width) && RowDone(dstY[..], wasY, y, src, 0, x)
    {
      StaysInside(x, 2, width);
      PixelPair(srcY, from, dstY, y, x, 0, wasY, src);
      x := x + 2;
    }
    AtEnd(x, width);
  }

  lemma AtEnd(x: nat, width: nat)
    requires x % 2 == 0 && width <= x + 1 && x <= Columns(width)
    ensures x == Columns(width)
  {
  }

  // ----- planes -----

  /** A plane after `rows` rows: at row `i / stride` and column `i % stride` the byte of
      its pixel, and what was there before in the padding and below. */
  function PixelAt(was: seq<Byte>, src: seq<Byte>, i: nat, stride: nat, width: nat, rows: nat, step: nat,
                   odd: nat): Byte
    requires i < |was| && stride > 0
  {
    var row, x := i / stride, i % stride;
    var k := row * (2 * width * step) + 2 * x + odd;
    if row < rows && x < Columns(width) && k < |src| then src[k] else was[i]
  }

  ghost predicate PlaneDone(now: seq<Byte>, was: seq<Byte>, src: seq<Byte>, stride: nat, width: nat, rows: nat,
                            step: nat, odd: nat) {
    && stride > 0 && |now| == |was|
    && forall i :: 0 <= i < |now| ==> now[i] == PixelAt(was, src, i, stride, width, rows, step, odd)
  }

  /** One more row: row `rows` of the plane, from row `rows * step` of the source. */
  lemma PlaneMore(now: seq<Byte>, next: seq<Byte>, was: seq<Byte>, src: seq<Byte>, line: seq<Byte>, at: nat, from: nat,
                  stride: nat, width: nat, rows: nat, step: nat, odd: nat)
    requires PlaneDone(now, was, src, stride, width, rows, step, odd) && Columns(width) <= stride
    requires at == rows * stride && from == rows * (2 * width * step) && |line| == 2 * Columns(width)
    requires from + |line| <= |src| && line == src[from..from + |line|]
    requires RowDone(next, now, at, line, odd, Columns(width))
    ensures PlaneDone(next, was, src, stride, width, rows + 1, step, odd)
  {
    var c := Columns(width);
    forall i | 0 <= i < |next| ensures next[i] == PixelAt(was, src, i, stride, width, rows + 1, step, odd) {
      Position(i, at, rows, stride);
      RowByte(now, next, at, line, odd, c, i);
    }
  }

  lemma RowByte(now: seq<Byte>, next: seq<Byte>, at: nat, line: seq<Byte>, odd: nat, c: nat, i: nat)
    requires RowDone(next, now, at, line, odd, c) && |line| == 2 * c && i < |next|
    ensures |next| == |now| && next[i] == if at <= i < at + c then line[2 * (i - at) + odd] else now[i]
  {
    assert line[..2 * c] == line;
  }

  /** Where byte `i` lies relative to the row that begins at `at`. */
  lemma Position(i: nat, at: nat, row: nat, stride: nat)
    requires stride > 0 && at == row * stride
    ensures at <= i < at + stride ==> i / stride == row && i % stride == i - at
    ensures i < at ==> i / stride < row
    ensures i >= at + stride ==> i / stride > row
  {
    var q, m := i / stride, i % stride;
    assert i == q * stride + m;
    if q >= row { Order(row, q, stride); }
    if q > row { Order(row + 1, q, stride); }
    if q < row { Order(q + 1, row, stride); }
  }

  lemma Order(a: nat, b: nat, p: nat)
    requires a <= b
    ensures a * p <= b * p
    ensures (a + 1) * p == a * p + p
  {
    assert b * p == a * p + (b - a) * p;
  }

  /** By row and column: pixel `x` of row `r` has its byte, the padding what it had. */
  lemma PixelMeaning(now: seq<Byte>, was: seq<Byte>, src: seq<Byte>, stride: nat, width: nat, rows: nat, step: nat,
                     odd: nat, r: nat, x: nat)
    requires PlaneDone(now, was, src, stride, width, rows, step, odd) && r < rows && x < stride
    requires r * stride + x < |now| && r * (2 * width * step) + 2 * x + odd < |src|
    ensures now[r * stride + x]
            == if x < Columns(width) then src[r * (2 * width * step) + 2 * x + odd] else was[r * stride + x]
  {
    Position(r * stride + x, r * stride, r, stride);
  }

  lemma NoRows(was: seq<Byte>, src: seq<Byte>, stride: nat, width: nat, step: nat, odd: nat)
    requires stride > 0
    ensures PlaneDone(was, was, src, stride, width, 0, step, odd)
  {
    forall i | 0 <= i < |was| ensures was[i] == PixelAt(was, src, i, stride, width, 0, step, odd) {
      NoRowAt(was, src, i, stride, width, 0, step, odd);
    }
  }

  lemma NoRowAt(was: seq<Byte>, src: seq<Byte>, i: nat, stride: nat, width: nat, rows: nat, step: nat, odd: nat)
    requires i < |was| && stride > 0 && rows == 0
    ensures PixelAt(was, src, i, stride, width, rows, step, odd) == was[i]
  {
    assert i / stride >= 0;
  }

  /** Rows that are converted: an odd last one counts as a pair. */
  function Rows(height: nat): nat {
    height + height % 2
  }

  /** Room for the rows in a buffer: the last one may end with its columns. */
  ghost predicate HasRows(length: nat, rows: nat, stride: nat, columns: nat) {
    rows == 0 || (rows - 1) * stride + columns <= length
  }

  /** The loop over pairs of rows: every byte of both planes is the byte of its pixel, and
      padding and what lies below are as they were. */
  method Copy422ToNV12(dstY: array<Byte>, dstUV: array<Byte>, srcY: array<Byte>, srcWidth: nat, dstWidth: nat,
                       height: nat, strideY: nat, strideUV: nat, sse2: bool)
    requires srcY != dstY && srcY != dstUV && dstY != dstUV && (sse2 ==> srcWidth >= 15) && 0 < srcWidth <= dstWidth
    requires HasRows(srcY.Length, Rows(height), 2 * srcWidth, 2 * Columns(srcWidth))
    requires HasRows(dstY.Length, Rows(height), strideY + dstWidth, Columns(srcWidth))
    requires HasRows(dstUV.Length, Rows(height) / 2, strideUV + dstWidth, Columns(srcWidth))
    modifies dstY, dstUV
    ensures PlaneDone(dstY[..], old(dstY[..]), srcY[..], strideY + dstWidth, srcWidth, Rows(height), 1, 0)
    ensures PlaneDone(dstUV[..], old(dstUV[..]), srcY[..], strideUV + dstWidth, srcWidth, Rows(height) / 2, 2, 1)
  {
    ghost var wasY, wasUV, src := dstY[..], dstUV[..], srcY[..];
    var sy, suv := strideY + dstWidth, strideUV + dstWidth;
    var from, y, uv := 0, 0, 0;
    NoRows(wasY, src, sy, srcWidth, 1, 0);
    NoRows(wasUV, src, suv, srcWidth, 2, 1);
    var line := 0;
    while line < height
      invariant line % 2 == 0 && line <= Rows(height)
      invariant from == line * (2 * srcWidth) && y == line * sy && uv == line / 2 * suv
      invariant PlaneDone(dstY[..], wasY, src, sy, srcWidth, line, 1, 0)
      invariant PlaneDone(dstUV[..], wasUV, src, suv, srcWidth, line / 2, 2, 1)
    {
      NextPair(line, 2 * srcWidth, sy, suv);
      PairBelow(line, height);
      PairFits(srcY.Length, Rows(height), 2 * srcWidth, 2 * Columns(srcWidth), line);
      PairFits(dstY.Length, Rows(height), sy, Columns(srcWidth), line);
      RowFits(dstUV.Length, Rows(height) / 2, suv, Columns(srcWidth), line / 2);
      from, y, uv := RowPair(dstY, dstUV, srcY, from, y, uv, line, srcWidth, sy, suv, sse2, wasY, wasUV, src);
      line := line + 2;
    }
    LastPair(line, height);
  }

  lemma PairBelow(line: nat, height: nat)
    requires line % 2 == 0 && line < height
    ensures line + 2 <= Rows(height) && (line + 2) % 2 == 0
    ensures line / 2 < Rows(height) / 2 && line / 2 + 1 == (line + 2) / 2
  {
  }

  lemma LastPair(line: nat, height: nat)
    requires line % 2 == 0 && height <= line <= Rows(height)
    ensures line == Rows(height)
  {
  }

  /** One turn of the loop: an even row to both planes, the odd row below it to the first. */
  method RowPair(dstY: array<Byte>, dstUV: array<Byte>, srcY: array<Byte>, from: nat, y: nat, uv: nat, ghost line: nat,
                 width: nat, sy: nat, suv: nat, sse2: bool,
                 ghost wasY: seq<Byte>, ghost wasUV: seq<Byte>, ghost src: seq<Byte>)
      returns (from': nat, y': nat, uv': nat)
    requires srcY != dstY && srcY != dstUV && dstY != dstUV
    requires (sse2 ==> width >= 15) && Columns(width) <= sy && Columns(width) <= suv
    requires src == srcY[..] && line % 2 == 0 && from == line * (2 * width) && y == line * sy && uv == line / 2 * suv
    requires from + 2 * width + 2 * Columns(width) <= srcY.Length
    requires y + sy + Columns(width) <= dstY.Length && uv + Columns(width) <= dstUV.Length
    requires PlaneDone(dstY[..], wasY, src, sy, width, line, 1, 0)
    requires PlaneDone(dstUV[..], wasUV, src, suv, width, line / 2, 2, 1)
    modifies dstY, dstUV
    ensures from' == from + 2 * width + 2 * width && y' == y + sy + sy && uv' == uv + suv
    ensures PlaneDone(dstY[..], wasY, src, sy, width, line + 2, 1, 0)
    ensures PlaneDone(dstUV[..], wasUV, src, suv, width, line / 2 + 1, 2, 1)
  {
    FirstRow(dstY, dstUV, srcY, from, y, uv, line, width, sy, suv, sse2, wasY, wasUV, src);
    from', y', uv' := from + 2 * width, y + sy, uv + suv;
    NextPair(line, 2 * width, sy, suv);
    SecondRow(dstY, srcY, from', y', line + 1, width, sy, sse2, wasY, src);
    from', y' := from' + 2 * width, y' + sy;
  }

  lemma NextPair(line: nat, w: nat, sy: nat, suv: nat)
    requires line % 2 == 0
    ensures (line + 1) * w == line * w + w && (line + 1) * sy == line * sy + sy
    ensures (line + 2) * w == line * w + w + w && (line + 2) * sy == line * sy + sy + sy
    ensures (line + 2) / 2 == line / 2 + 1 && (line + 2) / 2 * suv == line / 2 * suv + suv
  {
  }

  lemma RowFits(length: nat, rows: nat, stride: nat, columns: nat, r: nat)
    requires HasRows(length, rows, stride, columns) && r < rows
    ensures r * stride + columns <= length
  {
    Order(r, rows - 1, stride);
  }

  lemma PairFits(length: nat, rows: nat, stride: nat, columns: nat, r: nat)
    requires HasRows(length, rows, stride, columns) && r + 1 < rows
    ensures r * stride + columns <= length && r * stride + stride + columns <= length
  {
    RowFits(length, rows, stride, columns, r);
    RowFits(length, rows, stride, columns, r + 1);
    assert (r + 1) * stride == r * stride + stride;
  }

  /** Row `line` to both planes. */
  method FirstRow(dstY: array<Byte>, dstUV: array<Byte>, srcY: array<Byte>, from: nat, y: nat, uv: nat,
                  ghost line: nat, width: nat, ghost sy: nat, ghost suv: nat, sse2: bool,
                  ghost wasY: seq<Byte>, ghost wasUV: seq<Byte>, ghost src: seq<Byte>)
    requires srcY != dstY && srcY != dstUV && dstY != dstUV
    requires (sse2 ==> width >= 15) && Columns(width) <= sy && Columns(width) <= suv
    requires src == srcY[..] && line % 2 == 0 && from == line * (2 * width) && y == line * sy && uv == line / 2 * suv
    requires from + 2 * Columns(width) <= srcY.Length
    requires y + Columns(width) <= dstY.Length && uv + Columns(width) <= dstUV.Length
    requires PlaneDone(dstY[..], wasY, src, sy, width, line, 1, 0)
    requires PlaneDone(dstUV[..], wasUV, src, suv, width, line / 2, 2, 1)
    modifies dstY, dstUV
    ensures PlaneDone(dstY[..], wasY, src, sy, width, line + 1, 1, 0)
    ensures PlaneDone(dstUV[..], wasUV, src, suv, width, line / 2 + 1, 2, 1)
  {
    ghost var nowY, nowUV := dstY[..], dstUV[..];
    ghost var row := src[from..from + 2 * Columns(width)];
    BothRow(srcY, from, width, sse2, dstY, y, dstUV, uv, row);
    RowStarts(line, width);
    PlaneMore(nowY, dstY[..], wasY, src, row, y, from, sy, width, line, 1, 0);
    PlaneMore(nowUV, dstUV[..], wasUV, src, row, uv, from, suv, width, line / 2, 2, 1);
  }

  lemma RowStarts(line: nat, width: nat)
    ensures line * (2 * width * 1) == line * (2 * width)
    ensures line % 2 == 0 ==> line / 2 * (2 * width * 2) == line * (2 * width)
  {
    if line % 2 == 0 {
      var h := line / 2;
      assert line == 2 * h;
      assert h * (2 * width * 2) == 2 * h * (2 * width);
    }
  }

  /** Row `line` to the luma plane. */
  method SecondRow(dstY: array<Byte>, srcY: array<Byte>, from: nat, y: nat, ghost line: nat, width: nat, ghost sy: nat,
                   sse2: bool, ghost wasY: seq<Byte>, ghost src: seq<Byte>)
    requires srcY != dstY && (sse2 ==> width >= 15) && Columns(width) <= sy
    requires src == srcY[..] && from == line * (2 * width) && y == line * sy
    requires from + 2 * Columns(width) <= srcY.Length && y + Columns(width) <= dstY.Length
    requires PlaneDone(dstY[..], wasY, src, sy, width, line, 1, 0)
    modifies dstY
    ensures PlaneDone(dstY[..], wasY, src, sy, width, line + 1, 1, 0)
  {
    ghost var nowY := dstY[..];
    ghost var row := src[from..from + 2 * Columns(width)];
    LumaRow(srcY, from, width, sse2, dstY, y, row);
    RowStarts(line, width);
    PlaneMore(nowY, dstY[..], wasY, src, row, y, from, sy, width, line, 1, 0);
  }
}
