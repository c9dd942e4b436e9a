/**
 AVC length prefixes to start codes (DtsAddH264SCode): what one call makes of a
 chunk, and what a stream of NAL units becomes.
 */
module AvcStartCode {
  import opened Bytes

  const START: seq<Byte> := [0, 0, 0, 1]

  datatype Outcome =
    | Converted(out: seq<Byte>, carry: nat)  // the new data, and what is missing of the last NAL unit
    | AlreadyByteStream                      // a length of 1: conversion is switched off
    | TooShort                               // no room for a length and a byte behind it

  /** m_lStartCodeDataSize after the size loop. */
  function BigEndian(s: seq<Byte>): nat {
    if s == [] then 0 else BigEndian(s[..|s| - 1]) * 256 + s[|s| - 1]
  }

  /** The outcome with `out` in front of what it produced. */
  function Behind(out: seq<Byte>, o: Outcome): Outcome {
    if o.Converted? then Converted(out + o.out, o.carry) else o
  }

  /** The conversion loop on what remains of a chunk of `n` bytes, `carry` bytes of
      which belong to the NAL unit begun before.  A length that is not below `n` is
      neither consumed nor replaced. */
  function Convert(carry: nat, s: seq<Byte>, n: nat, sz: nat): Outcome
    requires 0 < sz && |s| <= n
    decreases |s|, if carry == 0 then 1 else 0
  {
    if carry != 0 && carry >= |s| then Converted(s, carry - |s|)
    else if carry != 0 then Behind(s[..carry], Convert(0, s[carry..], n, sz))
    else if |s| <= sz then TooShort
    else
      var size := BigEndian(s[..sz]);
      if size == 1 then AlreadyByteStream
      else if size < n then Behind(START, Convert(size, s[sz..], n, sz))
      else Convert(size, s, n, sz)
  }

  // ----- streams of NAL units -----

  type Nal = seq<Byte>

  function Encode(n: nat, sz: nat): seq<Byte>
    decreases sz
  {
    if sz == 0 then [] else Encode(n / 256, sz - 1) + [n % 256]
  }

  function Pow256(sz: nat): nat {
    if sz == 0 then 1 else 256 * Pow256(sz - 1)
  }

  /** A NAL unit behind its length. */
  function PackedNal(nal: Nal, sz: nat): seq<Byte> {
    Encode(|nal|, sz) + nal
  }

  function Packed(nals: seq<Nal>, sz: nat): seq<Byte> {
    if nals == [] then [] else PackedNal(nals[0], sz) + Packed(nals[1..], sz)
  }

  /** Byte stream format: each NAL unit behind a start code. */
  function ByteStream(nals: seq<Nal>): seq<Byte> {
    if nals == [] then [] else START + nals[0] + ByteStream(nals[1..])
  }

  lemma {:induction false} EncodeLength(n: nat, sz: nat)
    ensures |Encode(n, sz)| == sz
  {
    if sz > 0 {
      EncodeLength(n / 256, sz - 1);
    }
  }

  lemma {:induction false} BigEndianEncode(n: nat, sz: nat)
    requires n < Pow256(sz)
    ensures BigEndian(Encode(n, sz)) == n
  {
    if sz > 0 {
      BigEndianEncode(n / 256, sz - 1);
      var e := Encode(n / 256, sz - 1) + [n % 256];
      assert e[..|e| - 1] == Encode(n / 256, sz - 1);
    }
  }

  lemma {:induction false} StreamLength(nals: seq<Nal>, sz: nat)
    requires sz <= 4
    ensures |ByteStream(nals)| == |Packed(nals, sz)| + (4 - sz) * |nals|
  {
    if nals != [] {
      EncodeLength(|nals[0]|, sz);
      StreamLength(nals[1..], sz);
      assert (4 - sz) * |nals| == (4 - sz) * |nals[1..]| + (4 - sz);
    }
  }

  ghost predicate Lengths(nals: seq<Nal>, sz: nat) {
    forall nal <- nals :: |nal| < Pow256(sz)
  }

  /** One whole NAL unit at the head of what remains. */
  lemma ConvertNal(nal: Nal, rest: seq<Byte>, n: nat, sz: nat)
    requires 0 < sz && |nal| < Pow256(sz) && |PackedNal(nal, sz) + rest| <= n
    ensures var s := PackedNal(nal, sz) + rest;
            Convert(0, s, n, sz) ==
              if nal + rest == [] then TooShort
              else if |nal| == 1 then AlreadyByteStream
              else if rest == [] then Converted(START + nal, 0)
              else Behind(START + nal, Convert(0, rest, n, sz))
  {
    EncodeLength(|nal|, sz);
    BigEndianEncode(|nal|, sz);
    var s := PackedNal(nal, sz) + rest;
    assert s[..sz] == Encode(|nal|, sz);
    assert s[sz..] == nal + rest;
    if nal + rest != [] && |nal| != 1 {
      var t := nal + rest;
      if rest == [] {
        assert t == nal;
        assert Convert(|nal|, t, n, sz) == Converted(nal, 0);
      } else {
        assert t[..|nal|] == nal && t[|nal|..] == rest;
        BehindTwice(START, nal, Convert(0, rest, n, sz));
        if nal == [] {
          assert t == rest && START + nal == START;
        } else {
          assert Convert(|nal|, t, n, sz) == Behind(nal, Convert(0, rest, n, sz));
        }
      }
    }
  }

  lemma BehindTwice(a: seq<Byte>, b: seq<Byte>, o: Outcome)
    ensures Behind(a, Behind(b, o)) == Behind(a + b, o)
  {
    if o.Converted? {
      assert a + (b + o.out) == (a + b) + o.out;
    }
  }

  /** A chunk of whole NAL units is converted to byte stream format exactly when no unit
      has one byte and the last one is not empty; a unit of one byte is taken for a start
      code, an empty last unit for a missing one. */
  lemma {:induction false} ConvertUnits(nals: seq<Nal>, n: nat, sz: nat)
    requires 0 < sz && Lengths(nals, sz) && |Packed(nals, sz)| <= n
    ensures Convert(0, Packed(nals, sz), n, sz) ==
              if exists nal <- nals :: |nal| == 1 then AlreadyByteStream
              else if nals == [] || nals[|nals| - 1] == [] then TooShort
              else Converted(ByteStream(nals), 0)
  {
    if nals != [] {
      var nal, rest := nals[0], nals[1..];
      EncodeLength(|nal|, sz);
      ConvertNal(nal, Packed(rest, sz), n, sz);
      ConvertUnits(rest, n, sz);
      if rest == [] {
        assert ByteStream(nals) == START + nal;
      } else {
        EncodeLength(|rest[0]|, sz);
        assert nals[|nals| - 1] == rest[|rest| - 1];
      }
    }
  }

  // ----- units divided between calls -----

  /** The units of a chunk that something follows. */
  lemma {:induction false} ConvertFollowed(nals: seq<Nal>, rest: seq<Byte>, n: nat, sz: nat)
    requires 0 < sz && Lengths(nals, sz) && |Packed(nals, sz) + rest| <= n && rest != []
    requires forall nal <- nals :: |nal| != 1
    ensures Convert(0, Packed(nals, sz) + rest, n, sz) == Behind(ByteStream(nals), Convert(0, rest, n, sz))
  {
    if nals == [] {
      assert Packed(nals, sz) + rest == rest;
      BehindNothing(Convert(0, rest, n, sz));
    } else {
      var nal, more := nals[0], nals[1..];
      EncodeLength(|nal|, sz);
      assert Packed(nals, sz) + rest == PackedNal(nal, sz) + (Packed(more, sz) + rest);
      ConvertNal(nal, Packed(more, sz) + rest, n, sz);
      ConvertFollowed(more, rest, n, sz);
      BehindTwice(START + nal, ByteStream(more), Convert(0, rest, n, sz));
    }
  }

  lemma BehindNothing(o: Outcome)
    ensures Behind([], o) == o
  {
    if o.Converted? {
      assert [] + o.out == o.out;
    }
  }

  /** A unit begun in a chunk and not ended: its length is replaced, and what is missing
      carried over, exactly when the length is below the size of the chunk. */
  lemma ConvertBegun(nal: Nal, k: nat, n: nat, sz: nat)
    requires 0 < sz && |nal| < Pow256(sz) && 0 < k < |nal| && sz + k <= n
    ensures |Encode(|nal|, sz) + nal[..k]| == sz + k
    ensures Convert(0, Encode(|nal|, sz) + nal[..k], n, sz) ==
              if |nal| < n then Converted(START + nal[..k], |nal| - k)
              else Converted(Encode(|nal|, sz) + nal[..k], |nal| - k - sz)
  {
    EncodeLength(|nal|, sz);
    BigEndianEncode(|nal|, sz);
    var s := Encode(|nal|, sz) + nal[..k];
    assert s[..sz] == Encode(|nal|, sz) && s[sz..] == nal[..k];
    if |nal| < n {
      assert Convert(|nal|, nal[..k], n, sz) == Converted(nal[..k], |nal| - k);
    }
  }

  /** Where a call's chunk ends: within the unit it began in, or after `units` whole
      units and the first `part` bytes of the next. */
  datatype Cut = Within(len: nat) | After(units: nat, part: nat)

  predicate CutFits(tail: Nal, nals: seq<Nal>, cut: Cut, sz: nat) {
    match cut
    case Within(len) => 0 < len <= |tail|
    case After(units, part) =>
      && units <= |nals|
      && (part == 0 ==> tail != [] || units > 0)
      && (part == 0 && units > 0 ==> nals[units - 1] != [])
      && (part > 0 ==> units < |nals| && part < |nals[units]| && |nals[units]| < |ChunkOf(tail, nals, cut, sz)|)
  }

  function ChunkOf(tail: Nal, nals: seq<Nal>, cut: Cut, sz: nat): seq<Byte> {
    match cut
    case Within(len) => if len <= |tail| then tail[..len] else tail
    case After(units, part) =>
      if units < |nals| && part <= |nals[units]| && part > 0
      then tail + (Packed(nals[..units], sz) + (Encode(|nals[units]|, sz) + nals[units][..part]))
      else if units <= |nals| then tail + Packed(nals[..units], sz)
      else []
  }

  /** What is left of the unit the chunk ends in, and the units behind it. */
  function Left(tail: Nal, nals: seq<Nal>, cut: Cut, sz: nat): (Nal, seq<Nal>)
    requires CutFits(tail, nals, cut, sz)
  {
    match cut
    case Within(len) => (tail[len..], nals)
    case After(units, part) =>
      if part == 0 then ([], nals[units..]) else (nals[units][part..], nals[units + 1..])
  }

  /** The chunk's share of the byte stream. */
  function ShareOf(tail: Nal, nals: seq<Nal>, cut: Cut, sz: nat): seq<Byte>
    requires CutFits(tail, nals, cut, sz)
  {
    match cut
    case Within(len) => tail[..len]
    case After(units, part) =>
      tail + (ByteStream(nals[..units]) + if part == 0 then [] else START + nals[units][..part])
  }

  ghost predicate NoTinyUnit(nals: seq<Nal>) {
    forall nal <- nals :: |nal| != 1
  }

  lemma ConvertTail(tail: Nal, rest: seq<Byte>, n: nat, sz: nat)
    requires 0 < sz && |tail + rest| <= n && rest != []
    ensures Convert(|tail|, tail + rest, n, sz) == Behind(tail, Convert(0, rest, n, sz))
  {
    if tail == [] {
      assert tail + rest == rest;
      BehindNothing(Convert(0, rest, n, sz));
    } else {
      assert (tail + rest)[..|tail|] == tail && (tail + rest)[|tail|..] == rest;
    }
  }

  /** One call on a chunk cut this way gives the chunk's share and carries the rest. */
  lemma ConvertChunk(tail: Nal, nals: seq<Nal>, cut: Cut, sz: nat)
    requires 0 < sz && Lengths(nals, sz) && NoTinyUnit(nals) && CutFits(tail, nals, cut, sz)
    ensures var c := ChunkOf(tail, nals, cut, sz);
            Convert(|tail|, c, |c|, sz) == Converted(ShareOf(tail, nals, cut, sz), |Left(tail, nals, cut, sz).0|)
  {
    var c := ChunkOf(tail, nals, cut, sz);
    match cut
    case Within(len) =>
    case After(units, part) =>
      var whole := nals[..units];
      if part > 0 {
        ConvertDivided(tail, whole, nals[units], part, sz);
      } else if units > 0 {
        EncodeLength(|whole[0]|, sz);
        ConvertTail(tail, Packed(whole, sz), |c|, sz);
        ConvertUnits(whole, |c|, sz);
        assert ByteStream(whole) + [] == ByteStream(whole);
      } else {
        assert c == tail;
      }
  }

  lemma ConvertDivided(tail: Nal, whole: seq<Nal>, nal: Nal, k: nat, sz: nat)
    requires 0 < sz && Lengths(whole, sz) && NoTinyUnit(whole) && 0 < k < |nal| < Pow256(sz)
    requires |nal| < |tail + (Packed(whole, sz) + (Encode(|nal|, sz) + nal[..k]))|
    ensures var c := tail + (Packed(whole, sz) + (Encode(|nal|, sz) + nal[..k]));
            Convert(|tail|, c, |c|, sz) == Converted(tail + (ByteStream(whole) + (START + nal[..k])), |nal| - k)
  {
    var begun := Encode(|nal|, sz) + nal[..k];
    var n := |tail + (Packed(whole, sz) + begun)|;
    EncodeLength(|nal|, sz);
    ConvertTail(tail, Packed(whole, sz) + begun, n, sz);
    ConvertFollowed(whole, begun, n, sz);
    ConvertBegun(nal, k, n, sz);
  }

  // ----- whole streams -----

  /** Calls on chunk after chunk; None when one of them does not convert. */
  function Feed(carry: nat, chunks: seq<seq<Byte>>, sz: nat): Option<seq<Byte>>
    requires 0 < sz
    decreases chunks
  {
    if chunks == [] then Some([])
    else match Convert(carry, chunks[0], |chunks[0]|, sz)
      case Converted(out, carry') =>
        (match Feed(carry', chunks[1..], sz) case None => None case Some(more) => Some(out + more))
      case _ => None
  }

  /** The cuts divide all that is left of the stream. */
  predicate CutsFit(tail: Nal, nals: seq<Nal>, cuts: seq<Cut>, sz: nat)
    decreases cuts
  {
    if cuts == [] then tail == [] && nals == []
    else if !CutFits(tail, nals, cuts[0], sz) then false
    else var (tail', nals') := Left(tail, nals, cuts[0], sz); CutsFit(tail', nals', cuts[1..], sz)
  }

  function Chunks(tail: Nal, nals: seq<Nal>, cuts: seq<Cut>, sz: nat): seq<seq<Byte>>
    requires CutsFit(tail, nals, cuts, sz)
    decreases cuts
  {
    if cuts == [] then []
    else
      var (tail', nals') := Left(tail, nals, cuts[0], sz);
      [ChunkOf(tail, nals, cuts[0], sz)] + Chunks(tail', nals', cuts[1..], sz)
  }

  function Flat(chunks: seq<seq<Byte>>): seq<Byte> {
    if chunks == [] then [] else chunks[0] + Flat(chunks[1..])
  }

  lemma PackedSplit(nals: seq<Nal>, k: nat, sz: nat)
    requires k <= |nals|
    ensures Packed(nals, sz) == Packed(nals[..k], sz) + Packed(nals[k..], sz)
    ensures ByteStream(nals) == ByteStream(nals[..k]) + ByteStream(nals[k..])
  {
    assert nals == nals[..k] + nals[k..];
    PackedJoin(nals[..k], nals[k..], sz);
    StreamJoin(nals[..k], nals[k..]);
  }

  lemma {:induction false} PackedJoin(a: seq<Nal>, b: seq<Nal>, sz: nat)
    ensures Packed(a + b, sz) == Packed(a, sz) + Packed(b, sz)
  {
    if a == [] {
      assert a + b == b;
    } else {
      PackedJoin(a[1..], b, sz);
      assert (a + b)[1..] == a[1..] + b;
      Group(PackedNal(a[0], sz), Packed(a[1..], sz), Packed(b, sz));
    }
  }

  lemma {:induction false} StreamJoin(a: seq<Nal>, b: seq<Nal>)
    ensures ByteStream(a + b) == ByteStream(a) + ByteStream(b)
  {
    if a == [] {
      assert a + b == b;
    } else {
      StreamJoin(a[1..], b);
      assert (a + b)[1..] == a[1..] + b;
    }
  }

  /** Each chunk is a piece of the packed stream, and its share a piece of the byte stream. */
  lemma CutIsPiece(tail: Nal, nals: seq<Nal>, cut: Cut, sz: nat)
    requires CutFits(tail, nals, cut, sz)
    ensures var (tail', nals') := Left(tail, nals, cut, sz);
            && tail + Packed(nals, sz) == ChunkOf(tail, nals, cut, sz) + (tail' + Packed(nals', sz))
            && tail + ByteStream(nals) == ShareOf(tail, nals, cut, sz) + (tail' + ByteStream(nals'))
  {
    match cut
    case Within(len) =>
      SplitHead(tail, len, Packed(nals, sz));
      SplitHead(tail, len, ByteStream(nals));
    case After(units, part) =>
      if part > 0 {
        PieceOfUnit(tail, nals, units, part, sz);
      } else {
        PieceBetween(tail, nals, units, sz);
      }
  }

  lemma PieceBetween(tail: Nal, nals: seq<Nal>, units: nat, sz: nat)
    requires units <= |nals|
    ensures tail + Packed(nals, sz) == (tail + Packed(nals[..units], sz)) + ([] + Packed(nals[units..], sz))
    ensures tail + ByteStream(nals) == (tail + (ByteStream(nals[..units]) + [])) + ([] + ByteStream(nals[units..]))
  {
    PackedSplit(nals, units, sz);
    SplitMiddle(tail, Packed(nals[..units], sz), [], [], 0, Packed(nals[units..], sz));
    SplitMiddle(tail, ByteStream(nals[..units]), [], [], 0, ByteStream(nals[units..]));
  }

  lemma PieceOfUnit(tail: Nal, nals: seq<Nal>, units: nat, part: nat, sz: nat)
    requires units < |nals| && 0 < part < |nals[units]|
    ensures var nal, W, B, more := nals[units], Packed(nals[..units], sz), ByteStream(nals[..units]), nals[units + 1..];
            && tail + Packed(nals, sz)
               == (tail + (W + (Encode(|nal|, sz) + nal[..part]))) + (nal[part..] + Packed(more, sz))
            && tail + ByteStream(nals) == (tail + (B + (START + nal[..part]))) + (nal[part..] + ByteStream(more))
  {
    var nal, more := nals[units], nals[units + 1..];
    PackedSplit(nals, units, sz);
    assert nals[units..][1..] == more;
    assert Packed(nals[units..], sz) == (Encode(|nal|, sz) + nal) + Packed(more, sz);
    assert ByteStream(nals[units..]) == (START + nal) + ByteStream(more);
    SplitMiddle(tail, Packed(nals[..units], sz), Encode(|nal|, sz), nal, part, Packed(more, sz));
    SplitMiddle(tail, ByteStream(nals[..units]), START, nal, part, ByteStream(more));
  }

  lemma SplitHead(tail: seq<Byte>, len: nat, rest: seq<Byte>)
    requires len <= |tail|
    ensures tail + rest == tail[..len] + (tail[len..] + rest)
  {
  }

  lemma SplitMiddle(tail: seq<Byte>, whole: seq<Byte>, head: seq<Byte>, nal: Nal, k: nat, more: seq<Byte>)
    requires k <= |nal|
    ensures tail + (whole + ((head + nal) + more)) == (tail + (whole + (head + nal[..k]))) + (nal[k..] + more)
  {
  }

  lemma LeftLengths(tail: Nal, nals: seq<Nal>, cut: Cut, sz: nat)
    requires CutFits(tail, nals, cut, sz) && Lengths(nals, sz) && NoTinyUnit(nals)
    ensures var (_, nals') := Left(tail, nals, cut, sz); Lengths(nals', sz) && NoTinyUnit(nals')
  {
  }

  /** A stream of units, none of one byte, that is cut within units or between them, so
      that each unit is shorter than the chunk it begins in, becomes the byte stream of
      the same units; nothing depends on where the cuts are. */
  lemma {:induction false} StreamConverts(tail: Nal, nals: seq<Nal>, cuts: seq<Cut>, sz: nat)
    requires 0 < sz && Lengths(nals, sz) && NoTinyUnit(nals) && CutsFit(tail, nals, cuts, sz)
    ensures Flat(Chunks(tail, nals, cuts, sz)) == tail + Packed(nals, sz)
    ensures Feed(|tail|, Chunks(tail, nals, cuts, sz), sz) == Some(tail + ByteStream(nals))
    decreases cuts
  {
    if cuts != [] {
      var cut := cuts[0];
      var (tail', nals') := Left(tail, nals, cut, sz);
      ConvertChunk(tail, nals, cut, sz);
      LeftLengths(tail, nals, cut, sz);
      StreamConverts(tail', nals', cuts[1..], sz);
      CutIsPiece(tail, nals, cut, sz);
      var chunks := Chunks(tail, nals, cuts, sz);
      assert chunks[1..] == Chunks(tail', nals', cuts[1..], sz);
    }
  }

  /** The length condition is needed: a unit begun in a chunk no longer than the unit
      keeps its length bytes. */
  lemma BegunUnitConvertsIff(units: seq<Nal>, nal: Nal, k: nat, sz: nat)
    requires 0 < sz <= 4 && Lengths(units, sz) && NoTinyUnit(units) && |nal| < Pow256(sz) && 0 < k < |nal|
    ensures var chunk := Packed(units, sz) + (Encode(|nal|, sz) + nal[..k]);
            |nal| < |chunk| <==>
              Convert(0, chunk, |chunk|, sz) == Converted(ByteStream(units) + (START + nal[..k]), |nal| - k)
  {
    var begun := Encode(|nal|, sz) + nal[..k];
    var n := |Packed(units, sz) + begun|;
    EncodeLength(|nal|, sz);
    ConvertFollowed(units, begun, n, sz);
    ConvertBegun(nal, k, n, sz);
  }

  // ----- any chunk -----

  /** A chunk that ends in a length field, or right behind it, has no room for the unit. */
  lemma EndsInLength(units: seq<Nal>, begun: seq<Byte>, n: nat, sz: nat)
    requires 0 < sz && Lengths(units, sz) && NoTinyUnit(units) && 0 < |begun| <= sz && |Packed(units, sz) + begun| <= n
    ensures Convert(0, Packed(units, sz) + begun, n, sz) == TooShort
  {
    ConvertFollowed(units, begun, n, sz);
  }

  /** A chunk that ends `j` bytes into a packed unit, or with it, converts to its share if
      and only if it reaches behind the length field and is longer than the unit; in the
      length field or right behind it, the call fails. */
  lemma ChunkConvertsIff(tail: Nal, units: seq<Nal>, nal: Nal, j: nat, c: seq<Byte>, sz: nat)
    requires 0 < sz <= 4 && Lengths(units, sz) && NoTinyUnit(units) && |nal| < Pow256(sz) && |nal| != 1
    requires 0 < j <= |PackedNal(nal, sz)| && c == tail + (Packed(units, sz) + PackedNal(nal, sz)[..j])
    ensures j <= sz ==> Convert(|tail|, c, |c|, sz) == TooShort
    ensures j > sz ==> j - sz <= |nal|
    ensures j > sz ==> var share := tail + (ByteStream(units) + (START + nal[..j - sz]));
                       |nal| < |c| <==> Convert(|tail|, c, |c|, sz) == Converted(share, |nal| + sz - j)
  {
    var begun := PackedNal(nal, sz)[..j];
    EncodeLength(|nal|, sz);
    ConvertTail(tail, Packed(units, sz) + begun, |c|, sz);
    if j <= sz {
      EndsInLength(units, begun, |c|, sz);
    } else {
      BegunAt(nal, j, begun, sz);
      ConvertFollowed(units, begun, |c|, sz);
      ConvertPart(nal, j - sz, begun, |c|, sz);
      BehindTwice(tail, ByteStream(units), Convert(0, begun, |c|, sz));
      Group(tail, ByteStream(units), START + nal[..j - sz]);
    }
  }

  lemma BegunAt(nal: Nal, j: nat, begun: seq<Byte>, sz: nat)
    requires sz < j <= |PackedNal(nal, sz)| && begun == PackedNal(nal, sz)[..j]
    ensures |PackedNal(nal, sz)| == sz + |nal| && begun == Encode(|nal|, sz) + nal[..j - sz]
  {
    EncodeLength(|nal|, sz);
  }

  /** The last unit of a chunk, whole or not. */
  lemma ConvertPart(nal: Nal, k: nat, begun: seq<Byte>, n: nat, sz: nat)
    requires 0 < sz <= 4 && |nal| < Pow256(sz) && |nal| != 1 && 0 < k <= |nal|
    requires begun == Encode(|nal|, sz) + nal[..k] && |begun| == sz + k <= n
    ensures |nal| < n ==> Convert(0, begun, n, sz) == Converted(START + nal[..k], |nal| - k)
    ensures |nal| >= n ==> Convert(0, begun, n, sz) == Converted(begun, |nal| - k - sz)
  {
    EncodeLength(|nal|, sz);
    if k < |nal| {
      ConvertBegun(nal, k, n, sz);
    } else {
      assert nal[..k] == nal && begun + [] == begun;
      ConvertNal(nal, [], n, sz);
    }
  }

  /** There are no other chunks: the first `m` bytes of what is left of a stream end in the
      unit the chunk begins in, or so far into a packed unit. */
  lemma {:induction false} ChunkEnds(nals: seq<Nal>, m: nat, sz: nat) returns (units: nat, j: nat)
    requires 0 < m <= |Packed(nals, sz)|
    ensures units < |nals| && 0 < j <= |PackedNal(nals[units], sz)|
    ensures Packed(nals, sz)[..m] == Packed(nals[..units], sz) + PackedNal(nals[units], sz)[..j]
  {
    var first, rest := PackedNal(nals[0], sz), Packed(nals[1..], sz);
    if m <= |first| {
      units, j := 0, m;
      assert nals[..0] == [] && (first + rest)[..m] == first[..m];
    } else {
      units, j := ChunkEnds(nals[1..], m - |first|, sz);
      assert nals[..units + 1][1..] == nals[1..][..units];
      assert (first + rest)[..m] == first + rest[..m - |first|];
      Group(first, Packed(nals[1..][..units], sz), PackedNal(nals[1..][units], sz)[..j]);
      units := units + 1;
    }
  }
}
