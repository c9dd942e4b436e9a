/**
 PES packets as DtsAlignSendData builds them, and a reader after section 2.4.3.6 of
 ISO/IEC 13818-1.
 */
module Pes {
  import opened Bytes
  import opened HexBits

  const MAX_RE_PES_BOUND: nat := 0xFFF0

  /** What the first packet of a call may carry besides the time stamp. */
  datatype Extras = Extras(priv: Option<seq<Byte>>, ext: Option<seq<Byte>>, stuffing: nat)

  const NONE: Extras := Extras(None, None, 0)

  /** 16 bytes of private data, a length of the extension that fits its field, and a
      header that the 8-bit cursor can pass. */
  predicate IsExtras(ex: Extras) {
    && (ex.priv.Some? ==> |ex.priv.value| == 16)
    && (ex.ext.Some? ==> |ex.ext.value| < 128)
    && HeaderSize(Some(0), ex) <= 246
  }

  // ----- the time stamp -----

  /** Byte `k` of the eight, most significant first. */
  function PtsByte(pts: nat, k: nat): Byte
    requires k < 8
  {
    if k == 3 then pts / 0x1_0000_0000 % 256
    else if k == 4 then pts / 0x100_0000 % 256
    else if k == 5 then pts / 0x1_0000 % 256
    else if k == 6 then pts / 0x100 % 256
    else if k == 7 then pts % 256
    else if k == 2 then pts / 0x100_0000_0000 % 256
    else if k == 1 then pts / 0x1_0000_0000_0000 % 256
    else pts / 0x100_0000_0000_0000 % 256
  }

  /** PTS2MakerBit5Bytes: 33 bits and three marker bits. */
  function PtsBytes(pts: nat): (s: seq<Byte>)
    ensures |s| == 5
  {
    var b3, b4, b5, b6, b7 := PtsByte(pts, 3), PtsByte(pts, 4), PtsByte(pts, 5), PtsByte(pts, 6), PtsByte(pts, 7);
    [0x21 + b3 % 2 * 8 + b4 / 64 * 2,
     b4 % 64 * 4 + b5 / 64,
     1 + b5 % 64 * 4 + b6 / 128 * 2,
     b6 % 128 * 2 + b7 / 128,
     1 + b7 % 128 * 2]
  }

  /** The time stamp in the five bytes. */
  function PtsOf(s: seq<Byte>): nat
    requires |s| == 5
  {
    var s0: nat, s1: nat, s2: nat, s3: nat, s4: nat := s[0], s[1], s[2], s[3], s[4];
    s0 / 2 % 8 * 0x4000_0000 + s1 * 0x40_0000 + s2 / 2 * 0x8000 + s3 * 0x80 + s4 / 2
  }

  /** The 33 bits come back, and prefix and markers are in place. */
  lemma PtsRoundTrip(pts: nat)
    ensures PtsOf(PtsBytes(pts)) == pts % 0x2_0000_0000
    ensures PtsBytes(pts)[0] / 16 == 2 && PtsBytes(pts)[0] % 2 == PtsBytes(pts)[2] % 2 == PtsBytes(pts)[4] % 2 == 1
  {
    var b3, b4, b5, b6, b7 := PtsByte(pts, 3), PtsByte(pts, 4), PtsByte(pts, 5), PtsByte(pts, 6), PtsByte(pts, 7);
    LowBytes(pts);
    Repacked(b3, b4, b5, b6, b7);
  }

  lemma LowBytes(pts: nat)
    ensures pts % 0x2_0000_0000
            == PtsByte(pts, 3) % 2 * 0x1_0000_0000 + PtsByte(pts, 4) * 0x100_0000 + PtsByte(pts, 5) * 0x1_0000
               + PtsByte(pts, 6) * 0x100 + PtsByte(pts, 7)
  {
    var p1, p2, p3, p4 := pts / 0x100, pts / 0x1_0000, pts / 0x100_0000, pts / 0x1_0000_0000;
    NextByte(pts, 0x100);
    NextByte(pts, 0x1_0000);
    NextByte(pts, 0x100_0000);
    var low := p4 % 2 * 0x1_0000_0000 + p3 % 256 * 0x100_0000 + p2 % 256 * 0x1_0000 + p1 % 256 * 0x100 + pts % 256;
    assert p4 == p4 / 2 * 2 + p4 % 2;
    assert pts == p1 * 0x100 + pts % 256;
    assert pts == p4 / 2 * 0x2_0000_0000 + low;
    QuotientUnique(pts, p4 / 2, low, 0x2_0000_0000);
    Even(p4);
  }

  lemma Even(x: nat)
    ensures x % 256 % 2 == x % 2
  {
  }

  lemma NextByte(x: nat, p: nat)
    requires p > 0
    ensures x / p == x / (p * 256) * 256 + x / p % 256
  {
    var q, r := x / p / 256, x / p % 256;
    assert x == x / p * p + x % p;
    assert x / p == q * 256 + r;
    Recombine(x, q, r, x % p, p);
    QuotientUnique(x, q, r * p + x % p, p * 256);
  }

  lemma Recombine(x: nat, q: nat, r: nat, m: nat, p: nat)
    requires x == (q * 256 + r) * p + m && r < 256 && m < p
    ensures x == q * (p * 256) + (r * p + m) && r * p + m < p * 256
  {
    AtMostTimes(r, 255, p);
    Distribute(q * 256, r, p);
    Reorder(q, p);
  }

  lemma AtMostTimes(r: nat, m: nat, p: nat)
    requires r <= m
    ensures r * p <= m * p
  {
  }

  lemma Distribute(a: nat, r: nat, p: nat)
    ensures (a + r) * p == a * p + r * p
  {
  }

  lemma Reorder(q: nat, p: nat)
    ensures q * 256 * p == q * (p * 256)
  {
  }

  lemma Repacked(b3: Byte, b4: Byte, b5: Byte, b6: Byte, b7: Byte)
    ensures var s: seq<Byte> := [0x21 + b3 % 2 * 8 + b4 / 64 * 2, b4 % 64 * 4 + b5 / 64,
                                 1 + b5 % 64 * 4 + b6 / 128 * 2, b6 % 128 * 2 + b7 / 128, 1 + b7 % 128 * 2];
            && PtsOf(s) == b3 % 2 * 0x1_0000_0000 + b4 * 0x100_0000 + b5 * 0x1_0000 + b6 * 0x100 + b7
            && s[0] / 16 == 2 && s[0] % 2 == s[2] % 2 == s[4] % 2 == 1
  {
    FirstByte(b3 % 2, b4 / 64);
    var x3, x4, x5, x6, x7: int := b3 % 2, b4, b5, b6, b7;
    assert x4 == x4 / 64 * 64 + x4 % 64 && x5 == x5 / 64 * 64 + x5 % 64;
    assert x6 == x6 / 128 * 128 + x6 % 128 && x7 == x7 / 128 * 128 + x7 % 128;
    Odd(x5 % 64 * 2 + x6 / 128);
    Odd(x7 % 128);
  }

  lemma FirstByte(x: nat, y: nat)
    requires x < 2 && y < 4
    ensures (0x21 + x * 8 + y * 2) / 2 % 8 == x * 4 + y
    ensures (0x21 + x * 8 + y * 2) / 16 == 2 && (0x21 + x * 8 + y * 2) % 2 == 1
  {
  }

  lemma Odd(x: nat)
    ensures (1 + 2 * x) / 2 == x && (1 + 2 * x) % 2 == 1
  {
  }

  // ----- packets -----

  function Fill(n: nat): (s: seq<Byte>)
    ensures |s| == n
  {
    seq(n, _ => 0xFF)
  }

  predicate HasExtension(ex: Extras) {
    ex.priv.Some? || ex.ext.Some?
  }

  /** ulPktHeaderSz */
  function HeaderSize(pts: Option<nat>, ex: Extras): nat {
    (if pts.Some? then 5 else 0) + (if HasExtension(ex) then 1 else 0) + (if ex.priv.Some? then 16 else 0)
    + (if ex.ext.Some? then |ex.ext.value| + 1 else 0) + ex.stuffing
  }

  /** The optional fields behind the fixed part of the header. */
  function HeaderData(pts: Option<nat>, ex: Extras): (s: seq<Byte>)
    requires IsExtras(ex)
    ensures |s| == HeaderSize(pts, ex)
  {
    (if pts.Some? then PtsBytes(pts.value) else [])
    + (if HasExtension(ex) then [(if ex.priv.Some? then 0x80 else 0) + if ex.ext.Some? then 1 else 0] else [])
    + (if ex.priv.Some? then ex.priv.value else [])
    + (if ex.ext.Some? then [0x80 + |ex.ext.value|] + ex.ext.value else [])
    + Fill(ex.stuffing)
  }

  /** Payload bytes of the next packet. */
  function Used(n: nat, pts: Option<nat>, ex: Extras): (k: nat)
    requires HeaderSize(pts, ex) <= 246
    ensures k <= n && (n > 0 ==> k > 0) && k + 3 + HeaderSize(pts, ex) <= MAX_RE_PES_BOUND
  {
    Min(n, MAX_RE_PES_BOUND - 3 - HeaderSize(pts, ex))
  }

  /** The nine bytes in front: stream 0xE0, length, flags, header length. */
  function Fixed(length: nat, pts: bool, ext: bool, header: nat): (s: seq<Byte>)
    requires length < 0x10000 && header < 256
    ensures |s| == 9
  {
    [0, 0, 1, 0xE0, length / 256, length % 256, 0x81, (if pts then 0x80 else 0) + if ext then 1 else 0, header]
  }

  function Packet(pts: Option<nat>, ex: Extras, payload: seq<Byte>): seq<Byte>
    requires IsExtras(ex) && |payload| + 3 + HeaderSize(pts, ex) <= MAX_RE_PES_BOUND
  {
    Fixed(|payload| + 3 + HeaderSize(pts, ex), pts.Some?, HasExtension(ex), HeaderSize(pts, ex))
    + HeaderData(pts, ex) + payload
  }

  /** The packets of one call: only the first has a time stamp and extras. */
  function Packets(data: seq<Byte>, pts: Option<nat>, ex: Extras): seq<seq<Byte>>
    requires IsExtras(ex)
  {
    if data == [] then []
    else
      var k := Used(|data|, pts, ex);
      [Packet(pts, ex, data[..k])] + Packets(data[k..], None, NONE)
  }

  // ----- reading -----

  datatype Read = Read(pts: Option<nat>, ex: Extras, payload: seq<Byte>)

  /** One packet at the front of `s`, by its own flags and length fields. */
  function ReadPacket(s: seq<Byte>): Option<(Read, seq<Byte>)> {
    if |s| < 9 || s[..4] != [0, 0, 1, 0xE0] || s[6] / 64 != 2 then None
    else
      var header: nat := s[8];
      var end, from := 6 + Length(s), 9 + header;
      if end > |s| || from > end then None
      else
        match ReadHeader(s[7], s[9..from])
        case None => None
        case Some((pts, ex)) => Some((Read(pts, ex, s[from..end]), s[end..]))
  }

  /** The optional fields: of those the flags can announce, time stamp and extension. */
  function ReadHeader(flags: Byte, h: seq<Byte>): Option<(Option<nat>, Extras)> {
    if flags != 0x80 && flags != 0x81 && flags != 0 && flags != 1 then None
    else if flags >= 0x80 && |h| < 5 then None
    else
      var pts := if flags >= 0x80 then Some(PtsOf(h[..5])) else None;
      match ReadExtension(flags % 2 == 1, if flags >= 0x80 then h[5..] else h)
      case None => None
      case Some(ex) => Some((pts, ex))
  }

  /** The extension: flags of its own, private data, an extension field; then stuffing. */
  function ReadExtension(flag: bool, h: seq<Byte>): Option<Extras> {
    if !flag then ReadStuffing(None, None, h)
    else if h == [] || h[0] % 0x80 > 1 then None
    else if h[0] < 0x80 then ReadField(None, h[0] % 2 == 1, h[1..])
    else if |h| < 17 then None
    else ReadField(Some(h[1..17]), h[0] % 2 == 1, h[17..])
  }

  /** The extension field, behind a marker bit and its length. */
  function ReadField(priv: Option<seq<Byte>>, flag: bool, h: seq<Byte>): Option<Extras> {
    if !flag then ReadStuffing(priv, None, h)
    else if h == [] || h[0] < 0x80 || |h| < 1 + h[0] % 0x80 then None
    else ReadStuffing(priv, Some(h[1..1 + h[0] % 0x80]), h[1 + h[0] % 0x80..])
  }

  function ReadStuffing(priv: Option<seq<Byte>>, ext: Option<seq<Byte>>, h: seq<Byte>): Option<Extras> {
    if h == Fill(|h|) then Some(Extras(priv, ext, |h|)) else None
  }

  /** PES_packet_length */
  function Length(s: seq<Byte>): nat
    requires |s| >= 6
  {
    var hi: nat, lo: nat := s[4], s[5];
    hi * 256 + lo
  }

  function ReadAll(s: seq<Byte>): Option<seq<Read>>
    decreases |s|
  {
    if s == [] then Some([])
    else
      match ReadPacket(s)
      case None => None
      case Some((r, rest)) =>
        if |rest| >= |s| then None
        else
          match ReadAll(rest)
          case None => None
          case Some(rs) => Some([r] + rs)
  }

  function Joined(packets: seq<seq<Byte>>): seq<Byte> {
    if packets == [] then [] else packets[0] + Joined(packets[1..])
  }

  function Payloads(rs: seq<Read>): seq<Byte> {
    if rs == [] then [] else rs[0].payload + Payloads(rs[1..])
  }

  function Low33(pts: Option<nat>): Option<nat> {
    if pts.Some? then Some(pts.value % 0x2_0000_0000) else None
  }

  // ----- a header is read as it was written -----

  function ExtensionFlags(ex: Extras): Byte {
    (if ex.priv.Some? then 0x80 else 0) + if ex.ext.Some? then 1 else 0
  }

  /** What stands behind the extension's flags. */
  function FieldData(ex: Extras): seq<Byte>
    requires IsExtras(ex)
  {
    (if ex.ext.Some? then [0x80 + |ex.ext.value|] + ex.ext.value else []) + Fill(ex.stuffing)
  }

  lemma FieldReads(ex: Extras, priv: Option<seq<Byte>>)
    requires IsExtras(ex)
    ensures ReadField(priv, ex.ext.Some?, FieldData(ex)) == Some(Extras(priv, ex.ext, ex.stuffing))
  {
    var h := FieldData(ex);
    if ex.ext.Some? {
      var n := |ex.ext.value|;
      assert h[0] == 0x80 + n && h[0] % 0x80 == n;
      assert h[1..1 + n] == ex.ext.value && h[1 + n..] == Fill(ex.stuffing);
    } else {
      assert h == Fill(ex.stuffing);
    }
  }

  lemma ExtensionReads(ex: Extras, h: seq<Byte>)
    requires IsExtras(ex)
    requires h == if HasExtension(ex)
                  then [ExtensionFlags(ex)] + (if ex.priv.Some? then ex.priv.value else []) + FieldData(ex)
                  else FieldData(ex)
    ensures ReadExtension(HasExtension(ex), h) == Some(ex)
  {
    FieldReads(ex, ex.priv);
    if HasExtension(ex) {
      assert h[0] == ExtensionFlags(ex);
      if ex.priv.Some? {
        assert h[1..17] == ex.priv.value && h[17..] == FieldData(ex);
      } else {
        assert h[1..] == FieldData(ex);
      }
    } else {
      assert h == Fill(ex.stuffing);
    }
  }

  lemma HeaderReads(pts: Option<nat>, ex: Extras, h: seq<Byte>, flags: Byte)
    requires IsExtras(ex) && h == HeaderData(pts, ex)
    requires flags == (if pts.Some? then 0x80 else 0) + if HasExtension(ex) then 1 else 0
    ensures ReadHeader(flags, h) == Some((Low33(pts), ex))
  {
    var e := BehindPts(pts, ex, h);
    ExtensionReads(ex, e);
    if pts.Some? {
      PtsInFront(pts, ex, h);
    }
  }

  lemma BehindPts(pts: Option<nat>, ex: Extras, h: seq<Byte>) returns (e: seq<Byte>)
    requires IsExtras(ex) && h == HeaderData(pts, ex)
    ensures |h| >= (if pts.Some? then 5 else 0) && e == if pts.Some? then h[5..] else h
    ensures e == if HasExtension(ex)
                 then [ExtensionFlags(ex)] + (if ex.priv.Some? then ex.priv.value else []) + FieldData(ex)
                 else FieldData(ex)
  {
    e := if pts.Some? then h[5..] else h;
  }

  // ----- packets are read as they were written -----

  /** A packet is read as its payload, the 33 bits of its time stamp and its extras, wherever
      it stands. */
  lemma PacketReads(pts: Option<nat>, ex: Extras, payload: seq<Byte>, rest: seq<Byte>)
    requires IsExtras(ex) && |payload| + 3 + HeaderSize(pts, ex) <= MAX_RE_PES_BOUND
    ensures ReadPacket(Packet(pts, ex, payload) + rest) == Some((Read(Low33(pts), ex, payload), rest))
    ensures Length(Packet(pts, ex, payload)) == |Packet(pts, ex, payload)| - 6 <= MAX_RE_PES_BOUND
  {
    var h, n := HeaderData(pts, ex), HeaderSize(pts, ex);
    var f := Fixed(|payload| + 3 + n, pts.Some?, HasExtension(ex), n);
    LengthIs(f, pts, ex, payload, n, h);
    FrontReads(f, |payload| + 3 + n, pts, ex, n, h, payload, rest);
  }

  lemma FrontReads(f: seq<Byte>, length: nat, pts: Option<nat>, ex: Extras, n: nat, h: seq<Byte>, payload: seq<Byte>,
                   rest: seq<Byte>)
    requires IsExtras(ex) && h == HeaderData(pts, ex) && n == |h| < 256 && length == |payload| + 3 + n < 0x10000
    requires f == Fixed(length, pts.Some?, HasExtension(ex), n)
    ensures ReadPacket(f + h + payload + rest) == Some((Read(Low33(pts), ex, payload), rest))
  {
    FixedReads(length, pts.Some?, HasExtension(ex), n, h + (payload + rest));
    HeaderReads(pts, ex, h, f[7]);
    PartsRead(f, h, payload, rest, Low33(pts), ex);
  }

  lemma PtsInFront(pts: Option<nat>, ex: Extras, h: seq<Byte>)
    requires IsExtras(ex) && h == HeaderData(pts, ex) && pts.Some?
    ensures |h| >= 5 && Some(PtsOf(h[..5])) == Low33(pts)
  {
    PtsRoundTrip(pts.value);
    assert h[..5] == PtsBytes(pts.value);
  }

  lemma LengthIs(f: seq<Byte>, pts: Option<nat>, ex: Extras, payload: seq<Byte>, n: nat, h: seq<Byte>)
    requires IsExtras(ex) && n == HeaderSize(pts, ex)
    requires h == HeaderData(pts, ex) && |payload| + 3 + n <= MAX_RE_PES_BOUND
    requires f == Fixed(|payload| + 3 + n, pts.Some?, HasExtension(ex), n)
    ensures Length(Packet(pts, ex, payload)) == |Packet(pts, ex, payload)| - 6 == |payload| + 3 + n
  {
    FixedReads(|payload| + 3 + n, pts.Some?, HasExtension(ex), n, h + payload);
    Group(f, h, payload);
  }

  lemma PartsRead(f: seq<Byte>, h: seq<Byte>, payload: seq<Byte>, rest: seq<Byte>, pts: Option<nat>, ex: Extras)
    requires |f| == 9 && var s := f + (h + (payload + rest));
             && s[..4] == [0, 0, 1, 0xE0] && Length(s) == |payload| + 3 + |h| && s[8] == |h|
             && s[6] / 64 == 2 && s[7] == f[7]
    requires ReadHeader(f[7], h) == Some((pts, ex))
    ensures ReadPacket(f + h + payload + rest) == Some((Read(pts, ex, payload), rest))
  {
    Behind(f, h, payload, rest);
  }

  lemma FixedReads(length: nat, pts: bool, ext: bool, header: nat, more: seq<Byte>)
    requires length < 0x10000 && header < 256
    ensures var f := Fixed(length, pts, ext, header); var s := f + more;
            && s[..4] == [0, 0, 1, 0xE0] && Length(s) == length && s[8] == header && s[6] / 64 == 2
            && s[7] == f[7] == (if pts then 0x80 else 0) + if ext then 1 else 0
  {
  }

  lemma Behind(f: seq<Byte>, h: seq<Byte>, payload: seq<Byte>, rest: seq<Byte>)
    ensures var s := f + h + payload + rest;
            && s == f + (h + (payload + rest)) && s[|f|..|f| + |h|] == h
            && s[|f| + |h|..|f| + |h| + |payload|] == payload && s[|f| + |h| + |payload|..] == rest
            && (|h| >= 5 ==> s[|f|..|f| + 5] == h[..5])
  {
  }

  /** A time stamp and extras in the first packet and nowhere else. */
  predicate OnlyFirst(rs: seq<Read>, pts: Option<nat>, ex: Extras) {
    && (forall i :: 0 <= i < |rs| ==> rs[i].pts == if i == 0 then pts else None)
    && (forall i :: 0 <= i < |rs| ==> rs[i].ex == if i == 0 then ex else NONE)
  }

  /** A reader of the packets finds the data again, whole and in order, and the time
      stamp, private data, extension field and stuffing in the first packet only. */
  lemma {:induction false} PacketsRead(data: seq<Byte>, pts: Option<nat>, ex: Extras) returns (rs: seq<Read>)
    requires IsExtras(ex)
    ensures ReadAll(Joined(Packets(data, pts, ex))) == Some(rs) && |rs| == |Packets(data, pts, ex)|
    ensures Payloads(rs) == data && OnlyFirst(rs, Low33(pts), ex)
    decreases |data|
  {
    if data == [] {
      rs := [];
    } else {
      var k := Used(|data|, pts, ex);
      var rest := PacketsRead(data[k..], None, NONE);
      rs := ReadStep(data, pts, ex, k, Packets(data[k..], None, NONE), rest);
      OnlyFirstStep(rs[0], rest);
    }
  }

  /** A packet in front of packets that are read. */
  lemma ReadStep(data: seq<Byte>, pts: Option<nat>, ex: Extras, k: nat, more: seq<seq<Byte>>, rest: seq<Read>)
      returns (rs: seq<Read>)
    requires IsExtras(ex) && data != [] && k == Used(|data|, pts, ex) && ReadAll(Joined(more)) == Some(rest)
    ensures rs == [Read(Low33(pts), ex, data[..k])] + rest
    ensures ReadAll(Joined([Packet(pts, ex, data[..k])] + more)) == Some(rs)
    ensures Payloads(rest) <= data[k..] ==> Payloads(rs) <= data
    ensures Payloads(rest) == data[k..] ==> Payloads(rs) == data
  {
    PacketReads(pts, ex, data[..k], Joined(more));
    rs := [Read(Low33(pts), ex, data[..k])] + rest;
    Step(Packet(pts, ex, data[..k]), more, rs[0], rest);
    InFront(data, k, Payloads(rest));
  }

  lemma InFront(data: seq<Byte>, k: nat, p: seq<Byte>)
    requires k <= |data|
    ensures p <= data[k..] ==> data[..k] + p <= data
    ensures p == data[k..] ==> data[..k] + p == data
  {
  }

  lemma OnlyFirstStep(r: Read, rest: seq<Read>)
    requires OnlyFirst(rest, None, NONE)
    ensures OnlyFirst([r] + rest, r.pts, r.ex)
  {
  }

  /** Every packet's length field counts the bytes behind it and stays in bounds; all packets
      but the last are as long as it allows. */
  lemma {:induction false} PacketLengths(data: seq<Byte>, pts: Option<nat>, ex: Extras, i: nat)
    requires IsExtras(ex) && i < |Packets(data, pts, ex)|
    ensures var p := Packets(data, pts, ex)[i]; |p| >= 9 && Length(p) == |p| - 6 <= MAX_RE_PES_BOUND
    ensures i < |Packets(data, pts, ex)| - 1 ==> Length(Packets(data, pts, ex)[i]) == MAX_RE_PES_BOUND
    decreases |data|
  {
    var k := Used(|data|, pts, ex);
    if i == 0 {
      PacketReads(pts, ex, data[..k], []);
    } else {
      PacketLengths(data[k..], None, NONE, i - 1);
    }
  }

  lemma Step(p: seq<Byte>, more: seq<seq<Byte>>, r: Read, rest: seq<Read>)
    requires ReadPacket(p + Joined(more)) == Some((r, Joined(more))) && |p| > 0 && ReadAll(Joined(more)) == Some(rest)
    ensures ReadAll(Joined([p] + more)) == Some([r] + rest) && Payloads([r] + rest) == r.payload + Payloads(rest)
  {
    assert ([p] + more)[1..] == more && ([r] + rest)[1..] == rest;
  }

  /** What the first packets of a call carry is the beginning of the data. */
  lemma {:induction false} PrefixRead(data: seq<Byte>, pts: Option<nat>, ex: Extras, n: nat) returns (rs: seq<Read>)
    requires IsExtras(ex) && n <= |Packets(data, pts, ex)|
    ensures ReadAll(Joined(Packets(data, pts, ex)[..n])) == Some(rs) && Payloads(rs) <= data
    decreases |data|
  {
    if n == 0 {
      rs := [];
    } else {
      var k := Used(|data|, pts, ex);
      var more := Packets(data[k..], None, NONE);
      var rest := PrefixRead(data[k..], None, NONE, n - 1);
      rs := ReadStep(data, pts, ex, k, more[..n - 1], rest);
      FirstOf(Packet(pts, ex, data[..k]), more, n);
    }
  }

  lemma FirstOf(p: seq<Byte>, more: seq<seq<Byte>>, n: nat)
    requires 0 < n <= 1 + |more|
    ensures ([p] + more)[..n] == [p] + more[..n - 1]
  {
  }

  // ----- elementary streams -----

  const ALIGN_BUF_SIZE: nat := 512 * 1024

  /** Bytes of the next piece: what begins off a word boundary goes through the
      alignment buffer. */
  function PieceSize(n: nat, address: nat): (k: nat)
    ensures k <= n && (n > 0 ==> k > 0) && (address % 4 != 0 ==> k <= ALIGN_BUF_SIZE)
  {
    if address % 4 != 0 && n > ALIGN_BUF_SIZE then ALIGN_BUF_SIZE - address % 4 else n
  }

  function Pieces(data: seq<Byte>, address: nat): seq<seq<Byte>> {
    if data == [] then []
    else
      var k := PieceSize(|data|, address);
      [data[..k]] + Pieces(data[k..], address + k)
  }

  /** An elementary stream goes out in one piece, or in two if it begins off a word boundary
      and is longer than the alignment buffer; the second begins on one. */
  lemma PiecesAtMostTwo(data: seq<Byte>, address: nat)
    requires data != []
    ensures var ps := Pieces(data, address);
            if address % 4 != 0 && |data| > ALIGN_BUF_SIZE
            then |ps| == 2 && |ps[0]| < ALIGN_BUF_SIZE && (address + |ps[0]|) % 4 == 0
            else ps == [data]
  {
    var k := PieceSize(|data|, address);
    if address % 4 != 0 && |data| > ALIGN_BUF_SIZE {
      OnBoundary(address);
      assert data[k..] != [] && Pieces(data[k..], address + k) == [data[k..][..|data| - k]] + [];
    } else {
      assert data[..k] == data && data[k..] == [];
    }
  }

  lemma OnBoundary(address: nat)
    ensures (address + (ALIGN_BUF_SIZE - address % 4)) % 4 == 0
  {
  }

  lemma {:induction false} PiecesJoin(data: seq<Byte>, address: nat)
    ensures Joined(Pieces(data, address)) == data
    decreases |data|
  {
    if data != [] {
      var k := PieceSize(|data|, address);
      PiecesJoin(data[k..], address + k);
      assert data[..k] + data[k..] == data;
    }
  }
}
