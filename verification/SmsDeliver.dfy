/**
 SMS-DELIVER PDUs (sms_gsm.c): written twice into a rope, once to be counted and once
 to be stored.
 */
module SmsDeliver {
  import opened Bytes
  import opened HexBits
  import opened GsmBits
  import opened GsmSeptets
  import opened GsmAlphabet
  import opened GsmText
  import opened GsmRope

  datatype Address = Address(len: Byte, toa: Byte, data: seq<Byte>)

  predicate IsAddress(a: Address) {
    |a.data| == 16 && a.len <= 32
  }

  /** x | 0xf0 */
  function HighNibble(x: Byte): Byte {
    0xf0 + x % 16
  }

  /** gsm_rope_add_address: an odd number of digits is filled up. */
  function AddressBytes(a: Address): seq<Byte>
    requires IsAddress(a)
  {
    var n := (a.len + 1) / 2;
    [a.len, a.toa] + if a.len % 2 == 1 then a.data[..n - 1] + [HighNibble(a.data[n - 1])] else a.data[..n]
  }

  /** What one part of a message is made of. */
  datatype Part = Part(sender: Address, timestamp: seq<Byte>, refNum: nat, pduCount: nat, pduIndex: nat)

  predicate IsPart(p: Part) {
    IsAddress(p.sender) && |p.timestamp| == 7
  }

  const CODING_GSM7: Byte := 0x00
  const CODING_UCS2: Byte := 0x09

  /** Everything in front of the user data length. */
  function Front(p: Part, coding: Byte): seq<Byte>
    requires IsPart(p)
  {
    [0, if p.pduCount > 1 then 0x60 else 0x20] + AddressBytes(p.sender) + [0, coding] + p.timestamp
  }

  /** gsm_rope_add_sms_user_header, in every part of a message of several. */
  function Header(p: Part): (s: seq<Byte>)
    ensures |s| == if p.pduCount > 1 then 6 else 0
  {
    if p.pduCount > 1 then [5, 0, 3, p.refNum % 256, p.pduCount % 256, (p.pduIndex % 256 + 1) % 256] else []
  }

  /** Bits between the header and the first septet. */
  function Pad(p: Part): nat {
    if p.pduCount > 1 then 1 else 0
  }

  /** Septets that the header and the pad take. */
  function HeaderSeptets(p: Part): nat {
    if p.pduCount > 1 then 7 else 0
  }

  /** What stands in front of the packed text. */
  function Head7(p: Part, n: nat): seq<Byte>
    requires IsPart(p)
  {
    Front(p, CODING_GSM7) + [(n + HeaderSeptets(p)) % 256] + Header(p)
  }

  function TextBytes(p: Part, n: nat): nat {
    (n * 7 + Pad(p) + 7) / 8
  }

  /** The head, `pad` zero bits, the septets, and zeros to the end of the last byte. */
  ghost predicate IsText7(pdu: seq<Byte>, head: seq<Byte>, pad: nat, s: seq<Septet>) {
    var bytes := (|s| * 7 + pad + 7) / 8;
    && |pdu| == |head| + bytes
    && BitsOfBytes(pdu) == BitsOfBytes(head) + (Zeros(pad) + (SeptetBits(s) + Zeros(8 * bytes - pad - 7 * |s|)))
  }

  /** A PDU in the GSM alphabet, to the last bit. */
  ghost predicate IsDeliver7(pdu: seq<Byte>, p: Part, t: seq<Byte>)
    requires IsPart(p)
  {
    IsText7(pdu, Head7(p, |Septets(t)|), Pad(p), Septets(t))
  }

  /** UCS-2 of ASCII text. */
  function Ucs2(t: seq<Byte>): (s: seq<Byte>)
    ensures |s| == 2 * |t|
  {
    if t == [] then [] else Ucs2(t[..|t| - 1]) + [0, t[|t| - 1]]
  }

  function Head16(p: Part, n: nat): seq<Byte>
    requires IsPart(p)
  {
    Front(p, CODING_UCS2) + [(2 * n + |Header(p)|) % 256] + Header(p) + [2 * n % 256]
  }

  /** What smspdu_create_deliver is to produce. */
  ghost predicate IsDeliver(pdu: seq<Byte>, p: Part, useGsm7: bool, t: seq<Byte>)
    requires IsPart(p)
  {
    if useGsm7 then IsDeliver7(pdu, p, t) else pdu == Head16(p, |t|) + Ucs2(t)
  }

  function DeliverSize(p: Part, useGsm7: bool, t: seq<Byte>): nat
    requires IsPart(p)
  {
    if useGsm7 then |Head7(p, |Septets(t)|)| + TextBytes(p, |Septets(t)|) else |Head16(p, |t|)| + 2 * |t|
  }

  // ----- writing into the rope -----

  /** The rope has been given `w`; with storage, nothing but zeros stands behind it. */
  ghost predicate Holds(rope: Rope, w: seq<Byte>)
    reads rope, rope.data
  {
    && rope.Valid() && rope.pos == |w|
    && (rope.data != null ==> |w| <= rope.data.Length && rope.data[..] == w + ZeroBytes(rope.data.Length - |w|))
  }

  /** No storage, or room for `n` more bytes. */
  ghost predicate Takes(rope: Rope, n: nat)
    reads rope
  {
    rope.data == null || rope.Room(n)
  }

  method PutC(rope: Rope, c: nat, ghost w: seq<Byte>)
    requires Holds(rope, w) && Takes(rope, 1)
    modifies rope, rope.Storage()
    ensures Holds(rope, w + [c % 256]) && rope.data == old(rope.data)
  {
    rope.AddC(c % 256);
    if rope.data != null {
      var n := rope.data.Length - |w|;
      assert (w + ZeroBytes(n))[|w| := c % 256] == (w + [c % 256]) + ZeroBytes(n - 1);
    }
  }

  method Put(rope: Rope, buf: seq<Byte>, ghost w: seq<Byte>)
    requires Holds(rope, w) && Takes(rope, |buf|)
    modifies rope, rope.Storage()
    ensures Holds(rope, w + buf) && rope.data == old(rope.data)
  {
    rope.Add(buf);
    if rope.data != null {
      var n := rope.data.Length - |w|;
      assert (w + ZeroBytes(n))[..|w|] + buf + (w + ZeroBytes(n))[|w| + |buf|..] == (w + buf) + ZeroBytes(n - |buf|);
    }
  }

  method AddAddress(rope: Rope, a: Address, ghost w: seq<Byte>)
    requires IsAddress(a) && Holds(rope, w) && Takes(rope, |AddressBytes(a)|)
    modifies rope, rope.Storage()
    ensures Holds(rope, w + AddressBytes(a)) && rope.data == old(rope.data)
  {
    var n := (a.len + 1) / 2;
    PutC(rope, a.len, w);
    PutC(rope, a.toa, w + [a.len]);
    ghost var w2 := (w + [a.len]) + [a.toa];
    Put(rope, a.data[..n], w2);
    assert w2 + a.data[..n] == w + ([a.len, a.toa] + a.data[..n]);
    if a.len % 2 == 1 {
      FillUp(rope, w2, a.data[..n]);
      assert w2 + (a.data[..n][..n - 1] + [HighNibble(a.data[n - 1])]) == w + AddressBytes(a);
    }
  }

  /** The last byte written gets an upper nibble of ones. */
  method FillUp(rope: Rope, ghost w: seq<Byte>, ghost d: seq<Byte>)
    requires d != [] && Holds(rope, w + d)
    modifies rope.Storage()
    ensures Holds(rope, w + (d[..|d| - 1] + [HighNibble(d[|d| - 1])]))
  {
    if rope.data != null {
      ghost var n := rope.data.Length - |w + d|;
      assert rope.data[..][rope.pos - 1] == d[|d| - 1];
      rope.data[rope.pos - 1] := HighNibble(rope.data[rope.pos - 1]);
      assert ((w + d) + ZeroBytes(n))[|w + d| - 1 := HighNibble(d[|d| - 1])]
             == (w + (d[..|d| - 1] + [HighNibble(d[|d| - 1])])) + ZeroBytes(n);
    }
  }

  method AddFront(rope: Rope, p: Part, coding: Byte)
    requires IsPart(p) && Holds(rope, []) && Takes(rope, |Front(p, coding)|)
    modifies rope, rope.Storage()
    ensures Holds(rope, Front(p, coding)) && rope.data == old(rope.data)
  {
    var mti: Byte := if p.pduCount > 1 then 0x60 else 0x20;
    PutC(rope, 0, []);
    PutC(rope, mti, [0]);
    assert [] + [0] == [0] && [0] + [mti] == [0, mti];
    AddAddress(rope, p.sender, [0, mti]);
    AddSchemes(rope, coding, p.timestamp, [0, mti] + AddressBytes(p.sender));
  }

  /** Protocol identifier, coding and time stamp. */
  method AddSchemes(rope: Rope, coding: Byte, timestamp: seq<Byte>, ghost w: seq<Byte>)
    requires Holds(rope, w) && Takes(rope, 2 + |timestamp|)
    modifies rope, rope.Storage()
    ensures Holds(rope, w + [0, coding] + timestamp) && rope.data == old(rope.data)
  {
    PutC(rope, 0, w);
    PutC(rope, coding, w + [0]);
    assert (w + [0]) + [coding] == w + [0, coding];
    Put(rope, timestamp, w + [0, coding]);
  }

  /** The user data length, and the header where there is one. */
  method AddLength(rope: Rope, p: Part, length: nat, ghost w: seq<Byte>)
    requires Holds(rope, w) && Takes(rope, 1 + |Header(p)|)
    modifies rope, rope.Storage()
    ensures Holds(rope, w + [length % 256] + Header(p)) && rope.data == old(rope.data)
  {
    PutC(rope, length, w);
    if p.pduCount > 1 {
      AddUserHeader(rope, p, w + [length % 256]);
    }
  }

  method AddUserHeader(rope: Rope, p: Part, ghost w: seq<Byte>)
    requires p.pduCount > 1 && Holds(rope, w) && Takes(rope, 6)
    modifies rope, rope.Storage()
    ensures Holds(rope, w + Header(p)) && rope.data == old(rope.data)
  {
    PutThree(rope, 5, 0, 3, w);
    PutThree(rope, p.refNum, p.pduCount, p.pduIndex % 256 + 1, w + [5, 0, 3]);
    assert [5, 0, 3] + [p.refNum % 256, p.pduCount % 256, (p.pduIndex % 256 + 1) % 256] == Header(p);
    Group(w, [5, 0, 3], [p.refNum % 256, p.pduCount % 256, (p.pduIndex % 256 + 1) % 256]);
  }

  method PutThree(rope: Rope, a: nat, b: nat, c: nat, ghost w: seq<Byte>)
    requires Holds(rope, w) && Takes(rope, 3)
    modifies rope, rope.Storage()
    ensures Holds(rope, w + [a % 256, b % 256, c % 256]) && rope.data == old(rope.data)
    ensures rope.pos == old(rope.pos) + 3
  {
    PutC(rope, a, w);
    PutC(rope, b, w + [a % 256]);
    PutC(rope, c, (w + [a % 256]) + [b % 256]);
    assert ((w + [a % 256]) + [b % 256]) + [c % 256] == w + [a % 256, b % 256, c % 256];
  }

  /** gsm_rope_add_sms_deliver_pdu; in storage of just its size the PDU is the whole of it. */
  method AddDeliver(rope: Rope, p: Part, useGsm7: bool, t: seq<Byte>)
    requires IsPart(p) && IsAscii(t) && Holds(rope, []) && Takes(rope, DeliverSize(p, useGsm7, t))
    modifies rope, rope.Storage()
    ensures rope.Valid() && rope.data == old(rope.data) && rope.pos == DeliverSize(p, useGsm7, t)
    ensures rope.data != null && rope.data.Length == rope.pos ==> IsDeliver(rope.data[..], p, useGsm7, t)
  {
    if useGsm7 {
      AddDeliver7(rope, p, t);
    } else {
      AddDeliver16(rope, p, t);
    }
  }

  method AddDeliver7(rope: Rope, p: Part, t: seq<Byte>)
    requires IsPart(p) && IsAscii(t) && Holds(rope, []) && Takes(rope, DeliverSize(p, true, t))
    modifies rope, rope.Storage()
    ensures rope.Valid() && rope.data == old(rope.data) && rope.pos == DeliverSize(p, true, t)
    ensures rope.data != null && rope.data.Length == rope.pos ==> IsDeliver7(rope.data[..], p, t)
  {
    var count := AddHead7(rope, p, t);
    AddText7(rope, Pad(p), t, count, Head7(p, count));
  }

  method AddHead7(rope: Rope, p: Part, t: seq<Byte>) returns (count: nat)
    requires IsPart(p) && IsAscii(t) && Holds(rope, []) && Takes(rope, |Head7(p, |Septets(t)|)|)
    modifies rope, rope.Storage()
    ensures count == |Septets(t)| && Holds(rope, Head7(p, count)) && rope.data == old(rope.data)
  {
    AddFront(rope, p, CODING_GSM7);
    count := Utf8ToGsm7(t, null, 0);
    AddLength(rope, p, count + HeaderSeptets(p), Front(p, CODING_GSM7));
  }

  method AddDeliver16(rope: Rope, p: Part, t: seq<Byte>)
    requires IsPart(p) && IsAscii(t) && Holds(rope, []) && Takes(rope, DeliverSize(p, false, t))
    modifies rope, rope.Storage()
    ensures rope.Valid() && rope.data == old(rope.data) && rope.pos == DeliverSize(p, false, t)
    ensures rope.data != null && rope.data.Length == rope.pos ==> rope.data[..] == Head16(p, |t|) + Ucs2(t)
  {
    AddFront(rope, p, CODING_UCS2);
    var count := Utf8ToUcs2(t, null, 0);
    AddLength(rope, p, if p.pduCount > 1 then 2 * count + 6 else 2 * count, Front(p, CODING_UCS2));
    AddText16(rope, t, count, Front(p, CODING_UCS2) + [(2 * count + |Header(p)|) % 256] + Header(p));
  }

  /** The length once more, and the characters. */
  method AddText16(rope: Rope, t: seq<Byte>, count: nat, ghost w: seq<Byte>)
    requires count == |t| && IsAscii(t) && Holds(rope, w) && Takes(rope, 1 + 2 * count)
    modifies rope, rope.Storage()
    ensures rope.Valid() && rope.data == old(rope.data) && rope.pos == |w| + 1 + 2 * count
    ensures rope.data != null && rope.data.Length == rope.pos ==> rope.data[..] == w + [2 * count % 256] + Ucs2(t)
  {
    PutC(rope, 2 * count, w);
    var dst := rope.Reserve(2 * count);
    if dst.Some? {
      var n := Utf8ToUcs2(t, rope.data, dst.value);
    }
  }

  /** ucs2_write */
  method Ucs2Write(ucs2: array?<Byte>, offset: nat, v: Byte) returns (n: nat)
    requires ucs2 != null ==> offset + 2 <= ucs2.Length
    modifies if ucs2 == null then {} else {ucs2}
    ensures n == 2
    ensures ucs2 != null ==> ucs2[..] == old(ucs2[..offset]) + [0, v] + old(ucs2[offset + 2..])
  {
    if ucs2 != null {
      ucs2[offset] := v / 256;
      ucs2[offset + 1] := v % 256;
    }
    return 2;
  }

  /** utf8_to_ucs2 on ASCII text */
  method Utf8ToUcs2(t: seq<Byte>, ucs2: array?<Byte>, at: nat) returns (count: nat)
    requires IsAscii(t) && (ucs2 != null ==> at + 2 * |t| <= ucs2.Length)
    modifies if ucs2 == null then {} else {ucs2}
    ensures count == |t|
    ensures ucs2 != null ==> ucs2[..] == old(ucs2[..at]) + Ucs2(t) + old(ucs2[at + 2 * |t|..])
  {
    var result := 0;
    for i := 0 to |t|
      invariant result == 2 * i
      invariant ucs2 != null ==> ucs2[..] == old(ucs2[..at]) + Ucs2(t[..i]) + old(ucs2[at + 2 * i..])
    {
      assert t[..i + 1][..i] == t[..i];
      ghost var was := if ucs2 == null then [] else ucs2[..];
      var n := Ucs2Write(ucs2, at + result, t[i]);
      if ucs2 != null {
        TwoMore(was, ucs2[..], old(ucs2[..]), at, at + result, Ucs2(t[..i]), [0, t[i]]);
      }
      result := result + n;
    }
    assert t[..|t|] == t;
    return result / 2;
  }

  /** Two more bytes behind the bytes `s` that stand at `at`. */
  lemma TwoMore(now: seq<Byte>, next: seq<Byte>, was: seq<Byte>, at: nat, end: nat, s: seq<Byte>, two: seq<Byte>)
    requires |two| == 2 && end == at + |s| && end + 2 <= |was|
    requires now == was[..at] + s + was[end..] && next == now[..end] + two + now[end + 2..]
    ensures next == was[..at] + (s + two) + was[end + 2..]
  {
    assert now[..end] == was[..at] + s;
    assert now[end + 2..] == was[end + 2..];
  }

  /** Room for the septets, and the septets behind `pad` bits. */
  method AddText7(rope: Rope, pad: nat, t: seq<Byte>, count: nat, ghost head: seq<Byte>)
    requires IsAscii(t) && count == |Septets(t)| && pad <= 1 && Holds(rope, head)
    requires Takes(rope, (count * 7 + pad + 7) / 8)
    modifies rope, rope.Storage()
    ensures rope.Valid() && rope.data == old(rope.data) && rope.pos == |head| + (count * 7 + pad + 7) / 8
    ensures rope.data != null && rope.data.Length == rope.pos ==> IsText7(rope.data[..], head, pad, Septets(t))
  {
    var bytes := (count * 7 + pad + 7) / 8;
    var dst := rope.Reserve(bytes);
    if dst.Some? {
      StoreText(rope.data, dst.value, pad, t, head, bytes);
    }
  }

  method StoreText(data: array<Byte>, at: nat, pad: nat, t: seq<Byte>, ghost head: seq<Byte>, ghost bytes: nat)
    requires IsAscii(t) && pad <= 1 && at == |head| && bytes == (|Septets(t)| * 7 + pad + 7) / 8
    requires at + bytes <= data.Length && data[..] == head + ZeroBytes(data.Length - at)
    modifies data
    ensures data.Length == at + bytes ==> IsText7(data[..], head, pad, Septets(t))
  {
    ghost var was, s := data[..], Septets(t);
    WholeBytes(at, |s| * 7 + pad + 7);
    var offset := 8 * at + pad;
    var n := Utf8ToGsm7(t, data, offset);
    if data.Length == at + bytes {
      TextPacked(data[..], was, head, pad, s, bytes, offset);
    }
  }

  lemma WholeBytes(at: nat, x: nat)
    ensures (8 * at + x) / 8 == at + x / 8
  {
  }

  lemma TextPacked(pdu: seq<Byte>, was: seq<Byte>, head: seq<Byte>, pad: nat, s: seq<Septet>, bytes: nat, offset: nat)
    requires bytes == (|s| * 7 + pad + 7) / 8 && pad <= 1 && pad <= bytes && |pdu| == |head| + bytes
    requires was == head + ZeroBytes(bytes) && offset == 8 * |head| + pad && Packed(was, pdu, offset, s)
    ensures IsText7(pdu, head, pad, s)
  {
    WholeBytes(|head|, |s| * 7 + pad + 7);
    assert pdu[..|pdu|] == pdu;
    HeadBits(was, head, bytes, pad);
    Group(BitsOfBytes(head), Zeros(pad), SeptetBits(s) + Zeros(8 * bytes - pad - 7 * |s|));
  }

  /** Bits of a head and of the zeros behind it. */
  lemma HeadBits(was: seq<Byte>, head: seq<Byte>, n: nat, pad: nat)
    requires was == head + ZeroBytes(n) && pad <= 1 && pad <= n
    ensures BitsOfBytes(was)[..8 * |head| + pad] == BitsOfBytes(head) + Zeros(pad)
  {
    PrefixBits(was, |head|);
    assert was[..|head|] == head;
    if pad == 1 {
      ByteBits(was, |head|);
      ZeroBits(8);
      OneZero(BitsOfBytes(was), 8 * |head|);
    }
  }

  lemma OneZero(b: Bits, i: nat)
    requires i + 8 <= |b| && b[i..i + 8] == Zeros(8)
    ensures b[..i + 1] == b[..i] + Zeros(1)
  {
    assert b[i] == b[i..i + 8][0];
  }

  /** smspdu_create_deliver: the first pass counts what the second one stores, so the
      storage never grows and is filled to its end, whatever new memory holds. */
  method CreateDeliver(p: Part, useGsm7: bool, t: seq<Byte>, heap: nat -> Byte) returns (pdu: array<Byte>, size: nat)
    requires IsPart(p) && IsAscii(t)
    ensures size == pdu.Length == DeliverSize(p, useGsm7, t) && IsDeliver(pdu[..], p, useGsm7, t)
  {
    var rope := new Rope(heap);
    AddDeliver(rope, p, useGsm7, t);
    rope.InitAlloc(rope.pos);
    AddDeliver(rope, p, useGsm7, t);
    pdu, size := rope.data, rope.pos;
  }

  // ----- what can be read back -----

  /** The text in a PDU reads back, behind its head and pad, exactly when it is sendable. */
  lemma DeliverTextIff(pdu: seq<Byte>, p: Part, t: seq<Byte>, head: seq<Byte>, at: nat, b: Bits)
    requires IsPart(p) && IsAscii(t) && IsDeliver7(pdu, p, t) && head == Head7(p, |Septets(t)|)
    requires at == 8 * |head| + Pad(p) && b == BitsOfBytes(pdu)
    ensures at + 7 * |Septets(t)| <= 8 * |pdu|
    ensures TextAt(b, at, |Septets(t)|) == t <==> Sendable(t)
  {
    SeptetsInside(pdu, p, t, head, b, at, Septets(t));
    TextBackIff(b, at, t);
  }

  lemma SeptetsInside(pdu: seq<Byte>, p: Part, t: seq<Byte>, head: seq<Byte>, b: Bits, at: nat, s: seq<Septet>)
    requires IsPart(p) && IsAscii(t) && IsDeliver7(pdu, p, t) && s == Septets(t) && head == Head7(p, |s|)
    requires b == BitsOfBytes(pdu) && at == 8 * |head| + Pad(p)
    ensures at + 7 * |s| <= |b| && SeptetsAt(b, at, |s|) == s
  {
    Text7Back(pdu, head, Pad(p), s, at);
  }

  lemma Text7Back(pdu: seq<Byte>, head: seq<Byte>, pad: nat, s: seq<Septet>, at: nat)
    requires IsText7(pdu, head, pad, s) && at == 8 * |head| + pad
    ensures at + 7 * |s| <= 8 * |pdu|
    ensures SeptetsAt(BitsOfBytes(pdu), at, |s|) == s
  {
    var z := Zeros(8 * ((|s| * 7 + pad + 7) / 8) - pad - 7 * |s|);
    var a := BitsOfBytes(head) + Zeros(pad);
    Group(BitsOfBytes(head), Zeros(pad), SeptetBits(s) + z);
    assert |a| == at;
    SeptetsBack(a, s, z);
  }

  /** The user data length counts the header, the pad and the text in septets. */
  lemma LengthCovers(p: Part, t: seq<Byte>)
    ensures 8 * |Header(p)| + Pad(p) == 7 * HeaderSeptets(p)
    ensures var n := |Septets(t)|; TextBytes(p, n) + |Header(p)| == (7 * (n + HeaderSeptets(p)) + 7) / 8
  {
  }

  /** In UCS-2 one byte more follows the user data length than it counts: the length is
      written twice. */
  lemma Ucs2LengthShort(pdu: seq<Byte>, p: Part, t: seq<Byte>)
    requires IsPart(p) && IsDeliver(pdu, p, false, t) && 2 * |t| + |Header(p)| < 256
    ensures var at := |Front(p, CODING_UCS2)|; |pdu| > at && |pdu| - (at + 1) == pdu[at] + 1
  {
    var front, length := Front(p, CODING_UCS2), 2 * |t| + |Header(p)|;
    assert pdu[|front|] == length;
  }
}
