/**
 SMS-DELIVER as a receiver reads it (sections 9.1.2.5, 9.2.2.1 and 9.2.3.24.1 of 3GPP TS
 23.040), on the PDUs of SmsDeliver.
 */
module SmsReader {
  import opened Bytes
  import opened HexBits
  import opened GsmBits
  import opened GsmAlphabet
  import opened GsmText
  import opened SmsDeliver

  /** Number, count and index of a message in several parts. */
  datatype Concat = Concat(refNum: Byte, count: Byte, index: Byte)

  datatype Deliver = Deliver(digits: seq<nat>, toa: Byte, pid: Byte, coding: Byte, timestamp: seq<Byte>, length: Byte,
                             parts: Option<Concat>, body: seq<Byte>)

  /** Two semi-octets a byte, the lower one first. */
  function SemiOctet(d: seq<Byte>, k: nat): nat
    requires k / 2 < |d|
  {
    if k % 2 == 0 then d[k / 2] % 16 else d[k / 2] / 16
  }

  function SemiOctets(d: seq<Byte>, n: nat): (s: seq<nat>)
    requires n <= 2 * |d|
    ensures |s| == n
  {
    seq(n, k requires 0 <= k < n => SemiOctet(d, k))
  }

  /** No service centre, the message type with its header flag, the sender's address. */
  function ReadDeliver(s: seq<Byte>): Option<Deliver> {
    if |s| < 4 || s[0] != 0 || s[1] % 4 != 0 then None
    else
      var n: nat := s[2];
      var end := 4 + (n + 1) / 2;
      if |s| < end || (n % 2 == 1 && SemiOctet(s[4..end], n) != 0xf) then None
      else ReadRest(SemiOctets(s[4..end], n), s[3], s[1] / 0x40 % 2 == 1, s[end..])
  }

  /** Protocol identifier, coding, time stamp, length, and the user data. */
  function ReadRest(digits: seq<nat>, toa: Byte, header: bool, s: seq<Byte>): Option<Deliver> {
    if |s| < 10 then None
    else if !header then Some(Deliver(digits, toa, s[0], s[1], s[2..9], s[9], None, s[10..]))
    else if |s| < 16 || s[10..13] != [5, 0, 3] then None
    else Some(Deliver(digits, toa, s[0], s[1], s[2..9], s[9], Some(Concat(s[13], s[14], s[15])), s[16..]))
  }

  /** The parts of a message, the first one being number one. */
  function PartsOf(p: Part): Option<Concat> {
    if p.pduCount > 1 then Some(Concat(p.refNum % 256, p.pduCount % 256, (p.pduIndex + 1) % 256)) else None
  }

  // ----- a PDU is read as it was written -----

  /** The digits of an address, and the filler behind an odd number of them. */
  lemma AddressReads(a: Address, d: seq<Byte>)
    requires IsAddress(a) && AddressBytes(a) == [a.len, a.toa] + d
    ensures |d| == (a.len + 1) / 2
    ensures SemiOctets(d, a.len) == SemiOctets(a.data, a.len)
    ensures a.len % 2 == 1 ==> SemiOctet(d, a.len) == 0xf
  {
    assert d == AddressBytes(a)[2..];
    var n := (a.len + 1) / 2;
    forall k: nat | k < a.len ensures SemiOctet(d, k) == SemiOctet(a.data, k) {
      if k / 2 < n - 1 || a.len % 2 == 0 {
        assert d[k / 2] == a.data[k / 2];
      }
    }
  }

  lemma RestReads(p: Part, coding: Byte, length: Byte, digits: seq<nat>, body: seq<Byte>, s: seq<Byte>)
    requires IsPart(p) && s == [0, coding] + p.timestamp + [length] + Header(p) + body
    ensures ReadRest(digits, p.sender.toa, p.pduCount > 1, s)
            == Some(Deliver(digits, p.sender.toa, 0, coding, p.timestamp, length, PartsOf(p), body))
  {
    assert s[2..9] == p.timestamp && s[9] == length && s[10..] == Header(p) + body;
    if p.pduCount > 1 {
      assert s[10..16] == Header(p) && s[16..] == body;
      assert s[10..13] == Header(p)[..3] == [5, 0, 3];
      assert s[13] == Header(p)[3] && s[14] == Header(p)[4] && s[15] == Header(p)[5];
      NextIndex(p.pduIndex);
    } else {
      assert s[10..] == body;
    }
  }

  lemma NextIndex(i: nat)
    ensures (i % 256 + 1) % 256 == (i + 1) % 256
  {
  }

  /** A front, a length and a header, whatever follows. */
  lemma HeadReads(p: Part, coding: Byte, length: Byte, body: seq<Byte>, pdu: seq<Byte>)
    requires IsPart(p) && pdu == Front(p, coding) + [length] + Header(p) + body
    ensures ReadDeliver(pdu) == Some(Deliver(SemiOctets(p.sender.data, p.sender.len), p.sender.toa, 0, coding,
                                             p.timestamp, length, PartsOf(p), body))
  {
    var d := AddressBytes(p.sender)[2..];
    var rest := [0, coding] + p.timestamp + [length] + Header(p) + body;
    assert AddressBytes(p.sender) == [p.sender.len, p.sender.toa] + d;
    AddressReads(p.sender, d);
    Laid(p, coding, length, body, pdu, d, rest);
    RestReads(p, coding, length, SemiOctets(d, p.sender.len), body, rest);
  }

  lemma Laid(p: Part, coding: Byte, length: Byte, body: seq<Byte>, pdu: seq<Byte>, d: seq<Byte>, rest: seq<Byte>)
    requires IsPart(p) && pdu == Front(p, coding) + [length] + Header(p) + body
    requires AddressBytes(p.sender) == [p.sender.len, p.sender.toa] + d
    requires rest == [0, coding] + p.timestamp + [length] + Header(p) + body
    ensures pdu[0] == 0 && pdu[1] == (if p.pduCount > 1 then 0x60 else 0x20)
    ensures pdu[2] == p.sender.len && pdu[3] == p.sender.toa
    ensures |pdu| == 4 + |d| + |rest| && pdu[4..4 + |d|] == d && pdu[4 + |d|..] == rest
  {
    var front := [0, if p.pduCount > 1 then 0x60 else 0x20] + [p.sender.len, p.sender.toa];
    assert pdu == front + d + rest;
  }

  lemma {:induction false} SameBytes(s: seq<Byte>, t: seq<Byte>)
    requires BitsOfBytes(s) == BitsOfBytes(t)
    ensures s == t
  {
    assert |s| == |t|;
    forall i | 0 <= i < |s| ensures s[i] == t[i] {
      ByteBits(s, i);
      ByteBits(t, i);
      ByteOf(s[i]);
      ByteOf(t[i]);
    }
  }

  lemma ByteOf(x: Byte)
    ensures Value(Low(x, 8)) == x
  {
    ValueLow(x, 8);
    assert Pow2(8) == 256;
  }

  lemma HeadInFront(pdu: seq<Byte>, head: seq<Byte>, pad: nat, s: seq<Septet>)
    requires IsText7(pdu, head, pad, s)
    ensures |pdu| == |head| + (|s| * 7 + pad + 7) / 8 && pdu[..|head|] == head
  {
    PrefixBits(pdu, |head|);
    assert BitsOfBytes(pdu)[..8 * |head|] == BitsOfBytes(head);
    SameBytes(pdu[..|head|], head);
  }

  lemma {:induction false} Ucs2At(t: seq<Byte>, k: nat)
    requires k < |t|
    ensures Ucs2(t)[2 * k] == 0 && Ucs2(t)[2 * k + 1] == t[k]
  {
    if k < |t| - 1 {
      Ucs2At(t[..|t| - 1], k);
    }
  }

  /** A PDU in the GSM alphabet is read with the sender's number and the parts it was
      written for, a length that counts the septets, and the bytes of the text, whose
      septets stand behind the pad. */
  lemma Deliver7Reads(pdu: seq<Byte>, p: Part, t: seq<Byte>, n: nat, length: Byte) returns (body: seq<Byte>)
    requires IsPart(p) && IsAscii(t) && IsDeliver(pdu, p, true, t) && n == |Septets(t)|
    requires length == (n + HeaderSeptets(p)) % 256
    ensures ReadDeliver(pdu) == Some(Deliver(SemiOctets(p.sender.data, p.sender.len), p.sender.toa, 0, 0, p.timestamp,
                                             length, PartsOf(p), body))
    ensures |body| == TextBytes(p, n)
    ensures Pad(p) + 7 * n <= 8 * |body| && SeptetsAt(BitsOfBytes(body), Pad(p), n) == Septets(t)
  {
    var head := Head7(p, n);
    HeadInFront(pdu, head, Pad(p), Septets(t));
    body := pdu[|head|..];
    Body7Reads(pdu, p, n, head, body, length);
    BodyBits(pdu, head, body, Pad(p), Septets(t));
  }

  lemma BodyBits(pdu: seq<Byte>, head: seq<Byte>, body: seq<Byte>, pad: nat, s: seq<Septet>)
    requires IsText7(pdu, head, pad, s) && pdu == head + body
    ensures pad + 7 * |s| <= 8 * |body| && SeptetsAt(BitsOfBytes(body), pad, |s|) == s
  {
    JoinedBits(head, body);
    var z := Zeros(8 * ((|s| * 7 + pad + 7) / 8) - pad - 7 * |s|);
    SameEnd(BitsOfBytes(head), BitsOfBytes(body), Zeros(pad) + (SeptetBits(s) + z));
    SeptetsBack(Zeros(pad), s, z);
  }

  lemma SameEnd(a: Bits, x: Bits, y: Bits)
    requires a + x == a + y
    ensures x == y
  {
    assert (a + x)[|a|..] == x && (a + y)[|a|..] == y;
  }

  lemma {:induction false} JoinedBits(s: seq<Byte>, t: seq<Byte>)
    ensures BitsOfBytes(s + t) == BitsOfBytes(s) + BitsOfBytes(t)
    decreases |t|
  {
    if t == [] {
      assert s + t == s;
    } else {
      var init, x := t[..|t| - 1], t[|t| - 1];
      assert s + t == (s + init) + [x];
      SnocBits(s + init, x);
      JoinedBits(s, init);
      Group(BitsOfBytes(s), BitsOfBytes(init), Low(x, 8));
    }
  }

  lemma Body7Reads(pdu: seq<Byte>, p: Part, n: nat, head: seq<Byte>, body: seq<Byte>, length: Byte)
    requires IsPart(p) && head == Head7(p, n) && |head| <= |pdu| && pdu[..|head|] == head && body == pdu[|head|..]
    requires length == (n + HeaderSeptets(p)) % 256
    ensures ReadDeliver(pdu) == Some(Deliver(SemiOctets(p.sender.data, p.sender.len), p.sender.toa, 0, 0, p.timestamp,
                                             length, PartsOf(p), body))
  {
    assert pdu == head + body;
    HeadReads(p, CODING_GSM7, length, body, pdu);
  }

  /** The same in UCS-2, where the length is written once more in front of the characters. */
  lemma Deliver16Reads(pdu: seq<Byte>, p: Part, t: seq<Byte>)
    requires IsPart(p) && IsDeliver(pdu, p, false, t)
    ensures var r := ReadDeliver(pdu);
            && r.Some? && |r.value.body| == 1 + 2 * |t| && r.value.body[0] == 2 * |t| % 256
            && r.value == Deliver(SemiOctets(p.sender.data, p.sender.len), p.sender.toa, 0, 9, p.timestamp,
                                  (2 * |t| + |Header(p)|) % 256, PartsOf(p), r.value.body)
            && forall k :: 0 <= k < |t| ==> r.value.body[1 + 2 * k] == 0 && r.value.body[2 + 2 * k] == t[k]
  {
    var body := [2 * |t| % 256] + Ucs2(t);
    assert pdu == Front(p, CODING_UCS2) + [(2 * |t| + |Header(p)|) % 256] + Header(p) + body;
    HeadReads(p, CODING_UCS2, (2 * |t| + |Header(p)|) % 256, body, pdu);
    forall k | 0 <= k < |t| ensures body[1 + 2 * k] == 0 && body[2 + 2 * k] == t[k] {
      Ucs2At(t, k);
    }
  }
}
