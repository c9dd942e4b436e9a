/** encode_cdma_sms and its parts on the 512-digit buffer. */
module CdmaEncoder {
  import opened Bytes
  import opened HexBits
  import opened HexBuffer
  import opened CdmaPdu
  import opened CdmaRoundTrip

  /** `p` has been written, and nothing but zeros stands behind it. */
  ghost predicate Holds(a: string, p: Bits) {
    IsHex(a) && |p| <= 4 * |a| && BitsOf(a) == p + Zeros(4 * |a| - |p|)
  }

  /** Zeros already written count as written. */
  lemma HoldsGap(a: string, p: Bits, gap: nat)
    requires Holds(a, p) && |p| + gap <= 4 * |a|
    ensures Holds(a, p + Zeros(gap))
  {
    assert p + Zeros(4 * |a| - |p|) == (p + Zeros(gap)) + Zeros(4 * |a| - |p| - gap);
  }

  /** setbits at the end of what has been written. */
  method PutField(a: array<char>, start: nat, n: nat, val: int, ghost p: Bits)
    requires Holds(a[..], p) && start == |p| && start + n <= 4 * a.Length
    modifies a
    ensures Holds(a[..], p + Field(val, n))
  {
    ghost var rest := 4 * a.Length - |p| - n;
    assert Zeros(n + rest) == Zeros(n) + Zeros(rest);
    OrIntoZeros(p, Zeros(n), Zeros(rest), Field(val, n));
    SetBits(a, start, n, val);
    assert p + (Field(val, n) + Zeros(rest)) == (p + Field(val, n)) + Zeros(rest);
  }

  /** setbits over zeros left open before. */
  method PatchField(a: array<char>, start: nat, n: nat, val: int, ghost p: Bits, ghost r: Bits)
    requires Holds(a[..], p + (Zeros(n) + r)) && start == |p|
    modifies a
    ensures Holds(a[..], p + (Field(val, n) + r))
  {
    ghost var z := Zeros(4 * a.Length - |p| - n - |r|);
    assert (p + (Zeros(n) + r)) + z == p + (Zeros(n) + (r + z));
    OrIntoZeros(p, Zeros(n), r + z, Field(val, n));
    SetBits(a, start, n, val);
    assert (p + (Field(val, n) + r)) + z == p + (Field(val, n) + (r + z));
  }

  /** encode_digit */
  method EncodeDigitOf(d: char) returns (i: nat)
    ensures i == EncodeDigit(d)
  {
    i := 0;
    while i < 16
      invariant i <= 16 && forall j :: 0 <= j < i ==> TableDigit(j) != d
    {
      if TableDigit(i) == d {
        FirstPlace(d, i);
        return;
      }
      i := i + 1;
    }
    NoPlace(d);
    i := 0;
  }

  lemma FirstPlace(d: char, i: nat)
    requires i < 16 && TableDigit(i) == d && forall j :: 0 <= j < i ==> TableDigit(j) != d
    ensures i == EncodeDigit(d)
  {
    var j := EncodeDigit(d);
    assert TableDigit(j) == d;
  }

  lemma NoPlace(d: char)
    requires forall j :: 0 <= j < 16 ==> TableDigit(j) != d
    ensures EncodeDigit(d) == 0
  {
    assert TableDigit(EncodeDigit(d)) != d;
  }

  /** The loop of encode_number: four bits for each digit from bit `b` on. */
  method EncodeDigits(a: array<char>, b: nat, no: string, ghost p: Bits)
    requires Holds(a[..], p) && |p| == b && b + 4 * |no| <= 4 * a.Length
    modifies a
    ensures Holds(a[..], p + DigitFields(no))
  {
    assert p + DigitFields(no[..0]) == p;
    for i := 0 to |no|
      invariant Holds(a[..], p + DigitFields(no[..i]))
    {
      var digit := EncodeDigitOf(no[i]);
      PutField(a, b + 4 * i, 4, digit, p + DigitFields(no[..i]));
      NextDigit(p, no, i);
    }
    assert no[..|no|] == no;
  }

  lemma NextDigit(p: Bits, no: string, i: nat)
    requires i < |no|
    ensures p + DigitFields(no[..i + 1]) == (p + DigitFields(no[..i])) + Field(EncodeDigit(no[i]), 4)
  {
    assert no[..i + 1][..i] == no[..i];
  }

  /** encode_number at digit `d`; the result is the number of bytes used. */
  method EncodeNumber(a: array<char>, d: nat, no: string, ghost p: Bits) returns (bytes: nat)
    requires Holds(a[..], p) && |p| == 4 * d && |p| + |Padded(NumberBits(no))| <= 4 * a.Length
    modifies a
    ensures Holds(a[..], p + Padded(NumberBits(no))) && 8 * bytes == |Padded(NumberBits(no))|
  {
    PutField(a, 4 * d, 2, 0, p);
    PutField(a, 4 * d + 2, 8, |no|, p + Field(0, 2));
    EncodeDigits(a, 4 * d + 10, no, (p + Field(0, 2)) + Field(|no|, 8));
    Threes(p, Field(0, 2), Field(|no|, 8), DigitFields(no));
    PadUp(a[..], p, NumberBits(no));
    bytes := (10 + 4 * |no| + 7) / 8;
  }

  lemma Threes(p: Bits, x: Bits, y: Bits, z: Bits)
    ensures ((p + x) + y) + z == p + (x + (y + z))
  {
  }

  /** What has been written can be taken as filled up to whole bytes. */
  lemma PadUp(a: string, p: Bits, b: Bits)
    requires Holds(a, p + b) && |p| + |Padded(b)| <= 4 * |a|
    ensures Holds(a, p + Padded(b))
  {
    var gap := |Padded(b)| - |b|;
    HoldsGap(a, p + b, gap);
    assert (p + b) + Zeros(gap) == p + Padded(b);
  }

  // ----- parameters -----

  /** A parameter whose length is still zero. */
  function Opened(p: Bits, code: nat): (b: Bits)
    ensures |b| == |p| + 16
  {
    (p + Field(code, 8)) + Zeros(8)
  }

  method OpenParam(a: array<char>, start: nat, code: nat, ghost p: Bits)
    requires Holds(a[..], p) && start == |p| && start + 16 <= 4 * a.Length
    modifies a
    ensures Holds(a[..], Opened(p, code))
  {
    PutField(a, start, 8, code, p);
    HoldsGap(a[..], p + Field(code, 8), 8);
  }

  method CloseParam(a: array<char>, start: nat, code: nat, bytes: nat, ghost p: Bits, ghost body: Bits)
    requires Holds(a[..], Opened(p, code) + body) && start == |p| && |body| == 8 * bytes
    modifies a
    ensures Holds(a[..], p + Param(code, body))
  {
    Group(p + Field(code, 8), Zeros(8), body);
    PatchField(a, start + 8, 8, bytes, p + Field(code, 8), body);
    Group(p, Field(code, 8), Field(bytes, 8) + body);
  }

  /** A parameter of one zero byte, written as one field of 24 bits. */
  method PutZeroParam(a: array<char>, start: nat, code: nat, val: nat, ghost p: Bits)
    requires Holds(a[..], p) && start == |p| && start + 24 <= 4 * a.Length
    requires val == (code * 256 + 1) * 256
    modifies a
    ensures Holds(a[..], p + Param(code, Field(0, 8)))
  {
    PutField(a, start, 24, val, p);
    ThreeBytes(code, 1, 0);
  }

  // ----- encode_bearer_data -----

  method MessageId(data: string) returns (msgid: int)
    ensures msgid == CharSum(data)
  {
    msgid := 0;
    for i := 0 to |data|
      invariant msgid == CharSum(data[..i])
    {
      assert data[..i + 1][..i] == data[..i];
      msgid := msgid + SignedChar(data[i]);
    }
    assert data[..|data|] == data;
  }

  method EncodeChars(a: array<char>, start: nat, data: string, ghost p: Bits) returns (b: nat)
    requires Holds(a[..], p) && start == |p| && start + 7 * |data| <= 4 * a.Length
    modifies a
    ensures Holds(a[..], p + CharFields(data)) && b == start + 7 * |data|
  {
    b := start;
    assert p + CharFields(data[..0]) == p;
    for i := 0 to |data|
      invariant b == start + 7 * i && Holds(a[..], p + CharFields(data[..i]))
    {
      PutField(a, b, 7, SignedChar(data[i]), p + CharFields(data[..i]));
      NextChar(p, data, i);
      b := b + 7;
    }
    assert data[..|data|] == data;
  }

  lemma NextChar(p: Bits, m: string, i: nat)
    requires i < |m|
    ensures p + CharFields(m[..i + 1]) == (p + CharFields(m[..i])) + Field(SignedChar(m[i]), 7)
  {
    assert m[..i + 1][..i] == m[..i];
  }

  /** The message identifier at bit `start`: the sum of the characters. */
  method EncodeMessageId(a: array<char>, start: nat, data: string, ghost p: Bits)
    requires Holds(a[..], p) && start == |p| && start + 40 <= 4 * a.Length
    modifies a
    ensures Holds(a[..], p + Param(0, Field(2, 4) + Field(CharSum(data), 16) + Zeros(4)))
  {
    var msgid := MessageId(data);
    PutField(a, start, 8, 0, p);
    PutField(a, start + 8, 8, 3, p + Field(0, 8));
    ghost var q := (p + Field(0, 8)) + Field(3, 8);
    PutField(a, start + 16, 4, 2, q);
    PutField(a, start + 20, 16, msgid, q + Field(2, 4));
    HoldsGap(a[..], (q + Field(2, 4)) + Field(msgid, 16), 4);
    Fives(p, Field(0, 8), Field(3, 8), Field(2, 4), Field(msgid, 16), Zeros(4));
  }

  lemma Fives(p: Bits, v: Bits, w: Bits, x: Bits, y: Bits, z: Bits)
    ensures ((((p + v) + w) + x) + y) + z == p + (v + (w + (x + y + z)))
  {
  }

  /** The value of the user data from bit `start` on; the result is the bit behind it. */
  method EncodeUserValue(a: array<char>, start: nat, data: string, ghost p: Bits) returns (b: nat)
    requires Holds(a[..], p) && start == |p| && start + |Padded(UserBits(data))| <= 4 * a.Length
    modifies a
    ensures Holds(a[..], p + Padded(UserBits(data))) && b == start + |UserBits(data)|
  {
    PutField(a, start, 5, 2, p);
    PutField(a, start + 5, 8, |data|, p + Field(2, 5));
    b := EncodeChars(a, start + 13, data, (p + Field(2, 5)) + Field(|data|, 8));
    Threes(p, Field(2, 5), Field(|data|, 8), CharFields(data));
    PadUp(a[..], p, UserBits(data));
  }

  /** The user data at bit `start`; the result is the number of bytes of the parameter. */
  method EncodeUserData(a: array<char>, start: nat, data: string, ghost p: Bits) returns (bytes: nat)
    requires Holds(a[..], p) && start == |p| && start + 16 + |Padded(UserBits(data))| <= 4 * a.Length
    modifies a
    ensures Holds(a[..], p + Param(1, Padded(UserBits(data)))) && 8 * bytes == 16 + |Padded(UserBits(data))|
  {
    OpenParam(a, start, 1, p);
    var b := EncodeUserValue(a, start + 16, data, Opened(p, 1));
    bytes := (b - start + 7) / 8;
    WholeBytes(b - start, data);
    CloseParam(a, start, 1, bytes - 2, p, Padded(UserBits(data)));
  }

  lemma WholeBytes(b: nat, data: string)
    requires b == 16 + |UserBits(data)|
    ensures 8 * ((b + 7) / 8 - 2) == |Padded(UserBits(data))|
  {
  }

  /** encode_bearer_data at digit `d`; the result is the number of bytes used. */
  method EncodeBearer(a: array<char>, d: nat, data: string, ghost p: Bits) returns (bytes: nat)
    requires Holds(a[..], p) && |p| == 4 * d && |p| + |BearerBits(data)| <= 4 * a.Length
    modifies a
    ensures Holds(a[..], p + BearerBits(data)) && 8 * bytes == |BearerBits(data)|
  {
    ghost var id, user, zero := Field(2, 4) + Field(CharSum(data), 16) + Zeros(4), Padded(UserBits(data)), Field(0, 8);
    EncodeMessageId(a, 4 * d, data, p);
    ghost var p1 := p + Param(0, id);
    var used := EncodeUserData(a, 4 * (d + 10), data, p1);
    var e := d + 10 + 2 * used;
    ghost var p2 := p1 + Param(1, user);
    EncodeTail(a, 4 * e, p2);
    Threes(p, Param(0, id), Param(1, user), Param(8, zero) + Param(13, zero));
    bytes := (e + 12 - d) / 2;
    BearerBytes(d, e, used, data);
  }

  lemma BearerBytes(d: nat, e: nat, used: nat, data: string)
    requires 8 * used == 16 + |Padded(UserBits(data))| && e == d + 10 + 2 * used
    ensures 8 * ((e + 12 - d) / 2) == |BearerBits(data)| && (e + 12 - d) / 2 >= 0
  {
  }

  method EncodeTail(a: array<char>, start: nat, ghost p: Bits)
    requires Holds(a[..], p) && start == |p| && start + 48 <= 4 * a.Length
    modifies a
    ensures Holds(a[..], p + (Param(8, Field(0, 8)) + Param(13, Field(0, 8))))
  {
    PutZeroParam(a, start, 8, 0x80100, p);
    PutZeroParam(a, start + 24, 13, 0x0D0100, p + Param(8, Field(0, 8)));
    Group(p, Param(8, Field(0, 8)), Param(13, Field(0, 8)));
  }

  lemma Fours(p: Bits, w: Bits, x: Bits, y: Bits, z: Bits)
    ensures (((p + w) + x) + y) + z == p + (w + (x + (y + z)))
  {
  }

  // ----- encode_cdma_sms -----

  method FillZeros(pdu: array<char>)
    modifies pdu
    ensures Holds(pdu[..], [])
  {
    for i := 0 to pdu.Length
      invariant forall k :: 0 <= k < i ==> pdu[k] == '0'
    {
      pdu[i] := '0';
    }
    ZeroDigits(pdu[..]);
  }

  lemma {:induction false} ZeroDigits(s: string)
    requires forall i :: 0 <= i < |s| ==> s[i] == '0'
    ensures BitsOf(s) == Zeros(4 * |s|)
  {
    if s != "" {
      ZeroDigits(s[1..]);
      assert DigitBits('0') == Zeros(4);
      assert Zeros(4) + Zeros(4 * |s[1..]|) == Zeros(4 * |s|);
    }
  }

  /** The message type and the teleservice identifier. */
  method EncodeStart(pdu: array<char>)
    requires Holds(pdu[..], []) && pdu.Length >= 10
    modifies pdu
    ensures Holds(pdu[..], Field(0, 8) + Param(0, Field(0x1002, 16)))
  {
    PutField(pdu, 0, 16, 0, []);
    assert [] + Field(0, 16) == Field(0, 16);
    PutField(pdu, 16, 24, 0x021002, Field(0, 16));
    StartFields();
  }

  lemma StartFields()
    ensures Field(0, 16) + Field(0x021002, 24) == Field(0, 8) + Param(0, Field(0x1002, 16))
  {
    assert Pow2(8) == 256;
    assert Pow2(16) == 0x10000;
    FieldSplit(0, 8, 8);
    FieldSplit(0x021002, 8, 16);
    FieldModulo(0x1002, 2, 16);
    Fours([], Field(0, 8), Field(0, 8), Field(2, 8), Field(0x1002, 16));
  }

  /** The teleservice, the receiver and the message as they are read in a PDU. */
  ghost predicate ReadsBack(b: Bits, to: string, message: string) {
    && HasField(b, 8, 0, 0x1002, 16) && U(b, 40, 8) == 4
    && (DecodeNumber(b, 56) == Some(to) <==> |to| < 256 && forall c <- to :: IsDialDigit(c))
    && ((forall c <- message :: c as int < 256) ==>
          (DecodePdu(b) == Some(Sms("000000", message, 0)) <==>
             |message| < 256 && forall c <- message :: Is7Bit(c)))
  }

  /** encode_cdma_sms: the PDU fills the buffer from its start and a NUL ends it.  Its digits
      name the teleservice 0x1002, and receiver and message are read back from them if and
      only if they can be written. */
  method EncodeCdmaSms(pdu: array<char>, to: string, message: string)
    requires pdu.Length == 512 && |PduBits(to, message)| < 4 * 512
    modifies pdu
    ensures var end := |PduBits(to, message)| / 4;
            IsHex(pdu[..end]) && BitsOf(pdu[..end]) == PduBits(to, message) && pdu[end] == '\0'
    ensures ReadsBack(BitsOf(pdu[..|PduBits(to, message)| / 4]), to, message)
  {
    FillZeros(pdu);
    var i := EncodeParams(pdu, to, message);
    HeldDigits(pdu[..], PduBits(to, message), i);
    ghost var digits := pdu[..][..i];
    pdu[i] := '\0';
    assert i == |PduBits(to, message)| / 4 && pdu[..i] == digits;
    ReadBack(to, message, PduBits(to, message));
  }

  /** The parameters one behind the other; the result is the digit behind them. */
  method EncodeParams(pdu: array<char>, to: string, message: string) returns (i: nat)
    requires Holds(pdu[..], []) && |PduBits(to, message)| <= 4 * pdu.Length
    modifies pdu
    ensures Holds(pdu[..], PduBits(to, message)) && |PduBits(to, message)| == 4 * i
  {
    ghost var no, body, zero := Padded(NumberBits(to)), BearerBits(message), Field(0, 8);
    EncodeStart(pdu);
    ghost var p := Field(0, 8) + Param(0, Field(0x1002, 16));
    i := EncodeReceiver(pdu, to, p);
    ghost var p4 := p + Param(4, no);
    PutZeroParam(pdu, 4 * i, 6, 0x060100, p4);
    i := i + 6;
    i := EncodeMessage(pdu, i, message, p4 + Param(6, zero));
    Fours(Field(0, 8), Param(0, Field(0x1002, 16)), Param(4, no), Param(6, zero), Param(8, body));
  }

  lemma ReadBack(to: string, message: string, b: Bits)
    requires b == PduBits(to, message) && |b| < 4 * 512
    ensures ReadsBack(b, to, message)
  {
    var e := 56 + |Padded(NumberBits(to))|;
    PduFields(to, message, b, e, e + 24);
    if forall c <- message :: c as int < 256 {
      BufferRoundTripIff(to, message);
    }
  }

  /** The receiver's number, behind the ten digits of the start. */
  method EncodeReceiver(pdu: array<char>, to: string, ghost p: Bits) returns (end: nat)
    requires Holds(pdu[..], p) && |p| == 40 && |p| + |Param(4, Padded(NumberBits(to)))| <= 4 * pdu.Length
    modifies pdu
    ensures Holds(pdu[..], p + Param(4, Padded(NumberBits(to)))) && 4 * end == |p| + |Param(4, Padded(NumberBits(to)))|
  {
    OpenParam(pdu, 40, 4, p);
    var length := EncodeNumber(pdu, 14, to, Opened(p, 4));
    CloseParam(pdu, 40, 4, length, p, Padded(NumberBits(to)));
    end := 10 + length * 2 + 4;
  }

  /** The bearer data at digit `i`. */
  method EncodeMessage(pdu: array<char>, i: nat, message: string, ghost p: Bits) returns (end: nat)
    requires Holds(pdu[..], p) && |p| == 4 * i && |p| + |Param(8, BearerBits(message))| <= 4 * pdu.Length
    modifies pdu
    ensures Holds(pdu[..], p + Param(8, BearerBits(message))) && 4 * end == |p| + |Param(8, BearerBits(message))|
  {
    OpenParam(pdu, 4 * i, 8, p);
    var length := EncodeBearer(pdu, i + 4, message, Opened(p, 8));
    CloseParam(pdu, 4 * i, 8, length, p, BearerBits(message));
    end := i + length * 2 + 4;
  }

  lemma HeldDigits(a: string, p: Bits, i: nat)
    requires Holds(a, p) && |p| == 4 * i
    ensures i <= |a| && IsHex(a[..i]) && BitsOf(a[..i]) == p
  {
    BitsSlice(a, 0, i);
    assert BitsOf(a)[0..4 * i] == p;
    assert a[0..i] == a[..i];
    forall c | c in a[..i] ensures IsHexDigit(c) {
      assert c in a;
    }
  }
}
