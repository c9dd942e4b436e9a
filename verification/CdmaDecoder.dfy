/**
 decode_cdma_sms and its parts on a string of hex digits. Each is called where the
 source reads inside the string: where the specification gives a value.
 */
module CdmaDecoder {
  import opened Bytes
  import opened HexBits
  import opened HexBuffer
  import opened CdmaPdu

  /** get_code_and_length at digit `d` */
  method GetCodeAndLength(s: string, d: nat) returns (code: nat, length: nat)
    requires IsHex(s) && d + 4 <= |s|
    ensures code == U(BitsOf(s), 4 * d, 8) && length == U(BitsOf(s), 4 * d + 8, 8)
  {
    ByteAt(s, d);
    ByteAt(s, d + 2);
    code := Hex2Int(s[d]) * 16 + Hex2Int(s[d + 1]);
    length := Hex2Int(s[d + 2]) * 16 + Hex2Int(s[d + 3]);
  }

  lemma ByteAt(s: string, d: nat)
    requires IsHex(s) && d + 2 <= |s|
    ensures U(BitsOf(s), 4 * d, 8) == Hex2Int(s[d]) * 16 + Hex2Int(s[d + 1])
    ensures IsHexDigit(s[d]) && IsHexDigit(s[d + 1])
  {
    assert s[d] in s && s[d + 1] in s;
    var t := s[d..d + 2];
    PairBits(s, d, t);
    NumberOfByte(t);
  }

  lemma PairBits(s: string, d: nat, t: string)
    requires d + 2 <= |s| && t == s[d..d + 2]
    ensures U(BitsOf(s), 4 * d, 8) == Number(BitsOf(t))
  {
    BitsSlice(s, d, d + 2);
    SameSlice(BitsOf(s), 4 * d, BitsOf(t));
  }

  lemma SameSlice(b: Bits, at: nat, f: Bits)
    requires at + 8 <= |b| && b[at..at + 8] == f
    ensures U(b, at, 8) == Number(f)
  {
  }

  /** decode_number at digit `d` */
  method DecodeNumberAt(s: string, d: nat) returns (no: string)
    requires d <= |s| && DecodeNumber(BitsOf(s), 4 * d).Some?
    ensures DecodeNumber(BitsOf(s), 4 * d) == Some(no)
  {
    var ndigits := GetBits(s, 4 * d + 2, 8);
    no := ReadDigits(s, 4 * d + 10, ndigits);
  }

  method ReadDigits(s: string, start: nat, n: nat) returns (no: string)
    requires start + 4 * n <= 4 * |s|
    ensures no == DigitsAt(BitsOf(s), start, n)
  {
    no := "";
    for j := 0 to n
      invariant no == DigitsAt(BitsOf(s), start, j)
    {
      var digit := ReadDigit(s, start + j * 4);
      OneMoreDigit(BitsOf(s), start, j, start + j * 4);
      no := no + [TableDigit(digit)];
    }
  }

  lemma OneMoreDigit(b: Bits, start: nat, j: nat, at: nat)
    requires at == start + j * 4
    ensures DigitsAt(b, start, j + 1) == DigitsAt(b, start, j) + [TableDigit(U(b, at, 4) % 16)]
  {
  }

  method ReadDigit(s: string, start: nat) returns (digit: nat)
    requires start + 4 <= 4 * |s|
    ensures digit < 16 && digit == U(BitsOf(s), start, 4)
  {
    digit := GetBits(s, start, 4);
    FourBits(BitsOf(s)[start..start + 4]);
  }

  lemma FourBits(f: Bits)
    requires |f| == 4
    ensures Number(f) < 16
  {
    NumberFits(f);
    assert Pow2(4) == 16;
  }

  /** A loop that reads `n` characters of `width` bits, `step` bits apart. */
  method ReadChars(s: string, start: nat, n: nat, width: nat, step: nat) returns (t: string)
    requires width <= step && (n == 0 || start + step * (n - 1) + width <= 4 * |s|)
    ensures t == CharsAt(BitsOf(s), start, n, width, step)
  {
    t := "";
    for j := 0 to n
      invariant t == CharsAt(BitsOf(s), start, j, width, step)
    {
      Inside(step, j, n);
      var c := GetBits(s, start + step * j, width);
      t := t + [(c % 256) as char];
    }
  }

  lemma Inside(step: nat, j: nat, n: nat)
    requires j < n
    ensures step * j <= step * (n - 1)
  {
  }

  /** The user data at digit `d`: encoding, number of characters, characters. */
  method ReadUserData(s: string, d: nat) returns (t: string)
    requires d <= |s| && UserData(BitsOf(s), 4 * d).Some?
    ensures UserData(BitsOf(s), 4 * d) == Some(t)
  {
    var encoding := GetBits(s, 4 * d, 5);
    var nchars := GetBits(s, 4 * d + 5, 8);
    if encoding == 2 || encoding == 3 {
      t := ReadChars(s, 4 * d + 13, nchars, 7, 7);
    } else if encoding == 8 || encoding == 0 {
      t := ReadChars(s, 4 * d + 13, nchars, 8, 8);
    } else if encoding == 4 {
      t := ReadChars(s, 4 * (d + 2) + 13, nchars, 8, 16);
    } else {
      t := BAD_ENCODING;
    }
  }

  /** decode_bearer_data at digit `d`; `text` stays None while nothing has been written
      to the message. */
  method DecodeBearerData(s: string, d: nat, length: nat, isVm: nat) returns (r: Bearer)
    requires IsHex(s) && DecodeBearer(BitsOf(s), 4 * d, length, 0, Bearer(None, isVm)).Some?
    ensures DecodeBearer(BitsOf(s), 4 * d, length, 0, Bearer(None, isVm)) == Some(r)
  {
    r := Bearer(None, isVm);
    var i := 0;
    while i < length
      invariant DecodeBearer(BitsOf(s), 4 * d, length, 0, Bearer(None, isVm))
                == DecodeBearer(BitsOf(s), 4 * d, length, i, r)
    {
      i, r := DecodeSubParameter(s, d, length, i, r);
    }
  }

  /** One turn of the loop: the sub-parameter at byte `i`. */
  method DecodeSubParameter(s: string, d: nat, length: nat, i: nat, r: Bearer) returns (i': nat, r': Bearer)
    requires IsHex(s) && i < length && DecodeBearer(BitsOf(s), 4 * d, length, i, r).Some?
    ensures i < i' && DecodeBearer(BitsOf(s), 4 * d, length, i', r') == DecodeBearer(BitsOf(s), 4 * d, length, i, r)
  {
    var code, sub := GetCodeAndLength(s, d + i * 2);
    r' := r;
    if code == 1 {
      var t := ReadUserData(s, d + i * 2 + 4);
      r' := r.(text := Some((if r.text.Some? then r.text.value else "") + t));
    } else if code == 11 && sub == 1 {
      var msgs := ReadMessageCount(s, d + i * 2 + 4);
      r' := r.(isVm := if msgs != 0 then 0x11 else 1);
    }
    i' := i + sub + 2;
  }

  /** The number of voice mails, its two digits taken the other way round: zero when
      the byte is. */
  method ReadMessageCount(s: string, d: nat) returns (msgs: nat)
    requires IsHex(s) && d + 2 <= |s|
    ensures msgs == 0 <==> U(BitsOf(s), 4 * d, 8) == 0
  {
    ByteAt(s, d);
    msgs := Hex2Int(s[d]) + 16 * Hex2Int(s[d + 1]);
  }

  method DecodeCdmaSms(pdu: string) returns (sms: Sms)
    requires IsHex(pdu) && DecodePdu(BitsOf(pdu)).Some?
    ensures DecodePdu(BitsOf(pdu)) == Some(sms)
  {
    var i := 1;
    sms := Sms("000000", "UNKNOWN", 0);
    while i * 2 < |pdu|
      invariant DecodePdu(BitsOf(pdu)) == DecodeParams(BitsOf(pdu), i, sms)
    {
      i, sms := DecodeParameter(pdu, i, sms);
    }
  }

  /** One turn of the loop: the parameter at byte `i`. */
  method DecodeParameter(pdu: string, i: nat, sms: Sms) returns (i': nat, sms': Sms)
    requires IsHex(pdu) && i * 2 < |pdu| && DecodeParams(BitsOf(pdu), i, sms).Some?
    ensures i < i' && DecodeParams(BitsOf(pdu), i', sms') == DecodeParams(BitsOf(pdu), i, sms)
  {
    ParamsStep(BitsOf(pdu), i, sms);
    var code, length := GetCodeAndLength(pdu, i * 2);
    sms' := DecodeValue(pdu, i, code, length, sms);
    i' := i + length + 2;
  }

  /** The parameters that are looked into: originating address and bearer data. */
  method DecodeValue(pdu: string, i: nat, code: nat, length: nat, sms: Sms) returns (sms': Sms)
    requires IsHex(pdu) && 2 * i + 4 <= |pdu|
    requires code == 2 ==> DecodeNumber(BitsOf(pdu), 8 * i + 16).Some?
    requires code == 8 ==> DecodeBearer(BitsOf(pdu), 8 * i + 16, length, 0, Bearer(None, sms.isVm)).Some?
    ensures sms' == if code == 2 then sms.(from := DecodeNumber(BitsOf(pdu), 8 * i + 16).value)
                    else if code == 8
                    then WithBearer(sms, DecodeBearer(BitsOf(pdu), 8 * i + 16, length, 0, Bearer(None, sms.isVm)).value)
                    else sms
  {
    sms' := sms;
    if code == 2 {
      var from := DecodeNumberAt(pdu, i * 2 + 4);
      sms' := sms.(from := from);
    }
    if code == 8 {
      var r := DecodeBearerData(pdu, i * 2 + 4, length, sms.isVm);
      sms' := WithBearer(sms, r);
    }
  }

  function WithBearer(sms: Sms, r: Bearer): Sms {
    sms.(message := if r.text.Some? then r.text.value else sms.message, isVm := r.isVm)
  }

  /** What a parameter needs to be read, and what it changes. */
  lemma ParamsStep(b: Bits, i: nat, sms: Sms)
    requires 8 * i < |b| && DecodeParams(b, i, sms).Some?
    ensures 8 * i + 16 <= |b|
    ensures var code, length := U(b, 8 * i, 8), U(b, 8 * i + 8, 8);
            var number, bearer := DecodeNumber(b, 8 * i + 16),
              DecodeBearer(b, 8 * i + 16, length, 0, Bearer(None, sms.isVm));
            && (code == 2 ==> number.Some?) && (code == 8 ==> bearer.Some?)
            && DecodeParams(b, i, sms) == DecodeParams(b, i + length + 2,
                 if code == 2 then sms.(from := number.value)
                 else if code == 8 then WithBearer(sms, bearer.value) else sms)
  {
  }
}
