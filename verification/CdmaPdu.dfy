/**
 CDMA SMS PDUs as bit strings: the message that encode_cdma_sms writes (the
 parameters of section 4.5.2 of 3GPP2 C.S0015-B) and what decode_cdma_sms reads.
 */
module CdmaPdu {
  import opened Bytes
  import opened HexBits

  // ----- reading fields -----

  /** getbits, where the bits exist. */
  function U(b: Bits, start: nat, n: nat): nat {
    if start + n <= |b| then Number(b[start..start + n]) else 0
  }

  /** decode_table: ".1234567890*#..." */
  function TableDigit(d: nat): char
    requires d < 16
  {
    if 1 <= d <= 9 then ('0' as nat + d) as char
    else if d == 10 then '0' else if d == 11 then '*' else if d == 12 then '#' else '.'
  }

  /** decode_number on the digit fields that begin at bit `at`. */
  function DigitsAt(b: Bits, at: nat, n: nat): (s: string)
    ensures |s| == n
  {
    if n == 0 then "" else DigitsAt(b, at, n - 1) + [TableDigit(U(b, at + 4 * (n - 1), 4) % 16)]
  }

  /** None: the source would read past the end of the string. */
  function DecodeNumber(b: Bits, at: nat): Option<string> {
    var n := U(b, at + 2, 8);
    if at + 10 + 4 * n > |b| then None else Some(DigitsAt(b, at + 10, n))
  }

  /** `n` characters of `width` bits, `step` bits apart. */
  function CharsAt(b: Bits, at: nat, n: nat, width: nat, step: nat): (s: string)
    ensures |s| == n
  {
    if n == 0 then ""
    else CharsAt(b, at, n - 1, width, step) + [(U(b, at + step * (n - 1), width) % 256) as char]
  }

  const BAD_ENCODING: string := "bad SMS encoding"

  /** The user data sub-parameter whose value begins at bit `at`. */
  function UserData(b: Bits, at: nat): Option<string> {
    if at + 13 > |b| then None
    else
      var encoding, n := U(b, at, 5), U(b, at + 5, 8);
      if encoding == 2 || encoding == 3 then
        if at + 13 + 7 * n > |b| then None else Some(CharsAt(b, at + 13, n, 7, 7))
      else if encoding == 8 || encoding == 0 then
        if at + 13 + 8 * n > |b| then None else Some(CharsAt(b, at + 13, n, 8, 8))
      else if encoding == 4 then
        if at + 13 + 16 * n > |b| then None else Some(CharsAt(b, at + 21, n, 8, 16))
      else Some(BAD_ENCODING)
  }

  /** What decode_cdma_sms fills in; `isVm` is the voice mail flag. */
  datatype Sms = Sms(from: string, message: string, isVm: nat)

  datatype Bearer = Bearer(text: Option<string>, isVm: nat)

  /** decode_bearer_data from its byte `i` on; `text` is what it has written so far. */
  function DecodeBearer(b: Bits, at: nat, length: nat, i: nat, r: Bearer): Option<Bearer>
    decreases if i < length then length - i else 0
  {
    var p := at + 8 * i;
    if i >= length then Some(r)
    else if p + 16 > |b| then None
    else
      var code, sub := U(b, p, 8), U(b, p + 8, 8);
      if code == 1 then
        match UserData(b, p + 16)
        case None => None
        case Some(t) =>
          DecodeBearer(b, at, length, i + sub + 2, r.(text := Some((if r.text.Some? then r.text.value else "") + t)))
      else if code == 11 && sub == 1 then
        if p + 24 > |b| then None
        else DecodeBearer(b, at, length, i + sub + 2, r.(isVm := if U(b, p + 16, 8) != 0 then 0x11 else 1))
      else DecodeBearer(b, at, length, i + sub + 2, r)
  }

  /** decode_cdma_sms from its byte `i` on. */
  function DecodeParams(b: Bits, i: nat, sms: Sms): Option<Sms>
    decreases if 8 * i < |b| then |b| - 8 * i else 0
  {
    if 8 * i >= |b| then Some(sms)
    else if 8 * i + 16 > |b| then None
    else
      var code, length := U(b, 8 * i, 8), U(b, 8 * i + 8, 8);
      var at := 8 * i + 16;
      if code == 2 then
        match DecodeNumber(b, at)
        case None => None
        case Some(from) => DecodeParams(b, i + length + 2, sms.(from := from))
      else if code == 8 then
        match DecodeBearer(b, at, length, 0, Bearer(None, sms.isVm))
        case None => None
        case Some(r) =>
          DecodeParams(b, i + length + 2,
                       sms.(message := if r.text.Some? then r.text.value else sms.message, isVm := r.isVm))
      else DecodeParams(b, i + length + 2, sms)
  }

  function DecodePdu(b: Bits): Option<Sms> {
    DecodeParams(b, 1, Sms("000000", "UNKNOWN", 0))
  }

  // ----- the PDU written -----

  /** Filled up with zeros to whole bytes. */
  function Padded(b: Bits): (r: Bits)
    ensures |r| == (|b| + 7) / 8 * 8
  {
    b + Zeros((|b| + 7) / 8 * 8 - |b|)
  }

  /** A parameter: its identifier, its length in bytes, its value. */
  function Param(code: nat, body: Bits): (b: Bits)
    ensures |b| == 16 + |body|
  {
    Field(code, 8) + (Field(|body| / 8, 8) + body)
  }

  /** encode_digit: the first place of the digit in the table, or 0. */
  function EncodeDigit(c: char): (d: nat)
    ensures d < 16
  {
    if c == '0' then 10
    else if '1' <= c <= '9' then c as nat - '0' as nat
    else if c == '*' then 11 else if c == '#' then 12 else 0
  }

  function DigitFields(no: string): (b: Bits)
    ensures |b| == 4 * |no|
  {
    if no == "" then [] else DigitFields(no[..|no| - 1]) + Field(EncodeDigit(no[|no| - 1]), 4)
  }

  function NumberBits(no: string): Bits {
    Field(0, 2) + (Field(|no|, 8) + DigitFields(no))
  }

  /** The value of a char that is a signed byte. */
  function SignedChar(c: char): int {
    if c as int < 128 then c as int else c as int - 256
  }

  function CharFields(m: string): (b: Bits)
    ensures |b| == 7 * |m|
  {
    if m == "" then [] else CharFields(m[..|m| - 1]) + Field(SignedChar(m[|m| - 1]), 7)
  }

  function CharSum(m: string): int {
    if m == "" then 0 else CharSum(m[..|m| - 1]) + SignedChar(m[|m| - 1])
  }

  /** User data: 7-bit ASCII, the number of characters, the characters. */
  function UserBits(m: string): Bits {
    Field(2, 5) + (Field(|m|, 8) + CharFields(m))
  }

  function BearerBits(m: string): Bits {
    Param(0, Field(2, 4) + Field(CharSum(m), 16) + Zeros(4))
    + (Param(1, Padded(UserBits(m)))
    + (Param(8, Field(0, 8))
    + Param(13, Field(0, 8))))
  }

  function PduBits(to: string, m: string): Bits {
    Field(0, 8)
    + (Param(0, Field(0x1002, 16))
    + (Param(4, Padded(NumberBits(to)))
    + (Param(6, Field(0, 8))
    + Param(8, BearerBits(m)))))
  }
}
