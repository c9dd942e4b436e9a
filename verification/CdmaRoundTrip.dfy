/** Reading back what was written: numbers, user data and the whole CDMA PDU. */
module CdmaRoundTrip {
  import opened Bytes
  import opened HexBits
  import opened CdmaPdu

  /** A field behind `a` reads as its number. */
  lemma NumberAt(a: Bits, f: Bits, rest: Bits)
    ensures U(a + (f + rest), |a|, |f|) == Number(f)
  {
    assert (a + (f + rest))[|a|..|a| + |f|] == f;
  }

  lemma FieldAt(a: Bits, val: int, n: nat, rest: Bits)
    ensures U(a + (Field(val, n) + rest), |a|, n) == val % Pow2(n)
  {
    NumberAt(a, Field(val, n), rest);
    NumberField(val, n);
  }

  lemma Pow2s()
    ensures Pow2(4) == 16 && Pow2(5) == 32 && Pow2(7) == 128 && Pow2(8) == 256 && Pow2(16) == 0x10000
  {
    assert Pow2(4) == 16;
    assert Pow2(8) == 256;
    assert Pow2(12) == 4096;
  }

  /** What stands before the value of a parameter of `n` bytes. */
  function Head(a: Bits, code: nat, n: nat): (b: Bits)
    ensures |b| == |a| + 16
  {
    a + Field(code, 8) + Field(n, 8)
  }

  /** Identifier, length and value of a parameter of `w` bytes in its place. */
  lemma ParamAt(b: Bits, a: Bits, code: nat, body: Bits, rest: Bits, w: nat)
    requires b == a + (Param(code, body) + rest)
    requires code < 256 && |body| == 8 * w && w < 256
    ensures |b| == |a| + 16 + |body| + |rest|
    ensures U(b, |a|, 8) == code && U(b, |a| + 8, 8) == w
    ensures b == Head(a, code, w) + (body + rest)
  {
    Parts(a, Field(code, 8), Field(w, 8), body, rest);
    ByteField(code);
    ByteField(w);
  }

  lemma ByteField(v: nat)
    requires v < 256
    ensures Number(Field(v, 8)) == v
  {
    NumberField(v, 8);
    Pow2s();
  }

  lemma Parts(a: Bits, x: Bits, y: Bits, z: Bits, rest: Bits)
    ensures var b := a + ((x + (y + z)) + rest);
            && U(b, |a|, |x|) == Number(x) && U(b, |a| + |x|, |y|) == Number(y)
            && b == (a + x + y) + (z + rest)
  {
    Regroup(a, x, y + z, rest);
    Regroup(a + x, y, z, rest);
    NumberAt(a, x, (y + z) + rest);
    NumberAt(a + x, y, z + rest);
  }

  // ----- numbers -----

  predicate IsDialDigit(c: char) {
    '0' <= c <= '9' || c == '*' || c == '#' || c == '.'
  }

  /** A character as it comes back: what is not in the table becomes a full stop. */
  function Dialled(no: string): (s: string)
    ensures |s| == |no|
  {
    if no == "" then "" else Dialled(no[..|no| - 1]) + [TableDigit(EncodeDigit(no[|no| - 1]))]
  }

  lemma {:induction false} DigitsRoundTrip(a: Bits, no: string, n: nat, rest: Bits)
    requires n <= |no|
    ensures DigitsAt(a + (DigitFields(no) + rest), |a|, n) == Dialled(no)[..n]
    decreases |no|
  {
    if n > 0 {
      var init, c := no[..|no| - 1], no[|no| - 1];
      var f := Field(EncodeDigit(c), 4);
      Regroup(a, DigitFields(init), f, rest);
      if n < |no| {
        DigitsRoundTrip(a, init, n, f + rest);
      } else {
        DigitsRoundTrip(a, init, n - 1, f + rest);
        LastDigit(a + DigitFields(init), c, rest);
      }
    }
  }

  lemma LastDigit(a: Bits, c: char, rest: Bits)
    ensures U(a + (Field(EncodeDigit(c), 4) + rest), |a|, 4) % 16 == EncodeDigit(c)
  {
    FieldAt(a, EncodeDigit(c), 4, rest);
    Pow2s();
  }

  lemma NumberRoundTrip(a: Bits, no: string, k: nat, rest: Bits)
    requires k == |no| % 256
    ensures DecodeNumber(a + (NumberBits(no) + rest), |a|) == Some(Dialled(no)[..k])
  {
    var x, y, z := Field(0, 2), Field(|no|, 8), DigitFields(no);
    Parts(a, x, y, z, rest);
    LengthField(|no|);
    DigitsRoundTrip(a + x + y, no, k, rest);
  }

  lemma ModAtMost(n: nat)
    ensures n % 256 <= n
  {
  }

  lemma LengthField(n: nat)
    ensures Number(Field(n, 8)) == n % 256 <= n
  {
    ModAtMost(n);
    NumberField(n, 8);
    Pow2s();
  }

  /** Exactly the numbers over 0-9, *, # and full stop, of at most 255 characters, come back. */
  lemma NumberRoundTripIff(a: Bits, no: string, rest: Bits)
    ensures DecodeNumber(a + (NumberBits(no) + rest), |a|) == Some(no) <==>
              |no| < 256 && forall c <- no :: IsDialDigit(c)
  {
    var k := |no| % 256;
    NumberRoundTrip(a, no, k, rest);
    DialledIff(no);
    if |no| < 256 {
      assert Dialled(no)[..k] == Dialled(no);
    } else {
      assert |Dialled(no)[..k]| != |no|;
    }
  }

  lemma DialDigit(c: char)
    ensures TableDigit(EncodeDigit(c)) == c <==> IsDialDigit(c)
  {
  }

  lemma {:induction false} DialledIff(no: string)
    ensures Dialled(no) == no <==> forall c <- no :: IsDialDigit(c)
  {
    if no != "" {
      var init, c := no[..|no| - 1], no[|no| - 1];
      DialDigit(c);
      DialledIff(init);
      assert no == init + [c];
      assert Dialled(no) == no <==> Dialled(init) == init && TableDigit(EncodeDigit(c)) == c by {
        LastEq(Dialled(init), TableDigit(EncodeDigit(c)), init, c);
      }
    }
  }

  lemma LastEq(s: string, x: char, t: string, y: char)
    requires |s| == |t|
    ensures s + [x] == t + [y] <==> s == t && x == y
  {
    if s + [x] == t + [y] {
      assert (s + [x])[..|s|] == s && (t + [y])[..|t|] == t;
      assert (s + [x])[|s|] == x && (t + [y])[|t|] == y;
    }
  }

  // ----- user data -----

  /** A message as it comes back: the low seven bits of each character. */
  function Low7(m: string): (s: string)
    ensures |s| == |m|
  {
    if m == "" then "" else Low7(m[..|m| - 1]) + [(SignedChar(m[|m| - 1]) % 128) as char]
  }

  lemma LastChar(a: Bits, c: char, rest: Bits)
    ensures U(a + (Field(SignedChar(c), 7) + rest), |a|, 7) % 256 == SignedChar(c) % 128
  {
    FieldAt(a, SignedChar(c), 7, rest);
    Pow2s();
  }

  lemma {:induction false} CharsRoundTrip(a: Bits, m: string, n: nat, rest: Bits)
    requires n <= |m|
    ensures CharsAt(a + (CharFields(m) + rest), |a|, n, 7, 7) == Low7(m)[..n]
    decreases |m|
  {
    if n > 0 {
      var init, c := m[..|m| - 1], m[|m| - 1];
      var f := Field(SignedChar(c), 7);
      Regroup(a, CharFields(init), f, rest);
      if n < |m| {
        CharsRoundTrip(a, init, n, f + rest);
      } else {
        CharsRoundTrip(a, init, n - 1, f + rest);
        LastChar(a + CharFields(init), c, rest);
      }
    }
  }

  /** A message as it is received: its length is sent in eight bits. */
  function Received(m: string): string {
    Low7(m)[..|m| % 256]
  }

  lemma UserDataRoundTrip(b: Bits, a: Bits, m: string, k: nat, rest: Bits)
    requires b == a + (UserBits(m) + rest) && k == |m| % 256
    ensures UserData(b, |a|) == Some(Low7(m)[..k])
  {
    LengthField(|m|);
    EncodingField();
    UserFields(b, a, Field(2, 5), Field(|m|, 8), m, k, rest);
  }

  lemma UserFields(b: Bits, a: Bits, x: Bits, y: Bits, m: string, k: nat, rest: Bits)
    requires b == a + ((x + (y + CharFields(m))) + rest)
    requires |x| == 5 && Number(x) == 2 && |y| == 8 && Number(y) == k && k <= |m|
    ensures UserData(b, |a|) == Some(Low7(m)[..k])
  {
    Parts(a, x, y, CharFields(m), rest);
    CharsRoundTrip(a + x + y, m, k, rest);
    UserDataIs(b, |a|, k, Low7(m)[..k]);
  }

  lemma UserDataIs(b: Bits, at: nat, k: nat, t: string)
    requires at + 13 + 7 * k <= |b| && U(b, at, 5) == 2 && U(b, at + 5, 8) == k && CharsAt(b, at + 13, k, 7, 7) == t
    ensures UserData(b, at) == Some(t)
  {
  }

  lemma EncodingField()
    ensures Number(Field(2, 5)) == 2
  {
    NumberField(2, 5);
    Pow2s();
  }

  // ----- the bearer data and the PDU -----

  /** A sub-parameter of `w` bytes that decode_bearer_data passes over. */
  lemma BearerSkips(b: Bits, a: Bits, code: nat, body: Bits, rest: Bits, at: nat, length: nat, i: nat, w: nat,
                    next: nat, r: Bearer)
    requires b == a + (Param(code, body) + rest)
    requires code < 256 && code != 1 && code != 11 && |body| == 8 * w && w < 256
    requires |a| == at + 8 * i && i < length && next == i + w + 2
    ensures DecodeBearer(b, at, length, i, r) == DecodeBearer(b, at, length, next, r)
  {
    ParamAt(b, a, code, body, rest, w);
  }

  lemma PaddedRest(b: Bits, rest: Bits) returns (pad: Bits)
    ensures Padded(b) + rest == b + pad
  {
    pad := Zeros((|b| + 7) / 8 * 8 - |b|) + rest;
  }

  lemma BearerText(b: Bits, a: Bits, user: Bits, m: string, rest: Bits, at: nat, length: nat, i: nat, w: nat,
                   next: nat, vm: nat)
    requires b == a + (Param(1, user) + rest)
    requires user == Padded(UserBits(m)) && |user| == 8 * w && w < 256
    requires |a| == at + 8 * i && i < length && next == i + w + 2
    ensures DecodeBearer(b, at, length, i, Bearer(None, vm))
            == DecodeBearer(b, at, length, next, Bearer(Some(Received(m)), vm))
  {
    UserDataIn(b, a, user, m, rest, w);
    var t := Received(m);
    assert "" + t == t;
  }

  lemma UserDataIn(b: Bits, a: Bits, user: Bits, m: string, rest: Bits, w: nat)
    requires b == a + (Param(1, user) + rest)
    requires user == Padded(UserBits(m)) && |user| == 8 * w && w < 256
    ensures |b| >= |a| + 16 && U(b, |a|, 8) == 1 && U(b, |a| + 8, 8) == w
    ensures UserData(b, |a| + 16) == Some(Received(m))
  {
    ParamAt(b, a, 1, user, rest, w);
    UserDataBehind(b, Head(a, 1, w), user, m, rest);
  }

  lemma UserDataBehind(b: Bits, a: Bits, user: Bits, m: string, rest: Bits)
    requires b == a + (user + rest) && user == Padded(UserBits(m))
    ensures UserData(b, |a|) == Some(Received(m))
  {
    var pad := PaddedRest(UserBits(m), rest);
    UserDataRoundTrip(b, a, m, |m| % 256, pad);
  }

  /** The four sub-parameters in their places. */
  lemma FourParams(a: Bits, p0: Bits, p1: Bits, p2: Bits, p3: Bits, rest: Bits)
    ensures var b := a + ((p0 + (p1 + (p2 + p3))) + rest);
            && b == a + (p0 + ((p1 + (p2 + p3)) + rest))
            && b == (a + p0) + (p1 + ((p2 + p3) + rest))
            && b == (a + p0 + p1) + (p2 + (p3 + rest))
            && b == (a + p0 + p1 + p2) + (p3 + rest)
  {
    Regroup(a, p0, p1 + (p2 + p3), rest);
    Regroup(a + p0, p1, p2 + p3, rest);
    Regroup(a + p0 + p1, p2, p3, rest);
  }

  lemma BearerLength(m: string, w: nat)
    requires |Padded(UserBits(m))| == 8 * w
    ensures |BearerBits(m)| == 8 * (w + 13)
  {
  }

  /** The text of the bearer data comes back, and no voice mail flag with it. */
  lemma BearerRoundTrip(b: Bits, a: Bits, m: string, rest: Bits, w: nat, vm: nat)
    requires b == a + (BearerBits(m) + rest)
    requires |Padded(UserBits(m))| == 8 * w && w < 256
    ensures DecodeBearer(b, |a|, w + 13, 0, Bearer(None, vm)) == Some(Bearer(Some(Received(m)), vm))
  {
    var id, user, zero := Field(2, 4) + Field(CharSum(m), 16) + Zeros(4), Padded(UserBits(m)), Field(0, 8);
    FourParams(a, Param(0, id), Param(1, user), Param(8, zero), Param(13, zero), rest);
    BearerSteps(b, a, id, user, zero, m, rest, w, vm);
  }

  lemma BearerSteps(b: Bits, a: Bits, id: Bits, user: Bits, zero: Bits, m: string, rest: Bits, w: nat, vm: nat)
    requires |id| == 24 && |zero| == 8 && user == Padded(UserBits(m)) && |user| == 8 * w && w < 256
    requires b == a + (Param(0, id) + ((Param(1, user) + (Param(8, zero) + Param(13, zero))) + rest))
    requires b == (a + Param(0, id)) + (Param(1, user) + ((Param(8, zero) + Param(13, zero)) + rest))
    requires b == (a + Param(0, id) + Param(1, user)) + (Param(8, zero) + (Param(13, zero) + rest))
    requires b == (a + Param(0, id) + Param(1, user) + Param(8, zero)) + (Param(13, zero) + rest)
    ensures DecodeBearer(b, |a|, w + 13, 0, Bearer(None, vm)) == Some(Bearer(Some(Received(m)), vm))
  {
    var p0, p1, p2, p3 := Param(0, id), Param(1, user), Param(8, zero), Param(13, zero);
    BearerSkips(b, a, 0, id, (p1 + (p2 + p3)) + rest, |a|, w + 13, 0, 3, 5, Bearer(None, vm));
    BearerMore(b, a + p0, user, zero, m, rest, |a|, w + 13, w, vm);
  }

  lemma BearerMore(b: Bits, a: Bits, user: Bits, zero: Bits, m: string, rest: Bits, at: nat, length: nat, w: nat,
                   vm: nat)
    requires length == w + 13 && |zero| == 8 && user == Padded(UserBits(m))
    requires |user| == 8 * w && w < 256 && |a| == at + 8 * 5
    requires b == a + (Param(1, user) + ((Param(8, zero) + Param(13, zero)) + rest))
    requires b == (a + Param(1, user)) + (Param(8, zero) + (Param(13, zero) + rest))
    requires b == (a + Param(1, user) + Param(8, zero)) + (Param(13, zero) + rest)
    ensures DecodeBearer(b, at, length, 5, Bearer(None, vm)) == Some(Bearer(Some(Received(m)), vm))
  {
    BearerText(b, a, user, m, (Param(8, zero) + Param(13, zero)) + rest, at, length, 5, w, w + 7, vm);
    BearerEnd(b, a + Param(1, user), zero, rest, at, length, w + 7, Bearer(Some(Received(m)), vm));
  }

  lemma BearerEnd(b: Bits, a: Bits, zero: Bits, rest: Bits, at: nat, length: nat, i: nat, r: Bearer)
    requires |zero| == 8 && |a| == at + 8 * i && i + 6 == length
    requires b == a + (Param(8, zero) + (Param(13, zero) + rest))
    requires b == (a + Param(8, zero)) + (Param(13, zero) + rest)
    ensures DecodeBearer(b, at, length, i, r) == Some(r)
  {
    var next := a + Param(8, zero);
    BearerSkips(b, a, 8, zero, Param(13, zero) + rest, at, length, i, 1, i + 3, r);
    BearerLast(b, next, zero, rest, at, length, i + 3, r);
  }

  lemma BearerLast(b: Bits, a: Bits, zero: Bits, rest: Bits, at: nat, length: nat, i: nat, r: Bearer)
    requires |zero| == 8 && |a| == at + 8 * i && i + 3 == length && b == a + (Param(13, zero) + rest)
    ensures DecodeBearer(b, at, length, i, r) == Some(r)
  {
    BearerSkips(b, a, 13, zero, rest, at, length, i, 1, length, r);
  }

  /** A parameter that decode_cdma_sms passes over. */
  lemma ParamSkips(b: Bits, a: Bits, code: nat, body: Bits, rest: Bits, i: nat, w: nat, next: nat, sms: Sms)
    requires b == a + (Param(code, body) + rest)
    requires code < 256 && code != 2 && code != 8 && |body| == 8 * w && w < 256 && |a| == 8 * i && next == i + w + 2
    ensures DecodeParams(b, i, sms) == DecodeParams(b, next, sms)
  {
    ParamAt(b, a, code, body, rest, w);
  }

  lemma BearerParam(b: Bits, a: Bits, m: string, rest: Bits, i: nat, w: nat, sms: Sms, next: nat)
    requires b == a + (Param(8, BearerBits(m)) + rest)
    requires |Padded(UserBits(m))| == 8 * w && w + 13 < 256 && |a| == 8 * i && next == i + w + 15
    ensures DecodeParams(b, i, sms) == DecodeParams(b, next, sms.(message := Received(m)))
  {
    BearerLength(m, w);
    ParamAt(b, a, 8, BearerBits(m), rest, w + 13);
    var head := Head(a, 8, w + 13);
    BearerRoundTrip(b, head, m, rest, w, sms.isVm);
    assert |head| == 8 * i + 16;
    BearerTaken(b, i, w + 13, sms, Received(m), next);
  }

  lemma BearerTaken(b: Bits, i: nat, length: nat, sms: Sms, t: string, next: nat)
    requires next == i + length + 2 && 8 * i + 16 <= |b| && U(b, 8 * i, 8) == 8 && U(b, 8 * i + 8, 8) == length
    requires DecodeBearer(b, 8 * i + 16, length, 0, Bearer(None, sms.isVm)) == Some(Bearer(Some(t), sms.isVm))
    ensures DecodeParams(b, i, sms) == DecodeParams(b, next, sms.(message := t))
  {
  }

  /** The message comes back, its characters reduced to seven bits and its length to
      eight; the sender stays the default and there is no voice mail flag. */
  lemma PduRoundTrip(to: string, m: string, v: nat, w: nat)
    requires |Padded(NumberBits(to))| == 8 * v && v < 256
    requires |Padded(UserBits(m))| == 8 * w && w + 13 < 256
    ensures DecodePdu(PduBits(to, m)) == Some(Sms("000000", Received(m), 0))
  {
    var a, p0, p4, p6, p8 := Field(0, 8), Param(0, Field(0x1002, 16)), Param(4, Padded(NumberBits(to))),
      Param(6, Field(0, 8)), Param(8, BearerBits(m));
    var b := PduBits(to, m);
    FourParams(a, p0, p4, p6, p8, []);
    var body := p0 + (p4 + (p6 + p8));
    assert body + [] == body;
    PduSteps(b, a, Field(0x1002, 16), Padded(NumberBits(to)), Field(0, 8), m, v, w);
  }

  lemma PduSteps(b: Bits, a: Bits, id: Bits, no: Bits, zero: Bits, m: string, v: nat, w: nat)
    requires |a| == 8 && |id| == 16 && |no| == 8 * v && v < 256
    requires |zero| == 8 && |Padded(UserBits(m))| == 8 * w && w + 13 < 256
    requires b == a + (Param(0, id) + ((Param(4, no) + (Param(6, zero) + Param(8, BearerBits(m)))) + []))
    requires b == (a + Param(0, id)) + (Param(4, no) + ((Param(6, zero) + Param(8, BearerBits(m))) + []))
    requires b == (a + Param(0, id) + Param(4, no)) + (Param(6, zero) + (Param(8, BearerBits(m)) + []))
    requires b == (a + Param(0, id) + Param(4, no) + Param(6, zero)) + (Param(8, BearerBits(m)) + [])
    ensures DecodePdu(b) == Some(Sms("000000", Received(m), 0))
  {
    var sms := Sms("000000", "UNKNOWN", 0);
    ParamSkips(b, a, 0, id, (Param(4, no) + (Param(6, zero) + Param(8, BearerBits(m)))) + [], 1, 2, 5, sms);
    PduEnd(b, a + Param(0, id) + Param(4, no), zero, m, v + 7, w, v + 10, sms);
    PduMiddle(b, a + Param(0, id), no, (Param(6, zero) + Param(8, BearerBits(m))) + [], v, sms,
              sms.(message := Received(m)));
  }

  lemma PduMiddle(b: Bits, a: Bits, no: Bits, rest: Bits, v: nat, sms: Sms, sms': Sms)
    requires |a| == 40 && |no| == 8 * v && v < 256
    requires b == a + (Param(4, no) + rest) && DecodeParams(b, v + 7, sms) == Some(sms')
    ensures DecodeParams(b, 5, sms) == Some(sms')
  {
    ParamSkips(b, a, 4, no, rest, 5, v, v + 7, sms);
  }

  lemma PduEnd(b: Bits, a: Bits, zero: Bits, m: string, i: nat, w: nat, next: nat, sms: Sms)
    requires |zero| == 8 && |a| == 8 * i && |Padded(UserBits(m))| == 8 * w && w + 13 < 256 && next == i + 3
    requires b == a + (Param(6, zero) + (Param(8, BearerBits(m)) + []))
    requires b == (a + Param(6, zero)) + (Param(8, BearerBits(m)) + [])
    ensures DecodeParams(b, i, sms) == Some(sms.(message := Received(m)))
  {
    PduLast(b, a + Param(6, zero), m, next, w, sms);
    ParamSkips(b, a, 6, zero, Param(8, BearerBits(m)) + [], i, 1, next, sms);
  }

  lemma PduLast(b: Bits, a: Bits, m: string, i: nat, w: nat, sms: Sms)
    requires |a| == 8 * i && |Padded(UserBits(m))| == 8 * w && w + 13 < 256
    requires b == a + (Param(8, BearerBits(m)) + [])
    ensures DecodeParams(b, i, sms) == Some(sms.(message := Received(m)))
  {
    BearerParam(b, a, m, [], i, w, sms, i + w + 15);
    BearerLength(m, w);
    PastEnd(b, i + w + 15, sms.(message := Received(m)));
  }

  lemma PastEnd(b: Bits, i: nat, sms: Sms)
    requires 8 * i >= |b|
    ensures DecodeParams(b, i, sms) == Some(sms)
  {
  }

  // ----- what only the network sends -----

  /** A sender's number in its parameter is taken, as far as a number comes back. */
  lemma SenderTaken(b: Bits, a: Bits, from: string, rest: Bits, i: nat, w: nat, next: nat, sms: Sms)
    requires b == a + (Param(2, Padded(NumberBits(from))) + rest)
    requires |Padded(NumberBits(from))| == 8 * w && w < 256 && |a| == 8 * i && next == i + w + 2
    ensures DecodeParams(b, i, sms) == DecodeParams(b, next, sms.(from := Dialled(from)[..|from| % 256]))
  {
    var no := Padded(NumberBits(from));
    ParamAt(b, a, 2, no, rest, w);
    var pad := PaddedRest(NumberBits(from), rest);
    ModAtMost(|from|);
    NumberRoundTrip(Head(a, 2, w), from, |from| % 256, pad);
  }

  /** A number of messages waiting sets the voice mail flag, and its second bit if it is not
      zero. */
  lemma VoiceMailTaken(b: Bits, a: Bits, n: nat, rest: Bits, at: nat, length: nat, i: nat, next: nat, r: Bearer)
    requires b == a + (Param(11, Field(n, 8)) + rest) && n < 256
    requires |a| == at + 8 * i && i < length && next == i + 3
    ensures DecodeBearer(b, at, length, i, r)
            == DecodeBearer(b, at, length, next, r.(isVm := if n != 0 then 0x11 else 1))
  {
    ParamAt(b, a, 11, Field(n, 8), rest, 1);
    NumberAt(Head(a, 11, 1), Field(n, 8), rest);
    ByteField(n);
  }

  predicate Is7Bit(c: char) {
    c as int < 128
  }

  lemma {:induction false} Low7Iff(m: string)
    requires forall c <- m :: c as int < 256
    ensures Low7(m) == m <==> forall c <- m :: Is7Bit(c)
  {
    if m != "" {
      var init, c := m[..|m| - 1], m[|m| - 1];
      assert m == init + [c];
      forall x | x in init ensures x in m {
      }
      Low7Iff(init);
      LastEq(Low7(init), (SignedChar(c) % 128) as char, init, c);
      assert Low7(m) == m <==> Low7(init) == init && (SignedChar(c) % 128) as char == c;
      assert c in m && (SignedChar(c) % 128 == c as int <==> Is7Bit(c));
    }
  }

  /** decode_cdma_sms undoes encode_cdma_sms exactly for messages of at most 255
      characters that are all 7-bit. */
  lemma PduRoundTripIff(to: string, m: string, v: nat, w: nat)
    requires |Padded(NumberBits(to))| == 8 * v && v < 256
    requires |Padded(UserBits(m))| == 8 * w && w + 13 < 256
    requires forall c <- m :: c as int < 256
    ensures DecodePdu(PduBits(to, m)) == Some(Sms("000000", m, 0)) <==> |m| < 256 && forall c <- m :: Is7Bit(c)
  {
    PduRoundTrip(to, m, v, w);
    ReceivedIff(m);
  }

  lemma ReceivedIff(m: string)
    requires forall c <- m :: c as int < 256
    ensures Received(m) == m <==> |m| < 256 && forall c <- m :: Is7Bit(c)
  {
    Low7Iff(m);
    var k := |m| % 256;
    if |m| < 256 {
      assert Low7(m)[..k] == Low7(m);
    } else {
      assert |Low7(m)[..k]| != |m|;
    }
  }

  /** The same for every number and message whose PDU fits the buffer of 512 digits. */
  lemma BufferRoundTripIff(to: string, m: string)
    requires |PduBits(to, m)| < 4 * 512 && forall c <- m :: c as int < 256
    ensures DecodePdu(PduBits(to, m)) == Some(Sms("000000", m, 0)) <==> |m| < 256 && forall c <- m :: Is7Bit(c)
  {
    var v, w := |Padded(NumberBits(to))| / 8, |Padded(UserBits(m))| / 8;
    BearerLength(m, w);
    PduLength(to, m, v, w);
    PduRoundTripIff(to, m, v, w);
  }

  lemma PduLength(to: string, m: string, v: nat, w: nat)
    requires |Padded(NumberBits(to))| == 8 * v && |BearerBits(m)| == 8 * (w + 13)
    ensures |PduBits(to, m)| == 8 * (v + w + 25)
  {
  }

  // ----- the fields of the PDU -----

  /** A parameter at bit `at`: its identifier, the number of its bytes, its value. */
  predicate HasParam(b: Bits, at: nat, code: nat, body: Bits) {
    && at + 16 + |body| <= |b| && U(b, at, 8) == code && 8 * U(b, at + 8, 8) == |body|
    && b[at + 16..at + 16 + |body|] == body
  }

  lemma ParamStands(b: Bits, a: Bits, code: nat, body: Bits, rest: Bits, w: nat, at: nat)
    requires b == a + (Param(code, body) + rest) && at == |a|
    requires code < 256 && |body| == 8 * w && w < 256
    ensures HasParam(b, at, code, body)
  {
    ParamAt(b, a, code, body, rest, w);
    assert b[|a| + 16..|a| + 16 + |body|] == body;
  }

  lemma FourStand(b: Bits, a: Bits, c0: nat, c1: nat, c2: nat, c3: nat, x0: Bits, x1: Bits, x2: Bits, x3: Bits,
                  rest: Bits, w0: nat, w1: nat, w2: nat, w3: nat, at0: nat, at1: nat, at2: nat, at3: nat)
    requires b == a + ((Param(c0, x0) + (Param(c1, x1) + (Param(c2, x2) + Param(c3, x3)))) + rest)
    requires c0 < 256 && c1 < 256 && c2 < 256 && c3 < 256 && w0 < 256 && w1 < 256 && w2 < 256 && w3 < 256
    requires |x0| == 8 * w0 && |x1| == 8 * w1 && |x2| == 8 * w2 && |x3| == 8 * w3
    requires at0 == |a| && at1 == at0 + 16 + |x0| && at2 == at1 + 16 + |x1| && at3 == at2 + 16 + |x2|
    ensures HasParam(b, at0, c0, x0) && HasParam(b, at1, c1, x1)
    ensures HasParam(b, at2, c2, x2) && HasParam(b, at3, c3, x3)
  {
    var a1 := FirstStands(b, a, c0, x0, Param(c1, x1) + (Param(c2, x2) + Param(c3, x3)), rest, w0, at0);
    var a2 := FirstStands(b, a1, c1, x1, Param(c2, x2) + Param(c3, x3), rest, w1, at1);
    var a3 := FirstStands(b, a2, c2, x2, Param(c3, x3), rest, w2, at2);
    ParamStands(b, a3, c3, x3, rest, w3, at3);
  }

  /** The first of several parameters, and the others behind it. */
  lemma FirstStands(b: Bits, a: Bits, code: nat, body: Bits, more: Bits, rest: Bits, w: nat, at: nat) returns (a': Bits)
    requires b == a + ((Param(code, body) + more) + rest) && at == |a|
    requires code < 256 && |body| == 8 * w && w < 256
    ensures HasParam(b, at, code, body) && b == a' + (more + rest) && |a'| == at + 16 + |body|
  {
    Regroup(a, Param(code, body), more, rest);
    ParamStands(b, a, code, body, more + rest, w, at);
    a' := a + Param(code, body);
  }

  lemma PduStands(to: string, m: string, v: nat, w: nat, b: Bits, e: nat, f: nat)
    requires |Padded(NumberBits(to))| == 8 * v && v < 256 && |BearerBits(m)| == 8 * w && w < 256
    requires b == PduBits(to, m) && e == 56 + 8 * v && f == e + 24
    ensures HasParam(b, 8, 0, Field(0x1002, 16)) && HasParam(b, 40, 4, Padded(NumberBits(to)))
    ensures HasParam(b, e, 6, Field(0, 8)) && HasParam(b, f, 8, BearerBits(m))
  {
    var body := Param(0, Field(0x1002, 16)) + (Param(4, Padded(NumberBits(to)))
                + (Param(6, Field(0, 8)) + Param(8, BearerBits(m))));
    assert body + [] == body;
    FourStand(b, Field(0, 8), 0, 4, 6, 8, Field(0x1002, 16), Padded(NumberBits(to)), Field(0, 8), BearerBits(m), [],
              2, v, 1, w, 8, 40, e, f);
  }

  /** The bearer data from bit `at` on. */
  lemma BearerStands(b: Bits, at: nat, m: string, w: nat, e: nat, f: nat)
    requires at + |BearerBits(m)| <= |b| && b[at..at + |BearerBits(m)|] == BearerBits(m)
    requires |Padded(UserBits(m))| == 8 * w && w < 256 && e == at + 56 + 8 * w && f == e + 24
    ensures HasParam(b, at, 0, Field(2, 4) + Field(CharSum(m), 16) + Zeros(4))
    ensures HasParam(b, at + 40, 1, Padded(UserBits(m)))
    ensures HasParam(b, e, 8, Field(0, 8)) && HasParam(b, f, 13, Field(0, 8))
  {
    Around(b, at, BearerBits(m));
    var rest := b[at + |BearerBits(m)|..];
    assert |b[..at]| == at;
    FourStand(b, b[..at], 0, 1, 8, 13, Field(2, 4) + Field(CharSum(m), 16) + Zeros(4), Padded(UserBits(m)), Field(0, 8),
              Field(0, 8), rest, 3, w, 1, 1, at, at + 40, e, f);
  }

  lemma Around(b: Bits, at: nat, body: Bits)
    requires at + |body| <= |b| && b[at..at + |body|] == body
    ensures b == b[..at] + (body + b[at + |body|..])
  {
  }

  /** The receiver is read where the parameter stands, if and only if it is dialled so. */
  lemma ReceiverStands(b: Bits, at: nat, to: string)
    requires HasParam(b, at, 4, Padded(NumberBits(to)))
    ensures DecodeNumber(b, at + 16) == Some(to) <==> |to| < 256 && forall c <- to :: IsDialDigit(c)
  {
    var no := Padded(NumberBits(to));
    Around(b, at + 16, no);
    var pad := PaddedRest(NumberBits(to), b[at + 16 + |no|..]);
    assert |b[..at + 16]| == at + 16;
    NumberRoundTripIff(b[..at + 16], to, pad);
  }

  /** For every PDU that fits: the teleservice, then the receiver's number, which is read
      back if and only if it has at most 255 characters of the table, a zero, and the
      bearer data. */
  lemma PduFields(to: string, m: string, b: Bits, e: nat, f: nat)
    requires b == PduBits(to, m) && |b| < 4 * 512 && e == 56 + |Padded(NumberBits(to))| && f == e + 24
    ensures U(b, 0, 8) == 0 && HasField(b, 8, 0, 0x1002, 16)
    ensures HasParam(b, 40, 4, Padded(NumberBits(to)))
    ensures DecodeNumber(b, 56) == Some(to) <==> |to| < 256 && forall c <- to :: IsDialDigit(c)
    ensures HasField(b, e, 6, 0, 8) && HasParam(b, f, 8, BearerBits(m)) && |b| == f + 16 + |BearerBits(m)|
  {
    FitStands(to, m, b, e, f);
    ReceiverStands(b, 40, to);
    TypeZero(b, Param(0, Field(0x1002, 16)) + (Param(4, Padded(NumberBits(to)))
                + (Param(6, Field(0, 8)) + Param(8, BearerBits(m)))));
    Value(b, 8, 0, 0x1002, 16, 0x10000);
    Value(b, e, 6, 0, 8, 0x100);
  }

  lemma FitStands(to: string, m: string, b: Bits, e: nat, f: nat)
    requires b == PduBits(to, m) && |b| < 4 * 512 && e == 56 + |Padded(NumberBits(to))| && f == e + 24
    ensures HasParam(b, 8, 0, Field(0x1002, 16)) && HasParam(b, 40, 4, Padded(NumberBits(to)))
    ensures HasParam(b, e, 6, Field(0, 8)) && HasParam(b, f, 8, BearerBits(m))
    ensures |b| == f + 16 + |BearerBits(m)|
  {
    var v, w := |Padded(NumberBits(to))| / 8, |Padded(UserBits(m))| / 8;
    BearerLength(m, w);
    PduLength(to, m, v, w);
    PduStands(to, m, v, w + 13, b, e, f);
  }

  /** A parameter whose value is one number of `n` bits. */
  predicate HasField(b: Bits, at: nat, code: nat, val: nat, n: nat) {
    && at + 16 + n <= |b| && U(b, at, 8) == code && 8 * U(b, at + 8, 8) == n
    && U(b, at + 16, n) == val
  }

  lemma TypeZero(b: Bits, rest: Bits)
    requires b == Field(0, 8) + rest
    ensures U(b, 0, 8) == 0
  {
    assert [] + (Field(0, 8) + rest) == b;
    FieldAt([], 0, 8, rest);
  }

  lemma Value(b: Bits, at: nat, code: nat, val: nat, n: nat, top: nat)
    requires HasParam(b, at, code, Field(val, n)) && (n == 8 || n == 16) && top == (if n == 8 then 0x100 else 0x10000)
    requires val < top
    ensures HasField(b, at, code, val, n)
  {
    NumberField(val, n);
    Pow2s();
    assert Pow2(n) == top;
  }

  /** The bearer data of a PDU that fits, from bit `at` on: a message that is sent, whose
      number is the sum of its characters; the user data; two zeros. */
  lemma BearerFields(b: Bits, at: nat, m: string, e: nat, f: nat)
    requires at + |BearerBits(m)| <= |b| < 4 * 512 && b[at..at + |BearerBits(m)|] == BearerBits(m)
    requires e == at + 56 + |Padded(UserBits(m))| && f == e + 24
    ensures U(b, at, 8) == 0 && U(b, at + 8, 8) == 3
    ensures U(b, at + 16, 4) == 2 && U(b, at + 20, 16) == CharSum(m) % 0x10000 && U(b, at + 36, 4) == 0
    ensures HasParam(b, at + 40, 1, Padded(UserBits(m))) && UserData(b, at + 56) == Some(Received(m))
    ensures HasField(b, e, 8, 0, 8) && HasField(b, f, 13, 0, 8) && |BearerBits(m)| == f + 24 - at
  {
    var w := |Padded(UserBits(m))| / 8;
    BearerLength(m, w);
    BearerStands(b, at, m, w, e, f);
    MessageIdIs(b, at, m);
    UserStands(b, at + 40, m);
    Value(b, e, 8, 0, 8, 0x100);
    Value(b, f, 13, 0, 8, 0x100);
  }

  lemma MessageIdIs(b: Bits, at: nat, m: string)
    requires HasParam(b, at, 0, Field(2, 4) + Field(CharSum(m), 16) + Zeros(4))
    ensures U(b, at + 16, 4) == 2 && U(b, at + 20, 16) == CharSum(m) % 0x10000 && U(b, at + 36, 4) == 0
  {
    var x, y, z := Field(2, 4), Field(CharSum(m), 16), Zeros(4);
    Around(b, at + 16, x + y + z);
    assert x + y + z == x + (y + z);
    Parts(b[..at + 16], x, y, z, b[at + 40..]);
    NumberAt(b[..at + 16] + x + y, z, b[at + 40..]);
    Pow2s();
    NumberField(2, 4);
    NumberField(CharSum(m), 16);
    NumberField(0, 4);
    ZeroField();
  }

  lemma ZeroField()
    ensures Zeros(4) == Field(0, 4)
  {
    forall i | 0 <= i < 4 ensures Field(0, 4)[i] == Zeros(4)[i] {
      NoBit(3 - i);
    }
  }

  lemma NoBit(k: nat)
    ensures !ValueBit(0, k)
  {
    assert Pow2(k) > 0;
  }

  lemma UserStands(b: Bits, at: nat, m: string)
    requires HasParam(b, at, 1, Padded(UserBits(m)))
    ensures UserData(b, at + 16) == Some(Received(m))
  {
    var user := Padded(UserBits(m));
    Around(b, at + 16, user);
    assert |b[..at + 16]| == at + 16;
    UserDataBehind(b, b[..at + 16], user, m, b[at + 16 + |user|..]);
  }
}
