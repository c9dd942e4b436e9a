/** utf8_write, utf8_check and ucs2_to_utf8 of gsm.c, with a decoder after section 3 of RFC 3629. */
module Utf8 {
  import opened Bytes

  /** 0x80 | (v & 0x3f) */
  function Next(v: nat): (c: Byte)
    ensures IsContinuation(c) && c % 64 == v % 64
  {
    0x80 + v % 64
  }

  /** What utf8_write stores for a value. */
  function Encoded(v: nat): (s: seq<Byte>)
    ensures 1 <= |s| <= 4
  {
    if v < 0x80 then [v]
    else if v < 0x800 then [0xc0 + v / 64, Next(v)]
    else if v < 0x10000 then [0xe0 + v / 4096, Next(v / 64), Next(v)]
    else [0xf0 + v / 262144 % 8, Next(v / 4096), Next(v / 64), Next(v)]
  }

  function EncodedAll(s: seq<nat>): seq<Byte> {
    if s == [] then [] else Encoded(s[0]) + EncodedAll(s[1..])
  }

  lemma {:induction false} EncodedSnoc(s: seq<nat>, v: nat)
    ensures EncodedAll(s + [v]) == EncodedAll(s) + Encoded(v)
  {
    if s == [] {
      assert (s + [v])[1..] == [];
    } else {
      assert (s + [v])[1..] == s[1..] + [v];
      EncodedSnoc(s[1..], v);
    }
  }

  /** utf8_write; without a buffer it only counts. */
  method Utf8Write(utf8: array?<Byte>, offset: nat, v: nat) returns (result: nat)
    requires utf8 != null ==> offset + |Encoded(v)| <= utf8.Length
    modifies if utf8 == null then {} else {utf8}
    ensures result == |Encoded(v)|
    ensures utf8 != null ==> utf8[..] == old(utf8[..offset]) + Encoded(v) + old(utf8[offset + result..])
  {
    if v < 128 {
      result := 1;
      if utf8 != null {
        utf8[offset] := v;
      }
    } else if v < 0x800 {
      result := 2;
      if utf8 != null {
        utf8[offset] := 0xc0 + v / 64;
        utf8[offset + 1] := 0x80 + v % 64;
      }
    } else if v < 0x10000 {
      result := 3;
      if utf8 != null {
        utf8[offset] := 0xe0 + v / 4096;
        utf8[offset + 1] := 0x80 + v / 64 % 64;
        utf8[offset + 2] := 0x80 + v % 64;
      }
    } else {
      result := 4;
      if utf8 != null {
        utf8[offset] := 0xf0 + v / 262144 % 8;
        utf8[offset + 1] := 0x80 + v / 4096 % 64;
        utf8[offset + 2] := 0x80 + v / 64 % 64;
        utf8[offset + 3] := 0x80 + v % 64;
      }
    }
  }

  /** Without a buffer the count, with one the characters written so far in front of what
      was there. */
  ghost predicate Holds(utf8: array?<Byte>, result: nat, out: seq<nat>, was: seq<Byte>)
    reads utf8
  {
    && result == |EncodedAll(out)|
    && (utf8 != null ==>
          && result <= utf8.Length == |was|
          && utf8[..result] == EncodedAll(out) && utf8[result..] == was[result..])
  }

  /** One more character. */
  method Append(utf8: array?<Byte>, at: nat, v: nat, ghost out: seq<nat>, ghost was: seq<Byte>) returns (result: nat)
    requires Holds(utf8, at, out, was) && (utf8 != null ==> at + |Encoded(v)| <= utf8.Length)
    modifies if utf8 == null then {} else {utf8}
    ensures Holds(utf8, result, out + [v], was)
  {
    ghost var now := if utf8 == null then [] else utf8[..];
    EncodedSnoc(out, v);
    result := Utf8Write(utf8, at, v);
    if utf8 != null {
      MoreBytes(now, utf8[..], at, Encoded(v), at + result);
    }
    result := at + result;
  }

  lemma MoreBytes(now: seq<Byte>, next: seq<Byte>, at: nat, s: seq<Byte>, end: nat)
    requires end == at + |s| <= |now| && next == now[..at] + s + now[end..]
    ensures next[..end] == now[..at] + s && next[end..] == now[at..][|s|..]
  {
  }

  // ----- well-formed sequences -----

  /** How many bytes follow a lead byte of 128 or more. */
  function Trail(c: Byte): Option<nat>
    requires c >= 128
  {
    if c / 32 == 6 then Some(1) else if c / 16 == 14 then Some(2) else if c / 8 == 30 then Some(3) else None
  }

  predicate IsContinuation(c: Byte) {
    c / 64 == 2
  }

  predicate Accepted(p: seq<Byte>) {
    if p == [] then true
    else if p[0] < 128 then Accepted(p[1..])
    else
      var len := Trail(p[0]);
      && len.Some? && len.value < |p|
      && (forall i :: 1 <= i <= len.value ==> IsContinuation(p[i]))
      && Accepted(p[1 + len.value..])
  }

  /** What is accepted from `at` on, by the lead byte there. */
  lemma AcceptedFrom(s: seq<Byte>, at: nat)
    requires at < |s|
    ensures s[at] < 128 ==> Accepted(s[at..]) == Accepted(s[at + 1..])
    ensures s[at] >= 128 ==> (Accepted(s[at..]) <==>
              Trail(s[at]).Some? && at + Trail(s[at]).value < |s| && Continued(s, at + 1, Trail(s[at]).value)
              && Accepted(s[at + 1 + Trail(s[at]).value..]))
  {
    var p := s[at..];
    assert p[1..] == s[at + 1..];
    if s[at] >= 128 && Trail(s[at]).Some? && at + Trail(s[at]).value < |s| {
      var len := Trail(s[at]).value;
      assert p[1 + len..] == s[at + 1 + len..];
      ContinuedFrom(s, at, len);
    }
  }

  predicate Continued(s: seq<Byte>, at: nat, len: nat)
    requires at + len <= |s|
  {
    forall i :: at <= i < at + len ==> IsContinuation(s[i])
  }

  lemma ContinuedFrom(s: seq<Byte>, at: nat, len: nat)
    requires at + len < |s|
    ensures Continued(s, at + 1, len) <==> forall i :: 1 <= i <= len ==> IsContinuation(s[at..][i])
  {
    if forall i :: 1 <= i <= len ==> IsContinuation(s[at..][i]) {
      forall i | at + 1 <= i < at + 1 + len ensures IsContinuation(s[i]) {
        assert s[i] == s[at..][i - at];
      }
    }
  }

  method Utf8Check(p: array?<Byte>) returns (result: nat)
    ensures result == if p != null && Accepted(p[..]) then 1 else 0
  {
    if p == null {
      return 0;
    }
    var at := 0;
    ghost var s := p[..];
    while at < p.Length
      invariant at <= p.Length && Accepted(s) == Accepted(s[at..])
    {
      var c := p[at];
      AcceptedFrom(s, at);
      at := at + 1;
      if c >= 128 {
        var len := TrailingBytes(c);
        if len == 0 || at + len > p.Length {
          return 0;
        }
        var ok := Continuations(p, at, len);
        if !ok {
          return 0;
        }
        at := at + len;
      }
    }
    return 1;
  }

  /** The masks that tell a lead byte; 0 for none. */
  method TrailingBytes(c: Byte) returns (len: nat)
    requires c >= 128
    ensures Trail(c) == if len == 0 then None else Some(len)
  {
    if c / 32 == 6 {
      return 1;
    } else if c / 16 == 14 {
      return 2;
    } else if c / 8 == 30 {
      return 3;
    }
    return 0;
  }

  /** The inner loop; stops at the first byte that is no continuation. */
  method Continuations(p: array<Byte>, at: nat, len: nat) returns (ok: bool)
    requires at + len <= p.Length
    ensures ok <==> Continued(p[..], at, len)
  {
    for i := at to at + len
      invariant forall j :: at <= j < i ==> IsContinuation(p[j])
    {
      if p[i] / 64 != 2 {
        return false;
      }
    }
    return true;
  }

  // ----- decoding -----

  function Shifted(x: nat, c: nat): nat {
    x * 64 + c % 64
  }

  /** The value of one sequence: the low bits of the lead byte, then six bits a byte. */
  function ValueOf(p: seq<Byte>): nat
    requires 1 <= |p| <= 4
  {
    if |p| == 1 then p[0]
    else if |p| == 2 then Shifted(p[0] % 32, p[1])
    else if |p| == 3 then Shifted(Shifted(p[0] % 16, p[1]), p[2])
    else Shifted(Shifted(Shifted(p[0] % 8, p[1]), p[2]), p[3])
  }

  function Decoded(p: seq<Byte>): seq<nat>
    requires Accepted(p)
  {
    if p == [] then []
    else
      var n := 1 + if p[0] < 128 then 0 else Trail(p[0]).value;
      [ValueOf(p[..n])] + Decoded(p[n..])
  }

  lemma EncodedOne(v: nat)
    requires v < 0x200000
    ensures ValueOf(Encoded(v)) == v
    ensures forall i :: 1 <= i < |Encoded(v)| ==> IsContinuation(Encoded(v)[i])
    ensures |Encoded(v)| == 1 <==> Encoded(v)[0] < 128
    ensures |Encoded(v)| > 1 ==> Trail(Encoded(v)[0]) == Some(|Encoded(v)| - 1)
  {
    if v < 0x80 {
    } else if v < 0x800 {
      LeadOfTwo(v / 64);
    } else if v < 0x10000 {
      LeadOfThree(v / 4096);
      Twice(v);
    } else {
      LeadOfFour(v / 262144);
      Thrice(v);
    }
  }

  lemma LeadOfTwo(x: nat)
    requires x < 32
    ensures Trail(0xc0 + x) == Some(1) && (0xc0 + x) % 32 == x
  {
  }

  lemma LeadOfThree(x: nat)
    requires x < 16
    ensures Trail(0xe0 + x) == Some(2) && (0xe0 + x) % 16 == x
  {
  }

  lemma LeadOfFour(x: nat)
    requires x < 8
    ensures x % 8 == x && Trail(0xf0 + x) == Some(3) && (0xf0 + x) % 8 == x
  {
  }

  lemma Twice(v: nat)
    ensures Shifted(Shifted(v / 4096, v / 64), v) == v
  {
    assert v / 64 == v / 4096 * 64 + v / 64 % 64;
  }

  lemma Thrice(v: nat)
    requires v < 0x200000
    ensures Shifted(Shifted(Shifted(v / 262144, v / 4096), v / 64), v) == v
  {
    assert v / 4096 == v / 262144 * 64 + v / 4096 % 64;
    assert v / 64 == v / 4096 * 64 + v / 64 % 64;
  }

  /** utf8_check accepts what utf8_write produced, and decoding it gives the values back. */
  lemma {:induction false} EncodeDecode(s: seq<nat>)
    requires forall i :: 0 <= i < |s| ==> s[i] < 0x200000
    ensures Accepted(EncodedAll(s)) && Decoded(EncodedAll(s)) == s
  {
    if s != [] {
      EncodeDecode(s[1..]);
      FrontBack(s[0], EncodedAll(s[1..]));
    }
  }

  lemma FrontBack(v: nat, r: seq<Byte>)
    requires v < 0x200000 && Accepted(r)
    ensures Accepted(Encoded(v) + r) && Decoded(Encoded(v) + r) == [v] + Decoded(r)
  {
    EncodedOne(v);
    Front(v, r);
  }

  lemma Front(v: nat, r: seq<Byte>)
    requires Accepted(r)
    requires forall i :: 1 <= i < |Encoded(v)| ==> IsContinuation(Encoded(v)[i])
    requires |Encoded(v)| == 1 <==> Encoded(v)[0] < 128
    requires |Encoded(v)| > 1 ==> Trail(Encoded(v)[0]) == Some(|Encoded(v)| - 1)
    ensures Accepted(Encoded(v) + r) && Decoded(Encoded(v) + r) == [ValueOf(Encoded(v))] + Decoded(r)
  {
    var e := Encoded(v);
    assert (e + r)[..|e|] == e && (e + r)[|e|..] == r;
  }

  // ----- UCS-2 -----

  /** The code units of big-endian UCS-2. */
  function Units(ucs2: seq<Byte>, n: nat): (s: seq<nat>)
    requires 2 * n <= |ucs2|
    ensures |s| == n && forall i :: 0 <= i < n ==> s[i] < 0x10000
  {
    if n == 0 then [] else Units(ucs2, n - 1) + [Unit(ucs2[2 * n - 2], ucs2[2 * n - 1])]
  }

  /** (ucs2[0] << 8) | ucs2[1] */
  function Unit(hi: nat, lo: nat): nat {
    hi * 256 + lo
  }

  method Ucs2ToUtf8(ucs2: array<Byte>, ucs2Len: nat, buf: array?<Byte>) returns (result: nat)
    requires 2 * ucs2Len <= ucs2.Length && ucs2 != buf
    requires buf != null ==> |EncodedAll(Units(ucs2[..], ucs2Len))| <= buf.Length
    modifies if buf == null then {} else {buf}
    ensures result == |EncodedAll(Units(ucs2[..], ucs2Len))|
    ensures buf != null ==>
              buf[..result] == EncodedAll(Units(ucs2[..], ucs2Len)) && buf[result..] == old(buf[..])[result..]
  {
    result := 0;
    ghost var s, was := ucs2[..], if buf == null then [] else buf[..];
    for nn := 0 to ucs2Len
      invariant Holds(buf, result, Units(s, nn), was)
    {
      var c := Unit(ucs2[2 * nn], ucs2[2 * nn + 1]);
      EncodedSnoc(Units(s, nn), c);
      EncodedGrows(s, nn + 1, ucs2Len);
      result := Append(buf, result, c, Units(s, nn), was);
    }
  }

  lemma {:induction false} EncodedGrows(s: seq<Byte>, k: nat, n: nat)
    requires k <= n && 2 * n <= |s|
    ensures |EncodedAll(Units(s, k))| <= |EncodedAll(Units(s, n))|
    decreases n
  {
    if k < n {
      EncodedGrows(s, k, n - 1);
      EncodedSnoc(Units(s, n - 1), Unit(s[2 * n - 2], s[2 * n - 1]));
    }
  }

  /** Every UCS-2 string survives: what ucs2_to_utf8 writes is accepted by utf8_check and
      decodes to the code units. */
  lemma Ucs2RoundTrip(ucs2: seq<Byte>, n: nat)
    requires 2 * n <= |ucs2|
    ensures var p := EncodedAll(Units(ucs2, n)); Accepted(p) && Decoded(p) == Units(ucs2, n)
  {
    EncodeDecode(Units(ucs2, n));
  }
}
