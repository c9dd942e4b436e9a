/**
 The GSM alphabet of gsm.c and its extension: what becomes of a text that is turned
 into septets and back.  Characters are Unicode values.
 */
module GsmAlphabet {
  import opened Bytes

  type Septet = x: nat | x < 128

  const ESCAPE: Septet := 0x1b

  function Row0(i: nat): nat {
    if i == 0 then 0x40 else if i == 1 then 0xa3 else if i == 2 then 0x24 else
    if i == 3 then 0xa5 else if i == 4 then 0xe8 else if i == 5 then 0xe9 else
    if i == 6 then 0xf9 else if i == 7 then 0xec else if i == 8 then 0xf2 else
    if i == 9 then 0xc7 else if i == 10 then 0x0a else if i == 11 then 0xd8 else
    if i == 12 then 0xf8 else if i == 13 then 0x0d else if i == 14 then 0xc5 else 0xe5
  }

  function Row1(i: nat): nat {
    if i == 0 then 0x394 else if i == 1 then 0x5f else if i == 2 then 0x3a6 else
    if i == 3 then 0x393 else if i == 4 then 0x39b else if i == 5 then 0x3a9 else
    if i == 6 then 0x3a0 else if i == 7 then 0x3a8 else if i == 8 then 0x3a3 else
    if i == 9 then 0x398 else if i == 10 then 0x39e else if i == 11 then 0 else
    if i == 12 then 0xc6 else if i == 13 then 0xe6 else if i == 14 then 0xdf else 0xc9
  }

  function BehindUpper(i: nat): nat {
    if i == 0 then 0xc4 else if i == 1 then 0xd6 else if i == 2 then 0x147 else
    if i == 3 then 0xdc else if i == 4 then 0xa7 else 0xbf
  }

  function BehindLower(i: nat): nat {
    if i == 0 then 0xe4 else if i == 1 then 0xf6 else if i == 2 then 0xf1 else
    if i == 3 then 0xfc else 0xe0
  }

  /** gsm7bits_to_unicode */
  function Basic(nn: Septet): nat {
    if nn < 0x10 then Row0(nn)
    else if nn < 0x20 then Row1(nn - 0x10)
    else if nn == 0x24 then 0xa4
    else if nn == 0x40 then 0xa1
    else if 0x5b <= nn <= 0x60 then BehindUpper(nn - 0x5b)
    else if 0x7b <= nn then BehindLower(nn - 0x7b)
    else nn
  }

  /** gsm7bits_extend_to_unicode */
  function Extended(nn: Septet): nat {
    if nn == 0x0a then 0x0c else if nn == 0x14 then 0x5e
    else if nn == 0x28 then 0x7b else if nn == 0x29 then 0x7d else if nn == 0x2f then 0x5c
    else if nn == 0x3c then 0x5b else if nn == 0x3d then 0x7e else if nn == 0x3e then 0x5d
    else if nn == 0x40 then 0x7c else if nn == 0x65 then 0x20ac
    else 0
  }

  /** unichar_to_gsm7 from place `nn` on: the first place of the character. */
  function FirstBasic(c: nat, nn: nat): (r: Option<nat>)
    requires nn <= 128
    ensures r.Some? ==> nn <= r.value < 128 && Basic(r.value) == c && forall k :: nn <= k < r.value ==> Basic(k) != c
    ensures r.None? ==> forall k :: nn <= k < 128 ==> Basic(k) != c
    decreases 128 - nn
  {
    if nn == 128 then None else if Basic(nn) == c then Some(nn) else FirstBasic(c, nn + 1)
  }

  function FirstExtended(c: nat, nn: nat): (r: Option<nat>)
    requires nn <= 128
    ensures r.Some? ==> nn <= r.value < 128 && Extended(r.value) == c
    ensures r.Some? ==> forall k :: nn <= k < r.value ==> Extended(k) != c
    ensures r.None? ==> forall k :: nn <= k < 128 ==> Extended(k) != c
    decreases 128 - nn
  {
    if nn == 128 then None else if Extended(nn) == c then Some(nn) else FirstExtended(c, nn + 1)
  }

  method UnicharToGsm7(unicode: nat) returns (nn: int)
    ensures nn == if FirstBasic(unicode, 0).Some? then FirstBasic(unicode, 0).value else -1
  {
    nn := 0;
    while nn < 128
      invariant 0 <= nn <= 128 && FirstBasic(unicode, 0) == FirstBasic(unicode, nn)
    {
      if Basic(nn) == unicode {
        return;
      }
      nn := nn + 1;
    }
    nn := -1;
  }

  method UnicharToGsm7Extend(unicode: nat) returns (nn: int)
    ensures nn == if FirstExtended(unicode, 0).Some? then FirstExtended(unicode, 0).value else -1
  {
    nn := 0;
    while nn < 128
      invariant 0 <= nn <= 128 && FirstExtended(unicode, 0) == FirstExtended(unicode, nn)
    {
      if Extended(nn) == unicode {
        return;
      }
      nn := nn + 1;
    }
    nn := -1;
  }

  /** The septets of a character: one, or one behind the escape, or a space. */
  function CharSeptets(c: nat): (s: seq<Septet>)
    ensures 1 <= |s| <= 2
  {
    var basic, extended := FirstBasic(c, 0), FirstExtended(c, 0);
    if basic.Some? then [basic.value] else if extended.Some? then [ESCAPE, extended.value] else [0x20]
  }

  function Septets(t: seq<nat>): seq<Septet> {
    if t == [] then [] else CharSeptets(t[0]) + Septets(t[1..])
  }

  /** How utf8_from_gsm7 reads septets: once an escape has been seen, all that follow
      are looked up in the extension table. */
  function Chars(s: seq<Septet>, escaped: bool): seq<nat> {
    if s == [] then []
    else if escaped then [Extended(s[0])] + Chars(s[1..], true)
    else if s[0] == ESCAPE then Chars(s[1..], true)
    else [Basic(s[0])] + Chars(s[1..], false)
  }

  lemma {:induction false} SeptetsSnoc(t: seq<nat>, c: nat)
    ensures Septets(t + [c]) == Septets(t) + CharSeptets(c)
  {
    if t == [] {
      assert (t + [c])[1..] == [];
    } else {
      assert (t + [c])[1..] == t[1..] + [c];
      SeptetsSnoc(t[1..], c);
    }
  }

  // ----- the tables -----

  predicate IsBasic(c: nat) {
    c != 0 && FirstBasic(c, 0).Some?
  }

  predicate IsExtended(c: nat) {
    FirstBasic(c, 0).None? && FirstExtended(c, 0).Some?
  }

  /** NUL takes the place of the escape. */
  lemma OnlyEscapeIsZero(nn: Septet)
    ensures Basic(nn) == 0 <==> nn == ESCAPE
  {
  }

  lemma NulIsEscape()
    ensures CharSeptets(0) == [ESCAPE]
  {
    OnlyEscapeIsZero(ESCAPE);
    var r := FirstBasic(0, 0);
    assert r.Some?;
    OnlyEscapeIsZero(r.value);
  }

  lemma FirstBasicIs(c: nat, nn: Septet)
    requires Basic(nn) == c && forall k: nat :: k < nn ==> Basic(k) != c
    ensures FirstBasic(c, 0) == Some(nn)
  {
  }

  lemma NotBasic(c: nat)
    requires forall k: Septet :: Basic(k) != c
    ensures FirstBasic(c, 0) == None
  {
  }

  /** ASCII that stands at its own place in the alphabet (section 6.2.1 of 3GPP TS 23.038). */
  predicate AtOwnPlace(c: nat) {
    (0x20 <= c <= 0x7a && c != 0x24 && c != 0x40 && !(0x5b <= c <= 0x60)) || c == 0x0a || c == 0x0d
  }

  lemma OwnPlace(c: nat)
    requires AtOwnPlace(c)
    ensures CharSeptets(c) == [c]
  {
    FirstBasicIs(c, c);
  }

  /** Three characters that stand elsewhere. */
  lemma MovedPlaces()
    ensures CharSeptets(0x40) == [0] && CharSeptets(0x24) == [2] && CharSeptets(0x5f) == [0x11]
  {
    FirstBasicIs(0x40, 0);
    FirstBasicIs(0x24, 2);
    FirstBasicIs(0x5f, 0x11);
  }

  lemma EscapedPlace(nn: Septet)
    requires Extended(nn) != 0
    ensures CharSeptets(Extended(nn)) == [ESCAPE, nn]
  {
    var c := Extended(nn);
    forall k: Septet ensures Basic(k) != c {
      TablesApart(nn, k);
    }
    NotBasic(c);
    FirstExtendedIs(c, nn);
  }

  lemma FirstExtendedIs(c: nat, nn: Septet)
    requires Extended(nn) == c != 0
    ensures FirstExtended(c, 0) == Some(nn)
  {
    var r := FirstExtended(c, 0);
    assert r.Some?;
    ExtendedOnce(r.value, nn);
  }

  lemma ExtendedOnce(nn: Septet, mm: Septet)
    requires Extended(nn) == Extended(mm) != 0
    ensures nn == mm
  {
  }

  /** The nine of ASCII in the extension stand behind the escape. */
  lemma EscapedPlaces()
    ensures CharSeptets(0x0c) == [ESCAPE, 0x0a] && CharSeptets(0x5e) == [ESCAPE, 0x14]
    ensures CharSeptets(0x7b) == [ESCAPE, 0x28] && CharSeptets(0x7d) == [ESCAPE, 0x29]
    ensures CharSeptets(0x5c) == [ESCAPE, 0x2f] && CharSeptets(0x5b) == [ESCAPE, 0x3c]
    ensures CharSeptets(0x7e) == [ESCAPE, 0x3d] && CharSeptets(0x5d) == [ESCAPE, 0x3e]
    ensures CharSeptets(0x7c) == [ESCAPE, 0x40]
  {
    EscapedPlace(0x0a);
    EscapedPlace(0x14);
    EscapedPlace(0x28);
    EscapedPlace(0x29);
    EscapedPlace(0x2f);
    EscapedPlace(0x3c);
    EscapedPlace(0x3d);
    EscapedPlace(0x3e);
    EscapedPlace(0x40);
  }

  /** What is in neither becomes a space. */
  lemma NoPlace(c: nat)
    requires c == 0x60 || c == 0x7f || (0 < c < 0x20 && c != 0x0a && c != 0x0c && c != 0x0d)
    ensures CharSeptets(c) == [0x20]
  {
    NotBasic(c);
    assert forall k: Septet :: Extended(k) != c;
  }

  /** No character is in both tables, zero aside. */
  lemma TablesApart(nn: Septet, mm: Septet)
    requires Extended(nn) != 0
    ensures Basic(mm) != Extended(nn)
  {
  }

  // ----- round trips -----

  predicate AllNul(t: seq<nat>) {
    forall i :: 0 <= i < |t| ==> t[i] == 0
  }

  /** One character of the extension, among nothing but NULs. */
  predicate OneExtended(t: seq<nat>) {
    t != [] && if t[0] == 0 then OneExtended(t[1..]) else IsExtended(t[0]) && AllNul(t[1..])
  }

  /** Characters of the basic table, and at most one of the extension at the end. */
  predicate Sendable(t: seq<nat>) {
    t == [] || (if IsBasic(t[0]) then Sendable(t[1..]) else OneExtended(t))
  }

  /** Septets of `t` read behind an escape. */
  function Escaped(t: seq<nat>): seq<nat> {
    Chars(Septets(t), true)
  }

  lemma CharsPair(x: Septet, y: Septet, s: seq<Septet>)
    ensures Chars([x, y] + s, true) == [Extended(x), Extended(y)] + Chars(s, true)
  {
    assert ([x, y] + s)[1..] == [y] + s && ([y] + s)[1..] == s;
  }

  lemma CharsBehindEscape(y: Septet, s: seq<Septet>)
    ensures Chars([ESCAPE, y] + s, false) == [Extended(y)] + Chars(s, true)
  {
    assert ([ESCAPE, y] + s)[1..] == [y] + s && ([y] + s)[1..] == s;
  }

  lemma CharsOne(x: Septet, s: seq<Septet>)
    ensures Chars([x] + s, true) == [Extended(x)] + Chars(s, true)
    ensures Chars([x] + s, false) == if x == ESCAPE then Chars(s, true) else [Basic(x)] + Chars(s, false)
  {
    assert ([x] + s)[1..] == s;
  }

  lemma EscapedNul(r: seq<nat>)
    ensures Escaped([0] + r) == [0] + Escaped(r)
  {
    NulIsEscape();
    EscapedCons(0, r, [ESCAPE]);
    CharsOne(ESCAPE, Septets(r));
  }

  lemma EscapedCons(c: nat, r: seq<nat>, s: seq<Septet>)
    requires s == CharSeptets(c)
    ensures Escaped([c] + r) == Chars(s + Septets(r), true)
  {
    assert ([c] + r)[1..] == r;
  }

  lemma EscapedExtended(c: nat, r: seq<nat>)
    requires IsExtended(c)
    ensures Escaped([c] + r) == [0] + ([c] + Escaped(r))
  {
    var nn := FirstExtended(c, 0).value;
    EscapedCons(c, r, [ESCAPE, nn]);
    CharsPair(ESCAPE, nn, Septets(r));
    EscapeIsNothing();
    Group([0], [c], Escaped(r));
    assert [0] + [c] == [0, c];
  }

  lemma EscapeIsNothing()
    ensures Extended(ESCAPE) == 0
  {
  }

  /** Behind an escape a character of the basic table, or of none, comes out as another. */
  lemma EscapedOther(c: nat, r: seq<nat>) returns (x: nat)
    requires c != 0 && !IsExtended(c)
    ensures x != c && Escaped([c] + r) == [x] + Escaped(r)
  {
    assert ([c] + r)[1..] == r;
    var nn := CharSeptets(c)[0];
    x := Extended(nn);
    assert CharSeptets(c) == [nn];
    CharsOne(nn, Septets(r));
    NotExtended(c, nn);
  }

  /** What comes first behind an escape is NUL or of the extension. */
  lemma EscapedFirst(r: seq<nat>)
    requires r != []
    ensures Escaped(r) != [] && exists x: Septet :: Escaped(r)[0] == Extended(x)
  {
    var s := Septets(r);
    assert s != [];
    assert Escaped(r)[0] == Extended(s[0]);
  }

  lemma {:induction false} EscapedSame(r: seq<nat>)
    ensures Escaped(r) == r <==> AllNul(r)
  {
    if r != [] {
      var c, q := r[0], r[1..];
      assert r == [c] + q;
      if c == 0 {
        EscapedNul(q);
        EscapedSame(q);
        Heads(0, Escaped(q), q);
        NulHead(r);
      } else if IsExtended(c) {
        EscapedExtended(c, q);
        assert Escaped(r)[0] != c;
      } else {
        var x := EscapedOther(c, q);
        assert Escaped(r)[0] == x;
      }
    }
  }

  lemma NulHead(r: seq<nat>)
    requires r != []
    ensures AllNul(r) <==> r[0] == 0 && AllNul(r[1..])
  {
    assert r == [r[0]] + r[1..];
  }

  lemma Heads(c: nat, s: seq<nat>, t: seq<nat>)
    ensures [c] + s == [c] + t <==> s == t
  {
    assert ([c] + s)[1..] == s && ([c] + t)[1..] == t;
  }

  lemma {:induction false} EscapedBehindNul(r: seq<nat>)
    ensures Escaped(r) == [0] + r <==> OneExtended(r)
  {
    if r != [] {
      var c, q := r[0], r[1..];
      assert r == [c] + q;
      if c == 0 {
        EscapedNul(q);
        EscapedBehindNul(q);
        Heads(0, Escaped(q), r);
      } else if IsExtended(c) {
        EscapedExtended(c, q);
        EscapedSame(q);
        Heads(0, [c] + Escaped(q), [c] + q);
        Heads(c, Escaped(q), q);
      } else {
        NotBehindNul(c, q);
      }
    }
  }

  lemma NotBehindNul(c: nat, q: seq<nat>)
    requires c != 0 && !IsExtended(c)
    ensures Escaped([c] + q) != [0] + ([c] + q)
  {
    var x := EscapedOther(c, q);
    if q == [] {
      assert |[x] + Escaped(q)| == 1;
    } else {
      EscapedFirst(q);
      var k: Septet :| Escaped(q)[0] == Extended(k);
      NotExtended(c, k);
      assert ([x] + Escaped(q))[1] == Extended(k) && ([0] + ([c] + q))[1] == c;
    }
  }

  lemma NotExtended(c: nat, k: Septet)
    requires c != 0 && !IsExtended(c)
    ensures Extended(k) != c
  {
    if Extended(k) == c && FirstBasic(c, 0).Some? {
      TablesApart(k, FirstBasic(c, 0).value);
    }
  }

  /** Exactly the sendable texts come back. */
  lemma {:induction false} TextRoundTripIff(t: seq<nat>)
    ensures Chars(Septets(t), false) == t <==> Sendable(t)
  {
    if t != [] {
      var c, r := t[0], t[1..];
      assert t == [c] + r;
      if IsBasic(c) {
        var nn := FirstBasic(c, 0).value;
        OnlyEscapeIsZero(nn);
        CharsOne(nn, Septets(r));
        TextRoundTripIff(r);
        Heads(c, Chars(Septets(r), false), r);
      } else if c == 0 {
        NulIsEscape();
        CharsOne(ESCAPE, Septets(r));
        EscapedBehindNul(r);
      } else if IsExtended(c) {
        CharsBehindEscape(FirstExtended(c, 0).value, Septets(r));
        EscapedSame(r);
        Heads(c, Escaped(r), r);
      } else {
        CharsOne(0x20, Septets(r));
        assert Basic(0x20) == 0x20 != c;
      }
    }
  }
}
