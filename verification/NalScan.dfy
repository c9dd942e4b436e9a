/**
 Annex B byte streams (section B.1 of ITU-T H.264): what DtsGetNaluType finds in a
 buffer, and how a stream of NAL units is cut.
 */
module NalScan {
  import opened Bytes

  /** A byte of the buffer, or the one that follows it in memory. */
  function At(s: seq<Byte>, beyond: Byte, i: nat): Byte {
    if i < |s| then s[i] else beyond
  }

  function FirstNonZero(s: seq<Byte>, i: nat): (r: nat)
    requires i <= |s|
    ensures i <= r <= |s| && (r < |s| ==> s[r] != 0)
    decreases |s| - i
  {
    if i == |s| || s[i] != 0 then i else FirstNonZero(s, i + 1)
  }

  lemma {:induction false} ZerosInFront(s: seq<Byte>, i: nat)
    requires i <= |s|
    ensures forall k :: i <= k < FirstNonZero(s, i) ==> s[k] == 0
    decreases |s| - i
  {
    if i < |s| && s[i] == 0 {
      ZerosInFront(s, i + 1);
    }
  }

  /** A start code ends in front of `e`. */
  predicate HasCode(s: seq<Byte>, e: int) {
    3 <= e <= |s| && s[e - 3] == 0 && s[e - 2] == 0 && s[e - 1] == 1
  }

  function NextCode(s: seq<Byte>, e: nat): (r: Option<nat>)
    ensures r.Some? ==> e <= r.value && HasCode(s, r.value)
    decreases |s| - e
  {
    if e > |s| then None else if HasCode(s, e) then Some(e) else NextCode(s, e + 1)
  }

  lemma {:induction false} NoCodeBefore(s: seq<Byte>, e: nat)
    ensures var r := NextCode(s, e); forall k :: e <= k && (r.Some? ==> k < r.value) ==> !HasCode(s, k)
    decreases |s| - e
  {
    if e <= |s| && !HasCode(s, e) {
      NoCodeBefore(s, e + 1);
    }
  }

  /** The zeros that end in front of `k`. */
  function ZerosBefore(s: seq<Byte>, k: nat): (n: nat)
    requires k <= |s|
    ensures n <= k && (n < k ==> s[k - n - 1] != 0)
  {
    if k == 0 || s[k - 1] != 0 then 0 else 1 + ZerosBefore(s, k - 1)
  }

  lemma {:induction false} ZerosBeforeAre(s: seq<Byte>, k: nat)
    requires k <= |s|
    ensures forall i :: k - ZerosBefore(s, k) <= i < k ==> s[i] == 0
  {
    if k > 0 && s[k - 1] == 0 {
      ZerosBeforeAre(s, k - 1);
    }
  }

  datatype Nalu = Nalu(len: int, unitType: nat, prefixLen: nat)

  /** What DtsGetNaluType returns and fills in; Overrun where it takes a byte behind the
      buffer for the end of a start code. */
  datatype Scan = Bad | Overrun | Found(ret: nat, nalu: Nalu)

  /** Where the unit ends: in front of the 4-byte form of the next start code if it has
      that form, else of the 3-byte form; without one at the end of the buffer. */
  function EndOf(s: seq<Byte>, code: Option<nat>): nat
    requires code.Some? ==> 4 <= code.value <= |s|
  {
    if code.None? then |s| else if s[code.value - 4] == 0 then code.value - 4 else code.value - 3
  }

  /** The zeros between the unit and the 4-byte form of the next start code. */
  function TrailOf(s: seq<Byte>, code: Option<nat>): nat
    requires code.Some? ==> 4 <= code.value <= |s|
  {
    if code.Some? && s[code.value - 4] == 0 then ZerosBefore(s, code.value - 4) else 0
  }

  function GetNalu(s: seq<Byte>, beyond: Byte, first: bool): Scan {
    var one := FirstNonZero(s, 0);
    if At(s, beyond, one) != 1 || one < 2 then Bad
    else
      var prefix, lead := if one == 2 then 3 else 4, if one == 2 then 0 else one - 3;
      if !first && lead > 0 then Bad
      else if one == |s| then Overrun
      else
        var code := NextCode(s, one + 2);
        var end := EndOf(s, code);
        Found(end, Nalu(end - prefix - lead - TrailOf(s, code), At(s, beyond, lead + prefix) % 32, prefix))
  }

  // ----- streams of NAL units -----

  function Code(long: bool): (s: seq<Byte>)
    ensures |s| == if long then 4 else 3
  {
    if long then [0, 0, 0, 1] else [0, 0, 1]
  }

  ghost predicate NoCode(s: seq<Byte>) {
    forall e :: !HasCode(s, e)
  }

  predicate StartsWithCode(s: seq<Byte>) {
    |s| >= 3 && s[0] == 0 && s[1] == 0 && (s[2] == 1 || (|s| >= 4 && s[2] == 0 && s[3] == 1))
  }

  /** A NAL unit behind its start code, with zeros up to the next one. */
  datatype Unit = Unit(long: bool, nal: seq<Byte>, zeros: nat)

  function UnitBytes(u: Unit): (s: seq<Byte>)
    ensures |s| == |Code(u.long)| + |u.nal| + u.zeros
  {
    Code(u.long) + u.nal + ZeroBytes(u.zeros)
  }

  /** `u` stands as a unit in front of `next`: no start code inside, no zero at its end
      unless the buffer ends there, and more zeros only where a 4-byte code follows. */
  ghost predicate IsUnit(u: Unit, next: seq<Byte>) {
    && NoCode(u.nal)
    && (next == [] ==> u.zeros == 0)
    && (next != [] ==>
          StartsWithCode(next) && (u.nal != [] ==> u.nal[|u.nal| - 1] != 0) && (u.zeros > 0 ==> next[2] == 0))
  }

  function Stream(us: seq<Unit>): seq<Byte> {
    if us == [] then [] else UnitBytes(us[0]) + Stream(us[1..])
  }

  ghost predicate AreUnits(us: seq<Unit>) {
    us == [] || (IsUnit(us[0], Stream(us[1..])) && AreUnits(us[1..]))
  }

  /** What is found at the front of a unit and what follows it. */
  function NaluOf(u: Unit, next: seq<Byte>, beyond: Byte): Nalu {
    Nalu(|u.nal|, At(u.nal + ZeroBytes(u.zeros) + next, beyond, 0) % 32, |Code(u.long)|)
  }

  /** Where the next start code is found behind a unit. */
  lemma CodeBehind(u: Unit, next: seq<Byte>, s: seq<Byte>)
    requires IsUnit(u, next) && s == UnitBytes(u) + next
    ensures NextCode(s, |Code(u.long)| + 1)
            == if next == [] then None else Some(|UnitBytes(u)| + if next[2] == 1 then 3 else 4)
  {
    var c, n := |Code(u.long)|, |UnitBytes(u)|;
    var end := if next == [] then n + 1 else n + if next[2] == 1 then 3 else 4;
    forall e | c + 1 <= e < end ensures !HasCode(s, e) {
      NotInside(u, next, s, e);
    }
    if next != [] {
      CodeAt(s, UnitBytes(u), next);
    }
    NextIs(s, c + 1, end);
  }

  lemma CodeAt(s: seq<Byte>, a: seq<Byte>, next: seq<Byte>)
    requires s == a + next && StartsWithCode(next)
    ensures HasCode(s, |a| + if next[2] == 1 then 3 else 4)
  {
    assert s[|a|] == next[0] && s[|a| + 1] == next[1] && s[|a| + 2] == next[2];
    assert next[2] != 1 ==> s[|a| + 3] == next[3];
  }

  lemma NextIs(s: seq<Byte>, e: nat, end: nat)
    requires e <= end && (forall k :: e <= k < end ==> !HasCode(s, k)) && (HasCode(s, end) || end > |s|)
    ensures NextCode(s, e) == if HasCode(s, end) then Some(end) else None
  {
    NoCodeBefore(s, e);
  }

  lemma NotInside(u: Unit, next: seq<Byte>, s: seq<Byte>, e: int)
    requires IsUnit(u, next) && s == UnitBytes(u) + next
    requires |Code(u.long)| < e && e < |UnitBytes(u)| + if next == [] then 1 else if next[2] == 1 then 3 else 4
    ensures !HasCode(s, e)
  {
    var c, m, n := |Code(u.long)|, |Code(u.long)| + |u.nal|, |UnitBytes(u)|;
    if e > m {
      assert e <= n ==> s[e - 1] == ZeroBytes(u.zeros)[e - 1 - m];
      assert e > n ==> s[e - 1] == next[e - 1 - n] == 0;
    } else if e - 3 < c {
      assert s[c - 1] == Code(u.long)[c - 1];
    } else {
      NalInside(Code(u.long), u.nal, ZeroBytes(u.zeros) + next, e);
      assert s == Code(u.long) + (u.nal + (ZeroBytes(u.zeros) + next));
    }
  }

  lemma NalInside(a: seq<Byte>, nal: seq<Byte>, b: seq<Byte>, e: int)
    requires NoCode(nal) && |a| + 3 <= e <= |a| + |nal|
    ensures !HasCode(a + (nal + b), e)
  {
    var i := e - |a|;
    var s := a + (nal + b);
    assert s[e - 3] == nal[i - 3] && s[e - 2] == nal[i - 2] && s[e - 1] == nal[i - 1];
    assert !HasCode(nal, i);
  }

  /** In a stream, DtsGetNaluType finds the unit in front, to the byte, and passes all of it. */
  lemma ScanUnit(u: Unit, next: seq<Byte>, beyond: Byte, first: bool)
    requires IsUnit(u, next)
    ensures GetNalu(UnitBytes(u) + next, beyond, first) == Found(|UnitBytes(u)|, NaluOf(u, next, beyond))
  {
    ScanAt(u, next, beyond, UnitBytes(u) + next, 0, first);
  }

  /** Zeros in front of the start code are passed in the first scan only. */
  lemma LeadingZeros(k: nat, u: Unit, next: seq<Byte>, beyond: Byte)
    requires IsUnit(u, next) && u.long && k > 0
    ensures var s := ZeroBytes(k) + (UnitBytes(u) + next);
            && GetNalu(s, beyond, false) == Bad
            && GetNalu(s, beyond, true) == Found(k + |UnitBytes(u)|, NaluOf(u, next, beyond))
  {
    var s := ZeroBytes(k) + (UnitBytes(u) + next);
    assert s[k..] == UnitBytes(u) + next;
    ScanAt(u, next, beyond, s, k, true);
    FirstOne(u, next, s, k);
  }

  lemma ScanAt(u: Unit, next: seq<Byte>, beyond: Byte, s: seq<Byte>, k: nat, first: bool)
    requires IsUnit(u, next) && k <= |s| && s[..k] == ZeroBytes(k) && s[k..] == UnitBytes(u) + next
    requires k > 0 ==> u.long && first
    ensures GetNalu(s, beyond, first) == Found(k + |UnitBytes(u)|, NaluOf(u, next, beyond))
  {
    var c := |Code(u.long)|;
    FirstOne(u, next, s, k);
    EndAndTrail(u, next, s, k, NextCode(s, k + c + 1));
    KindBehind(u, next, s, k, beyond);
  }

  lemma FirstOne(u: Unit, next: seq<Byte>, s: seq<Byte>, k: nat)
    requires k <= |s| && s[..k] == ZeroBytes(k) && s[k..] == UnitBytes(u) + next
    ensures var one := k + |Code(u.long)| - 1; one < |s| && FirstNonZero(s, 0) == one && s[one] == 1
  {
    var c := |Code(u.long)|;
    assert forall i :: 0 <= i < c ==> s[k..][i] == s[k + i] == Code(u.long)[i];
    assert forall i :: 0 <= i < k ==> s[i] == s[..k][i];
    FirstIs(s, k + c - 1);
  }

  lemma EndAndTrail(u: Unit, next: seq<Byte>, s: seq<Byte>, k: nat, code: Option<nat>)
    requires IsUnit(u, next) && k <= |s| && s[k..] == UnitBytes(u) + next
    requires code == NextCode(s, k + |Code(u.long)| + 1)
    ensures code.Some? ==> 4 <= code.value <= |s|
    ensures EndOf(s, code) == k + |UnitBytes(u)| && TrailOf(s, code) == u.zeros
  {
    CodeBeyond(u, next, s, k, code);
    if next != [] {
      TrailBehind(u, next, s, k, k + |UnitBytes(u)|);
    }
  }

  lemma CodeBeyond(u: Unit, next: seq<Byte>, s: seq<Byte>, k: nat, code: Option<nat>)
    requires IsUnit(u, next) && k <= |s| && s[k..] == UnitBytes(u) + next
    requires code == NextCode(s, k + |Code(u.long)| + 1)
    ensures code == if next == [] then None else Some(k + |UnitBytes(u)| + if next[2] == 1 then 3 else 4)
    ensures next != [] ==> |next| >= if next[2] == 1 then 3 else 4
  {
    CodeBehind(u, next, s[k..]);
    ShiftedCode(s, k, |Code(u.long)| + 1);
  }

  lemma TrailBehind(u: Unit, next: seq<Byte>, s: seq<Byte>, k: nat, end: nat)
    requires IsUnit(u, next) && next != [] && k <= |s| && s[k..] == UnitBytes(u) + next && end == k + |UnitBytes(u)|
    ensures if next[2] == 1 then s[end - 1] != 0 else s[end] == 0 && ZerosBefore(s, end) == u.zeros
  {
    var c, n := |Code(u.long)|, |UnitBytes(u)|;
    EndOfUnit(u, next, s[k..]);
    assert s[k..][n - 1] == s[end - 1] && s[k..][n] == s[end];
    assert s[k + c - 1] == s[k..][c - 1] == Code(u.long)[c - 1];
    ShiftedZeros(s, k, n, k + c - 1);
  }

  lemma KindBehind(u: Unit, next: seq<Byte>, s: seq<Byte>, k: nat, beyond: Byte)
    requires k <= |s| && s[k..] == UnitBytes(u) + next
    ensures At(s, beyond, k + |Code(u.long)|) == At(u.nal + ZeroBytes(u.zeros) + next, beyond, 0)
  {
    var t := u.nal + ZeroBytes(u.zeros) + next;
    assert s[k..] == Code(u.long) + t;
    assert t != [] ==> s[k..][|Code(u.long)|] == t[0];
  }

  lemma {:induction false} ShiftedCode(s: seq<Byte>, k: nat, e: nat)
    requires k <= |s| && e >= 3
    ensures var r := NextCode(s[k..], e); NextCode(s, k + e) == if r.None? then None else Some(k + r.value)
    decreases |s| - e
  {
    if k + e <= |s| {
      assert HasCode(s[k..], e) == HasCode(s, k + e);
      if !HasCode(s, k + e) {
        ShiftedCode(s, k, e + 1);
      }
    }
  }

  lemma ShiftedZeros(s: seq<Byte>, k: nat, n: nat, one: nat)
    requires k <= one < k + n <= |s| && s[one] != 0
    ensures ZerosBefore(s, k + n) == ZerosBefore(s[k..], n)
  {
    ZerosBeforeAre(s, k + n);
    ZerosBeforeAre(s[k..], n);
    var z, z' := ZerosBefore(s, k + n), ZerosBefore(s[k..], n);
    assert s[k..][one - k] != 0;
    assert forall i :: 0 <= i < n ==> s[k..][i] == s[k + i];
  }

  lemma FirstIs(s: seq<Byte>, k: nat)
    requires k < |s| && s[k] != 0 && forall i :: 0 <= i < k ==> s[i] == 0
    ensures FirstNonZero(s, 0) == k
  {
    ZerosInFront(s, 0);
  }

  lemma EndOfUnit(u: Unit, next: seq<Byte>, s: seq<Byte>)
    requires IsUnit(u, next) && next != [] && s == UnitBytes(u) + next
    ensures var n := |UnitBytes(u)|;
            if next[2] == 1 then s[n - 1] != 0 else s[n] == 0 && ZerosBefore(s, n) == u.zeros
  {
    var c, m, n := |Code(u.long)|, |Code(u.long)| + |u.nal|, |UnitBytes(u)|;
    assert forall k :: 0 <= k < |u.nal| ==> s[c + k] == u.nal[k];
    assert forall k :: m <= k < n ==> s[k] == 0;
    assert s[m - 1] != 0 by {
      assert u.nal == [] ==> s[c - 1] == 1;
    }
    assert s[n] == next[0];
    ZerosBeforeAre(s, n);
  }

  /** Any buffer that begins with a start code begins with a unit: the one found. */
  lemma CutUnit(s: seq<Byte>, beyond: Byte, first: bool) returns (u: Unit)
    requires StartsWithCode(s)
    ensures |UnitBytes(u)| <= |s| && s[..|UnitBytes(u)|] == UnitBytes(u) && IsUnit(u, s[|UnitBytes(u)|..])
    ensures GetNalu(s, beyond, first) == Found(|UnitBytes(u)|, NaluOf(u, s[|UnitBytes(u)|..], beyond))
  {
    var end;
    u, end := UnitInFront(s);
    assert s[..end] + s[end..] == s;
    ScanUnit(u, s[end..], beyond, first);
  }

  lemma UnitInFront(s: seq<Byte>) returns (u: Unit, end: nat)
    requires StartsWithCode(s)
    ensures end <= |s| && s[..end] == UnitBytes(u) && IsUnit(u, s[end..])
  {
    var long := s[2] == 0;
    var c := |Code(long)|;
    assert s[..c] == Code(long);
    NoCodeBefore(s, c + 1);
    match NextCode(s, c + 1) {
      case None =>
        InsideNoCode(s, c, |s|);
        u, end := Unit(long, s[c..|s|], 0), |s|;
        assert s[..end] == UnitBytes(u);
      case Some(e) =>
        u, end := UnitBefore(s, long, c, e);
    }
  }

  lemma UnitBefore(s: seq<Byte>, long: bool, c: nat, e: nat) returns (u: Unit, end: nat)
    requires c == |Code(long)| < e <= |s| && s[..c] == Code(long)
    requires HasCode(s, e) && forall k :: c + 1 <= k < e ==> !HasCode(s, k)
    ensures end <= |s| && s[..end] == UnitBytes(u) && IsUnit(u, s[end..])
  {
    end := if s[e - 4] == 0 then e - 4 else e - 3;
    var z := if s[e - 4] == 0 then ZerosBefore(s, end) else 0;
    assert s[..c][c - 1] == 1;
    BehindCode(s, c, e, end, z);
    InsideNoCode(s, c, end - z);
    u := Unit(long, s[c..end - z], z);
    ThreePieces(s, c, end - z, end);
  }

  /** The zeros in front of the next code do not reach back into the first. */
  lemma BehindCode(s: seq<Byte>, c: nat, e: nat, end: nat, z: nat)
    requires 3 <= c < e <= |s| && s[c - 1] == 1 && HasCode(s, e)
    requires end == (if s[e - 4] == 0 then e - 4 else e - 3) && z == if s[e - 4] == 0 then ZerosBefore(s, end) else 0
    ensures c <= end - z && s[end - z..end] == ZeroBytes(z) && StartsWithCode(s[end..])
    ensures s[end - z - 1] != 0 && (z > 0 ==> s[end..][2] == 0)
  {
    assert e - 4 >= c - 1 && (e - 4 == c - 1 ==> s[e - 4] == 1);
    ZerosBeforeAre(s, end);
  }

  lemma InsideNoCode(s: seq<Byte>, c: nat, m: nat)
    requires c <= m <= |s| && forall k :: c + 1 <= k <= m ==> !HasCode(s, k)
    ensures NoCode(s[c..m])
  {
    forall e ensures !HasCode(s[c..m], e) {
      assert HasCode(s[c..m], e) ==> HasCode(s, c + e);
    }
  }

  /** The NAL units of a buffer partition it. */
  lemma {:induction false} CutStream(s: seq<Byte>) returns (us: seq<Unit>)
    requires s == [] || StartsWithCode(s)
    ensures Stream(us) == s && AreUnits(us)
    decreases |s|
  {
    if s == [] {
      us := [];
    } else {
      var u, end := UnitInFront(s);
      var rest := CutStream(s[end..]);
      us := [u] + rest;
      StreamCons(u, rest);
      assert s[..end] + s[end..] == s;
    }
  }

  lemma StreamCons(u: Unit, rest: seq<Unit>)
    ensures Stream([u] + rest) == UnitBytes(u) + Stream(rest)
    ensures AreUnits([u] + rest) <==> IsUnit(u, Stream(rest)) && AreUnits(rest)
  {
    assert ([u] + rest)[1..] == rest;
  }

  // ----- DtsParseAVC -----

  datatype Parse =
    | Failed
    | Outside                              // the scan left the buffer
    | UnitEnd(offset: nat, unitType: nat)      // behind the first unit wanted

  const SLICE: nat := 1
  const IDR: nat := 5
  const SEI: nat := 6
  const SPS: nat := 7
  const PPS: nat := 8

  predicate Wanted(kind: nat, idrOnly: bool) {
    kind == SLICE || kind == IDR || (!idrOnly && (kind == SEI || kind == SPS || kind == PPS))
  }

  /** The loop of DtsParseAVC on what remains of the buffer, `pos` bytes into it. */
  function ParseFrom(s: seq<Byte>, beyond: Byte, first: bool, idrOnly: bool, pos: nat): Parse
    decreases |s|
  {
    match GetNalu(s, beyond, first)
    case Bad => Failed
    case Overrun => Outside
    case Found(ret, nalu) =>
      if Wanted(nalu.unitType, idrOnly) then UnitEnd(pos + ret, nalu.unitType)
      else
        GetNaluAdvances(s, beyond, first);
        ParseFrom(s[ret..], beyond, false, idrOnly, pos + ret)
  }

  /** What is found ends behind its start code and inside the buffer. */
  lemma GetNaluAdvances(s: seq<Byte>, beyond: Byte, first: bool)
    requires GetNalu(s, beyond, first).Found?
    ensures var g := GetNalu(s, beyond, first); 3 <= g.ret <= |s| && g.nalu.len >= 0
  {
    var one := FirstNonZero(s, 0);
    var code := NextCode(s, one + 2);
    ZerosInFront(s, 0);
    if code.Some? {
      var e := code.value;
      assert e - 4 >= one - 2 && s[one] == 1;
      assert e - 4 != one - 2 && e - 4 != one - 1 && e - 3 != one;
      if s[e - 4] == 0 && e - 4 > one {
        ZerosBeforeAre(s, e - 4);
        assert e - 4 - ZerosBefore(s, e - 4) > one;
      }
    }
  }

  /** In a stream: behind the first unit of a wanted type, and never outside the buffer. */
  lemma {:induction false} ParseFinds(us: seq<Unit>, beyond: Byte, first: bool, idrOnly: bool, pos: nat)
    requires AreUnits(us)
    ensures ParseFrom(Stream(us), beyond, first, idrOnly, pos) == ParseUnits(us, beyond, idrOnly, pos)
  {
    if us == [] {
      NothingParsed(beyond, first, idrOnly, pos);
    } else {
      var u, rest := us[0], Stream(us[1..]);
      var a, nalu := UnitBytes(u), NaluOf(u, rest, beyond);
      ParseFinds(us[1..], beyond, false, idrOnly, pos + |a|);
      ScanUnit(u, rest, beyond, first);
      ParseOnce(a, rest, beyond, first, idrOnly, pos, nalu);
      FirstUnit(us, beyond, idrOnly, pos, a, rest, nalu);
    }
  }

  lemma FirstUnit(us: seq<Unit>, beyond: Byte, idrOnly: bool, pos: nat, a: seq<Byte>, rest: seq<Byte>, nalu: Nalu)
    requires us != [] && a == UnitBytes(us[0]) && rest == Stream(us[1..]) && nalu == NaluOf(us[0], rest, beyond)
    ensures Stream(us) == a + rest
    ensures ParseUnits(us, beyond, idrOnly, pos)
            == if Wanted(nalu.unitType, idrOnly) then UnitEnd(pos + |a|, nalu.unitType)
               else ParseUnits(us[1..], beyond, idrOnly, pos + |a|)
  {
  }

  lemma NothingParsed(beyond: Byte, first: bool, idrOnly: bool, pos: nat)
    ensures ParseFrom([], beyond, first, idrOnly, pos) == Failed
  {
    assert FirstNonZero([], 0) == 0;
  }

  lemma ParseOnce(a: seq<Byte>, b: seq<Byte>, beyond: Byte, first: bool, idrOnly: bool, pos: nat, nalu: Nalu)
    requires GetNalu(a + b, beyond, first) == Found(|a|, nalu)
    ensures ParseFrom(a + b, beyond, first, idrOnly, pos)
            == if Wanted(nalu.unitType, idrOnly) then UnitEnd(pos + |a|, nalu.unitType)
               else ParseFrom(b, beyond, false, idrOnly, pos + |a|)
  {
    assert (a + b)[|a|..] == b;
  }

  function ParseUnits(us: seq<Unit>, beyond: Byte, idrOnly: bool, pos: nat): Parse {
    if us == [] then Failed
    else
      var kind := NaluOf(us[0], Stream(us[1..]), beyond).unitType;
      if Wanted(kind, idrOnly) then UnitEnd(pos + |UnitBytes(us[0])|, kind)
      else ParseUnits(us[1..], beyond, idrOnly, pos + |UnitBytes(us[0])|)
  }

  /** While no unit has been seen, zeros in front of a 4-byte code are passed by the parse;
      later they are an error. */
  lemma ZerosPassed(s: seq<Byte>, k: nat, beyond: Byte, idrOnly: bool, pos: nat)
    requires 0 < k <= |s| && s[..k] == ZeroBytes(k) && StartsWithCode(s[k..]) && s[k..][2] == 0
    ensures ParseFrom(s, beyond, true, idrOnly, pos) == ParseFrom(s[k..], beyond, true, idrOnly, pos + k)
    ensures ParseFrom(s, beyond, false, idrOnly, pos) == Failed
  {
    var ret, nalu := ScanBehindZeros(s, k, s[k..], beyond);
    SameParse(s, k + ret, s[k..], ret, beyond, idrOnly, pos, pos + k, nalu);
  }

  lemma ScanBehindZeros(t: seq<Byte>, k: nat, s: seq<Byte>, beyond: Byte) returns (ret: nat, nalu: Nalu)
    requires 0 < k <= |t| && t[..k] == ZeroBytes(k) && t[k..] == s && StartsWithCode(s) && s[2] == 0
    ensures ret <= |s| && GetNalu(s, beyond, true) == Found(ret, nalu) && t[k + ret..] == s[ret..]
    ensures GetNalu(t, beyond, true) == Found(k + ret, nalu) && GetNalu(t, beyond, false) == Bad
  {
    var u := CutUnit(s, beyond, true);
    ret := |UnitBytes(u)|;
    var next := s[ret..];
    nalu := NaluOf(u, next, beyond);
    assert s == UnitBytes(u) + next;
    LongCode(s, u, next);
    assert t == t[..k] + t[k..];
    LeadingZeros(k, u, next, beyond);
  }

  lemma LongCode(s: seq<Byte>, u: Unit, next: seq<Byte>)
    requires s == UnitBytes(u) + next && s[2] == 0
    ensures u.long
  {
    assert s[2] == UnitBytes(u)[2] == Code(u.long)[2];
  }

  lemma SameParse(t: seq<Byte>, m: nat, s: seq<Byte>, n: nat, beyond: Byte, idrOnly: bool, pos: nat, pos': nat,
                  nalu: Nalu)
    requires m <= |t| && n <= |s| && t[m..] == s[n..] && pos + m == pos' + n
    requires GetNalu(t, beyond, true) == Found(m, nalu) && GetNalu(s, beyond, true) == Found(n, nalu)
    ensures ParseFrom(t, beyond, true, idrOnly, pos) == ParseFrom(s, beyond, true, idrOnly, pos')
  {
  }

  // ----- leaving the buffer -----

  ghost predicate AllZero(s: seq<Byte>) {
    forall i :: 0 <= i < |s| ==> s[i] == 0
  }

  /** Zeros to the end, as many as a start code may have, and a one behind them. */
  ghost predicate LeavesBuffer(s: seq<Byte>, beyond: Byte, first: bool) {
    AllZero(s) && |s| >= 2 && beyond == 1 && (first || |s| <= 3)
  }

  lemma OverrunIff(s: seq<Byte>, beyond: Byte, first: bool)
    ensures GetNalu(s, beyond, first) == Overrun <==> LeavesBuffer(s, beyond, first)
  {
    ZerosInFront(s, 0);
  }

  /** Behind a unit that is found, the buffer ends or the next start code begins. */
  lemma CodeNext(s: seq<Byte>, beyond: Byte, first: bool)
    requires GetNalu(s, beyond, first).Found?
    ensures var ret := GetNalu(s, beyond, first).ret; ret <= |s| && (s[ret..] == [] || StartsWithCode(s[ret..]))
  {
    GetNaluAdvances(s, beyond, first);
    var code := NextCode(s, FirstNonZero(s, 0) + 2);
    if code.Some? {
      assert HasCode(s, code.value);
    }
  }

  /** DtsParseAVC leaves its buffer if and only if its first scan does. */
  lemma OutsideIff(s: seq<Byte>, beyond: Byte, first: bool, idrOnly: bool, pos: nat)
    ensures ParseFrom(s, beyond, first, idrOnly, pos) == Outside <==> LeavesBuffer(s, beyond, first)
  {
    OverrunIff(s, beyond, first);
    var g := GetNalu(s, beyond, first);
    if g.Found? {
      CodeNext(s, beyond, first);
      var us := CutStream(s[g.ret..]);
      ParseFinds(us, beyond, false, idrOnly, pos + g.ret);
      NeverOutside(us, beyond, idrOnly, pos + g.ret);
    }
  }

  lemma {:induction false} NeverOutside(us: seq<Unit>, beyond: Byte, idrOnly: bool, pos: nat)
    ensures ParseUnits(us, beyond, idrOnly, pos) != Outside
  {
    if us != [] {
      NeverOutside(us[1..], beyond, idrOnly, pos + |UnitBytes(us[0])|);
    }
  }
}
