/**
 DtsCheckRptPic: which copies of a decoded picture are shown, by the pulldown pattern,
 and when repeated copies mean the end of the stream.
 */
module RepeatPicture {
  import opened Bytes
  import opened HexBits

  const TOP: nat := 1
  const BOTTOM: nat := 2
  const FRAME: nat := 3

  const EOS_PIC_COUNT: nat := 16

  datatype Picture = Picture(number: nat, session: nat, bottom: bool, pulldown: nat)

  /** The fields in which the first copy of a picture has it shown: a frame up to four times,
      or fields by turns. */
  function Pattern(progressive: bool, pulldown: nat): seq<nat> {
    if progressive then
      if pulldown == 7 then [FRAME, FRAME] else if pulldown == 8 then [FRAME, FRAME, FRAME]
      else if pulldown == 10 then [FRAME, FRAME, FRAME, FRAME] else [FRAME]
    else if pulldown == 1 then [TOP]
    else if pulldown == 2 then [BOTTOM]
    else if pulldown == 4 then [BOTTOM, TOP]
    else if pulldown == 5 then [TOP, BOTTOM, TOP]
    else if pulldown == 6 then [BOTTOM, TOP, BOTTOM]
    else [TOP, BOTTOM]
  }

  function CheckFlag(progressive: bool, bottom: bool): nat {
    if progressive then FRAME else if bottom then BOTTOM else TOP
  }

  /** The fields of a pattern, first field lowest, two bits each. */
  function Fields(flag: nat): seq<nat> {
    if flag == 0 then [] else [flag % 4] + Fields(flag / 4)
  }

  /** The search for the field in what is left of the pattern, and the pattern behind it;
      nothing is left when the field is not found. */
  function Take(fields: seq<nat>, c: nat): (bool, seq<nat>) {
    if fields == [] then (false, []) else if fields[0] == c then (true, fields[1..]) else Take(fields[1..], c)
  }

  datatype Book = Book(lastNumber: nat, lastSession: nat, fields: seq<nat>, eosCheck: bool, eosCnt: nat, eos: bool)

  /** What is returned, and whether the picture is flagged as the last. */
  datatype Verdict = Verdict(repeat: bool, last: bool)

  function Check(b: Book, progressive: bool, p: Picture): (Book, Verdict) {
    if p.number < 3 then (b, Verdict(false, false))
    else if b.eos then (b, Verdict(true, true))
    else
      var same := b.lastNumber == p.number && b.lastSession == p.session;
      var (found, left) := Take(b.fields, CheckFlag(progressive, p.bottom));
      var repeat := same && !found;
      var cnt := (if same then b.eosCnt else 0) + if b.eosCheck && repeat then 1 else 0;
      var eos := b.eosCheck && cnt >= EOS_PIC_COUNT;
      var fields := if same then left else Pattern(progressive, p.pulldown);
      (Book(p.number, p.session, fields, b.eosCheck, cnt, eos), Verdict(repeat, eos))
  }

  class Checker {
    var lastPicNum: nat
    var lastSessNum: nat
    var pullDownFlag: Byte
    var eosCheck: bool
    var eosCnt: nat
    var eos: bool

    ghost function View(): Book
      reads this
    {
      Book(lastPicNum, lastSessNum, Fields(pullDownFlag), eosCheck, eosCnt, eos)
    }

    constructor (eosCheck: bool)
      ensures View() == Book(0xFFFF_FFFF, 0, [], eosCheck, 0, false)
    {
      lastPicNum, lastSessNum, pullDownFlag := 0xFFFF_FFFF, 0, 0;
      this.eosCheck, eosCnt, eos := eosCheck, 0, false;
    }

    /** The two-bit fields of the flag searched from the lowest, and shifted out. */
    method TakeField(c: nat) returns (found: bool)
      modifies this`pullDownFlag
      ensures (found, Fields(pullDownFlag)) == Take(old(Fields(pullDownFlag)), c)
    {
      var shift, flag: nat := 2, pullDownFlag;
      found := false;
      NoShift(flag);
      while flag != 0
        invariant 2 <= shift && !found && Take(Fields(pullDownFlag), c) == Take(Fields(flag), c)
        invariant pullDownFlag == old(pullDownFlag) && flag == pullDownFlag / Pow2(shift - 2)
        decreases flag
      {
        FieldsStep(flag);
        if flag % 4 == c {
          found := true;
          break;
        }
        NextField(pullDownFlag, shift - 2);
        flag := flag / 4;
        shift := shift + 2;
      }
      NextField(pullDownFlag, shift - 2);
      pullDownFlag := pullDownFlag / Pow2(shift);
      assert pullDownFlag == flag / 4;
      assert found ==> Fields(pullDownFlag) == Fields(flag)[1..];
    }

    /** PullDownFlag, two bits a field, the first one lowest. */
    method LoadPattern(progressive: bool, pulldown: nat)
      modifies this`pullDownFlag
      ensures Fields(pullDownFlag) == Pattern(progressive, pulldown)
    {
      if progressive {
        pullDownFlag := if pulldown == 7 then 0x0f else if pulldown == 8 then 0x3f
                        else if pulldown == 10 then 0xff else 0x03;
      } else {
        pullDownFlag := if pulldown == 1 then 0x01 else if pulldown == 2 then 0x02 else if pulldown == 4 then 0x06
                        else if pulldown == 5 then 0x19 else if pulldown == 6 then 0x26 else 0x09;
      }
      FieldValues();
    }

    method CheckRptPic(progressive: bool, p: Picture) returns (v: Verdict)
      modifies this
      ensures (View(), v) == Check(old(View()), progressive, p)
    {
      if p.number < 3 {
        return Verdict(false, false);
      }
      if eos {
        return Verdict(true, true);
      }
      var repeat, last := false, false;
      if lastPicNum == p.number && lastSessNum == p.session {
        var found := TakeField(if progressive then 3 else if p.bottom then 2 else 1);
        repeat := !found;
      } else {
        LoadPattern(progressive, p.pulldown);
        eosCnt := 0;
      }
      if eosCheck {
        if repeat {
          eosCnt := eosCnt + 1;
        }
        if eosCnt >= EOS_PIC_COUNT {
          eos, last := true, true;
        }
      }
      lastPicNum, lastSessNum := p.number, p.session;
      return Verdict(repeat, last);
    }
  }

  lemma FieldValues()
    ensures Fields(0x03) == [3] && Fields(0x0f) == [3, 3] && Fields(0x3f) == [3, 3, 3] && Fields(0xff) == [3, 3, 3, 3]
    ensures Fields(0x01) == [1] && Fields(0x02) == [2] && Fields(0x06) == [2, 1] && Fields(0x09) == [1, 2]
    ensures Fields(0x19) == [1, 2, 1] && Fields(0x26) == [2, 1, 2]
  {
  }

  lemma FieldsStep(flag: nat)
    requires flag != 0
    ensures Fields(flag)[0] == flag % 4 && Fields(flag)[1..] == Fields(flag / 4)
  {
  }

  lemma NoShift(flag: nat)
    ensures flag / Pow2(0) == flag
  {
    assert Pow2(0) == 1;
  }

  lemma NextField(flag: nat, n: nat)
    ensures flag / Pow2(n + 2) == flag / Pow2(n) / 4
  {
    Halves(flag, Pow2(n));
  }

  lemma Halves(x: nat, p: nat)
    requires p > 0
    ensures x / (2 * (2 * p)) == x / p / 4
  {
    var q, r, m := x / p / 4, x / p % 4, x % p;
    assert x / p == 4 * q + r;
    assert x == (4 * q + r) * p + m;
    Recombine(x, q, r, m, p);
    QuotientUnique(x, q, r * p + m, 2 * (2 * p));
  }

  lemma Recombine(x: nat, q: nat, r: nat, m: nat, p: nat)
    requires x == (4 * q + r) * p + m && r < 4 && m < p
    ensures x == q * (2 * (2 * p)) + (r * p + m) && r * p + m < 2 * (2 * p)
  {
    assert r * p <= 3 * p;
  }

  // ----- the copies of one picture -----

  /** The copies behind the first, with what was returned for each. */
  function Copies(b: Book, progressive: bool, p: Picture, bottoms: seq<bool>): (vs: seq<Verdict>)
    ensures |vs| == |bottoms|
    decreases |bottoms|
  {
    if bottoms == [] then []
    else
      var (b', v) := Check(b, progressive, p.(bottom := bottoms[0]));
      [v] + Copies(b', progressive, p, bottoms[1..])
  }

  function Flags(progressive: bool, bottoms: seq<bool>): (f: seq<nat>)
    ensures |f| == |bottoms| && forall i :: 0 <= i < |f| ==> f[i] == CheckFlag(progressive, bottoms[i])
  {
    seq(|bottoms|, i requires 0 <= i < |bottoms| => CheckFlag(progressive, bottoms[i]))
  }

  /** The places `at`, in order, hold the elements of `s` in `t`. */
  predicate Places(s: seq<nat>, t: seq<nat>, at: seq<nat>) {
    && |at| == |s| && (forall i :: 0 <= i < |at| ==> at[i] < |t| && t[at[i]] == s[i])
    && forall i, j :: 0 <= i < j < |at| ==> at[i] < at[j]
  }

  ghost predicate Subsequence(s: seq<nat>, t: seq<nat>) {
    exists at :: Places(s, t, at)
  }

  /** What is left of `t` when the elements of `s` have been taken one after another. */
  function Left(t: seq<nat>, s: seq<nat>): Option<seq<nat>>
    decreases |s|
  {
    if s == [] then Some(t)
    else
      var (found, left) := Take(t, s[0]);
      if found then Left(left, s[1..]) else None
  }

  lemma {:induction false} TakeFirst(t: seq<nat>, c: nat) returns (k: nat)
    ensures var (found, left) := Take(t, c);
            k <= |t| && (forall i :: 0 <= i < k ==> t[i] != c) && (found <==> k < |t|)
            && (found ==> t[k] == c && left == t[k + 1..]) && (!found ==> left == [])
  {
    if t == [] || t[0] == c {
      k := 0;
    } else {
      k := TakeFirst(t[1..], c);
      k := k + 1;
      assert k < |t| ==> t[1..][k..] == t[k + 1..];
    }
  }

  /** Taking elements as early as possible finds every subsequence. */
  lemma {:induction false} LeftIff(t: seq<nat>, s: seq<nat>)
    ensures Left(t, s).Some? <==> Subsequence(s, t)
    decreases |s|
  {
    if s == [] {
      assert Places([], t, []);
    } else {
      var k := TakeFirst(t, s[0]);
      if k < |t| {
        LeftIff(t[k + 1..], s[1..]);
        if Subsequence(s[1..], t[k + 1..]) {
          var at :| Places(s[1..], t[k + 1..], at);
          PlacesCons(s, t, k, at);
        }
        if Subsequence(s, t) {
          var at :| Places(s, t, at);
          PlacesTail(s, t, k, at);
        }
      } else {
        forall at ensures !Places(s, t, at) {
          assert |at| == |s| && at[0] < |t| ==> t[at[0]] != s[0];
        }
      }
    }
  }

  lemma PlacesCons(s: seq<nat>, t: seq<nat>, k: nat, at: seq<nat>)
    requires s != [] && k < |t| && t[k] == s[0] && Places(s[1..], t[k + 1..], at)
    ensures Subsequence(s, t)
  {
    var r := [k] + seq(|at|, i requires 0 <= i < |at| => at[i] + (k + 1));
    assert forall i :: 0 <= i < |at| ==> t[k + 1..][at[i]] == s[1..][i] == s[i + 1];
    assert Places(s, t, r);
  }

  lemma PlacesTail(s: seq<nat>, t: seq<nat>, k: nat, at: seq<nat>)
    requires s != [] && k < |t| && (forall i :: 0 <= i < k ==> t[i] != s[0]) && Places(s, t, at)
    ensures Subsequence(s[1..], t[k + 1..])
  {
    assert t[at[0]] == s[0] && at[0] >= k;
    var r := seq(|at| - 1, i requires 0 <= i < |at| - 1 => at[i + 1] - (k + 1));
    assert forall i :: 0 <= i < |r| ==> at[i + 1] > at[0] && t[k + 1..][r[i]] == t[at[i + 1]] == s[i + 1];
    assert Places(s[1..], t[k + 1..], r);
  }

  lemma {:induction false} LeftSnoc(t: seq<nat>, s: seq<nat>, c: nat)
    ensures Left(t, s + [c]) == if Left(t, s).None? then None
                                else var (found, left) := Take(Left(t, s).value, c); if found then Some(left) else None
    decreases |s|
  {
    if s == [] {
      assert (s + [c])[1..] == [];
    } else {
      assert (s + [c])[1..] == s[1..] + [c];
      var (found, left) := Take(t, s[0]);
      if found {
        LeftSnoc(left, s[1..], c);
      }
    }
  }

  /** How many of `n` copies are beyond the pattern. */
  function Rejected(pattern: seq<nat>, flags: seq<nat>, n: nat): nat
    requires n <= |flags|
  {
    if n == 0 then 0 else Rejected(pattern, flags, n - 1) + if Left(pattern, flags[..n]).None? then 1 else 0
  }

  /** The state behind the first copy and `done` more. */
  ghost predicate Behind(b: Book, p: Picture, pattern: seq<nat>, flags: seq<nat>, done: nat)
    requires done <= |flags|
  {
    && p.number >= 3 && b.lastNumber == p.number && b.lastSession == p.session
    && (!b.eos ==> b.fields == if Left(pattern, flags[..done]).Some? then Left(pattern, flags[..done]).value else [])
    && b.eos == (b.eosCheck && Rejected(pattern, flags, done) >= EOS_PIC_COUNT)
    && (b.eosCheck && !b.eos ==> b.eosCnt == Rejected(pattern, flags, done))
    && (!b.eosCheck ==> !b.eos)
  }

  lemma FirstCopy(b: Book, progressive: bool, p: Picture, flags: seq<nat>, pattern: seq<nat>)
    requires p.number >= 3 && !b.eos && !(b.lastNumber == p.number && b.lastSession == p.session)
    requires pattern == Pattern(progressive, p.pulldown)
    ensures Check(b, progressive, p).1 == Verdict(false, false)
    ensures Behind(Check(b, progressive, p).0, p, pattern, flags, 0)
    ensures Check(b, progressive, p).0.eosCheck == b.eosCheck
  {
  }

  lemma {:induction false} RejectedGrows(pattern: seq<nat>, flags: seq<nat>, n: nat)
    requires n < |flags| && Rejected(pattern, flags, n) > 0
    ensures Left(pattern, flags[..n + 1]).None?
    decreases n
  {
    assert flags[..n + 1] == flags[..n] + [flags[n]];
    LeftSnoc(pattern, flags[..n], flags[n]);
    if Left(pattern, flags[..n]).Some? {
      RejectedGrows(pattern, flags, n - 1);
    }
  }

  lemma CopyStep(b: Book, progressive: bool, p: Picture, pattern: seq<nat>, flags: seq<nat>, done: nat, bottom: bool)
    requires done < |flags| && Behind(b, p, pattern, flags, done) && flags[done] == CheckFlag(progressive, bottom)
    ensures var (b', v) := Check(b, progressive, p.(bottom := bottom));
            && Behind(b', p, pattern, flags, done + 1) && b'.eosCheck == b.eosCheck
            && (v.repeat <==> Left(pattern, flags[..done + 1]).None?)
            && (v.last <==> b.eosCheck && Rejected(pattern, flags, done + 1) >= EOS_PIC_COUNT)
  {
    assert flags[..done + 1] == flags[..done] + [flags[done]];
    LeftSnoc(pattern, flags[..done], flags[done]);
    var k := TakeFirst(b.fields, flags[done]);
    if Rejected(pattern, flags, done) > 0 {
      RejectedGrows(pattern, flags, done);
    }
  }

  lemma {:induction false} CopiesAre(b: Book, progressive: bool, p: Picture, pattern: seq<nat>, bottoms: seq<bool>,
                                     done: nat, k: nat)
    requires done <= k < |bottoms| && Behind(b, p, pattern, Flags(progressive, bottoms), done)
    ensures var flags, v := Flags(progressive, bottoms), Copies(b, progressive, p, bottoms[done..])[k - done];
            && (v.repeat <==> Left(pattern, flags[..k + 1]).None?)
            && (v.last <==> b.eosCheck && Rejected(pattern, flags, k + 1) >= EOS_PIC_COUNT)
    decreases k - done
  {
    var flags := Flags(progressive, bottoms);
    var (b', v) := Check(b, progressive, p.(bottom := bottoms[done]));
    CopyStep(b, progressive, p, pattern, flags, done, bottoms[done]);
    CopiesCons(b, progressive, p, bottoms, done, b', v);
    if done < k {
      CopiesAre(b', progressive, p, pattern, bottoms, done + 1, k);
    }
  }

  lemma CopiesCons(b: Book, progressive: bool, p: Picture, bottoms: seq<bool>, done: nat, b': Book, v: Verdict)
    requires done < |bottoms| && (b', v) == Check(b, progressive, p.(bottom := bottoms[done]))
    ensures Copies(b, progressive, p, bottoms[done..]) == [v] + Copies(b', progressive, p, bottoms[done + 1..])
  {
    assert bottoms[done..][1..] == bottoms[done + 1..];
  }

  /** Behind the first copy, a copy is shown exactly when the fields up to it are a
      subsequence of the pattern; it is flagged as the last picture exactly when the end
      is being looked for and it is at least the 16th not to be. */
  lemma ShownIff(b: Book, progressive: bool, p: Picture, bottoms: seq<bool>, k: nat)
    requires p.number >= 3 && !b.eos && !(b.lastNumber == p.number && b.lastSession == p.session) && k < |bottoms|
    ensures var pattern, flags := Pattern(progressive, p.pulldown), Flags(progressive, bottoms);
            var v := Copies(Check(b, progressive, p).0, progressive, p, bottoms)[k];
            && (!v.repeat <==> Subsequence(flags[..k + 1], pattern))
            && (v.last <==> b.eosCheck && Rejected(pattern, flags, k + 1) >= EOS_PIC_COUNT)
  {
    var pattern, flags := Pattern(progressive, p.pulldown), Flags(progressive, bottoms);
    FirstCopy(b, progressive, p, flags, pattern);
    CopiesShown(Check(b, progressive, p).0, progressive, p, pattern, bottoms, flags, k);
  }

  lemma CopiesShown(b: Book, progressive: bool, p: Picture, pattern: seq<nat>, bottoms: seq<bool>, flags: seq<nat>,
                    k: nat)
    requires k < |bottoms| && flags == Flags(progressive, bottoms) && Behind(b, p, pattern, flags, 0)
    ensures var v := Copies(b, progressive, p, bottoms)[k];
            && (!v.repeat <==> Subsequence(flags[..k + 1], pattern))
            && (v.last <==> b.eosCheck && Rejected(pattern, flags, k + 1) >= EOS_PIC_COUNT)
  {
    assert bottoms[0..] == bottoms;
    CopiesAre(b, progressive, p, pattern, bottoms, 0, k);
    LeftIff(pattern, flags[..k + 1]);
  }

  /** The copies that are shown. */
  function Shown(vs: seq<Verdict>): nat {
    if vs == [] then 0 else Shown(vs[..|vs| - 1]) + if vs[|vs| - 1].repeat then 0 else 1
  }

  /** However many copies of a picture come behind the first, no more of them are shown than
      the pattern has fields, and none behind as many copies. */
  lemma ShownAtMost(b: Book, progressive: bool, p: Picture, bottoms: seq<bool>)
    requires p.number >= 3 && !b.eos && !(b.lastNumber == p.number && b.lastSession == p.session)
    ensures var fields, vs := |Pattern(progressive, p.pulldown)|,
                              Copies(Check(b, progressive, p).0, progressive, p, bottoms);
            Shown(vs) <= fields && forall k :: fields <= k < |vs| ==> vs[k].repeat
  {
    var pattern, flags := Pattern(progressive, p.pulldown), Flags(progressive, bottoms);
    var vs := Copies(Check(b, progressive, p).0, progressive, p, bottoms);
    forall k | |pattern| <= k < |vs| ensures vs[k].repeat {
      ShownIff(b, progressive, p, bottoms, k);
      if Subsequence(flags[..k + 1], pattern) {
        SubsequenceLength(flags[..k + 1], pattern);
      }
    }
    ShownFirst(vs, |pattern|);
  }

  lemma {:induction false} ShownFirst(vs: seq<Verdict>, n: nat)
    requires forall k :: n <= k < |vs| ==> vs[k].repeat
    ensures Shown(vs) <= n && Shown(vs) <= |vs|
    decreases |vs|
  {
    if vs != [] {
      ShownFirst(vs[..|vs| - 1], n);
    }
  }

  lemma SubsequenceLength(s: seq<nat>, t: seq<nat>)
    requires Subsequence(s, t)
    ensures |s| <= |t|
  {
    var at :| Places(s, t, at);
    PlacesSpread(s, t, at, |s|);
  }

  lemma {:induction false} PlacesSpread(s: seq<nat>, t: seq<nat>, at: seq<nat>, n: nat)
    requires Places(s, t, at) && n <= |s|
    ensures n > 0 ==> at[n - 1] >= n - 1
  {
    if n > 1 {
      PlacesSpread(s, t, at, n - 1);
    }
  }
}
