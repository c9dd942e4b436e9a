/** DtsAlignSendData: the user's data as PES packets, or as pieces of an elementary stream. */
module PesSender {
  import opened Bytes
  import opened Pes

  /** What DtsSendData returns. */
  datatype Outcome = Sent | UserAbort | Refused

  datatype Status = Success | Failure

  /** How many of the next `n` sends go through; behind the list all do. */
  function Accepted(o: seq<Outcome>, n: nat): (k: nat)
    ensures k <= n
  {
    if n == 0 then 0 else if o == [] then n else if o[0].Sent? then 1 + Accepted(o[1..], n - 1) else 0
  }

  /** The result of a call that has `n` sends to make. */
  function Result(o: seq<Outcome>, n: nat): Status {
    if n == 0 || o == [] then Success
    else if o[0].Sent? then Result(o[1..], n - 1)
    else if o[0].UserAbort? then Success else Failure
  }

  class Sender {
    const isLink: bool
    const alignBuf: array<Byte>
    /** The data passed to txBufPush, the time stamps passed to DtsSendSPESPkt, and what
        the sends to come return. */
    var sent: seq<seq<Byte>>
    var spes: seq<nat>
    var outcomes: seq<Outcome>

    ghost predicate Valid()
      reads this
    {
      alignBuf.Length == ALIGN_BUF_SIZE
    }

    constructor (isLink: bool, outcomes: seq<Outcome>)
      ensures Valid() && this.isLink == isLink && this.outcomes == outcomes && sent == [] && spes == []
    {
      this.isLink, this.outcomes := isLink, outcomes;
      alignBuf := new Byte[ALIGN_BUF_SIZE];
      sent, spes := [], [];
    }

    method SendData(packet: seq<Byte>) returns (o: Outcome)
      modifies this`sent, this`outcomes
      ensures o == if old(outcomes) == [] then Sent else old(outcomes)[0]
      ensures outcomes == if old(outcomes) == [] then [] else old(outcomes)[1..]
      ensures sent == old(sent) + if o.Sent? then [packet] else []
    {
      o := if outcomes == [] then Sent else outcomes[0];
      outcomes := if outcomes == [] then [] else outcomes[1..];
      sent := sent + if o.Sent? then [packet] else [];
    }

    // ----- one PES packet -----

    /** Bytes at the 8-bit cursor `j`. */
    method Put(j: nat, s: seq<Byte>, ghost w: seq<Byte>) returns (j': nat)
      requires Valid() && j == |w| && j + |s| < 256 && alignBuf[..j] == w
      modifies alignBuf
      ensures j' == j + |s| && alignBuf[..j'] == w + s
    {
      for i := 0 to |s|
        invariant alignBuf[..j + i] == w + s[..i]
      {
        alignBuf[j + i] := s[i];
      }
      j' := (j + |s|) % 256;
    }

    /** b_pes_header with the two lengths; the 16-bit length is swapped to big-endian. */
    method PutFixed(length: nat, header: nat)
      requires Valid() && length < 0x10000 && header < 256
      modifies alignBuf
      ensures alignBuf[..9] == Fixed(length, false, false, header)
    {
      var j := Put(0, [0, 0, 1, 0xE0, 0, 0, 0x81, 0, 0], []);
      assert alignBuf[..9] == [0, 0, 1, 0xE0, 0, 0, 0x81, 0, 0];
      var swapped := length % 256 * 256 + length / 256;
      alignBuf[4], alignBuf[5] := swapped % 256, swapped / 256;
      alignBuf[8] := header;
      assert swapped % 256 == length / 256 && swapped / 256 == length % 256;
    }

    /** The time stamp and its flag. */
    method PutPts(length: nat, header: nat, pts: Option<nat>) returns (j: nat)
      requires Valid() && length < 0x10000 && header < 256 && alignBuf[..9] == Fixed(length, false, false, header)
      modifies alignBuf
      ensures j == if pts.Some? then 14 else 9
      ensures alignBuf[..j] == Fixed(length, pts.Some?, false, header) + if pts.Some? then PtsBytes(pts.value) else []
    {
      j := 9;
      if pts.Some? {
        alignBuf[7] := 0x80;
        assert alignBuf[..9] == Fixed(length, false, false, header)[7 := 0x80] == Fixed(length, true, false, header);
        j := Put(j, PtsBytes(pts.value), Fixed(length, true, false, header));
      }
    }

    /** The extension flags: one in the fixed part, one byte of their own. */
    method PutFlags(j: nat, length: nat, header: nat, pts: bool, ex: Extras, ghost w: seq<Byte>) returns (j': nat)
      requires Valid() && length < 0x10000 && header < 256 && j == 9 + |w| < 255
      requires alignBuf[..j] == Fixed(length, pts, false, header) + w
      modifies alignBuf
      ensures j' == if HasExtension(ex) then j + 1 else j
      ensures alignBuf[..j'] == Fixed(length, pts, HasExtension(ex), header) + w
                                + if HasExtension(ex)
                                  then [(if ex.priv.Some? then 0x80 else 0) + if ex.ext.Some? then 1 else 0] else []
    {
      j' := j;
      if ex.priv.Some? || ex.ext.Some? {
        assert alignBuf[..j][7] == if pts then 0x80 else 0;
        alignBuf[7] := alignBuf[7] + 1;
        SetExtension(length, pts, header, w);
        assert alignBuf[..j] == Fixed(length, pts, true, header) + w;
        j' := Put(j, [(if ex.priv.Some? then 0x80 else 0) + if ex.ext.Some? then 1 else 0],
          Fixed(length, pts, true, header) + w);
      }
    }

    /** Private data, extension field and stuffing. */
    method PutExtras(j: nat, ex: Extras, ghost w: seq<Byte>) returns (j': nat)
      requires Valid() && IsExtras(ex) && j == |w| && j + ExtrasSize(ex) < 256 && alignBuf[..j] == w
      modifies alignBuf
      ensures j' == j + ExtrasSize(ex) && alignBuf[..j'] == w + ExtrasData(ex)
    {
      j' := j;
      if ex.priv.Some? {
        j' := Put(j', ex.priv.value, w);
      }
      ghost var w1 := alignBuf[..j'];
      if ex.ext.Some? {
        j' := Put(j', [0x80 + |ex.ext.value|], w1);
        j' := Put(j', ex.ext.value, w1 + [0x80 + |ex.ext.value|]);
      }
      ghost var w2 := alignBuf[..j'];
      j' := PutStuffing(j', ex.stuffing, w2);
    }

    method PutStuffing(j: nat, n: nat, ghost w: seq<Byte>) returns (j': nat)
      requires Valid() && j == |w| && j + n < 256 && alignBuf[..j] == w
      modifies alignBuf
      ensures j' == j + n && alignBuf[..j'] == w + Fill(n)
    {
      j' := j;
      var k := 0;
      while k < n
        invariant k <= n && j' == j + k && alignBuf[..j'] == w + Fill(k)
      {
        alignBuf[j'] := 0xFF;
        k, j' := (k + 1) % 256, (j' + 1) % 256;
      }
    }

    /** The packet of `used` bytes of the data, in alignBuf. */
    method FillPacket(data: array<Byte>, off: nat, used: nat, pts: Option<nat>, ex: Extras) returns (deliver: nat)
      requires Valid() && data != alignBuf && off + used <= data.Length
      requires IsExtras(ex) && used + 3 + HeaderSize(pts, ex) <= MAX_RE_PES_BOUND
      modifies alignBuf
      ensures deliver <= ALIGN_BUF_SIZE && alignBuf[..deliver] == Packet(pts, ex, data[off..off + used])
    {
      var header := HeaderSize(pts, ex);
      var length := used + 3 + header;
      var j := PutHeader(length, header, pts, ex);
      deliver := length + 6;
      CopyPayload(data, off, used, j);
    }

    method PutHeader(length: nat, header: nat, pts: Option<nat>, ex: Extras) returns (j: nat)
      requires Valid() && IsExtras(ex) && length < 0x10000 && header == HeaderSize(pts, ex) <= 246
      modifies alignBuf
      ensures j == 9 + header
      ensures alignBuf[..j] == Fixed(length, pts.Some?, HasExtension(ex), header) + HeaderData(pts, ex)
    {
      PutFixed(length, header);
      j := PutPts(length, header, pts);
      ghost var w := if pts.Some? then PtsBytes(pts.value) else [];
      j := PutFlags(j, length, header, pts.Some?, ex, w);
      j := PutExtras(j, ex, alignBuf[..j]);
      HeaderParts(length, header, pts, ex);
    }

    method CopyPayload(data: array<Byte>, off: nat, used: nat, j: nat)
      requires data != alignBuf && off + used <= data.Length && j + used <= alignBuf.Length
      modifies alignBuf
      ensures alignBuf[..j + used] == old(alignBuf[..j]) + data[off..off + used]
    {
      for i := 0 to used
        invariant alignBuf[..j + i] == old(alignBuf[..j]) + data[off..off + i]
      {
        alignBuf[j + i] := data[off + i];
      }
    }

    // ----- a whole call -----

    method SendPes(data: array<Byte>, timeStamp: nat, softRave: bool, ex: Extras) returns (sts: Status)
      requires Valid() && data != alignBuf && IsExtras(ex)
      modifies this`sent, this`spes, this`outcomes, alignBuf
      ensures (sent, sts) == Final(Packets(data[..], FirstPts(timeStamp, softRave, isLink), ex), old(sent),
              old(outcomes))
      ensures spes == old(spes) + if isLink && timeStamp != 0 && data.Length > 0 then [timeStamp] else []
      ensures AllSent(old(outcomes)) ==> sts == Success && old(sent) <= sent
      ensures AllSent(old(outcomes)) && !isLink && (timeStamp != 0 || softRave) ==>
                ReadAs(sent[|old(sent)|..], data[..], Some(timeStamp % 0x2_0000_0000), ex)
      ensures AllSent(old(outcomes)) && isLink && timeStamp == 0 && softRave ==>
                ReadAs(sent[|old(sent)|..], data[..], Some(0), ex)
      ensures AllSent(old(outcomes)) && timeStamp == 0 && !softRave ==>
                ReadAs(sent[|old(sent)|..], data[..], None, ex)
      ensures AllSent(old(outcomes)) && isLink && timeStamp != 0 ==>
                ReadAs(sent[|old(sent)|..], data[..], None, ex)
    {
      var addPts := timeStamp != 0 || softRave;
      if isLink && timeStamp != 0 && data.Length > 0 {
        spes := spes + [timeStamp];
        addPts := false;
      }
      var pts := if addPts then Some(timeStamp) else None;
      ghost var first := FirstPts(timeStamp, softRave, isLink);
      assert Packets(data[..], pts, ex) == Packets(data[..], first, ex);
      AllAreRead(data[..], first, ex, sent, outcomes);
      sts := SendPackets(data, pts, ex, data[..]);
    }

    method SendNext(data: array<Byte>, pos: nat, used: nat, pts: Option<nat>, ex: Extras) returns (o: Outcome)
      requires Valid() && data != alignBuf && pos + used <= data.Length
      requires IsExtras(ex) && used + 3 + HeaderSize(pts, ex) <= MAX_RE_PES_BOUND
      modifies this`sent, this`outcomes, alignBuf
      ensures o == if old(outcomes) == [] then Sent else old(outcomes)[0]
      ensures outcomes == if old(outcomes) == [] then [] else old(outcomes)[1..]
      ensures sent == old(sent) + if o.Sent? then [Packet(pts, ex, data[pos..pos + used])] else []
    {
      var deliver := FillPacket(data, pos, used, pts, ex);
      o := SendData(alignBuf[..deliver]);
    }

    /** One turn with the result of its send: either the rest comes to the same as the
        whole, or this is the end. */
    method SendOne(data: array<Byte>, pos: nat, pts: Option<nat>, ex: Extras, ghost s: seq<Byte>)
        returns (o: Outcome, pos': nat)
      requires Valid() && data != alignBuf && s == data[..] && pos < data.Length && IsExtras(ex)
      modifies this`sent, this`outcomes, alignBuf
      ensures pos < pos' <= data.Length
      ensures var end := Final(Packets(s[pos..], pts, ex), old(sent), old(outcomes));
              if o.Sent? then end == Final(Packets(s[pos'..], None, NONE), sent, outcomes)
              else end == (sent, if o.UserAbort? then Success else Failure)
    {
      var used := Used(data.Length - pos, pts, ex);
      pos' := pos + used;
      NextPacket(s, pos, pts, ex);
      ghost var p := Packet(pts, ex, s[pos..pos + used]);
      FinalStep(p, Packets(s[pos + used..], None, NONE), sent, outcomes);
      assert s[pos..pos + used] == data[pos..pos + used];
      o := SendNext(data, pos, used, pts, ex);
    }

    /** The loop; what a packet carries besides payload is for the first one only. */
    method SendPackets(data: array<Byte>, first: Option<nat>, extras: Extras, ghost s: seq<Byte>) returns (sts: Status)
      requires Valid() && data != alignBuf && IsExtras(extras) && s == data[..]
      modifies this`sent, this`outcomes, alignBuf
      ensures (sent, sts) == Final(Packets(s, first, extras), old(sent), old(outcomes))
    {
      var pos, pts, ex := 0, first, extras;
      assert s[0..] == s;
      while pos < data.Length
        invariant pos <= data.Length && IsExtras(ex)
        invariant Final(Packets(s[pos..], pts, ex), sent, outcomes)
                  == Final(Packets(s, first, extras), old(sent), old(outcomes))
      {
        var o, next := SendOne(data, pos, pts, ex, s);
        match o {
          case Sent =>
            pos, pts, ex := next, None, NONE;
          case UserAbort =>
            return Success;
          case Refused =>
            return Failure;
        }
      }
      assert s[pos..] == [] && Packets([], pts, ex) == [];
      NoneLeft(sent, outcomes);
      sts := Success;
    }

    /** An elementary stream goes out as it is, the time stamp in a packet of its own. */
    method SendEs(data: array<Byte>, base: nat, timeStamp: nat) returns (sts: Status)
      requires Valid() && data != alignBuf
      modifies this`sent, this`spes, this`outcomes, alignBuf
      ensures (sent, sts) == Final(Pieces(data[..], base), old(sent), old(outcomes))
      ensures spes == old(spes) + if timeStamp != 0 && data.Length > 0 then [timeStamp] else []
      ensures AllSent(old(outcomes)) ==>
                sts == Success && old(sent) <= sent && Joined(sent[|old(sent)|..]) == data[..]
    {
      AllAreJoined(data[..], base, sent, outcomes);
      if timeStamp != 0 && data.Length > 0 {
        spes := spes + [timeStamp];
      }
      sts := SendPieces(data, base, data[..]);
    }

    method SendPieces(data: array<Byte>, base: nat, ghost s: seq<Byte>) returns (sts: Status)
      requires Valid() && data != alignBuf && s == data[..]
      modifies this`sent, this`outcomes, alignBuf
      ensures (sent, sts) == Final(Pieces(s, base), old(sent), old(outcomes))
    {
      var pos := 0;
      assert s[0..] == s;
      while pos < data.Length
        invariant pos <= data.Length
        invariant Final(Pieces(s[pos..], base + pos), sent, outcomes)
                  == Final(Pieces(s, base), old(sent), old(outcomes))
      {
        var o, next := SendNextPiece(data, pos, base + pos, s);
        match o {
          case Sent =>
            pos := next;
          case UserAbort =>
            return Success;
          case Refused =>
            return Failure;
        }
      }
      assert s[pos..] == [] && Pieces([], base + pos) == [];
      NoneLeft(sent, outcomes);
      sts := Success;
    }

    method SendNextPiece(data: array<Byte>, pos: nat, address: nat, ghost s: seq<Byte>) returns (o: Outcome, pos': nat)
      requires Valid() && data != alignBuf && s == data[..] && pos < data.Length
      modifies this`sent, this`outcomes, alignBuf
      ensures pos < pos' <= data.Length
      ensures var end := Final(Pieces(s[pos..], address), old(sent), old(outcomes));
              if o.Sent? then end == Final(Pieces(s[pos'..], address + (pos' - pos)), sent, outcomes)
              else end == (sent, if o.UserAbort? then Success else Failure)
    {
      var used := PieceSize(data.Length - pos, address);
      pos' := pos + used;
      NextPiece(s, pos, address);
      ghost var p := s[pos..pos + used];
      FinalStep(p, Pieces(s[pos + used..], address + used), sent, outcomes);
      assert p == data[pos..pos + used];
      o := SendPiece(data, pos, used, address % 4 != 0);
    }

    method SendPiece(data: array<Byte>, pos: nat, used: nat, odd: bool) returns (o: Outcome)
      requires Valid() && data != alignBuf && pos + used <= data.Length && (odd ==> used <= ALIGN_BUF_SIZE)
      modifies this`sent, this`outcomes, alignBuf
      ensures o == if old(outcomes) == [] then Sent else old(outcomes)[0]
      ensures outcomes == if old(outcomes) == [] then [] else old(outcomes)[1..]
      ensures sent == old(sent) + if o.Sent? then [data[pos..pos + used]] else []
    {
      if odd {
        CopyPayload(data, pos, used, 0);
        assert alignBuf[..0 + used] == data[pos..pos + used];
        o := SendData(alignBuf[..used]);
      } else {
        o := SendData(data[pos..pos + used]);
      }
    }
  }

  /** What has been sent, and the result, when the packets `ps` are sent behind `was`. */
  ghost function Final(ps: seq<seq<Byte>>, was: seq<seq<Byte>>, o: seq<Outcome>): (seq<seq<Byte>>, Status) {
    (was + ps[..Accepted(o, |ps|)], Result(o, |ps|))
  }

  /** One send: the rest comes to the same as the whole. */
  lemma FinalStep(p: seq<Byte>, rest: seq<seq<Byte>>, was: seq<seq<Byte>>, o: seq<Outcome>)
    ensures o != [] && o[0].UserAbort? ==> Final([p] + rest, was, o) == (was, Success)
    ensures o != [] && o[0].Refused? ==> Final([p] + rest, was, o) == (was, Failure)
    ensures o == [] || o[0].Sent? ==>
              Final([p] + rest, was, o) == Final(rest, was + [p], if o == [] then [] else o[1..])
  {
    var ps := [p] + rest;
    if o == [] || o[0].Sent? {
      var k := Accepted(if o == [] then [] else o[1..], |rest|);
      assert Accepted(o, |ps|) == 1 + k;
      assert (was + [p]) + rest[..k] == was + ps[..1 + k];
    } else {
      assert was + ps[..0] == was;
    }
  }

  predicate AllSent(o: seq<Outcome>) {
    forall i :: 0 <= i < |o| ==> o[i].Sent?
  }

  lemma {:induction false} AllAccepted(o: seq<Outcome>, n: nat)
    requires AllSent(o)
    ensures Accepted(o, n) == n && Result(o, n) == Success
    decreases n
  {
    if n > 0 && o != [] {
      AllAccepted(o[1..], n - 1);
    }
  }

  /** A reader of the packets gets the data, the time stamp and the extras. */
  ghost predicate ReadAs(packets: seq<seq<Byte>>, data: seq<Byte>, pts: Option<nat>, ex: Extras) {
    var r := ReadAll(Joined(packets));
    r.Some? && Payloads(r.value) == data && OnlyFirst(r.value, pts, ex) && (data != [] ==> r.value != [])
  }

  lemma AllAreRead(data: seq<Byte>, pts: Option<nat>, ex: Extras, was: seq<seq<Byte>>, o: seq<Outcome>)
    requires IsExtras(ex)
    ensures AllSent(o) ==> var (sent, sts) := Final(Packets(data, pts, ex), was, o);
                           sts == Success && was <= sent && ReadAs(sent[|was|..], data, Low33(pts), ex)
  {
    if AllSent(o) {
      var ps := Packets(data, pts, ex);
      AllAccepted(o, |ps|);
      assert (was + ps[..|ps|])[|was|..] == ps;
      var rs := PacketsRead(data, pts, ex);
    }
  }

  lemma AllAreJoined(data: seq<Byte>, base: nat, was: seq<seq<Byte>>, o: seq<Outcome>)
    ensures AllSent(o) ==> var (sent, sts) := Final(Pieces(data, base), was, o);
                           sts == Success && was <= sent && Joined(sent[|was|..]) == data
  {
    if AllSent(o) {
      var ps := Pieces(data, base);
      AllAccepted(o, |ps|);
      assert (was + ps[..|ps|])[|was|..] == ps;
      PiecesJoin(data, base);
    }
  }

  /** The sends go through up to the first that does not, and the call fails if and only if
      that is refused. */
  lemma {:induction false} ResultIs(o: seq<Outcome>, n: nat)
    ensures var k := Accepted(o, n);
            && (forall i :: 0 <= i < k && i < |o| ==> o[i].Sent?)
            && (k < n ==> k < |o| && !o[k].Sent?)
            && (Result(o, n) == Failure <==> k < n && o[k].Refused?)
    decreases n
  {
    if n > 0 && o != [] && o[0].Sent? {
      ResultIs(o[1..], n - 1);
    }
  }

  lemma NoneLeft(was: seq<seq<Byte>>, o: seq<Outcome>)
    ensures Final([], was, o) == (was, Success)
  {
    assert was + [] == was;
  }

  /** The time stamp of the first packet: the LINK device gets it in a packet of its own. */
  function FirstPts(timeStamp: nat, softRave: bool, isLink: bool): Option<nat> {
    if isLink && timeStamp != 0 then None else if timeStamp != 0 || softRave then Some(timeStamp) else None
  }

  function ExtrasSize(ex: Extras): nat {
    (if ex.priv.Some? then 16 else 0) + (if ex.ext.Some? then |ex.ext.value| + 1 else 0) + ex.stuffing
  }

  function ExtrasData(ex: Extras): seq<Byte>
    requires IsExtras(ex)
  {
    (if ex.priv.Some? then ex.priv.value else [])
      + (if ex.ext.Some? then [0x80 + |ex.ext.value|] + ex.ext.value else []) + Fill(ex.stuffing)
  }

  lemma SetExtension(length: nat, pts: bool, header: nat, w: seq<Byte>)
    requires length < 0x10000 && header < 256
    ensures var f := Fixed(length, pts, false, header) + w; f[7 := f[7] + 1] == Fixed(length, pts, true, header) + w
  {
  }

  lemma HeaderParts(length: nat, header: nat, pts: Option<nat>, ex: Extras)
    requires IsExtras(ex) && length < 0x10000 && header < 256
    ensures var p := if pts.Some? then PtsBytes(pts.value) else [];
            var f: seq<Byte> := if HasExtension(ex)
                                then [(if ex.priv.Some? then 0x80 else 0) + if ex.ext.Some? then 1 else 0] else [];
            var x := Fixed(length, pts.Some?, HasExtension(ex), header);
            ((x + p) + f) + ExtrasData(ex) == x + HeaderData(pts, ex)
  {
  }

  lemma NextPacket(s: seq<Byte>, pos: nat, pts: Option<nat>, ex: Extras)
    requires pos < |s| && IsExtras(ex)
    ensures var k := Used(|s| - pos, pts, ex);
            Packets(s[pos..], pts, ex) == [Packet(pts, ex, s[pos..pos + k])] + Packets(s[pos + k..], None, NONE)
  {
    var k := Used(|s| - pos, pts, ex);
    assert s[pos..][..k] == s[pos..pos + k] && s[pos..][k..] == s[pos + k..];
  }

  lemma NextPiece(s: seq<Byte>, pos: nat, address: nat)
    requires pos < |s|
    ensures var k := PieceSize(|s| - pos, address);
            Pieces(s[pos..], address) == [s[pos..pos + k]] + Pieces(s[pos + k..], address + k)
  {
    var k := PieceSize(|s| - pos, address);
    assert s[pos..][..k] == s[pos..pos + k] && s[pos..][k..] == s[pos + k..];
  }
}
