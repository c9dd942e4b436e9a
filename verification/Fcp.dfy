/**
 fcp_to_ts_51011: the TLV objects of an FCP template (section 11.1.1.3 of ETSI TS
 102 221), in hex, turned into the fields of a 3GPP TS 51.011 response.
 */
module Fcp {
  import opened Bytes

  /** char2nib: what is no hex digit counts as zero. */
  function Char2Nib(c: char): (n: nat)
    ensures n < 16
  {
    if '0' <= c <= '9' then c as nat - '0' as nat
    else if 'A' <= c <= 'F' then c as nat - 'A' as nat + 10
    else if 'a' <= c <= 'f' then c as nat - 'a' as nat + 10
    else 0
  }

  /** The byte whose two digits begin at `i`. */
  function ByteAt(s: string, i: nat): Byte
    requires i + 1 < |s|
  {
    Char2Nib(s[i]) * 16 + Char2Nib(s[i + 1])
  }

  /** A TLV object: its tag, and where its value lies in the stream. */
  datatype Tlv = Tlv(tag: Byte, data: nat, end: nat)

  /** parseTlv at `i`, or its error. */
  function ParseTlv(s: string, i: nat): (r: Option<Tlv>)
    ensures r.Some? ==> r.value.data == i + 4 && i + 4 <= r.value.end <= |s| && (r.value.end - i) % 2 == 0
  {
    if i + 1 >= |s| || i + 3 >= |s| then None
    else
      var size: nat := ByteAt(s, i + 2);
      if i + 4 + size * 2 > |s| then None else Some(Tlv(ByteAt(s, i), i + 4, i + 4 + size * 2))
  }

  datatype Error = Invalid | Unsupported

  /** The fields of struct ts_51011_921_resp that are ever set. */
  datatype Resp = Resp(fileSize: (Byte, Byte), fileId: (Byte, Byte), fileType: nat, fileStatus: nat, dataSize: nat,
                       fileStructure: nat, recordSize: nat)

  const NOTHING: Resp := Resp((0, 0), (0, 0), 0, 0, 0, 0, 0)

  datatype Result = Ok(resp: Resp) | Fail(error: Error)

  /** The switch on the tag, on the bytes of the value. */
  function Update(r: Resp, tag: Byte, v: seq<Byte>): Result {
    if tag == 0x80 then
      if |v| != 2 then Fail(Unsupported) else Ok(r.(fileSize := (v[0], v[1])))
    else if tag == 0x83 then
      if |v| != 2 then Fail(Invalid) else Ok(r.(fileId := (v[0], v[1])))
    else if tag == 0x82 then
      if |v| < 2 then Fail(Invalid) else Describe(r, v)
    else Ok(r)
  }

  /** fdbyte & 0xBF, without bit 6 */
  function Without64(x: Byte): nat {
    if x / 64 % 2 == 1 then x - 64 else x
  }

  /** File descriptor: a directory, an elementary file, or something else. */
  function Describe(r: Resp, v: seq<Byte>): Result
    requires |v| >= 2
  {
    var fd := v[0];
    if Without64(fd) == 0x38 then Ok(r.(fileType := 2))
    else if Without64(fd) / 16 == 0 then
      var ef := r.(fileType := 4, fileStatus := 1, dataSize := (r.dataSize + 1) % 256);
      if fd % 8 == 1 then Ok(ef.(fileStructure := 0))
      else if |v| < 5 then Fail(Invalid)
      else
        var rec := ef.(dataSize := (ef.dataSize + 1) % 256, recordSize := v[3]);
        if fd % 8 == 6 then Ok(rec.(fileStructure := 3))
        else if fd % 8 == 2 then Ok(rec.(fileStructure := 1))
        else Fail(Invalid)
    else Ok(r.(fileType := 0))
  }

  /** The bytes of the digits from `i` up to `j`. */
  function BytesAt(s: string, i: nat, j: nat): (v: seq<Byte>)
    requires i <= j <= |s| && (j - i) % 2 == 0
    ensures |v| == (j - i) / 2
    decreases j - i
  {
    if i == j then [] else [ByteAt(s, i)] + BytesAt(s, i + 2, j)
  }

  /** The loop over the properties, from `i` up to the template's end. */
  function Walk(s: string, i: nat, end: nat, r: Resp): Result
    decreases if i < end then end - i else 0
  {
    if i >= end then Ok(r)
    else
      match ParseTlv(s, i)
      case None => Fail(Invalid)
      case Some(t) =>
        match Update(r, t.tag, BytesAt(s, t.data, t.end))
        case Fail(e) => Fail(e)
        case Ok(r') => Walk(s, t.end, end, r')
  }

  function Convert(s: string): Result {
    match ParseTlv(s, 0)
    case None => Fail(Invalid)
    case Some(t) => if t.tag != 0x62 then Fail(Invalid) else Walk(s, t.data, t.end, NOTHING)
  }

  // ----- printing -----

  /** The nth of the table of digits '0' to '9' and 'A' to 'F'. */
  function Nibble(n: nat): (c: char)
    requires n < 16
  {
    if n < 10 then ('0' as nat + n) as char else ('A' as nat + n - 10) as char
  }

  /** binaryToString */
  function Hex(v: seq<Byte>): (s: string)
    ensures |s| == 2 * |v|
  {
    if v == [] then "" else [Nibble(v[0] / 16), Nibble(v[0] % 16)] + Hex(v[1..])
  }

  /** A property as it stands in a template. */
  datatype Property = Property(tag: Byte, value: seq<Byte>)

  function Print(p: Property): (s: string)
    requires |p.value| < 256
  {
    Hex([p.tag, |p.value|]) + Hex(p.value)
  }

  function PrintAll(ps: seq<Property>): string
    requires forall i :: 0 <= i < |ps| ==> |ps[i].value| < 256
  {
    if ps == [] then "" else Print(ps[0]) + PrintAll(ps[1..])
  }

  /** The updates of the properties one after another, up to the first that fails. */
  function Fold(r: Resp, ps: seq<Property>): Result
    decreases |ps|
  {
    if ps == [] then Ok(r)
    else
      match Update(r, ps[0].tag, ps[0].value)
      case Fail(e) => Fail(e)
      case Ok(r') => Fold(r', ps[1..])
  }

  lemma HexDigits(b: Byte)
    ensures Char2Nib(Nibble(b / 16)) == b / 16 && Char2Nib(Nibble(b % 16)) == b % 16
  {
    NibbleBack(b / 16);
    NibbleBack(b % 16);
  }

  lemma NibbleBack(n: nat)
    requires n < 16
    ensures Char2Nib(Nibble(n)) == n
  {
  }

  lemma {:induction false} HexBack(s: string, i: nat, j: nat, v: seq<Byte>)
    requires j == i + 2 * |v| && j <= |s| && s[i..j] == Hex(v)
    ensures BytesAt(s, i, j) == v
    decreases |v|
  {
    if v != [] {
      HexDigits(v[0]);
      assert s[i] == Hex(v)[0] && s[i + 1] == Hex(v)[1];
      assert s[i + 2..j] == Hex(v)[2..];
      HexBack(s, i + 2, j, v[1..]);
    }
  }

  lemma Parts(s: string, a: string, b: string, c: string, d: string, j: nat, k: nat)
    requires s == a + ((b + c) + d) && j == |a| + |b| && k == j + |c|
    ensures k <= |s| && s[|a|..j] == b && s[j..k] == c
  {
  }

  /** Tag and length, read back. */
  lemma HeadBack(s: string, i: nat, j: nat, tag: Byte, size: Byte)
    requires j == i + 4 && j <= |s| && s[i..j] == Hex([tag, size])
    ensures ByteAt(s, i) == tag && ByteAt(s, i + 2) == size
  {
    HexBack(s, i, j, [tag, size]);
    TwoBytes(s, i, [tag, size]);
  }

  /** parseTlv undoes the printing of a property, wherever it stands. */
  lemma TlvBack(a: string, p: Property, rest: string, s: string)
    requires |p.value| < 256 && s == a + (Print(p) + rest)
    ensures var end := |a| + |Print(p)|;
            ParseTlv(s, |a|) == Some(Tlv(p.tag, |a| + 4, end)) && BytesAt(s, |a| + 4, end) == p.value
  {
    var h: seq<Byte> := [p.tag, |p.value|];
    var j := |a| + 4;
    var k := j + 2 * |p.value|;
    Parts(s, a, Hex(h), Hex(p.value), rest, j, k);
    HeadBack(s, |a|, j, p.tag, |p.value|);
    HexBack(s, j, k, p.value);
    TlvRead(s, |a|, p.tag, |p.value|);
  }

  lemma TlvRead(s: string, i: nat, tag: Byte, size: Byte)
    requires i + 4 + 2 * size <= |s| && ByteAt(s, i) == tag && ByteAt(s, i + 2) == size
    ensures ParseTlv(s, i) == Some(Tlv(tag, i + 4, i + 4 + 2 * size))
  {
  }

  lemma TwoBytes(s: string, i: nat, h: seq<Byte>)
    requires i + 4 <= |s| && |h| == 2 && BytesAt(s, i, i + 4) == h
    ensures ByteAt(s, i) == h[0] && ByteAt(s, i + 2) == h[1]
  {
    assert BytesAt(s, i, i + 4)[1..] == BytesAt(s, i + 2, i + 4);
  }

  /** The walk over printed properties is the fold of their updates, each once and in
      order; then it goes on behind them, if the template's end is not reached. */
  lemma {:induction false} WalkIsFold(a: string, ps: seq<Property>, tail: string, s: string, end: nat, at: nat, r: Resp)
    requires (forall i :: 0 <= i < |ps| ==> |ps[i].value| < 256) && s == a + (PrintAll(ps) + tail)
    requires at == |a| + |PrintAll(ps)| <= end
    ensures var f := Fold(r, ps); Walk(s, |a|, end, r) == if f.Fail? then f else Walk(s, at, end, f.resp)
    decreases |ps|
  {
    if ps != [] {
      var p, rest := ps[0], PrintAll(ps[1..]) + tail;
      Regroup(s, a, Print(p), PrintAll(ps[1..]), tail);
      var next := a + Print(p);
      OneProperty(s, a, p, rest, end, r, next);
      FoldStep(r, ps, p);
      var u := Update(r, p.tag, p.value);
      if u.Ok? {
        WalkIsFold(next, ps[1..], tail, s, end, at, u.resp);
      }
    }
  }

  lemma Regroup(s: string, a: string, b: string, c: string, d: string)
    requires s == a + ((b + c) + d)
    ensures s == a + (b + (c + d)) == (a + b) + (c + d)
  {
  }

  lemma FoldStep(r: Resp, ps: seq<Property>, p: Property)
    requires ps != [] && p == ps[0]
    ensures var u := Update(r, p.tag, p.value); Fold(r, ps) == if u.Fail? then u else Fold(u.resp, ps[1..])
  {
  }

  lemma OneProperty(s: string, a: string, p: Property, rest: string, end: nat, r: Resp, next: string)
    requires |p.value| < 256 && s == a + (Print(p) + rest) && next == a + Print(p) && |a| < end
    ensures var u := Update(r, p.tag, p.value);
            Walk(s, |a|, end, r) == if u.Fail? then u else Walk(s, |next|, end, u.resp)
  {
    TlvBack(a, p, rest, s);
    WalkStep(s, |a|, end, r, p, |next|);
  }

  /** One turn of the loop. */
  lemma WalkTurn(s: string, i: nat, end: nat, r: Resp, t: Option<Tlv>)
    requires i < end && t == ParseTlv(s, i)
    ensures t.None? ==> Walk(s, i, end, r) == Fail(Invalid)
    ensures t.Some? ==> var u := Update(r, t.value.tag, BytesAt(s, t.value.data, t.value.end));
                        Walk(s, i, end, r) == if u.Fail? then u else Walk(s, t.value.end, end, u.resp)
  {
  }

  lemma WalkStep(s: string, i: nat, end: nat, r: Resp, p: Property, next: nat)
    requires i < end && ParseTlv(s, i) == Some(Tlv(p.tag, i + 4, next)) && BytesAt(s, i + 4, next) == p.value
    ensures var u := Update(r, p.tag, p.value); Walk(s, i, end, r) == if u.Fail? then u else Walk(s, next, end, u.resp)
  {
  }

  /** A template whose announced size covers `ps`. */
  lemma TemplateWalk(size: Byte, ps: seq<Property>, a: string, tail: string, s: string, end: nat)
    requires (forall i :: 0 <= i < |ps| ==> |ps[i].value| < 256)
    requires a == Hex([0x62, size]) + PrintAll(ps) && s == a + tail
    requires |a| <= end <= |s| && end == 4 + 2 * size
    ensures var f := Fold(NOTHING, ps); Convert(s) == if f.Fail? then f else Walk(s, |a|, end, f.resp)
  {
    var head := Hex([0x62, size]);
    Group(head, PrintAll(ps), tail);
    TemplateHead(s, size, head, PrintAll(ps) + tail);
    WalkIsFold(head, ps, tail, s, end, |a|, NOTHING);
  }

  lemma TemplateHead(s: string, size: Byte, head: string, tail: string)
    requires head == Hex([0x62, size]) && s == head + tail && 4 + 2 * size <= |s|
    ensures Convert(s) == Walk(s, 4, 4 + 2 * size, NOTHING)
  {
    assert s[0..4] == head;
    HeadBack(s, 0, 4, 0x62, size);
    TlvRead(s, 0, 0x62, size);
  }

  /** A template that fills the stream is converted by the fold of its properties. */
  lemma TemplateIsFold(ps: seq<Property>, body: seq<Byte>)
    requires forall i :: 0 <= i < |ps| ==> |ps[i].value| < 256
    requires |body| < 256 && Hex(body) == PrintAll(ps)
    ensures Convert(Print(Property(0x62, body))) == Fold(NOTHING, ps)
  {
    var s := Print(Property(0x62, body));
    assert s + "" == s;
    TemplateWalk(|body|, ps, s, "", s, |s|);
  }

  // ----- what the fields mean -----

  /** File descriptor byte (section 11.1.1.4.3 of ETSI TS 102 221), shareable or not. */
  datatype Kind = Directory | File | Reserved

  function KindOf(fd: Byte): Kind {
    if fd == 0x38 || fd == 0x78 then Directory
    else if fd < 0x10 || 0x40 <= fd < 0x50 then File
    else Reserved
  }

  predicate IsFile(p: Property) {
    p.tag == 0x82 && |p.value| >= 2 && KindOf(p.value[0]).File?
  }

  /** A file that has records. */
  predicate HasRecords(p: Property) {
    IsFile(p) && p.value[0] % 8 != 1
  }

  /** A property that converts: two bytes of size or identifier; of a descriptor two, and of
      a file with records five, for linear or cyclic ones. */
  predicate Fine(p: Property) {
    && (p.tag == 0x80 || p.tag == 0x83 ==> |p.value| == 2)
    && (p.tag == 0x82 ==> |p.value| >= 2)
    && (HasRecords(p) ==> |p.value| >= 5 && (p.value[0] % 8 == 2 || p.value[0] % 8 == 6))
  }

  function LastWhere(ps: seq<Property>, f: Property -> bool): Option<Property> {
    if ps == [] then None
    else if f(ps[|ps| - 1]) then Some(ps[|ps| - 1])
    else LastWhere(ps[..|ps| - 1], f)
  }

  function CountWhere(ps: seq<Property>, f: Property -> bool): nat {
    if ps == [] then 0 else CountWhere(ps[..|ps| - 1], f) + if f(ps[|ps| - 1]) then 1 else 0
  }

  function HasTag(tag: Byte): Property -> bool {
    (p: Property) => p.tag == tag
  }

  /** Every field is that of the last property that has it. */
  ghost predicate Means(r: Resp, ps: seq<Property>) {
    var size, id, fd := LastWhere(ps, HasTag(0x80)), LastWhere(ps, HasTag(0x83)), LastWhere(ps, HasTag(0x82));
    var file, records := LastWhere(ps, IsFile), LastWhere(ps, HasRecords);
    && (size.Some? ==> |size.value.value| == 2) && (id.Some? ==> |id.value.value| == 2)
    && (fd.Some? ==> |fd.value.value| >= 2) && (records.Some? ==> |records.value.value| >= 5)
    && (file.Some? ==> |file.value.value| >= 2)
    && r.fileSize == (if size.Some? then (size.value.value[0], size.value.value[1]) else (0, 0))
    && r.fileId == (if id.Some? then (id.value.value[0], id.value.value[1]) else (0, 0))
    && r.fileType == (if fd.None? then 0
                      else match KindOf(fd.value.value[0]) case Directory => 2 case File => 4 case Reserved => 0)
    && r.fileStatus == (if file.Some? then 1 else 0)
    && r.dataSize == (CountWhere(ps, IsFile) + CountWhere(ps, HasRecords)) % 256
    && r.fileStructure == (if file.None? || file.value.value[0] % 8 == 1 then 0
                           else if file.value.value[0] % 8 == 6 then 3 else 1)
    && r.recordSize == (if records.Some? then records.value.value[3] else 0)
  }

  lemma LastSnoc(ps: seq<Property>, p: Property, f: Property -> bool)
    ensures LastWhere(ps + [p], f) == if f(p) then Some(p) else LastWhere(ps, f)
    ensures CountWhere(ps + [p], f) == CountWhere(ps, f) + if f(p) then 1 else 0
  {
    assert (ps + [p])[..|ps|] == ps;
  }

  /** What one more property adds to each of the last ones. */
  lemma LastSnocs(ps: seq<Property>, p: Property)
    ensures forall f: Property -> bool :: LastWhere(ps + [p], f) == if f(p) then Some(p) else LastWhere(ps, f)
    ensures forall f: Property -> bool :: CountWhere(ps + [p], f) == CountWhere(ps, f) + if f(p) then 1 else 0
  {
    forall f: Property -> bool
      ensures LastWhere(ps + [p], f) == if f(p) then Some(p) else LastWhere(ps, f)
      ensures CountWhere(ps + [p], f) == CountWhere(ps, f) + if f(p) then 1 else 0
    {
      LastSnoc(ps, p, f);
    }
  }

  lemma UpdateMeans(r: Resp, ps: seq<Property>, p: Property)
    requires Means(r, ps)
    ensures var u := Update(r, p.tag, p.value);
            if Fine(p) then u.Ok? && Means(u.resp, ps + [p])
            else u == Fail(if p.tag == 0x80 then Unsupported else Invalid)
  {
    if p.tag == 0x82 && |p.value| >= 2 {
      KindIs(p.value[0]);
      if IsFile(p) {
        FileMeans(r, ps, p);
      } else {
        LastSnocs(ps, p);
      }
    } else {
      LastSnocs(ps, p);
    }
  }

  lemma FileMeans(r: Resp, ps: seq<Property>, p: Property)
    requires Means(r, ps) && IsFile(p) && Without64(p.value[0]) / 16 == 0 && Without64(p.value[0]) != 0x38
    ensures var u := Update(r, p.tag, p.value);
            if Fine(p) then u.Ok? && Means(u.resp, ps + [p]) else u == Fail(Invalid)
  {
    LastSnocs(ps, p);
    Counted(r.dataSize, CountWhere(ps, IsFile) + CountWhere(ps, HasRecords));
  }

  lemma Counted(x: nat, n: nat)
    requires x == n % 256
    ensures (x + 1) % 256 == (n + 1) % 256 && ((x + 1) % 256 + 1) % 256 == (n + 2) % 256
  {
  }

  lemma KindIs(fd: Byte)
    ensures KindOf(fd).Directory? <==> Without64(fd) == 0x38
    ensures KindOf(fd).File? <==> Without64(fd) / 16 == 0
  {
  }

  /** The conversion of a list of properties: it succeeds if and only if each of them
      converts, and then every field is that of the last property that has it; else it ends
      with the error of the first that does not. */
  lemma {:induction false} FieldsMean(ps: seq<Property>)
    ensures Fold(NOTHING, ps).Ok? <==> forall p <- ps :: Fine(p)
    ensures Fold(NOTHING, ps).Ok? ==> Means(Fold(NOTHING, ps).resp, ps)
    ensures forall k :: 0 <= k < |ps| && !Fine(ps[k]) && (forall i :: 0 <= i < k ==> Fine(ps[i])) ==>
              Fold(NOTHING, ps) == Fail(if ps[k].tag == 0x80 then Unsupported else Invalid)
    decreases |ps|
  {
    if ps != [] {
      var init, p := ps[..|ps| - 1], ps[|ps| - 1];
      assert ps == init + [p];
      FieldsMean(init);
      FoldSnoc(NOTHING, init, p);
      if Fold(NOTHING, init).Ok? {
        UpdateMeans(Fold(NOTHING, init).resp, init, p);
        assert forall q <- init :: Fine(q);
      }
    }
  }

  // ----- templates that end inside a property -----

  lemma {:induction false} FoldSnoc(r: Resp, ps: seq<Property>, p: Property)
    ensures var f := Fold(r, ps); Fold(r, ps + [p]) == if f.Fail? then f else Update(f.resp, p.tag, p.value)
    decreases |ps|
  {
    if ps == [] {
      assert ps + [p] == [p];
    } else {
      var u := Update(r, ps[0].tag, ps[0].value);
      assert (ps + [p])[1..] == ps[1..] + [p];
      if u.Ok? {
        FoldSnoc(u.resp, ps[1..], p);
      }
    }
  }

  /** With all of the property in the stream, the walk takes it and is past the end. */
  lemma WholeProperty(a: string, p: Property, rest: string, s: string, end: nat, r: Resp)
    requires |p.value| < 256 && s == a + (Print(p) + rest) && |a| < end <= |a| + |Print(p)|
    ensures Walk(s, |a|, end, r) == Update(r, p.tag, p.value)
  {
    OneProperty(s, a, p, rest, end, r, a + Print(p));
  }

  /** With the stream cut inside the property, it is an error. */
  lemma CutProperty(a: string, p: Property, m: nat, s: string, end: nat, r: Resp)
    requires |p.value| < 256 && m < |Print(p)| && s == a + Print(p)[..m] && |a| < end
    ensures Walk(s, |a|, end, r) == Fail(Invalid)
  {
    if m >= 4 {
      var i, j := |a|, |a| + 4;
      var h: seq<Byte> := [p.tag, |p.value|];
      assert s[i..j] == Print(p)[..4] == Hex(h);
      HeadBack(s, i, j, p.tag, |p.value|);
    }
  }

  /** The last property, cut after `m` characters of it and of what follows. */
  lemma LastProperty(a: string, p: Property, cut: string, rest: string, m: nat, s: string, end: nat, r: Resp)
    requires |p.value| < 256 && m <= |Print(p) + rest| && cut == (Print(p) + rest)[..m] && s == a + cut
    requires |a| < end <= |a| + |Print(p)|
    ensures Walk(s, |a|, end, r) == if m >= |Print(p)| then Update(r, p.tag, p.value) else Fail(Invalid)
  {
    if m >= |Print(p)| {
      var more := rest[..m - |Print(p)|];
      assert cut == Print(p) + more;
      WholeProperty(a, p, more, s, end, r);
    } else {
      assert cut == Print(p)[..m];
      CutProperty(a, p, m, s, end, r);
    }
  }

  /** For a template whose announced size ends inside the property behind `ps`, or with it:
      the size is not what counts, since a property is held against the end of the stream.
      If the stream, `m` characters from the property on, has as many as its length byte
      announces, the property is taken as if it were inside the template, whatever follows;
      if not, it is an error. */
  lemma ReachesOver(size: Byte, ps: seq<Property>, p: Property, rest: string, m: nat, a: string, s: string)
    requires (forall i :: 0 <= i < |ps| ==> |ps[i].value| < 256) && |p.value| < 256 && m <= |Print(p) + rest|
    requires a == Hex([0x62, size]) + PrintAll(ps) && s == a + (Print(p) + rest)[..m]
    requires |a| < 4 + 2 * size <= |a| + |Print(p)| && 4 + 2 * size <= |s|
    ensures var f := Fold(NOTHING, ps);
            Convert(s) == if m >= 4 + 2 * |p.value| then Fold(NOTHING, ps + [p])
                          else if f.Fail? then f else Fail(Invalid)
  {
    var cut, end := (Print(p) + rest)[..m], 4 + 2 * size;
    TemplateWalk(size, ps, a, cut, s, end);
    FoldSnoc(NOTHING, ps, p);
    var f := Fold(NOTHING, ps);
    if f.Ok? {
      LastProperty(a, p, cut, rest, m, s, end, f.resp);
    }
  }

  /** So a property that reaches over the end of its template, and converts, is converted
      if and only if the stream is long enough for it. */
  lemma ReachesOverIff(size: Byte, ps: seq<Property>, p: Property, rest: string, m: nat, a: string, s: string)
    requires (forall i :: 0 <= i < |ps| ==> |ps[i].value| < 256) && |p.value| < 256 && m <= |Print(p) + rest|
    requires a == Hex([0x62, size]) + PrintAll(ps) && s == a + (Print(p) + rest)[..m]
    requires |a| < 4 + 2 * size <= |a| + |Print(p)| && 4 + 2 * size <= |s|
    requires Fold(NOTHING, ps + [p]).Ok?
    ensures Convert(s) == Fold(NOTHING, ps + [p]) <==> |s| >= |a| + 4 + 2 * |p.value|
    ensures Convert(s) == Fail(Invalid) <==> |s| < |a| + 4 + 2 * |p.value|
  {
    ReachesOver(size, ps, p, rest, m, a, s);
    FoldSnoc(NOTHING, ps, p);
  }

  // ----- the loops -----

  /** TLV_STREAM_GET */
  method GetByte(s: string, at: nat, end: nat) returns (ok: bool, b: Byte, at': nat)
    requires end == |s|
    ensures ok <==> at + 1 < end
    ensures ok ==> b == ByteAt(s, at) && at' == at + 2
  {
    if at + 1 >= end {
      return false, 0, at;
    }
    return true, Char2Nib(s[at]) * 16 + Char2Nib(s[at + 1]), at + 2;
  }

  method ReadTlv(s: string, at: nat) returns (r: Option<Tlv>)
    ensures r == ParseTlv(s, at)
  {
    var ok, tag, pos := GetByte(s, at, |s|);
    if !ok {
      return None;
    }
    var size;
    ok, size, pos := GetByte(s, pos, |s|);
    if !ok {
      return None;
    }
    var n: nat := size;
    if pos + n * 2 > |s| {
      return None;
    }
    return Some(Tlv(tag, pos, pos + n * 2));
  }

  /** One turn of the loop: a property is parsed and its update made. */
  method TakeProperty(s: string, data: nat, end: nat, out: Resp) returns (u: Result, next: nat)
    requires data < end
    ensures Walk(s, data, end, out) == if u.Fail? then u else Walk(s, next, end, u.resp)
    ensures u.Ok? ==> data < next
  {
    var tlv := ReadTlv(s, data);
    WalkTurn(s, data, end, out, tlv);
    if tlv.None? {
      return Fail(Invalid), data;
    }
    next := tlv.value.end;
    u := Update(out, tlv.value.tag, BytesAt(s, tlv.value.data, next));
  }

  method FcpToTs51011(s: string) returns (r: Result)
    ensures r == Convert(s)
  {
    var fcp := ReadTlv(s, 0);
    if fcp.None? || fcp.value.tag != 0x62 {
      return Fail(Invalid);
    }
    var data, end := fcp.value.data, fcp.value.end;
    var out := NOTHING;
    while data < end
      invariant Convert(s) == Walk(s, data, end, out)
      decreases if data < end then end - data else 0
    {
      var u;
      u, data := TakeProperty(s, data, end, out);
      if u.Fail? {
        return u;
      }
      out := u.resp;
    }
    return Ok(out);
  }
}
