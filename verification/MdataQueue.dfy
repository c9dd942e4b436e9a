/**
 What the pending list means: a queue of tagged time stamps, the tag arithmetic,
 and DtsFetchMdata on it.
 */
module MdataQueue {
  import opened Bytes

  const MAX_DISORDER_GAP: nat := 5
  const MAX_TAG: nat := 0xFFFF
  const TAG_MASK: nat := 0x10000

  datatype Entry = Entry(tag: nat, stamp: nat)

  /** DtsMdataSetIntTag: the tag after `last`; zero is skipped. */
  function NextTag(last: nat): (tag: nat) {
    ((if last == MAX_TAG then 0 else last) + 1) % (2 * TAG_MASK)
  }

  /** DtsMdataGetIntTag */
  function IntTag(last: nat, snum: nat): (tag: nat)
    requires snum <= MAX_TAG
    ensures last <= MAX_TAG ==> tag == snum
  {
    (if last / TAG_MASK % 2 == 1 then TAG_MASK else 0) + snum
  }

  /** Conversion of an int to int16_t. */
  function ToInt16(x: int): (r: int)
    ensures -0x8000 <= r < 0x8000
    ensures -0x8000 <= x < 0x8000 ==> r == x
    ensures 0x8000 <= x < 0x18000 ==> r == x - 0x10000
  {
    (x + 0x8000) % 0x10000 - 0x8000
  }

  /** Index of the first entry tagged `tag`, or the length. */
  function Find(q: seq<Entry>, tag: nat): (i: nat)
    ensures i <= |q|
    ensures i < |q| ==> q[i].tag == tag
    ensures forall j :: 0 <= j < i ==> q[j].tag != tag
  {
    if q == [] || q[0].tag == tag then 0 else 1 + Find(q[1..], tag)
  }

  lemma {:induction false} FindIs(q: seq<Entry>, tag: nat, k: nat)
    requires k <= |q| && (forall j :: 0 <= j < k ==> q[j].tag != tag) && (k < |q| ==> q[k].tag == tag)
    ensures Find(q, tag) == k
  {
  }

  /** The list without the first entry tagged `tag`. */
  function RemoveTag(q: seq<Entry>, tag: nat): (r: seq<Entry>)
    ensures |r| <= |q|
  {
    if q == [] then [] else if q[0].tag == tag then q[1..] else [q[0]] + RemoveTag(q[1..], tag)
  }

  lemma {:induction false} RemoveFound(q: seq<Entry>, tag: nat, k: nat)
    requires k == Find(q, tag)
    ensures RemoveTag(q, tag) == if k < |q| then q[..k] + q[k + 1..] else q
  {
    if q != [] && q[0].tag != tag {
      RemoveFound(q[1..], tag, k - 1);
      assert k < |q| ==> q[..k] + q[k + 1..] == [q[0]] + (q[1..][..k - 1] + q[1..][k..]);
    }
  }

  lemma {:induction false} RemoveSubset(q: seq<Entry>, tag: nat)
    ensures forall e <- RemoveTag(q, tag) :: e in q
  {
    if q != [] && q[0].tag != tag {
      RemoveSubset(q[1..], tag);
    }
  }

  /** The loop that clears lost pictures, from its iteration `i` on. */
  function CleanOld(q: seq<Entry>, last: nat, snum: nat, i: nat): seq<Entry>
    decreases 100 - i
  {
    var tsnum := ToInt16(snum - (10 + i));
    if i >= 100 || tsnum < 0 then q
    else CleanOld(RemoveTag(q, IntTag(last, tsnum)), last, snum, i + 1)
  }

  /** DtsFetchMdata: the time stamp found, and the queue left. */
  function Fetch(q: seq<Entry>, last: nat, snum: nat): (Option<nat>, seq<Entry>)
    requires snum <= MAX_TAG
  {
    if snum == 0 then (None, q)
    else
      var i := Find(q, IntTag(last, snum));
      if i == |q| then (None, q)
      else (Some(q[i].stamp), CleanOld(RemoveTag(q, IntTag(last, snum)), last, snum, 0))
  }

  /** One turn of the clearing loop, and where it stops. */
  lemma CleanTurn(q: seq<Entry>, last: nat, snum: nat, i: nat, tsnum: int)
    requires i < 100 && tsnum == ToInt16(snum - (10 + i)) >= 0
    ensures CleanOld(q, last, snum, i) == CleanOld(RemoveTag(q, IntTag(last, tsnum)), last, snum, i + 1)
  {
  }

  lemma CleanEnd(q: seq<Entry>, last: nat, snum: nat, i: nat)
    requires i >= 100 || ToInt16(snum - (10 + i)) < 0
    ensures CleanOld(q, last, snum, i) == q
  {
  }

  lemma FetchFound(q: seq<Entry>, last: nat, snum: nat, k: nat)
    requires 0 < snum <= MAX_TAG && k == Find(q, IntTag(last, snum))
    ensures k == |q| ==> Fetch(q, last, snum) == (None, q)
    ensures k < |q| ==>
              Fetch(q, last, snum) == (Some(q[k].stamp), CleanOld(RemoveTag(q, IntTag(last, snum)), last, snum, 0))
  {
  }

  // ----- the queue as a map from tag to time stamp -----

  predicate Increasing(q: seq<Entry>) {
    forall i, j :: 0 <= i < j < |q| ==> q[i].tag < q[j].tag
  }

  /** The entries whose tag is not in `drop`, in order. */
  function Keep(q: seq<Entry>, drop: set<nat>): seq<Entry> {
    if q == [] then [] else (if q[0].tag in drop then [] else [q[0]]) + Keep(q[1..], drop)
  }

  function MapOf(q: seq<Entry>): map<nat, nat> {
    if q == [] then map[] else MapOf(q[1..])[q[0].tag := q[0].stamp]
  }

  /** `tag` is one the clearing loop reaches for `snum` from its iteration `i` on.
      Above 32777 the first candidate does not fit int16_t and the loop ends at once. */
  predicate IsStale(tag: nat, snum: nat, i: nat) {
    snum <= 32777 && snum - 109 <= tag <= snum - 10 - i
  }

  function Stale(snum: nat, i: nat): set<nat> {
    set t: nat | t < 0x10000 && IsStale(t, snum, i)
  }

  lemma {:induction false} KeepAll(q: seq<Entry>, drop: set<nat>)
    requires forall e <- q :: e.tag !in drop
    ensures Keep(q, drop) == q
  {
    if q != [] {
      KeepAll(q[1..], drop);
    }
  }

  lemma {:induction false} RemoveTagIsKeep(q: seq<Entry>, tag: nat)
    requires Increasing(q)
    ensures RemoveTag(q, tag) == Keep(q, {tag})
  {
    if q != [] {
      if q[0].tag == tag {
        KeepAll(q[1..], {tag});
      } else {
        RemoveTagIsKeep(q[1..], tag);
      }
    }
  }

  lemma {:induction false} KeepIncreasing(q: seq<Entry>, drop: set<nat>)
    requires Increasing(q)
    ensures Increasing(Keep(q, drop))
    ensures forall e :: e in Keep(q, drop) <==> e in q && e.tag !in drop
  {
    if q != [] {
      KeepIncreasing(q[1..], drop);
    }
  }

  lemma {:induction false} KeepKeep(q: seq<Entry>, d1: set<nat>, d2: set<nat>)
    ensures Keep(Keep(q, d1), d2) == Keep(q, d1 + d2)
  {
    if q != [] {
      KeepKeep(q[1..], d1, d2);
      var rest := Keep(q[1..], d1);
      if q[0].tag !in d1 {
        assert ([q[0]] + rest)[1..] == rest;
      } else {
        assert [] + rest == rest;
      }
    }
  }

  lemma StaleStep(snum: nat, i: nat)
    requires i < 100 && 10 + i <= snum <= 32777
    ensures Stale(snum, i) == {snum - (10 + i)} + Stale(snum, i + 1)
  {
    var s, s' := Stale(snum, i), {snum - (10 + i)} + Stale(snum, i + 1);
    forall t: nat ensures t in s <==> t in s' {
      assert IsStale(t, snum, i) <==> t == snum - (10 + i) || IsStale(t, snum, i + 1);
    }
  }

  /** Where the loop stops: at its end, below tag zero, or at once. */
  lemma LoopStops(snum: nat, i: nat)
    requires snum <= MAX_TAG && i <= 100 && (snum > 32777 ==> i == 0)
    ensures i == 100 || ToInt16(snum - (10 + i)) < 0 ==> Stale(snum, i) == {}
    ensures i < 100 && ToInt16(snum - (10 + i)) >= 0 ==> ToInt16(snum - (10 + i)) == snum - (10 + i) && snum <= 32777
  {
    if i == 100 || ToInt16(snum - (10 + i)) < 0 {
      forall t: nat ensures !IsStale(t, snum, i) {
      }
    }
  }

  lemma {:induction false} CleanOldIsKeep(q: seq<Entry>, last: nat, snum: nat, i: nat)
    requires Increasing(q) && last <= MAX_TAG && snum <= MAX_TAG && i <= 100
    requires snum > 32777 ==> i == 0
    ensures CleanOld(q, last, snum, i) == Keep(q, Stale(snum, i))
    decreases 100 - i
  {
    LoopStops(snum, i);
    var t := ToInt16(snum - (10 + i));
    if i == 100 || t < 0 {
      CleanEnd(q, last, snum, i);
      KeepAll(q, {});
    } else {
      var q' := Keep(q, {t});
      CleanStep(q, q', last, snum, i, t);
      CleanOldIsKeep(q', last, snum, i + 1);
      KeepKeep(q, {t}, Stale(snum, i + 1));
      StaleStep(snum, i);
    }
  }

  lemma CleanStep(q: seq<Entry>, q': seq<Entry>, last: nat, snum: nat, i: nat, t: int)
    requires Increasing(q) && last <= MAX_TAG && i < 100 && t == ToInt16(snum - (10 + i)) >= 0 && q' == Keep(q, {t})
    ensures Increasing(q') && CleanOld(q, last, snum, i) == CleanOld(q', last, snum, i + 1)
  {
    CleanTurn(q, last, snum, i, t);
    RemoveTagIsKeep(q, t);
    KeepIncreasing(q, {t});
  }

  /** A fetch on increasing tags: the stamp filed under `snum` if there is one, and
      then exactly `snum` and the stale tags gone, the rest in order. */
  lemma FetchIsLookup(q: seq<Entry>, last: nat, snum: nat)
    requires Increasing(q) && (forall e <- q :: 0 < e.tag) && last <= MAX_TAG && snum <= MAX_TAG
    ensures var (stamp, q') := Fetch(q, last, snum);
            if snum in MapOf(q) then
              && stamp == Some(MapOf(q)[snum])
              && q' == Keep(q, {snum} + Stale(snum, 0))
              && MapOf(q') == MapOf(q) - ({snum} + Stale(snum, 0))
            else stamp == None && q' == q
  {
    MapOfFind(q, snum);
    if snum in MapOf(q) {
      RemoveTagIsKeep(q, snum);
      KeepIncreasing(q, {snum});
      CleanOldIsKeep(Keep(q, {snum}), last, snum, 0);
      KeepKeep(q, {snum}, Stale(snum, 0));
      MapOfKeep(q, {snum} + Stale(snum, 0));
    }
  }

  lemma {:induction false} MapOfFind(q: seq<Entry>, tag: nat)
    ensures tag in MapOf(q) <==> Find(q, tag) < |q|
    ensures tag in MapOf(q) ==> MapOf(q)[tag] == q[Find(q, tag)].stamp
    ensures tag in MapOf(q) ==> exists e :: e in q && e.tag == tag
  {
    if q != [] && q[0].tag != tag {
      MapOfFind(q[1..], tag);
    }
  }

  lemma {:induction false} MapOfKeep(q: seq<Entry>, drop: set<nat>)
    requires Increasing(q)
    ensures MapOf(Keep(q, drop)) == MapOf(q) - drop
  {
    if q != [] {
      MapOfKeep(q[1..], drop);
      MapOfFind(q[1..], q[0].tag);
      var rest := Keep(q[1..], drop);
      if q[0].tag !in drop {
        assert ([q[0]] + rest)[1..] == rest;
      } else {
        assert [] + rest == rest;
      }
    }
  }

  // ----- runs -----

  const POOL_SZ: nat := 1024
  const POOL_SZ_COLLECT: nat := 256

  /** How many of the oldest entries DtsPrepareMdata gives up: none while there is a
      free node; else the oldest if the last fetch is past the disorder gap; else
      what the garbage collector takes. */
  function PrepareDrops(q: seq<Entry>, lastFetch: nat, freeNodes: nat): (n: nat)
    ensures n <= |q|
  {
    if freeNodes > 0 || q == [] then 0
    else if lastFetch > q[0].tag + MAX_DISORDER_GAP then 1
    else Min(|q|, POOL_SZ - POOL_SZ_COLLECT + 1)
  }

  datatype Book = Book(q: seq<Entry>, inTag: nat, lastFetch: nat)

  /** Send: prepare then insert (DtsSendSPESPkt); Drop: prepare, then freed because sending failed. */
  datatype Op = Send(stamp: nat) | Drop | Take(snum: nat) | Clear

  function Step(b: Book, op: Op): Book {
    match op
    case Send(stamp) =>
      var kept := b.q[PrepareDrops(b.q, b.lastFetch, POOL_SZ - Min(|b.q|, POOL_SZ))..];
      Book(kept + [Entry(NextTag(b.inTag), stamp)], NextTag(b.inTag), b.lastFetch)
    case Drop =>
      Book(b.q[PrepareDrops(b.q, b.lastFetch, POOL_SZ - Min(|b.q|, POOL_SZ))..], NextTag(b.inTag), b.lastFetch)
    case Take(snum) =>
      if snum > MAX_TAG then b
      else
        var (stamp, q) := Fetch(b.q, b.inTag, snum);
        Book(q, b.inTag, if stamp.Some? then IntTag(b.inTag, snum) else b.lastFetch)
    case Clear => b.(q := [])
  }

  lemma TakeStep(b: Book, snum: nat)
    requires snum <= MAX_TAG
    ensures var (stamp, q) := Fetch(b.q, b.inTag, snum);
            Step(b, Take(snum)) == Book(q, b.inTag, if stamp.Some? then IntTag(b.inTag, snum) else b.lastFetch)
  {
  }

  function Run(b: Book, ops: seq<Op>): Book
    decreases ops
  {
    if ops == [] then b else Run(Step(b, ops[0]), ops[1..])
  }

  function Tagged(ops: seq<Op>): nat
    decreases ops
  {
    if ops == [] then 0 else (if ops[0].Send? || ops[0].Drop? then 1 else 0) + Tagged(ops[1..])
  }

  ghost predicate Orderly(b: Book) {
    && b.inTag <= MAX_TAG && |b.q| <= POOL_SZ
    && Increasing(b.q) && (forall e <- b.q :: 0 < e.tag <= b.inTag)
  }

  lemma {:induction false} CleanOldShrinks(q: seq<Entry>, last: nat, snum: nat, i: nat)
    ensures |CleanOld(q, last, snum, i)| <= |q|
    decreases 100 - i
  {
    var t := ToInt16(snum - (10 + i));
    if i < 100 && t >= 0 {
      CleanOldShrinks(RemoveTag(q, IntTag(last, t)), last, snum, i + 1);
    }
  }

  lemma TakeOrderly(b: Book, snum: nat)
    requires Orderly(b)
    ensures Orderly(Step(b, Take(snum))) && Step(b, Take(snum)).inTag == b.inTag
  {
    if snum <= MAX_TAG {
      FetchIsLookup(b.q, b.inTag, snum);
      KeepIncreasing(b.q, {snum} + Stale(snum, 0));
      CleanOldShrinks(RemoveTag(b.q, IntTag(b.inTag, snum)), b.inTag, snum, 0);
    }
  }

  lemma SendOrderly(b: Book, op: Op)
    requires Orderly(b) && b.inTag < MAX_TAG && (op.Send? || op.Drop?)
    ensures Orderly(Step(b, op)) && Step(b, op).inTag == b.inTag + 1
  {
    var b' := Step(b, op);
    var n := PrepareDrops(b.q, b.lastFetch, POOL_SZ - |b.q|);
    var last := if op.Send? then [Entry(b.inTag + 1, op.stamp)] else [];
    assert b'.q == b.q[n..] + last;
    DropAndAppend(b.q, n, last, b.inTag);
  }

  lemma DropAndAppend(q: seq<Entry>, n: nat, last: seq<Entry>, top: nat)
    requires n <= |q| && Increasing(q) && (forall e <- q :: 0 < e.tag <= top)
    requires |last| <= 1 && forall e <- last :: e.tag == top + 1
    ensures Increasing(q[n..] + last)
    ensures forall e <- q[n..] + last :: 0 < e.tag <= top + 1
  {
    forall e | e in q[n..] + last ensures e in q || e in last {
    }
  }

  /** In every run of at most 65535 tagged packets since the pool was created, the
      pending tags are nonzero, strictly increasing, and at most the last one issued. */
  lemma {:induction false} RunOrderly(b: Book, ops: seq<Op>)
    requires Orderly(b) && b.inTag + Tagged(ops) <= MAX_TAG
    ensures Orderly(Run(b, ops)) && Run(b, ops).inTag == b.inTag + Tagged(ops)
    decreases ops
  {
    if ops != [] {
      var b' := Step(b, ops[0]);
      match ops[0] {
        case Send(_) => SendOrderly(b, ops[0]);
        case Drop => SendOrderly(b, ops[0]);
        case Take(snum) => TakeOrderly(b, snum);
        case Clear =>
      }
      RunOrderly(b', ops[1..]);
    }
  }

  // ----- whose stamp a fetch returns -----

  /** The packets that got a tag, in order. */
  function Packets(ops: seq<Op>): (ps: seq<Op>)
    ensures |ps| == Tagged(ops)
    decreases ops
  {
    if ops == [] then [] else PacketOf(ops[0]) + Packets(ops[1..])
  }

  function PacketOf(op: Op): seq<Op> {
    if op.Send? || op.Drop? then [op] else []
  }

  /** The tag of the `n`th packet; there are 65535 of them, and zero is before the first. */
  function TagOf(n: nat): (tag: nat)
    ensures tag <= MAX_TAG && (n <= MAX_TAG ==> tag == n)
  {
    if n == 0 then 0 else (n - 1) % MAX_TAG + 1
  }

  lemma TagOfNext(n: nat)
    ensures NextTag(TagOf(n)) == TagOf(n + 1)
  {
  }

  /** The `n`th packet was sent with this stamp. */
  ghost predicate SentAs(ps: seq<Op>, n: nat, stamp: nat) {
    0 < n <= |ps| && ps[n - 1] == Send(stamp)
  }

  /** A packet with the entry's tag was sent with its stamp. */
  ghost predicate HasPacket(ps: seq<Op>, e: Entry) {
    exists n :: SentAs(ps, n, e.stamp) && TagOf(n) == e.tag
  }

  ghost predicate Filed(b: Book, ps: seq<Op>) {
    b.inTag == TagOf(|ps|) && forall e <- b.q :: HasPacket(ps, e)
  }

  lemma {:induction false} CleanOldSubset(q: seq<Entry>, last: nat, snum: nat, i: nat)
    ensures forall e <- CleanOld(q, last, snum, i) :: e in q
    decreases 100 - i
  {
    var t := ToInt16(snum - (10 + i));
    if i < 100 && t >= 0 {
      RemoveSubset(q, IntTag(last, t));
      CleanOldSubset(RemoveTag(q, IntTag(last, t)), last, snum, i + 1);
    }
  }

  /** A step leaves entries that were there, and the one it sends. */
  lemma StepEntries(b: Book, op: Op)
    ensures forall e <- Step(b, op).q :: e in b.q || (op.Send? && e == Entry(NextTag(b.inTag), op.stamp))
  {
    if op.Take? && op.snum <= MAX_TAG {
      RemoveSubset(b.q, IntTag(b.inTag, op.snum));
      CleanOldSubset(RemoveTag(b.q, IntTag(b.inTag, op.snum)), b.inTag, op.snum, 0);
    }
  }

  lemma StepFiled(b: Book, ps: seq<Op>, op: Op)
    requires Filed(b, ps)
    ensures Filed(Step(b, op), ps + PacketOf(op))
  {
    TagOfNext(|ps|);
    StepEntries(b, op);
    forall e | e in Step(b, op).q ensures HasPacket(ps + PacketOf(op), e) {
      if e in b.q {
        StillHas(ps, PacketOf(op), e);
      } else {
        assert SentAs(ps + [op], |ps| + 1, e.stamp);
      }
    }
  }

  lemma StillHas(ps: seq<Op>, more: seq<Op>, e: Entry)
    requires HasPacket(ps, e)
    ensures HasPacket(ps + more, e)
  {
    var n :| SentAs(ps, n, e.stamp) && TagOf(n) == e.tag;
    assert SentAs(ps + more, n, e.stamp);
  }

  lemma {:induction false} RunFiled(b: Book, ps: seq<Op>, ops: seq<Op>)
    requires Filed(b, ps)
    ensures Filed(Run(b, ops), ps + Packets(ops))
    decreases ops
  {
    if ops == [] {
      assert ps + [] == ps;
    } else {
      StepFiled(b, ps, ops[0]);
      RunFiled(Step(b, ops[0]), ps + PacketOf(ops[0]), ops[1..]);
      Group(ps, PacketOf(ops[0]), Packets(ops[1..]));
    }
  }

  /** A map with an entry filed behind those it has: what is filed first counts. */
  function Files(m: map<nat, nat>, e: Entry): map<nat, nat> {
    if e.tag in m then m else m[e.tag := e.stamp]
  }

  /** A send files its stamp under the next tag, beside what it does not give up; at the
      wrap, where that tag can still be pending, the older stamp stays. */
  lemma SendFiles(b: Book, stamp: nat)
    requires Orderly(b)
    ensures var n := PrepareDrops(b.q, b.lastFetch, POOL_SZ - |b.q|);
            && MapOf(Step(b, Send(stamp)).q) == Files(MapOf(b.q[n..]), Entry(NextTag(b.inTag), stamp))
            && MapOf(b.q[n..]) == MapOf(b.q) - Tags(b.q[..n])
    ensures b.inTag < MAX_TAG ==> NextTag(b.inTag) == b.inTag + 1 && b.inTag + 1 !in MapOf(b.q)
  {
    var n := PrepareDrops(b.q, b.lastFetch, POOL_SZ - |b.q|);
    assert Step(b, Send(stamp)).q == b.q[n..] + [Entry(NextTag(b.inTag), stamp)];
    AppendFiles(b.q, n, Entry(NextTag(b.inTag), stamp));
    if b.inTag < MAX_TAG {
      TagIsNew(b);
    }
  }

  lemma TagIsNew(b: Book)
    requires Orderly(b) && b.inTag < MAX_TAG
    ensures NextTag(b.inTag) == b.inTag + 1 && b.inTag + 1 !in MapOf(b.q)
  {
    MapOfFind(b.q, b.inTag + 1);
  }

  lemma AppendFiles(q: seq<Entry>, n: nat, e: Entry)
    requires Increasing(q) && n <= |q|
    ensures MapOf(q[n..] + [e]) == Files(MapOf(q[n..]), e)
    ensures MapOf(q[n..]) == MapOf(q) - Tags(q[..n])
  {
    MapOfSnoc(q[n..], e);
    MapOfRest(q, n);
  }

  lemma {:induction false} MapOfSnoc(q: seq<Entry>, e: Entry)
    ensures MapOf(q + [e]) == Files(MapOf(q), e)
  {
    if q == [] {
      assert (q + [e])[1..] == [];
    } else {
      assert (q + [e])[1..] == q[1..] + [e];
      MapOfSnoc(q[1..], e);
    }
  }

  function Tags(q: seq<Entry>): set<nat> {
    if q == [] then {} else {q[0].tag} + Tags(q[1..])
  }

  lemma {:induction false} MapOfRest(q: seq<Entry>, n: nat)
    requires Increasing(q) && n <= |q|
    ensures MapOf(q[n..]) == MapOf(q) - Tags(q[..n])
  {
    if n > 0 {
      assert q[1..][n - 1..] == q[n..] && q[..n][1..] == q[1..][..n - 1];
      MapOfRest(q[1..], n - 1);
      MapOfFind(q[1..], q[0].tag);
      FirstGone(MapOf(q[1..]), q[0], Tags(q[1..][..n - 1]));
    }
  }

  lemma FirstGone(m: map<nat, nat>, e: Entry, tags: set<nat>)
    requires e.tag !in m
    ensures m[e.tag := e.stamp] - ({e.tag} + tags) == m - tags
  {
  }

  /** In every run from an empty queue, whatever a fetch returns is the stamp of a packet
      that was sent and whose tag, the number modulo 65535, is the one asked for; in a run
      of at most 65535 tagged packets, of the packet with that very number. */
  lemma FetchIsOfItsPacket(ops: seq<Op>, snum: nat)
    requires snum <= MAX_TAG
    ensures var b := Run(Book([], 0, 0), ops); var stamp := Fetch(b.q, b.inTag, snum).0;
            stamp.Some? ==> HasPacket(Packets(ops), Entry(snum, stamp.value))
    ensures var b := Run(Book([], 0, 0), ops); var stamp := Fetch(b.q, b.inTag, snum).0;
            stamp.Some? && Tagged(ops) <= MAX_TAG ==> SentAs(Packets(ops), snum, stamp.value)
  {
    RunFiled(Book([], 0, 0), [], ops);
    assert [] + Packets(ops) == Packets(ops);
    FetchOfFiled(Run(Book([], 0, 0), ops), Packets(ops), snum);
  }

  lemma FetchOfFiled(b: Book, ps: seq<Op>, snum: nat)
    requires Filed(b, ps) && snum <= MAX_TAG
    ensures var stamp := Fetch(b.q, b.inTag, snum).0; stamp.Some? ==> HasPacket(ps, Entry(snum, stamp.value))
    ensures var stamp := Fetch(b.q, b.inTag, snum).0;
            stamp.Some? && |ps| <= MAX_TAG ==> SentAs(ps, snum, stamp.value)
  {
    FiledFetch(b, ps, snum);
    var stamp := Fetch(b.q, b.inTag, snum).0;
    if stamp.Some? && |ps| <= MAX_TAG {
      VeryPacket(ps, Entry(snum, stamp.value));
    }
  }

  lemma FiledFetch(b: Book, ps: seq<Op>, snum: nat)
    requires Filed(b, ps) && snum <= MAX_TAG
    ensures var stamp := Fetch(b.q, b.inTag, snum).0; stamp.Some? ==> HasPacket(ps, Entry(snum, stamp.value))
  {
    if snum > 0 {
      var k := Find(b.q, IntTag(b.inTag, snum));
      FetchFound(b.q, b.inTag, snum, k);
      if k < |b.q| {
        assert b.q[k] == Entry(snum, b.q[k].stamp) && HasPacket(ps, b.q[k]);
      }
    }
  }

  lemma VeryPacket(ps: seq<Op>, e: Entry)
    requires HasPacket(ps, e) && |ps| <= MAX_TAG
    ensures SentAs(ps, e.tag, e.stamp)
  {
  }

  /** Exactly when a send keeps the tags increasing: not at the wrap, unless nothing
      is left pending by then. */
  lemma SendKeepsOrderIff(b: Book, stamp: nat)
    requires Orderly(b)
    ensures var kept := b.q[PrepareDrops(b.q, b.lastFetch, POOL_SZ - |b.q|)..];
            Increasing(Step(b, Send(stamp)).q) <==> b.inTag < MAX_TAG || kept == []
  {
    var n := PrepareDrops(b.q, b.lastFetch, POOL_SZ - |b.q|);
    assert Step(b, Send(stamp)).q == b.q[n..] + [Entry(NextTag(b.inTag), stamp)];
    AppendKeepsOrderIff(b.q, n, b.inTag, Entry(NextTag(b.inTag), stamp));
  }

  /** The wrap is reached: after any 65535 sends something is pending, and the next send
      breaks the order. */
  lemma WrapBreaksOrder(ops: seq<Op>, stamp: nat)
    requires |ops| == MAX_TAG && forall op <- ops :: op.Send?
    ensures var b := Run(Book([], 0, 0), ops); Orderly(b) && !Increasing(Step(b, Send(stamp)).q)
  {
    var b := Run(Book([], 0, 0), ops);
    AllTagged(ops);
    RunOrderly(Book([], 0, 0), ops);
    SendsPend(Book([], 0, 0), ops);
    SendKeepsOrderIff(b, stamp);
  }

  lemma {:induction false} AllTagged(ops: seq<Op>)
    requires forall op <- ops :: op.Send?
    ensures Tagged(ops) == |ops|
  {
    if ops != [] {
      AllTagged(ops[1..]);
    }
  }

  /** Sends leave their entry pending, and no fetch has been noted. */
  lemma {:induction false} SendsPend(b: Book, ops: seq<Op>)
    requires (forall op <- ops :: op.Send?) && b.lastFetch == 0 && (ops == [] ==> b.q != [])
    ensures Run(b, ops).q != [] && Run(b, ops).lastFetch == 0
    decreases ops
  {
    if ops != [] {
      SendsPend(Step(b, ops[0]), ops[1..]);
    }
  }

  lemma AppendKeepsOrderIff(q: seq<Entry>, n: nat, top: nat, e: Entry)
    requires n <= |q| && Increasing(q) && (forall x <- q :: 0 < x.tag <= top)
    requires top <= MAX_TAG && e.tag == NextTag(top)
    ensures Increasing(q[n..] + [e]) <==> top < MAX_TAG || q[n..] == []
  {
    var t := q[n..] + [e];
    if top == MAX_TAG && n < |q| {
      assert q[n] in q && t[0] == q[n] && t[|q| - n] == e;
    } else {
      forall i, j | 0 <= i < j < |t| ensures t[i].tag < t[j].tag {
        assert t[i] == q[n + i] && q[n + i] in q;
      }
    }
  }
}
