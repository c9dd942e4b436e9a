/**
 The pool under threads: one that sends, one that fetches, one that clears.  Each takes
 DtsLock for one section after another, and the fetching one reads MDPendHead without it.
 */
module MdataThreads {
  import opened Bytes
  import opened MdataQueue
  import opened MdataLinks
  import opened MdataPool
  import opened MdataMemory

  /** DtsLock where a step of its holder can be watched: the loops that give up nodes. */
  datatype Lock = Open | Collecting(count: nat) | ClearingAll

  /** Where DtsSendSPESPkt stands. */
  datatype Sender =
    | Resting
    | Allocating(stamp: nat, again: bool)   // about to call DtsAllocMdata
    | Short(stamp: nat)                     // without a node, to collect
    | Labelling(stamp: nat, n: int)         // with a node, to be tagged
    | Sending(stamp: nat, n: int)           // the packet goes out

  /** Where DtsFetchMdata stands: pass 0 looks for the tag, the others clear. */
  datatype Fetcher =
    | Idle
    | AtHead(snum: nat, tag: nat, pass: nat)              // about to read MDPendHead
    | AtLock(snum: nat, tag: nat, pass: nat, head: Link)  // about to take the lock

  datatype Stamped = Stamped(snum: nat, stamp: nat)

  /** `ps` are the packets tagged so far, `got` what fetches have returned. */
  datatype World = World(m: Mem, lock: Lock, sender: Sender, fetcher: Fetcher, fault: bool,
                         ps: seq<Op>, got: seq<Stamped>)

  datatype Action =
    | StartSend(stamp: nat) | Alloc | Collect | CollectOne | Collected | SetTag | Insert | GiveBack
    | StartClear | ClearOne | Cleared
    | StartFetch(snum: nat) | ReadHead | Search

  /** DtsCreateMdataPool */
  function Init(): World {
    var m := Mem(seq(POOL_SZ + 1, i requires 0 <= i < POOL_SZ + 1 => if i == LINK then LINK else i - 1),
                 seq(POOL_SZ + 1, i requires 0 <= i < POOL_SZ + 1 => if i == LINK then LINK else NULL),
                 seq(POOL_SZ, _ => Blank), POOL_SZ - 1, 0, 0);
    World(m, Open, Resting, Idle, false, [], [])
  }

  predicate Enabled(w: World, a: Action) {
    && !w.fault && Sized(w.m)
    && match a
       case StartSend(_) => w.sender.Resting?
       case Alloc => w.sender.Allocating? && w.lock.Open?
       case Collect => w.sender.Short? && w.lock.Open?
       case CollectOne => w.lock.Collecting? && w.lock.count <= POOL_SZ - POOL_SZ_COLLECT && IsNode(w.m.flink[LINK])
       case Collected =>
         && w.lock.Collecting? && w.sender.Short?
         && (w.lock.count > POOL_SZ - POOL_SZ_COLLECT || !IsNode(w.m.flink[LINK]))
       case SetTag => w.sender.Labelling? && w.lock.Open? && IsNode(w.sender.n)
       case Insert => w.sender.Sending? && w.lock.Open? && IsNode(w.sender.n)
       case GiveBack => w.sender.Sending? && w.lock.Open? && IsNode(w.sender.n)
       case StartClear => w.lock.Open?
       case ClearOne => w.lock.ClearingAll? && IsNode(w.m.flink[LINK])
       case Cleared => w.lock.ClearingAll? && !IsNode(w.m.flink[LINK])
       case StartFetch(snum) => w.fetcher.Idle? && snum <= MAX_TAG
       case ReadHead => w.fetcher.AtHead?
       case Search => w.fetcher.AtLock? && w.lock.Open?
  }

  function Apply(w: World, a: Action): World
    requires Enabled(w, a)
  {
    match a
    case StartSend(stamp) => w.(sender := Allocating(stamp, false))
    case Alloc => AllocStep(w)
    case Collect => w.(lock := Collecting(0))
    case CollectOne => RemoveHead(w).(lock := Collecting(w.lock.count + 1))
    case Collected => w.(lock := Open, sender := Allocating(w.sender.stamp, true))
    case SetTag =>
      w.(m := Labelled(w.m, w.sender.n, w.sender.stamp), sender := Sending(w.sender.stamp, w.sender.n),
         ps := w.ps + [Send(w.sender.stamp)])
    case Insert =>
      (match Inserted(w.m, w.sender.n)
       case None => w.(fault := true)
       case Some(m') => w.(m := m', sender := Resting))
    case GiveBack => w.(m := Freed(w.m, w.sender.n), sender := Resting)
    case StartClear => w.(lock := ClearingAll)
    case ClearOne => RemoveHead(w)
    case Cleared => w.(lock := Open)
    case StartFetch(snum) => w.(fetcher := if snum == 0 then Idle else AtHead(snum, IntTag(w.m.inTag, snum), 0))
    case ReadHead => w.(fetcher := AtLock(w.fetcher.snum, w.fetcher.tag, w.fetcher.pass, w.m.flink[LINK]))
    case Search => SearchStep(w)
  }

  function AllocStep(w: World): World
    requires Sized(w.m) && w.sender.Allocating?
  {
    match Alloced(w.m)
    case None => w.(fault := true)
    case Some((m', n)) =>
      w.(m := m', sender := if n != NULL then Labelling(w.sender.stamp, n)
                            else if w.sender.again then Resting else Short(w.sender.stamp))
  }

  function RemoveHead(w: World): World
    requires Sized(w.m) && IsNode(w.m.flink[LINK])
  {
    match Removed(w.m, w.m.flink[LINK]) case None => w.(fault := true) case Some(m') => w.(m := m')
  }

  function SearchStep(w: World): World
    requires Sized(w.m) && w.fetcher.AtLock?
  {
    var f := w.fetcher;
    match MdataMemory.Search(w.m, f.head, f.tag, f.pass == 0)
    case None => w.(fault := true)
    case Some((m', stamp)) =>
      w.(m := m', fetcher := if f.pass > 0 || stamp.Some? then NextPass(m', f.snum, f.pass) else Idle,
         got := w.got + if f.pass == 0 && stamp.Some? then [Stamped(f.snum, stamp.value)] else [])
  }

  /** The loop that clears lost pictures, behind pass `p`. */
  function NextPass(m: Mem, snum: nat, p: nat): Fetcher {
    var tsnum := ToInt16(snum - (10 + p));
    if p >= 100 || tsnum < 0 then Idle else AtHead(snum, IntTag(m.inTag, tsnum), p + 1)
  }

  predicate Reaches(from: World, run: seq<Action>, w: World)
    decreases run
  {
    if run == [] then w == from
    else Enabled(from, run[0]) && Reaches(Apply(from, run[0]), run[1..], w)
  }

  /** The head that was read is still the head. */
  predicate Fresh(w: World, a: Action) {
    a.Search? && w.fetcher.AtLock? ==> |w.m.flink| > LINK && w.fetcher.head == w.m.flink[LINK]
  }

  /** A run whose searches all begin at the head. */
  predicate AllFresh(from: World, run: seq<Action>)
    decreases run
  {
    run == [] || (Enabled(from, run[0]) && Fresh(from, run[0]) && AllFresh(Apply(from, run[0]), run[1..]))
  }

  // ----- the invariant -----

  function Out(s: Sender): set<int> {
    if s.Labelling? || s.Sending? then {s.n} else {}
  }

  /** What a node says of its packet. */
  function EntryOf(m: Mem, n: int): Entry
    requires |m.data| == POOL_SZ && IsNode(n)
  {
    Entry(m.data[n].intTag, m.data[n].appTimeStamp)
  }

  /** Nodes tell of packets that were tagged so, and so do the fetches. */
  ghost predicate Told(m: Mem, pend: seq<int>, ps: seq<Op>, got: seq<Stamped>) {
    && |m.data| == POOL_SZ && AllNodes(pend) && m.inTag == TagOf(|ps|)
    && (forall i :: 0 <= i < |pend| ==> HasPacket(ps, EntryOf(m, pend[i])))
    && (forall g <- got :: HasPacket(ps, Entry(g.snum, g.stamp)))
  }

  predicate Asked(f: Fetcher) {
    !f.Idle? && f.pass == 0 ==> f.tag == f.snum
  }

  ghost predicate Kept(w: World, free: seq<int>, pend: seq<int>) {
    && !w.fault && Lists(w.m, free, pend, Out(w.sender)) && Told(w.m, pend, w.ps, w.got) && Asked(w.fetcher)
    && (w.lock.Collecting? ==> w.sender.Short?)
    && (w.sender.Sending? ==> HasPacket(w.ps, EntryOf(w.m, w.sender.n)))
  }

  ghost predicate Good(w: World) {
    exists free, pend :: Kept(w, free, pend)
  }

  // ----- one step -----

  predicate LeavesMemory(a: Action) {
    a.StartSend? || a.Collect? || a.Collected? || a.StartClear? || a.Cleared? || a.StartFetch? || a.ReadHead?
  }

  lemma StillKept(w: World, a: Action, free: seq<int>, pend: seq<int>)
    requires Kept(w, free, pend) && Enabled(w, a) && LeavesMemory(a)
    ensures Kept(Apply(w, a), free, pend)
  {
  }

  /** One node given up by a collection or a clearing. */
  lemma HeadKept(w: World, free: seq<int>, pend: seq<int>) returns (free': seq<int>, pend': seq<int>)
    requires Kept(w, free, pend) && IsNode(w.m.flink[LINK])
    ensures Kept(RemoveHead(w), free', pend') && pend != [] && free' == [pend[0]] + free && pend' == pend[1..]
    ensures RemoveHead(w).m.data == w.m.data && RemoveHead(w) == w.(m := RemoveHead(w).m)
  {
    var m' := RemovedLists(w.m, free, pend, Out(w.sender), 0);
    ToldWithout(w.m, m', pend, 0, w.ps, w.got);
    free', pend' := [pend[0]] + free, Without(pend, 0);
    assert pend' == pend[1..];
  }

  /** A free node goes to the sender. */
  lemma TakenKept(w: World, m: Mem, free: seq<int>, pend: seq<int>)
    requires Lists(m, free, pend, {}) && free != [] && Told(m, pend, w.ps, w.got)
    requires w.sender.Allocating? && !w.fault && !w.lock.Collecting? && Asked(w.fetcher)
    ensures IsNode(m.freeHead)
    ensures Kept(w.(m := Taken(m), sender := Labelling(w.sender.stamp, m.freeHead)), free[1..], pend)
  {
    TakenLists(m, free, pend, {});
    assert {} + {free[0]} == {m.freeHead};
  }

  lemma AllocKept(w: World, free: seq<int>, pend: seq<int>) returns (free': seq<int>, pend': seq<int>)
    requires Kept(w, free, pend) && w.sender.Allocating? && w.lock.Open?
    ensures Kept(AllocStep(w), free', pend')
  {
    free', pend' := free, pend;
    if free != [] {
      TakenKept(w, w.m, free, pend);
      free' := free[1..];
    } else {
      var last := w.m.flink[LINK];
      if IsNode(last) && w.m.lastFetch > w.m.data[last].intTag + MAX_DISORDER_GAP {
        free', pend' := HeadKept(w, free, pend);
        TakenKept(w, RemoveHead(w).m, free', pend');
        free' := free'[1..];
      }
    }
  }

  lemma TagKept(w: World, free: seq<int>, pend: seq<int>)
    requires Kept(w, free, pend) && Enabled(w, SetTag)
    ensures Kept(Apply(w, SetTag), free, pend)
  {
    var n, stamp, p := w.sender.n, w.sender.stamp, [Send(w.sender.stamp)];
    LabelledLists(w.m, free, pend, {n}, n, stamp);
    TagOfNext(|w.ps|);
    assert SentAs(w.ps + p, |w.ps| + 1, stamp);
    var w' := Apply(w, SetTag);
    forall i | 0 <= i < |pend| ensures HasPacket(w'.ps, EntryOf(w'.m, pend[i])) {
      StillHas(w.ps, p, EntryOf(w.m, pend[i]));
    }
    forall g | g in w.got ensures HasPacket(w'.ps, Entry(g.snum, g.stamp)) {
      StillHas(w.ps, p, Entry(g.snum, g.stamp));
    }
  }

  lemma InsertKept(w: World, free: seq<int>, pend: seq<int>)
    requires Kept(w, free, pend) && Enabled(w, Insert)
    ensures Kept(Apply(w, Insert), free, pend + [w.sender.n])
  {
    var n := w.sender.n;
    var m' := InsertedLists(w.m, free, pend, {n}, n);
    assert {n} - {n} == {};
  }

  lemma GiveBackKept(w: World, free: seq<int>, pend: seq<int>)
    requires Kept(w, free, pend) && Enabled(w, GiveBack)
    ensures Kept(Apply(w, GiveBack), [w.sender.n] + free, pend)
  {
    var n := w.sender.n;
    FreedLists(w.m, free, pend, {n}, n);
    assert {n} - {n} == {};
  }

  lemma SearchKept(w: World, free: seq<int>, pend: seq<int>) returns (free': seq<int>, pend': seq<int>)
    requires Kept(w, free, pend) && Enabled(w, Search) && Fresh(w, Search)
    ensures Kept(Apply(w, Search), free', pend')
  {
    var h, tag := w.fetcher.head, w.fetcher.tag;
    var n := FoundAtHead(w.m, free, pend, Out(w.sender), tag);
    free', pend' := free, pend;
    if n != LINK {
      var k := Place(pend, n);
      TakeKept(w, free, pend, k);
      free', pend' := [n] + free, Without(pend, k);
    }
  }

  lemma FoundAtHead(m: Mem, free: seq<int>, pend: seq<int>, out: set<int>, tag: nat) returns (n: int)
    requires Lists(m, free, pend, out)
    ensures Walk(m, m.flink[LINK], tag, POOL_SZ) == n
    ensures n != LINK ==> n in pend && IsNode(n) && m.data[n].intTag == tag
  {
    n := Walk(m, m.flink[LINK], tag, POOL_SZ);
    HeadRest(m, free, pend, out);
    WalkRest(m, free, pend, out, m.flink[LINK], tag);
    FirstTaggedIn(m.data, pend, tag);
  }

  /** The node found leaves the pending list. */
  lemma TakeKept(w: World, free: seq<int>, pend: seq<int>, k: nat)
    requires Kept(w, free, pend) && w.fetcher.AtLock? && k < |pend|
    requires Walk(w.m, w.fetcher.head, w.fetcher.tag, POOL_SZ) == pend[k] && w.m.data[pend[k]].intTag == w.fetcher.tag
    ensures Kept(SearchStep(w), [pend[k]] + free, Without(pend, k))
  {
    var m' := RemovedLists(w.m, free, pend, Out(w.sender), k);
    ToldWithout(w.m, m', pend, k, w.ps, w.got);
    assert HasPacket(w.ps, EntryOf(w.m, pend[k]));
  }

  lemma ToldWithout(m: Mem, m': Mem, pend: seq<int>, k: nat, ps: seq<Op>, got: seq<Stamped>)
    requires Told(m, pend, ps, got) && m'.data == m.data && m'.inTag == m.inTag && k < |pend|
    ensures Told(m', Without(pend, k), ps, got)
  {
    forall i | 0 <= i < |pend| - 1 ensures HasPacket(ps, EntryOf(m', Without(pend, k)[i])) {
      assert HasPacket(ps, EntryOf(m, pend[if i < k then i else i + 1]));
    }
  }

  lemma StepGood(w: World, a: Action)
    requires Good(w) && Enabled(w, a) && Fresh(w, a)
    ensures Good(Apply(w, a))
  {
    var free, pend :| Kept(w, free, pend);
    match a
    case Alloc =>
      free, pend := AllocKept(w, free, pend);
      assert Kept(Apply(w, a), free, pend);
    case CollectOne =>
      free, pend := HeadKept(w, free, pend);
      assert Kept(Apply(w, a), free, pend);
    case ClearOne =>
      free, pend := HeadKept(w, free, pend);
      assert Kept(Apply(w, a), free, pend);
    case SetTag => TagKept(w, free, pend);
    case Insert => InsertKept(w, free, pend);
    case GiveBack => GiveBackKept(w, free, pend);
    case Search =>
      free, pend := SearchKept(w, free, pend);
      assert Kept(Apply(w, a), free, pend);
    case _ => StillKept(w, a, free, pend);
  }

  lemma {:induction false} RunGood(w: World, run: seq<Action>, w': World)
    requires Good(w) && Reaches(w, run, w') && AllFresh(w, run)
    ensures Good(w')
    decreases run
  {
    if run != [] {
      StepGood(w, run[0]);
      RunGood(Apply(w, run[0]), run[1..], w');
    }
  }

  lemma InitGood()
    ensures Kept(Init(), seq(POOL_SZ, i => POOL_SZ - 1 - i), [])
  {
    FreshPartition(seq(POOL_SZ, i => POOL_SZ - 1 - i));
  }

  /** In every run of the three threads whose searches begin at what is the head once they
      have the lock: nothing faults, free list, pending list and the sender's node are the
      pool, and what a fetch has returned is the stamp of a packet with the tag asked for. */
  lemma FreshRunsKeepLists(run: seq<Action>, w: World)
    requires Reaches(Init(), run, w) && AllFresh(Init(), run)
    ensures !w.fault && exists free, pend :: Lists(w.m, free, pend, Out(w.sender))
    ensures forall g <- w.got :: HasPacket(w.ps, Entry(g.snum, g.stamp))
  {
    InitGood();
    assert Good(Init());
    RunGood(Init(), run, w);
    var free, pend :| Kept(w, free, pend);
    assert Lists(w.m, free, pend, Out(w.sender));
  }

  // ----- a head that is not fresh -----

  lemma {:induction false} Then(w: World, run: seq<Action>, mid: World, more: seq<Action>, w': World)
    requires Reaches(w, run, mid) && Reaches(mid, more, w')
    ensures Reaches(w, run + more, w')
    decreases run
  {
    if run == [] {
      assert run + more == more;
    } else {
      assert (run + more)[1..] == run[1..] + more;
      Then(Apply(w, run[0]), run[1..], mid, more, w');
    }
  }

  lemma One(w: World, a: Action)
    requires Enabled(w, a)
    ensures Reaches(w, [a], Apply(w, a))
  {
    assert [a][1..] == [];
  }

  /** A clearing gives up what is pending, and all it touches ends in the free list. */
  lemma {:induction false} ClearsAll(w: World, free: seq<int>, pend: seq<int>)
      returns (run: seq<Action>, w': World, free': seq<int>)
    requires Kept(w, free, pend) && w.lock.ClearingAll?
    ensures Reaches(w, run, w') && Kept(w', free', []) && w' == w.(m := w'.m) && w'.m.data == w.m.data
    ensures forall n :: n in free || n in pend ==> n in free'
    decreases |pend|
  {
    if pend == [] {
      run, w', free' := [], w, free;
    } else {
      var next, pend1 := HeadKept(w, free, pend);
      var mid := Apply(w, ClearOne);
      One(w, ClearOne);
      run, w', free' := ClearsAll(mid, next, pend1);
      Then(w, [ClearOne], mid, run, w');
      run := [ClearOne] + run;
    }
  }

  /** The tag of the pending head can be asked for. */
  lemma HeadTag(w: World, free: seq<int>, pend: seq<int>)
    requires Kept(w, free, pend) && pend != []
    ensures IsNode(pend[0]) && w.m.flink[LINK] == pend[0] && 0 < w.m.data[pend[0]].intTag <= MAX_TAG
  {
    assert HasPacket(w.ps, EntryOf(w.m, pend[0]));
  }

  /** The fetch has read the head, and the clearing has the lock. */
  lemma ReadsThenClears(w: World, free: seq<int>, pend: seq<int>, snum: nat) returns (run: seq<Action>, w': World)
    requires Kept(w, free, pend) && w.lock.Open? && w.fetcher.Idle? && 0 < snum <= MAX_TAG
    ensures Reaches(w, run, w') && Kept(w', free, pend) && w'.m == w.m && w'.lock.ClearingAll?
    ensures w'.fetcher == AtLock(snum, snum, 0, w.m.flink[LINK])
  {
    var w1 := Apply(w, StartFetch(snum));
    var w2 := Apply(w1, ReadHead);
    w' := Apply(w2, StartClear);
    One(w, StartFetch(snum));
    One(w1, ReadHead);
    One(w2, StartClear);
    Then(w, [StartFetch(snum)], w1, [ReadHead], w2);
    Then(w, [StartFetch(snum)] + [ReadHead], w2, [StartClear], w');
    run := [StartFetch(snum)] + [ReadHead] + [StartClear];
  }

  /** With anything pending, a fetch of it and a clearing can leave no lists: the fetch
      reads the head, the clearing frees it, and the fetch frees it again. */
  lemma OverlapBreaks(w: World, free: seq<int>, pend: seq<int>) returns (run: seq<Action>, w': World)
    requires Kept(w, free, pend) && w.lock.Open? && w.fetcher.Idle? && pend != []
    ensures Reaches(w, run, w') && (w'.fault || !HasLists(w'.m))
  {
    HeadTag(w, free, pend);
    var h, snum := w.m.flink[LINK], w.m.data[pend[0]].intTag;
    var first, more, mid, free';
    first, mid := ReadsThenClears(w, free, pend, snum);
    more, w', free' := ClearsAll(mid, free, pend);
    Then(w, first, mid, more, w');
    RemovedHeadBreaks(w'.m, free', [], Out(w'.sender), h, snum, true);
    var open := Apply(w', Cleared);
    One(w', Cleared);
    One(open, Search);
    Then(w, first + more, w', [Cleared], open);
    Then(w, first + more + [Cleared], open, [Search], Apply(open, Search));
    run, w' := first + more + [Cleared] + [Search], Apply(open, Search);
  }

  /** One packet sent, from the start. */
  lemma SendsOne(stamp: nat) returns (w: World, free: seq<int>, pend: seq<int>)
    ensures Reaches(Init(), [StartSend(stamp)] + [Alloc] + [SetTag] + [Insert], w)
    ensures Kept(w, free, pend) && pend != [] && w.lock.Open? && w.fetcher.Idle?
  {
    InitGood();
    free, pend := seq(POOL_SZ, i => POOL_SZ - 1 - i), [];
    var w0 := Init();
    var w1 := Apply(w0, StartSend(stamp));
    One(w0, StartSend(stamp));
    var w2 := Apply(w1, Alloc);
    One(w1, Alloc);
    free, pend := AllocKept(w1, free, pend);
    assert w1.m.freeHead == POOL_SZ - 1 && w2.sender == Labelling(stamp, POOL_SZ - 1);
    Then(w0, [StartSend(stamp)], w1, [Alloc], w2);
    var w3 := Apply(w2, SetTag);
    One(w2, SetTag);
    TagKept(w2, free, pend);
    Then(w0, [StartSend(stamp)] + [Alloc], w2, [SetTag], w3);
    w := Apply(w3, Insert);
    One(w3, Insert);
    InsertKept(w3, free, pend);
    Then(w0, [StartSend(stamp)] + [Alloc] + [SetTag], w3, [Insert], w);
    pend := pend + [w3.sender.n];
  }

  /** So there are runs that lose the lists: one packet, one fetch and one clearing do. */
  lemma SomeRunBreaks(stamp: nat)
    ensures exists run, w :: Reaches(Init(), run, w) && (w.fault || !HasLists(w.m))
  {
    var mid, free, pend := SendsOne(stamp);
    var run, w := OverlapBreaks(mid, free, pend);
    Then(Init(), [StartSend(stamp)] + [Alloc] + [SetTag] + [Insert], mid, run, w);
  }
}
