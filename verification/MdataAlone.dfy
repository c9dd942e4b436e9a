/**
 The three threads against the abstract queue: a call with no other in between does what the
 queue's operation says, and what a fetch searches and takes in every interleaving.
 */
module MdataAlone {
  import opened Bytes
  import opened MdataQueue
  import opened MdataLinks
  import opened MdataPool
  import opened MdataMemory
  import opened MdataThreads

  // ----- the queue in the memory -----

  /** What the pending nodes say, oldest first. */
  function Filed(m: Mem, pend: seq<int>): (q: seq<Entry>)
    requires |m.data| == POOL_SZ && AllNodes(pend)
    ensures |q| == |pend|
  {
    EntriesOf(m.data, pend)
  }

  function BookOf(w: World, pend: seq<int>): Book
    requires |w.m.data| == POOL_SZ && AllNodes(pend)
  {
    Book(Filed(w.m, pend), w.m.inTag, w.m.lastFetch)
  }

  lemma FiledRest(m: Mem, pend: seq<int>, k: nat)
    requires |m.data| == POOL_SZ && AllNodes(pend) && k <= |pend|
    ensures Filed(m, pend[k..]) == Filed(m, pend)[k..]
  {
  }

  lemma FiledWithout(m: Mem, pend: seq<int>, k: nat)
    requires |m.data| == POOL_SZ && AllNodes(pend) && k < |pend|
    ensures AllNodes(Without(pend, k)) && Filed(m, Without(pend, k)) == Filed(m, pend)[..k] + Filed(m, pend)[k + 1..]
  {
  }

  lemma {:induction false} FirstIsFind(m: Mem, pend: seq<int>, tag: nat, k: nat)
    requires |m.data| == POOL_SZ && AllNodes(pend) && k == Find(Filed(m, pend), tag)
    ensures FirstTagged(m.data, pend, tag) == if k < |pend| then pend[k] else LINK
  {
    if pend != [] && m.data[pend[0]].intTag != tag {
      FiledRest(m, pend, 1);
      FirstIsFind(m, pend[1..], tag, k - 1);
    }
  }

  // ----- one search -----

  /** A search from the head takes out the first entry with its tag, if there is one, and
      the first search of a fetch returns its stamp. */
  lemma SearchTakes(w: World, free: seq<int>, pend: seq<int>) returns (free': seq<int>, pend': seq<int>)
    requires Kept(w, free, pend) && Enabled(w, Search) && Fresh(w, Search)
    ensures Kept(Apply(w, Search), free', pend')
    ensures var w', f, q := Apply(w, Search), w.fetcher, Filed(w.m, pend);
            var k := Find(q, f.tag);
            && Filed(w'.m, pend') == RemoveTag(q, f.tag)
            && w'.m.inTag == w.m.inTag
            && w'.m.lastFetch == (if f.pass == 0 && k < |q| then f.tag else w.m.lastFetch)
            && w'.got == w.got + (if f.pass == 0 && k < |q| then [Stamped(f.snum, q[k].stamp)] else [])
            && w'.fetcher == (if f.pass > 0 || k < |q| then NextPass(w.m, f.snum, f.pass) else Idle)
            && w' == w.(m := w'.m, got := w'.got, fetcher := w'.fetcher)
  {
    var tag, k := w.fetcher.tag, Find(Filed(w.m, pend), w.fetcher.tag);
    HeadWalk(w.m, free, pend, Out(w.sender), tag, k);
    RemoveFound(Filed(w.m, pend), tag, k);
    free', pend' := free, pend;
    if k < |pend| {
      TakeKept(w, free, pend, k);
      TakenWorld(w, free, pend, k);
      FiledWithout(w.m, pend, k);
      free', pend' := [pend[k]] + free, Without(pend, k);
    }
  }

  lemma HeadWalk(m: Mem, free: seq<int>, pend: seq<int>, out: set<int>, tag: nat, k: nat)
    requires Lists(m, free, pend, out) && k == Find(Filed(m, pend), tag)
    ensures Walk(m, m.flink[LINK], tag, POOL_SZ) == if k < |pend| then pend[k] else LINK
  {
    HeadRest(m, free, pend, out);
    WalkRest(m, free, pend, out, m.flink[LINK], tag);
    FirstIsFind(m, pend, tag, k);
  }

  lemma TakenWorld(w: World, free: seq<int>, pend: seq<int>, k: nat)
    requires Kept(w, free, pend) && Enabled(w, Search) && k < |pend|
    requires Walk(w.m, w.fetcher.head, w.fetcher.tag, POOL_SZ) == pend[k]
    ensures var w', f := Apply(w, Search), w.fetcher;
            && w'.m.data == w.m.data && w'.m.inTag == w.m.inTag
            && w'.m.lastFetch == (if f.pass == 0 then f.tag else w.m.lastFetch)
            && w'.got == w.got + (if f.pass == 0 then [Stamped(f.snum, w.m.data[pend[k]].appTimeStamp)] else [])
            && w'.fetcher == NextPass(w.m, f.snum, f.pass)
            && w' == w.(m := w'.m, got := w'.got, fetcher := w'.fetcher)
  {
    var f := w.fetcher;
    var m' := SearchGives(w.m, free, pend, Out(w.sender), k, f.head, f.tag, f.pass == 0);
    StepGives(w, m', w.m.data[pend[k]].appTimeStamp);
  }

  lemma SearchGives(m: Mem, free: seq<int>, pend: seq<int>, out: set<int>, k: nat, h: Link, tag: nat, first: bool)
      returns (m': Mem)
    requires Lists(m, free, pend, out) && k < |pend| && Walk(m, h, tag, POOL_SZ) == pend[k]
    ensures MdataMemory.Search(m, h, tag, first) == Some((m', Some(m.data[pend[k]].appTimeStamp)))
    ensures m'.data == m.data && m'.inTag == m.inTag && m'.lastFetch == if first then tag else m.lastFetch
  {
    m' := RemovedLists(m, free, pend, out, k);
    m' := m'.(lastFetch := if first then tag else m.lastFetch);
  }

  lemma StepGives(w: World, m': Mem, stamp: nat)
    requires Enabled(w, Search) && m'.inTag == w.m.inTag
    requires var f := w.fetcher; MdataMemory.Search(w.m, f.head, f.tag, f.pass == 0) == Some((m', Some(stamp)))
    ensures var f := w.fetcher;
            Apply(w, Search) == w.(m := m', fetcher := NextPass(w.m, f.snum, f.pass),
                                   got := w.got + if f.pass == 0 then [Stamped(f.snum, stamp)] else [])
  {
  }

  // ----- a fetch -----

  /** The tag that search number `pass` of a fetch looks for, if below zero none. */
  function Aim(snum: nat, pass: nat): int {
    if pass == 0 then snum else ToInt16(snum - (9 + pass))
  }

  predicate Aimed(f: Fetcher) {
    f.Idle?
    || (0 < f.snum <= MAX_TAG && f.pass <= 100 && f.tag == Aim(f.snum, f.pass) && (f.pass > 0 ==> f.snum <= 32777))
  }

  /** The rest of a fetch on the queue. */
  function FetchLeft(f: Fetcher, b: Book): Book
    requires Aimed(f)
  {
    if f.Idle? then b
    else if f.pass == 0 then Step(b, Take(f.snum))
    else b.(q := CleanOld(b.q, b.inTag, f.snum, f.pass - 1))
  }

  /** What it is going to return. */
  function FetchGets(f: Fetcher, b: Book): seq<Stamped>
    requires Aimed(f)
  {
    if f.Idle? || f.pass > 0 then []
    else
      var stamp := Fetch(b.q, b.inTag, f.snum).0;
      if stamp.Some? then [Stamped(f.snum, stamp.value)] else []
  }

  lemma NextAimed(m: Mem, snum: nat, p: nat)
    requires m.inTag <= MAX_TAG && 0 < snum <= MAX_TAG && p <= 100 && (p > 0 ==> snum <= 32777)
    ensures Aimed(NextPass(m, snum, p))
    ensures NextPass(m, snum, p).Idle? <==> p == 100 || Aim(snum, p + 1) < 0
    ensures !NextPass(m, snum, p).Idle? ==> NextPass(m, snum, p) == AtHead(snum, Aim(snum, p + 1), p + 1)
  {
  }

  /** One search more, and the rest. */
  lemma PassLeft(b: Book, f: Fetcher, m: Mem)
    requires Aimed(f) && !f.Idle? && f.pass > 0 && b.inTag <= MAX_TAG && m.inTag == b.inTag
    ensures Aimed(NextPass(m, f.snum, f.pass))
    ensures FetchLeft(f, b) == FetchLeft(NextPass(m, f.snum, f.pass), b.(q := RemoveTag(b.q, f.tag)))
  {
    NextAimed(m, f.snum, f.pass);
    CleanTurn(b.q, b.inTag, f.snum, f.pass - 1, f.tag);
    if NextPass(m, f.snum, f.pass).Idle? {
      CleanEnd(RemoveTag(b.q, f.tag), b.inTag, f.snum, f.pass);
    }
  }

  lemma FirstLeft(b: Book, f: Fetcher, m: Mem, k: nat)
    requires Aimed(f) && !f.Idle? && f.pass == 0 && b.inTag <= MAX_TAG && m.inTag == b.inTag && k == Find(b.q, f.tag)
    ensures k == |b.q| ==> FetchLeft(f, b) == b && FetchGets(f, b) == [] && RemoveTag(b.q, f.tag) == b.q
    ensures k < |b.q| ==>
              && Aimed(NextPass(m, f.snum, 0)) && FetchGets(f, b) == [Stamped(f.snum, b.q[k].stamp)]
              && FetchLeft(f, b)
                 == FetchLeft(NextPass(m, f.snum, 0), b.(q := RemoveTag(b.q, f.tag), lastFetch := f.tag))
  {
    FetchFound(b.q, b.inTag, f.snum, k);
    TakeStep(b, f.snum);
    RemoveFound(b.q, f.tag, k);
    NextAimed(m, f.snum, 0);
    if k < |b.q| && NextPass(m, f.snum, 0).Idle? {
      CleanEnd(RemoveTag(b.q, f.tag), b.inTag, f.snum, 0);
    }
  }

  predicate OfFetch(a: Action) {
    a.ReadHead? || a.Search?
  }

  /** Nobody else has moved the head since the fetch read it. */
  predicate HeadKnown(w: World) {
    w.fetcher.AtLock? ==> |w.m.flink| > LINK && w.fetcher.head == w.m.flink[LINK]
  }

  /** A search and what is left of the fetch behind it come to what was left before. */
  lemma SearchLeft(w: World, free: seq<int>, pend: seq<int>) returns (free': seq<int>, pend': seq<int>)
    requires Kept(w, free, pend) && Aimed(w.fetcher) && Enabled(w, Search) && Fresh(w, Search)
    ensures var w' := Apply(w, Search);
            && Kept(w', free', pend') && Aimed(w'.fetcher) && HeadKnown(w') && w'.lock == w.lock
            && FetchLeft(w'.fetcher, BookOf(w', pend')) == FetchLeft(w.fetcher, BookOf(w, pend))
            && w'.got + FetchGets(w'.fetcher, BookOf(w', pend')) == w.got + FetchGets(w.fetcher, BookOf(w, pend))
  {
    free', pend' := SearchTakes(w, free, pend);
    var f, b := w.fetcher, BookOf(w, pend);
    if f.pass == 0 {
      FirstLeft(b, f, w.m, Find(b.q, f.tag));
    } else {
      PassLeft(b, f, w.m);
    }
  }

  lemma {:induction false} FetchRuns(w: World, free: seq<int>, pend: seq<int>, run: seq<Action>, w': World)
      returns (free': seq<int>, pend': seq<int>)
    requires Kept(w, free, pend) && Aimed(w.fetcher) && HeadKnown(w)
    requires Reaches(w, run, w') && (forall a <- run :: OfFetch(a)) && w'.fetcher.Idle?
    ensures Kept(w', free', pend') && BookOf(w', pend') == FetchLeft(w.fetcher, BookOf(w, pend))
    ensures w'.got == w.got + FetchGets(w.fetcher, BookOf(w, pend))
    decreases run
  {
    free', pend' := free, pend;
    if run != [] {
      assert OfFetch(run[0]);
      free', pend' := FetchStep(w, free, pend, run[0]);
      free', pend' := FetchRuns(Apply(w, run[0]), free', pend', run[1..], w');
    }
  }

  lemma FetchStep(w: World, free: seq<int>, pend: seq<int>, a: Action) returns (free': seq<int>, pend': seq<int>)
    requires Kept(w, free, pend) && Aimed(w.fetcher) && HeadKnown(w) && Enabled(w, a) && OfFetch(a)
    ensures var w' := Apply(w, a);
            && Kept(w', free', pend') && Aimed(w'.fetcher) && HeadKnown(w')
            && FetchLeft(w'.fetcher, BookOf(w', pend')) == FetchLeft(w.fetcher, BookOf(w, pend))
            && w'.got + FetchGets(w'.fetcher, BookOf(w', pend')) == w.got + FetchGets(w.fetcher, BookOf(w, pend))
  {
    free', pend' := free, pend;
    if a.Search? {
      free', pend' := SearchLeft(w, free, pend);
    } else {
      StillKept(w, a, free, pend);
    }
  }

  /** A fetch with no other call in between: queue, last fetch and time stamp are those of
      the abstract one. */
  lemma FetchAlone(w: World, free: seq<int>, pend: seq<int>, snum: nat, run: seq<Action>, w': World)
      returns (free': seq<int>, pend': seq<int>)
    requires Kept(w, free, pend) && w.fetcher.Idle? && snum <= MAX_TAG
    requires Reaches(w, [StartFetch(snum)] + run, w') && (forall a <- run :: OfFetch(a)) && w'.fetcher.Idle?
    ensures Kept(w', free', pend') && BookOf(w', pend') == Step(BookOf(w, pend), Take(snum))
    ensures var stamp := Fetch(Filed(w.m, pend), w.m.inTag, snum).0;
            w'.got == w.got + if stamp.Some? then [Stamped(snum, stamp.value)] else []
  {
    var next := Apply(w, StartFetch(snum));
    assert ([StartFetch(snum)] + run)[1..] == run;
    StillKept(w, StartFetch(snum), free, pend);
    TakeStep(BookOf(w, pend), snum);
    free', pend' := FetchRuns(next, free, pend, run, w');
  }

  // ----- a fetch among other calls -----

  /** The tags that the searches of a run look for. */
  function Searched(w: World, run: seq<Action>): seq<nat>
    decreases run
  {
    if run == [] || !Enabled(w, run[0]) then []
    else (if run[0].Search? then [w.fetcher.tag] else []) + Searched(Apply(w, run[0]), run[1..])
  }

  /** The tags that a fetch clears from its search number `pass` on. */
  function Aims(snum: nat, pass: nat): seq<nat>
    decreases 101 - pass
  {
    if pass > 100 || Aim(snum, pass) < 0 then [] else [Aim(snum, pass)] + Aims(snum, pass + 1)
  }

  lemma {:induction false} AimsAreStale(snum: nat, pass: nat)
    requires 0 < snum <= MAX_TAG && 0 < pass <= 101 && (snum > 32777 ==> pass == 1)
    ensures forall t: nat :: t in Aims(snum, pass) <==> t in Stale(snum, pass - 1)
    decreases 101 - pass
  {
    var i := pass - 1;
    LoopStops(snum, i);
    if pass <= 100 && Aim(snum, pass) >= 0 {
      AimsAreStale(snum, pass + 1);
      StaleStep(snum, i);
      OneAim(Aim(snum, pass), Aims(snum, pass + 1), Stale(snum, pass));
    }
  }

  lemma OneAim(t: nat, s: seq<nat>, drop: set<nat>)
    requires forall x: nat :: x in s <==> x in drop
    ensures forall x: nat :: x in [t] + s <==> x in {t} + drop
  {
  }

  ghost predicate Tagging(w: World) {
    w.m.inTag <= MAX_TAG && Aimed(w.fetcher)
  }

  lemma OtherTagging(w: World, a: Action)
    requires Tagging(w) && Enabled(w, a) && !a.Search? && !a.StartFetch?
    ensures Tagging(Apply(w, a)) && Apply(w, a).got == w.got
    ensures Apply(w, a).fetcher == if a.ReadHead? then Apply(w, a).fetcher else w.fetcher
  {
  }

  lemma SearchTagging(w: World)
    requires Tagging(w) && Enabled(w, Search)
    ensures Tagging(Apply(w, Search))
  {
    NextAimed(w.m, w.fetcher.snum, w.fetcher.pass);
  }

  lemma {:induction false} RunTagging(w: World, run: seq<Action>, w': World)
    requires Tagging(w) && Reaches(w, run, w')
    ensures Tagging(w')
    decreases run
  {
    if run != [] {
      match run[0]
      case Search =>
        SearchTagging(w);
        RunTagging(Apply(w, Search), run[1..], w');
      case StartFetch(_) => RunTagging(Apply(w, run[0]), run[1..], w');
      case _ =>
        OtherTagging(w, run[0]);
        RunTagging(Apply(w, run[0]), run[1..], w');
    }
  }

  /** In every run whose searches begin at the head, a search takes out the first entry with
      its tag and no other; its tag is the one asked for or one of the 10 to 109 below it. */
  lemma SearchTakesOnly(run: seq<Action>, w: World)
      returns (free: seq<int>, pend: seq<int>, free': seq<int>, pend': seq<int>)
    requires Reaches(Init(), run, w) && AllFresh(Init(), run) && Enabled(w, Search) && Fresh(w, Search)
    ensures Kept(w, free, pend) && Kept(Apply(w, Search), free', pend')
    ensures Filed(Apply(w, Search).m, pend') == RemoveTag(Filed(w.m, pend), w.fetcher.tag)
    ensures w.fetcher.tag in {w.fetcher.snum} + Stale(w.fetcher.snum, 0)
  {
    InitGood();
    assert Good(Init());
    RunGood(Init(), run, w);
    free, pend :| Kept(w, free, pend);
    free', pend' := SearchTakes(w, free, pend);
    RunTagging(Init(), run, w);
    AimIsStale(w.fetcher);
  }

  lemma AimIsStale(f: Fetcher)
    requires Aimed(f) && !f.Idle?
    ensures f.tag in {f.snum} + Stale(f.snum, 0)
  {
  }

  /** What a fetch at `f` still looks for; the first search decides about the others. */
  function ToSearch(f: Fetcher, found: bool): seq<nat>
    requires Aimed(f)
  {
    if f.Idle? then []
    else if f.pass > 0 then Aims(f.snum, f.pass)
    else [f.tag] + if found then Aims(f.snum, 1) else []
  }

  lemma SearchesOn(w: World, found: bool)
    requires Tagging(w) && Enabled(w, Search) && !Apply(w, Search).fault
    requires w.fetcher.pass == 0 ==> (found <==> |Apply(w, Search).got| > |w.got|)
    ensures Tagging(Apply(w, Search))
    ensures ToSearch(w.fetcher, found) == [w.fetcher.tag] + ToSearch(Apply(w, Search).fetcher, found)
    ensures w.got <= Apply(w, Search).got && (w.fetcher.pass > 0 || !found ==> Apply(w, Search).got == w.got)
    ensures !Apply(w, Search).fetcher.Idle? ==> Apply(w, Search).fetcher.pass > 0
  {
    var f := w.fetcher;
    NextAimed(w.m, f.snum, f.pass);
    if f.pass > 0 {
      assert Aims(f.snum, f.pass) == [f.tag] + Aims(f.snum, f.pass + 1);
    }
  }

  lemma SearchAndRest(w: World, got: seq<Stamped>, rest: seq<nat>)
    requires Tagging(w) && Enabled(w, Search) && !Apply(w, Search).fault && Tagging(Apply(w, Search))
    requires var next := Apply(w, Search);
             && next.got <= got && (next.fetcher.Idle? || next.fetcher.pass > 0 ==> got == next.got)
             && rest == ToSearch(next.fetcher, |got| > |next.got|)
    ensures w.got <= got && (w.fetcher.pass > 0 ==> got == w.got)
    ensures [w.fetcher.tag] + rest == ToSearch(w.fetcher, |got| > |w.got|)
  {
    SearchesOn(w, |got| > |w.got|);
  }

  /** However the calls interleave, and whatever heads it starts from: a fetch that has come
      to its end has looked for its tag once, and if and only if it found it for each of the
      10 to 109 below, down to the lowest there is. */
  lemma {:induction false} FetchSearches(w: World, run: seq<Action>, w': World)
    requires Tagging(w) && Reaches(w, run, w') && (forall a <- run :: !a.StartFetch?) && w'.fetcher.Idle?
    ensures w.got <= w'.got
    ensures w.fetcher.Idle? || w.fetcher.pass > 0 ==> w'.got == w.got
    ensures Searched(w, run) == ToSearch(w.fetcher, |w'.got| > |w.got|)
    decreases run
  {
    if run != [] {
      var next := Apply(w, run[0]);
      if run[0].Search? {
        SearchTagging(w);
        FetchSearches(next, run[1..], w');
        SearchAndRest(w, w'.got, Searched(next, run[1..]));
      } else {
        OtherTagging(w, run[0]);
        FetchSearches(next, run[1..], w');
      }
    }
  }

  /** So a fetch of any number, in any run, looks for that number, and if it finds it for
      exactly the stale tags besides. */
  lemma EveryFetchSearches(before: seq<Action>, w: World, snum: nat, run: seq<Action>, w': World)
    requires Reaches(Init(), before, w) && Enabled(w, StartFetch(snum))
    requires Reaches(Apply(w, StartFetch(snum)), run, w') && (forall a <- run :: !a.StartFetch?) && w'.fetcher.Idle?
    ensures var tags := Searched(Apply(w, StartFetch(snum)), run);
            if snum == 0 then tags == [] && w'.got == w.got
            else if |w'.got| > |w.got|
            then tags != [] && tags[0] == snum && forall t: nat :: t in tags[1..] <==> t in Stale(snum, 0)
            else tags == [snum] && w'.got == w.got
  {
    RunTagging(Init(), before, w);
    FetchSearches(Apply(w, StartFetch(snum)), run, w');
    if snum > 0 {
      AimsAreStale(snum, 1);
      var tags := Searched(Apply(w, StartFetch(snum)), run);
      if |w'.got| > |w.got| {
        assert tags == [snum] + Aims(snum, 1);
        var rest := tags[1..];
        assert rest == Aims(snum, 1);
        assert forall t: nat :: t in rest <==> t in Stale(snum, 0);
      } else {
        assert tags == [snum];
      }
    }
  }

  // ----- a send -----

  predicate OfSend(a: Action) {
    a.Alloc? || a.Collect? || a.CollectOne? || a.Collected? || a.SetTag? || a.Insert? || a.GiveBack?
  }

  /** The nodes a collection still gives up. */
  function ToCollect(n: nat, count: nat): (k: nat)
    ensures k <= n
  {
    if count > POOL_SZ - POOL_SZ_COLLECT then 0 else Min(n, POOL_SZ - POOL_SZ_COLLECT + 1 - count)
  }

  /** A sender that nobody disturbs: a collection finds no free node and the last fetch not
      past the gap, and leaves some behind. */
  predicate Undisturbed(w: World, free: seq<int>, b: Book) {
    && !w.lock.ClearingAll?
    && (w.sender.Short? && w.lock.Open? ==>
          free == [] && |b.q| == POOL_SZ && b.lastFetch <= b.q[0].tag + MAX_DISORDER_GAP)
    && (w.lock.Collecting? ==> |free| + ToCollect(|b.q|, w.lock.count) > 0)
    && (w.sender.Allocating? && w.sender.again ==> free != [])
  }

  /** Entries that the sender still gives up. */
  function ToDrop(w: World, free: seq<int>, b: Book): (n: nat)
    ensures n <= |b.q|
  {
    match w.sender
    case Allocating(_, _) => PrepareDrops(b.q, b.lastFetch, |free|)
    case Short(_) => ToCollect(|b.q|, if w.lock.Collecting? then w.lock.count else 0)
    case _ => 0
  }

  /** The queue when the send is over: with its entry if the packet goes out. */
  function SendLeft(w: World, free: seq<int>, b: Book, goes: bool): Book
    requires |w.m.data| == POOL_SZ && (w.sender.Sending? ==> IsNode(w.sender.n))
  {
    match w.sender
    case Resting => b
    case Sending(_, n) => b.(q := b.q + if goes then [EntryOf(w.m, n)] else [])
    case _ =>
      Book(b.q[ToDrop(w, free, b)..] + (if goes then [Entry(NextTag(b.inTag), w.sender.stamp)] else []),
           NextTag(b.inTag), b.lastFetch)
  }

  lemma FreeCount(w: World, free: seq<int>, pend: seq<int>)
    requires Kept(w, free, pend) && (w.sender.Allocating? || w.sender.Short? || w.sender.Resting?)
    ensures |free| + |pend| == POOL_SZ
  {
  }

  lemma AllocLeft(w: World, free: seq<int>, pend: seq<int>, goes: bool) returns (free': seq<int>, pend': seq<int>)
    requires Kept(w, free, pend) && Enabled(w, Alloc) && Undisturbed(w, free, BookOf(w, pend))
    ensures var w' := Apply(w, Alloc);
            && Kept(w', free', pend') && Undisturbed(w', free', BookOf(w', pend')) && !w'.sender.Resting?
            && SendLeft(w', free', BookOf(w', pend'), goes) == SendLeft(w, free, BookOf(w, pend), goes)
  {
    FreeCount(w, free, pend);
    HeadOrNone(w, free, pend);
    free', pend' := free, pend;
    if free != [] {
      TakenKept(w, w.m, free, pend);
      TakenFiled(w.m, pend);
      free' := free[1..];
    } else if w.m.lastFetch > w.m.data[pend[0]].intTag + MAX_DISORDER_GAP {
      free', pend' := OldestLeft(w, free, pend, goes);
    }
  }

  lemma HeadOrNone(w: World, free: seq<int>, pend: seq<int>)
    requires Kept(w, free, pend)
    ensures w.m.flink[LINK] == if pend == [] then LINK else pend[0]
  {
  }

  /** Taking a free node leaves the pending ones as they are. */
  lemma TakenFiled(m: Mem, pend: seq<int>)
    requires Sized(m) && IsNode(m.freeHead) && AllNodes(pend) && m.freeHead !in pend
    ensures Filed(Taken(m), pend) == Filed(m, pend)
  {
  }

  /** With none free, the oldest pending node is taken out for the sender. */
  lemma OldestLeft(w: World, free: seq<int>, pend: seq<int>, goes: bool) returns (free': seq<int>, pend': seq<int>)
    requires Kept(w, free, pend) && Enabled(w, Alloc) && free == [] && pend != []
    requires w.m.lastFetch > w.m.data[pend[0]].intTag + MAX_DISORDER_GAP && w.m.flink[LINK] == pend[0]
    ensures var w' := Apply(w, Alloc);
            && Kept(w', free', pend') && Undisturbed(w', free', BookOf(w', pend')) && !w'.sender.Resting?
            && SendLeft(w', free', BookOf(w', pend'), goes) == SendLeft(w, free, BookOf(w, pend), goes)
  {
    free', pend' := HeadKept(w, free, pend);
    TakenKept(w, RemoveHead(w).m, free', pend');
    TakenFiled(RemoveHead(w).m, pend');
    FiledRest(w.m, pend, 1);
    free' := free'[1..];
  }

  lemma CollectLeft(w: World, free: seq<int>, pend: seq<int>, goes: bool) returns (free': seq<int>, pend': seq<int>)
    requires Kept(w, free, pend) && Enabled(w, CollectOne) && Undisturbed(w, free, BookOf(w, pend))
    ensures var w' := Apply(w, CollectOne);
            && Kept(w', free', pend') && Undisturbed(w', free', BookOf(w', pend')) && !w'.sender.Resting?
            && SendLeft(w', free', BookOf(w', pend'), goes) == SendLeft(w, free, BookOf(w, pend), goes)
  {
    free', pend' := HeadKept(w, free, pend);
    FiledRest(w.m, pend, 1);
    var n, count := |pend|, w.lock.count;
    assert ToCollect(n, count) == ToCollect(n - 1, count + 1) + 1;
    assert Filed(w.m, pend)[1..][ToCollect(n - 1, count + 1)..] == Filed(w.m, pend)[ToCollect(n, count)..];
  }

  lemma CollectedLeft(w: World, free: seq<int>, pend: seq<int>, goes: bool)
    requires Kept(w, free, pend) && Enabled(w, Collected) && Undisturbed(w, free, BookOf(w, pend))
    ensures var w' := Apply(w, Collected);
            && Kept(w', free, pend) && Undisturbed(w', free, BookOf(w', pend)) && !w'.sender.Resting?
            && SendLeft(w', free, BookOf(w', pend), goes) == SendLeft(w, free, BookOf(w, pend), goes)
  {
    StillKept(w, Collected, free, pend);
    HeadOrNone(w, free, pend);
  }

  lemma TagLeft(w: World, free: seq<int>, pend: seq<int>, goes: bool)
    requires Kept(w, free, pend) && Enabled(w, SetTag) && Undisturbed(w, free, BookOf(w, pend))
    ensures var w' := Apply(w, SetTag);
            && Kept(w', free, pend) && Undisturbed(w', free, BookOf(w', pend)) && !w'.sender.Resting?
            && SendLeft(w', free, BookOf(w', pend), goes) == SendLeft(w, free, BookOf(w, pend), goes)
  {
    TagKept(w, free, pend);
    LabelledLists(w.m, free, pend, {w.sender.n}, w.sender.n, w.sender.stamp);
    assert Filed(w.m, pend)[0..] == Filed(w.m, pend);
  }

  lemma EndLeft(w: World, free: seq<int>, pend: seq<int>, a: Action) returns (free': seq<int>, pend': seq<int>)
    requires Kept(w, free, pend) && Enabled(w, a) && (a.Insert? || a.GiveBack?)
    ensures var w' := Apply(w, a);
            && Kept(w', free', pend') && w'.sender.Resting? && w'.lock.Open?
            && BookOf(w', pend') == SendLeft(w, free, BookOf(w, pend), a.Insert?)
  {
    var n := w.sender.n;
    if a.Insert? {
      InsertKept(w, free, pend);
      free', pend' := free, pend + [n];
      var m' := InsertedLists(w.m, free, pend, {n}, n);
    } else {
      GiveBackKept(w, free, pend);
      free', pend' := [n] + free, pend;
    }
  }

  lemma SenderLeft(w: World, free: seq<int>, pend: seq<int>, a: Action, goes: bool)
      returns (free': seq<int>, pend': seq<int>)
    requires Kept(w, free, pend) && Enabled(w, a) && OfSend(a) && !a.Insert? && !a.GiveBack?
    requires Undisturbed(w, free, BookOf(w, pend))
    ensures var w' := Apply(w, a);
            && Kept(w', free', pend') && Undisturbed(w', free', BookOf(w', pend')) && !w'.sender.Resting?
            && SendLeft(w', free', BookOf(w', pend'), goes) == SendLeft(w, free, BookOf(w, pend), goes)
  {
    free', pend' := free, pend;
    match a
    case Alloc => free', pend' := AllocLeft(w, free, pend, goes);
    case CollectOne => free', pend' := CollectLeft(w, free, pend, goes);
    case Collected => CollectedLeft(w, free, pend, goes);
    case SetTag => TagLeft(w, free, pend, goes);
    case Collect => StillKept(w, a, free, pend);
  }

  lemma SendOver(w: World, run: seq<Action>, w': World)
    requires w.sender.Resting? && w.lock.Open? && Reaches(w, run, w')
    requires forall i :: 0 <= i < |run| ==> OfSend(run[i])
    ensures w' == w && run == []
  {
  }

  lemma {:induction false} SendRuns(w: World, free: seq<int>, pend: seq<int>, run: seq<Action>, w': World)
      returns (free': seq<int>, pend': seq<int>)
    requires Kept(w, free, pend) && Undisturbed(w, free, BookOf(w, pend)) && !w.sender.Resting?
    requires Reaches(w, run, w') && (forall a <- run :: OfSend(a)) && w'.sender.Resting?
    ensures Kept(w', free', pend') && w'.lock.Open?
    ensures BookOf(w', pend') == SendLeft(w, free, BookOf(w, pend), Insert in run)
    decreases run
  {
    var a, next := run[0], Apply(w, run[0]);
    assert OfSend(a) && run == [a] + run[1..];
    if a.Insert? || a.GiveBack? {
      free', pend' := EndLeft(w, free, pend, a);
      assert forall i :: 0 <= i < |run| ==> run[i] in run;
      SendOver(next, run[1..], w');
    } else {
      free', pend' := SenderLeft(w, free, pend, a, Insert in run);
      free', pend' := SendRuns(next, free', pend', run[1..], w');
    }
  }

  /** A send with no other call in between is the abstract one: the packet's entry is filed
      if it goes out, and what is given up for it is what the queue's operation gives up. */
  lemma SendAlone(w: World, free: seq<int>, pend: seq<int>, stamp: nat, run: seq<Action>, w': World)
      returns (free': seq<int>, pend': seq<int>)
    requires Kept(w, free, pend) && w.lock.Open? && w.sender.Resting?
    requires Reaches(w, [StartSend(stamp)] + run, w') && (forall a <- run :: OfSend(a)) && w'.sender.Resting?
    ensures Kept(w', free', pend')
    ensures BookOf(w', pend') == Step(BookOf(w, pend), if Insert in run then Send(stamp) else Drop)
  {
    var next := Apply(w, StartSend(stamp));
    assert ([StartSend(stamp)] + run)[1..] == run;
    StillKept(w, StartSend(stamp), free, pend);
    FreeCount(w, free, pend);
    free', pend' := SendRuns(next, free, pend, run, w');
  }

  // ----- a clearing -----

  predicate OfClear(a: Action) {
    a.ClearOne? || a.Cleared?
  }

  lemma {:induction false} ClearRuns(w: World, free: seq<int>, pend: seq<int>, run: seq<Action>, w': World)
      returns (free': seq<int>)
    requires Kept(w, free, pend) && (w.lock.Open? ==> pend == [])
    requires Reaches(w, run, w') && (forall a <- run :: OfClear(a)) && w'.lock.Open?
    ensures Kept(w', free', []) && BookOf(w', []) == BookOf(w, pend).(q := [])
    decreases run
  {
    free' := free;
    if run != [] {
      assert OfClear(run[0]);
      var next, pend' := Apply(w, run[0]), pend;
      if run[0].ClearOne? {
        free', pend' := HeadKept(w, free, pend);
      } else {
        HeadOrNone(w, free, pend);
        StillKept(w, run[0], free, pend);
      }
      free' := ClearRuns(next, free', pend', run[1..], w');
    }
  }

  /** A clearing with no other call in between leaves nothing pending. */
  lemma ClearAlone(w: World, free: seq<int>, pend: seq<int>, run: seq<Action>, w': World) returns (free': seq<int>)
    requires Kept(w, free, pend) && w.lock.Open?
    requires Reaches(w, [StartClear] + run, w') && (forall a <- run :: OfClear(a)) && w'.lock.Open?
    ensures Kept(w', free', []) && BookOf(w', []) == Step(BookOf(w, pend), Clear)
  {
    assert ([StartClear] + run)[1..] == run;
    StillKept(w, StartClear, free, pend);
    free' := ClearRuns(Apply(w, StartClear), free, pend, run, w');
  }

  // ----- a call gets on -----

  /** A call can take a step whenever the lock is open, or held by itself. */
  lemma CallsGoOn(w: World, free: seq<int>, pend: seq<int>)
    requires Kept(w, free, pend)
    ensures !w.fetcher.Idle? && w.lock.Open? ==> exists a :: OfFetch(a) && Enabled(w, a)
    ensures !w.sender.Resting? && !w.lock.ClearingAll? ==> exists a :: OfSend(a) && Enabled(w, a)
    ensures w.lock.ClearingAll? ==> exists a :: OfClear(a) && Enabled(w, a)
  {
    assert OfFetch(ReadHead) && OfFetch(MdataThreads.Search);
    assert OfSend(Alloc) && OfSend(Collect) && OfSend(CollectOne) && OfSend(Collected);
    assert OfSend(SetTag) && OfSend(Insert);
    assert OfClear(ClearOne) && OfClear(Cleared);
    HeadOrNone(w, free, pend);
  }
}
