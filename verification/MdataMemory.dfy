/**
 The pool's memory as a value, and what each section under DtsLock does to it: links,
 free head, tags.  A NULL that is followed is a fault.
 */
module MdataMemory {
  import opened Bytes
  import opened MdataQueue
  import opened MdataLinks
  import opened MdataPool

  /** NULL, a node, or the address of MDPendHead. */
  type Link = x: int | -1 <= x <= 1024

  datatype Mem = Mem(flink: seq<Link>, blink: seq<Link>, data: seq<Mdata>, freeHead: Link, inTag: nat, lastFetch: nat)

  predicate IsNode(n: int) {
    0 <= n < POOL_SZ
  }

  predicate Sized(m: Mem) {
    |m.flink| == |m.blink| == POOL_SZ + 1 && |m.data| == POOL_SZ
  }

  // ----- sections -----

  /** DtsFreeMdata */
  function Freed(m: Mem, n: int): Mem
    requires Sized(m) && IsNode(n)
  {
    m.(flink := m.flink[n := m.freeHead], freeHead := n)
  }

  /** DtsRemoveMdata up to the call of DtsFreeMdata. */
  function Unlinked(m: Mem, n: int): Option<Mem>
    requires Sized(m) && IsNode(n)
  {
    if m.flink[LINK] == LINK then Some(m)
    else if m.flink[n] == NULL || m.blink[n] == NULL then None
    else Some(m.(blink := m.blink[m.flink[n] := m.blink[n]], flink := m.flink[m.blink[n] := m.flink[n]]))
  }

  function Removed(m: Mem, n: int): (r: Option<Mem>)
    requires Sized(m) && IsNode(n)
    ensures r.Some? ==> Sized(r.value) && r.value.data == m.data && r.value.freeHead == n
    ensures r.Some? ==> r.value.inTag == m.inTag && r.value.lastFetch == m.lastFetch
  {
    match Unlinked(m, n) case None => None case Some(m') => Some(Freed(m', n))
  }

  /** The head of the free list, cleared. */
  function Taken(m: Mem): Mem
    requires Sized(m) && IsNode(m.freeHead)
  {
    var n := m.freeHead;
    m.(freeHead := m.flink[n],
       flink := m.flink[n := NULL], blink := m.blink[n := NULL], data := m.data[n := Blank])
  }

  /** DtsAllocMdata: the memory and the node, or NULL. */
  function Alloced(m: Mem): Option<(Mem, Link)>
    requires Sized(m)
  {
    if IsNode(m.freeHead) then Some((Taken(m), m.freeHead))
    else if m.freeHead != NULL then None
    else
      var last := m.flink[LINK];
      if last == NULL || last == LINK || m.lastFetch <= m.data[last].intTag + MAX_DISORDER_GAP then Some((m, NULL))
      else match Removed(m, last) case None => None case Some(m') => Some((Taken(m'), m'.freeHead))
  }

  /** DtsInsertMdata */
  function Inserted(m: Mem, n: int): Option<Mem>
    requires Sized(m) && IsNode(n)
  {
    var tail := m.blink[LINK];
    if tail == NULL then None
    else Some(m.(flink := m.flink[n := LINK][tail := n], blink := m.blink[n := tail][LINK := n]))
  }

  /** DtsMdataSetIntTag, and the time stamp. */
  function Labelled(m: Mem, n: int, stamp: nat): Mem
    requires Sized(m) && IsNode(n)
  {
    var tag := NextTag(m.inTag);
    m.(inTag := tag, data := m.data[n := Mdata(tag, stamp, tag % 0x100, tag / 0x100 % 0x100)])
  }

  /** The walk of a search from `h`: the first node with the tag, or LINK. */
  function Walk(m: Mem, h: Link, tag: nat, fuel: nat): Link
    requires Sized(m)
    decreases fuel
  {
    if fuel == 0 || h == NULL || h == LINK then LINK
    else if m.data[h].intTag == tag then h
    else Walk(m, m.flink[h], tag, fuel - 1)
  }

  /** A section of DtsFetchMdata that walks from `h`: what it leaves, and the time stamp
      found; the first of them notes the tag. */
  function Search(m: Mem, h: Link, tag: nat, first: bool): Option<(Mem, Option<nat>)>
    requires Sized(m)
  {
    var n := Walk(m, h, tag, POOL_SZ);
    if n == LINK || n == NULL then Some((m, None))
    else
      match Removed(m, n)
      case None => None
      case Some(m') => Some((m'.(lastFetch := if first then tag else m.lastFetch), Some(m.data[n].appTimeStamp)))
  }

  // ----- the lists in the memory -----

  ghost predicate Linked(m: Mem, free: seq<int>, pend: seq<int>, out: set<int>) {
    && Sized(m) && Partition(free, pend, out) && m.inTag <= MAX_TAG
    && m.freeHead == At(free, 0, NULL) && Chained(m.flink, free, NULL)
    && Forward(m.flink, pend) && Backward(m.blink, pend)
  }

  /** Free list, pending list, and nodes in a caller's hands, which point nowhere. */
  ghost predicate Lists(m: Mem, free: seq<int>, pend: seq<int>, out: set<int>) {
    Linked(m, free, pend, out) && forall n <- out :: IsNode(n) && m.flink[n] == NULL
  }

  lemma FreedLinked(m: Mem, free: seq<int>, pend: seq<int>, out: set<int>, n: int)
    requires Linked(m, free, pend, out) && n in out
    ensures IsNode(n) && Linked(Freed(m, n), [n] + free, pend, out - {n})
  {
    ChainedPush(m.flink, free, n);
    ForwardFrame(m.flink, pend, n, m.freeHead);
  }

  lemma FreedLists(m: Mem, free: seq<int>, pend: seq<int>, out: set<int>, n: int)
    requires Lists(m, free, pend, out) && n in out
    ensures Lists(Freed(m, n), [n] + free, pend, out - {n})
  {
    FreedLinked(m, free, pend, out, n);
  }

  lemma UnlinkedLinked(m: Mem, free: seq<int>, pend: seq<int>, out: set<int>, k: nat) returns (m': Mem)
    requires Linked(m, free, pend, out) && k < |pend|
    ensures Unlinked(m, pend[k]) == Some(m') && Linked(m', free, Without(pend, k), out + {pend[k]})
    ensures forall n <- out :: m'.flink[n] == m.flink[n]
    ensures k == 0 ==> m'.blink[pend[0]] == LINK
  {
    PartitionRemove(free, pend, out, k);
    ForwardRemove(m.flink, pend, k);
    BackwardRemove(m.blink, pend, k);
    var n := pend[k];
    assert m.flink[n] == At(pend, k + 1, LINK) && m.blink[n] == At(pend, k - 1, LINK);
    ChainedFrame(m.flink, free, NULL, At(pend, k - 1, LINK), m.flink[n]);
    m' := m.(blink := m.blink[m.flink[n] := m.blink[n]], flink := m.flink[m.blink[n] := m.flink[n]]);
  }

  /** A pending node leaves its list for the free one; one that was the head keeps the
      sentinel as its predecessor. */
  lemma RemovedLists(m: Mem, free: seq<int>, pend: seq<int>, out: set<int>, k: nat) returns (m': Mem)
    requires Lists(m, free, pend, out) && k < |pend|
    ensures Removed(m, pend[k]) == Some(m') && Lists(m', [pend[k]] + free, Without(pend, k), out)
    ensures k == 0 ==> m'.blink[pend[0]] == LINK
  {
    var n := pend[k];
    var u := UnlinkedLinked(m, free, pend, out, k);
    FreedLinked(u, free, Without(pend, k), out + {n}, n);
    assert out + {n} - {n} == out;
    m' := Freed(u, n);
  }

  lemma TakenLists(m: Mem, free: seq<int>, pend: seq<int>, out: set<int>)
    requires Lists(m, free, pend, out) && free != []
    ensures m.freeHead == free[0] && Lists(Taken(m), free[1..], pend, out + {free[0]})
  {
    var n := m.freeHead;
    PartitionTake(free, pend, out);
    ChainedPop(m.flink, free);
    ChainedFrame(m.flink, free[1..], NULL, n, NULL);
    ForwardFrame(m.flink, pend, n, NULL);
    BackwardFrame(m.blink, pend, n, NULL);
  }

  lemma InsertedLists(m: Mem, free: seq<int>, pend: seq<int>, out: set<int>, n: int) returns (m': Mem)
    requires Lists(m, free, pend, out) && n in out
    ensures IsNode(n) && Inserted(m, n) == Some(m') && Lists(m', free, pend + [n], out - {n})
  {
    ForwardInsert(m.flink, pend, n);
    BackwardInsert(m.blink, pend, n);
    ChainedFrame(m.flink, free, NULL, n, LINK);
    ChainedFrame(m.flink[n := LINK], free, NULL, At(pend, |pend| - 1, LINK), n);
    m' := Inserted(m, n).value;
  }

  lemma LabelledLists(m: Mem, free: seq<int>, pend: seq<int>, out: set<int>, n: int, stamp: nat)
    requires Lists(m, free, pend, out) && n in out
    ensures Lists(Labelled(m, n, stamp), free, pend, out)
    ensures EntriesOf(Labelled(m, n, stamp).data, pend) == EntriesOf(m.data, pend)
    ensures var d := Labelled(m, n, stamp).data[n];
            d.appTimeStamp == stamp && d.intTag == NextTag(m.inTag) && d.seqNum1 * 0x100 + d.seqNum0 == d.intTag
  {
  }

  // ----- a search in good lists -----

  predicate AllNodes(s: seq<int>) {
    forall i :: 0 <= i < |s| ==> IsNode(s[i])
  }

  function FirstTagged(data: seq<Mdata>, s: seq<int>, tag: nat): int
    requires |data| == POOL_SZ && AllNodes(s)
  {
    if s == [] then LINK else if data[s[0]].intTag == tag then s[0] else FirstTagged(data, s[1..], tag)
  }

  /** The nodes a walk from `h` comes through: the rest of its list, or a caller's node. */
  ghost function Rest(h: int, free: seq<int>, pend: seq<int>): seq<int> {
    if h in pend then pend[Place(pend, h)..]
    else if h in free then free[Place(free, h)..]
    else if IsNode(h) then [h] else []
  }

  function Place(s: seq<int>, n: int): (i: nat)
    requires n in s
    ensures i < |s| && s[i] == n
  {
    if s[0] == n then 0 else 1 + Place(s[1..], n)
  }

  lemma {:induction false} WalkList(m: Mem, s: seq<int>, i: nat, end: Link, tag: nat, fuel: nat)
    requires Sized(m) && Chained(m.flink, s, end) && (end == NULL || end == LINK) && i <= |s| <= i + fuel
    ensures Walk(m, At(s, i, end), tag, fuel) == FirstTagged(m.data, s[i..], tag)
    decreases |s| - i
  {
    if i < |s| && m.data[s[i]].intTag != tag {
      assert m.flink[s[i]] == At(s, i + 1, end) && s[i..][1..] == s[i + 1..];
      WalkList(m, s, i + 1, end, tag, fuel - 1);
    }
  }

  lemma WalkRest(m: Mem, free: seq<int>, pend: seq<int>, out: set<int>, h: Link, tag: nat)
    requires Lists(m, free, pend, out)
    ensures AllNodes(Rest(h, free, pend))
    ensures Walk(m, h, tag, POOL_SZ) == FirstTagged(m.data, Rest(h, free, pend), tag)
  {
    if h in pend {
      WalkList(m, pend, Place(pend, h), LINK, tag, POOL_SZ);
    } else if h in free {
      WalkList(m, free, Place(free, h), NULL, tag, POOL_SZ);
    } else if IsNode(h) {
      assert h in out && m.flink[h] == NULL;
    }
  }

  lemma HeadRest(m: Mem, free: seq<int>, pend: seq<int>, out: set<int>)
    requires Lists(m, free, pend, out)
    ensures Rest(m.flink[LINK], free, pend) == pend
  {
    if pend != [] {
      assert Place(pend, pend[0]) == 0;
    }
  }

  lemma {:induction false} FirstTaggedIn(data: seq<Mdata>, s: seq<int>, tag: nat)
    requires |data| == POOL_SZ && AllNodes(s)
    ensures var n := FirstTagged(data, s, tag);
            if n == LINK then forall x <- s :: data[x].intTag != tag else n in s && data[n].intTag == tag
  {
    if s != [] && data[s[0]].intTag != tag {
      FirstTaggedIn(data, s[1..], tag);
    }
  }

  /** A search from `h` does what one from the pending head would if and only if it comes
      first to the same node with the tag, or like it to none. */
  lemma SearchRightIff(m: Mem, free: seq<int>, pend: seq<int>, out: set<int>, h: Link, tag: nat, first: bool)
    requires Lists(m, free, pend, out)
    ensures Search(m, h, tag, first) == Search(m, m.flink[LINK], tag, first)
            <==> Walk(m, h, tag, POOL_SZ) == Walk(m, m.flink[LINK], tag, POOL_SZ)
  {
    if Walk(m, h, tag, POOL_SZ) != Walk(m, m.flink[LINK], tag, POOL_SZ) {
      SearchDiffers(m, free, pend, out, h, tag, first);
    }
  }

  lemma SearchDiffers(m: Mem, free: seq<int>, pend: seq<int>, out: set<int>, h: Link, tag: nat, first: bool)
    requires Lists(m, free, pend, out) && Walk(m, h, tag, POOL_SZ) != Walk(m, m.flink[LINK], tag, POOL_SZ)
    ensures Search(m, h, tag, first) != Search(m, m.flink[LINK], tag, first)
  {
    SearchOf(m, free, pend, out, h, tag, first);
    HeadFinds(m, free, pend, out, tag, first);
  }

  /** From the pending head a search does not fault. */
  lemma HeadFinds(m: Mem, free: seq<int>, pend: seq<int>, out: set<int>, tag: nat, first: bool)
    requires Lists(m, free, pend, out)
    ensures var n, r := Walk(m, m.flink[LINK], tag, POOL_SZ), Search(m, m.flink[LINK], tag, first);
            && r.Some? && (n == LINK ==> r == Some((m, None)))
            && (n != LINK ==> r.value.0.freeHead == n && r.value.1.Some?)
  {
    SearchOf(m, free, pend, out, m.flink[LINK], tag, first);
    HeadRest(m, free, pend, out);
    var n := Walk(m, m.flink[LINK], tag, POOL_SZ);
    if n != LINK {
      var m' := RemovedLists(m, free, pend, out, Place(pend, n));
    }
  }

  /** What a search shows of the node it found. */
  lemma SearchOf(m: Mem, free: seq<int>, pend: seq<int>, out: set<int>, h: Link, tag: nat, first: bool)
    requires Lists(m, free, pend, out)
    ensures var n, r := Walk(m, h, tag, POOL_SZ), Search(m, h, tag, first);
            if n == LINK then r == Some((m, None))
            else n in Rest(h, free, pend) && IsNode(n) && (r.None? <==> Removed(m, n).None?)
                 && (r.Some? ==> r.value.0.freeHead == n && r.value.1 == Some(m.data[n].appTimeStamp))
  {
    WalkRest(m, free, pend, out, h, tag);
    FirstTaggedIn(m.data, Rest(h, free, pend), tag);
  }

  /** In terms of the lists: a head that has left the pending list gives the right outcome
      only where nothing has the tag, neither pending nor on the way; one that other nodes
      stand in front of, where none of those has. */
  lemma StaleHeadIff(m: Mem, free: seq<int>, pend: seq<int>, out: set<int>, h: Link, tag: nat, first: bool)
    requires Lists(m, free, pend, out)
    ensures Search(m, h, tag, first) == Search(m, m.flink[LINK], tag, first) <==>
              if h in pend
              then (forall i :: 0 <= i < Place(pend, h) ==> m.data[pend[i]].intTag != tag)
              else (forall n <- Rest(h, free, pend) :: m.data[n].intTag != tag)
                   && (forall n <- pend :: m.data[n].intTag != tag)
  {
    SearchRightIff(m, free, pend, out, h, tag, first);
    WalkRest(m, free, pend, out, h, tag);
    WalkRest(m, free, pend, out, m.flink[LINK], tag);
    HeadRest(m, free, pend, out);
    FirstTaggedIn(m.data, Rest(h, free, pend), tag);
    FirstTaggedIn(m.data, pend, tag);
    if h in pend {
      SplitTagged(m.data, pend, Place(pend, h), tag);
    }
  }

  lemma {:induction false} SplitTagged(data: seq<Mdata>, s: seq<int>, k: nat, tag: nat)
    requires |data| == POOL_SZ && AllNodes(s) && k <= |s|
    requires forall i, j :: 0 <= i < j < |s| ==> s[i] != s[j]
    ensures FirstTagged(data, s, tag) == FirstTagged(data, s[k..], tag)
            <==> forall i :: 0 <= i < k ==> data[s[i]].intTag != tag
  {
    if k > 0 {
      assert s[1..][k - 1..] == s[k..];
      FirstTaggedIn(data, s[k..], tag);
      if data[s[0]].intTag == tag {
        assert s[0] !in s[k..];
      } else {
        SplitTagged(data, s[1..], k - 1, tag);
        assert forall i :: 0 < i < k ==> s[i] == s[1..][i - 1];
        assert forall i :: 0 <= i < k - 1 ==> s[1..][i] == s[i + 1];
      }
    }
  }

  /** Free list and pending list survive a search that comes to a pending node, or to none. */
  lemma SearchKeepsLists(m: Mem, free: seq<int>, pend: seq<int>, out: set<int>, h: Link, tag: nat, first: bool)
    requires Lists(m, free, pend, out)
    requires var n := Walk(m, h, tag, POOL_SZ); n == LINK || n in pend
    ensures var r := Search(m, h, tag, first); r.Some? && exists free', pend' :: Lists(r.value.0, free', pend', out)
  {
    var n := Walk(m, h, tag, POOL_SZ);
    if n != LINK {
      var k := Place(pend, n);
      var m' := RemovedLists(m, free, pend, out, k);
      assert Lists(m'.(lastFetch := if first then tag else m.lastFetch), [n] + free, Without(pend, k), out);
    }
  }

  // ----- a node removed twice -----

  ghost predicate HasLists(m: Mem) {
    exists free, pend, out :: Lists(m, free, pend, out)
  }

  /** A free list that comes back to its head is none. */
  lemma CycleBreaks(m: Mem, n: int, s: seq<int>)
    requires Sized(m) && IsNode(n) && m.freeHead == n && s != [] && AllNodes(s)
    requires m.flink[n] == s[0] && s[|s| - 1] == n && forall i :: 0 <= i < |s| - 1 ==> m.flink[s[i]] == s[i + 1]
    ensures !HasLists(m)
  {
    forall free, pend, out | Lists(m, free, pend, out) ensures false {
      FollowsCycle(m, free, n, s, |s|);
    }
  }

  lemma {:induction false} FollowsCycle(m: Mem, free: seq<int>, n: int, s: seq<int>, k: nat)
    requires Sized(m) && IsNode(n) && s != [] && AllNodes(s) && k <= |s|
    requires Chained(m.flink, free, NULL) && n == At(free, 0, NULL)
    requires m.flink[n] == s[0] && forall i :: 0 <= i < |s| - 1 ==> m.flink[s[i]] == s[i + 1]
    ensures k < |free| && free[k] == if k == 0 then n else s[k - 1]
  {
    if k > 0 {
      FollowsCycle(m, free, n, s, k - 1);
      assert m.flink[free[k - 1]] == At(free, k, NULL);
      assert k > 1 ==> m.flink[s[k - 2]] == s[k - 2 + 1];
      assert m.flink[free[k - 1]] == s[k - 1] && IsNode(s[k - 1]);
    }
  }

  /** Taking a free node out once more, as it was when it left the head of the pending list,
      faults or leaves no lists. */
  lemma RemovedTwiceBreaks(m: Mem, free: seq<int>, pend: seq<int>, out: set<int>, j: nat)
    requires Lists(m, free, pend, out) && j < |free| && (pend == [] || m.blink[free[j]] == LINK)
    ensures var r := Removed(m, free[j]); r.None? || !HasLists(r.value)
  {
    var n, r := free[j], Removed(m, free[j]);
    if r.Some? {
      var m', s := r.value, free[..j + 1];
      forall i | 0 <= i < j ensures m'.flink[free[i]] == free[i + 1] {
        assert m.flink[free[i]] == At(free, i + 1, NULL) && free[i] != n;
      }
      CycleBreaks(m', n, s);
    }
  }

  /** So a fetch whose head was removed before it got the lock, and is still free with the
      tag it asks for, faults or leaves no lists. */
  lemma RemovedHeadBreaks(m: Mem, free: seq<int>, pend: seq<int>, out: set<int>, h: Link, tag: nat, first: bool)
    requires Lists(m, free, pend, out) && h in free && m.data[h].intTag == tag && (pend == [] || m.blink[h] == LINK)
    ensures var r := Search(m, h, tag, first); r.None? || !HasLists(r.value.0)
  {
    RemovedTwiceBreaks(m, free, pend, out, Place(free, h));
    var r := Removed(m, h);
    if r.Some? {
      var m' := r.value.(lastFetch := if first then tag else m.lastFetch);
      forall free', pend', out' | Lists(m', free', pend', out') ensures false {
        assert Lists(r.value, free', pend', out');
      }
    }
  }
}
