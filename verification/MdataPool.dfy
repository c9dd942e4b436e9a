/**
 The input meta data pool of the Crystal HD library: 1024 nodes that move between
 a free list (singly linked), a pending list (circular, doubly linked, in insertion
 order) and the hands of a caller.  Calls do not overlap here; MdataThreads has those that do.
 */
module MdataPool {
  import opened Bytes
  import opened MdataQueue
  import opened MdataLinks

  /** The fields of DTS_INPUT_MDATA that are not links. */
  datatype Mdata = Mdata(intTag: nat, appTimeStamp: nat, seqNum0: Byte, seqNum1: Byte)

  datatype Status = Success | NoData | Busy

  const Blank := Mdata(0, 0, 0, 0)

  ghost predicate Partition(free: seq<int>, pend: seq<int>, out: set<int>) {
    && Nodes(free) && Nodes(pend)
    && (forall n :: 0 <= n < POOL_SZ <==> n in free || n in pend || n in out)
    && (forall n :: n in free ==> n !in pend && n !in out)
    && (forall n :: n in pend ==> n !in out)
    && |free| + |pend| + |out| == POOL_SZ
  }

  function EntriesOf(data: seq<Mdata>, s: seq<int>): (q: seq<Entry>)
    requires |data| == POOL_SZ && forall i :: 0 <= i < |s| ==> 0 <= s[i] < POOL_SZ
  {
    seq(|s|, i requires 0 <= i < |s| => Entry(data[s[i]].intTag, data[s[i]].appTimeStamp))
  }

  class Pool {
    /** Node links; `flink[LINK]` is MDPendHead and `blink[LINK]` is MDPendTail. */
    var flink: seq<int>
    var blink: seq<int>
    var data: seq<Mdata>
    var freeHead: int
    var inMdataTag: nat
    var lastFetchTag: nat
    ghost var free: seq<int>
    ghost var pend: seq<int>
    ghost var out: set<int>

    ghost predicate Valid()
      reads this
    {
      && |data| == POOL_SZ
      && Partition(free, pend, out)
      && freeHead == At(free, 0, NULL)
      && Chained(flink, free, NULL)
      && Forward(flink, pend)
      && Backward(blink, pend)
      && inMdataTag <= MAX_TAG
    }

    /** The pending list, oldest first. */
    ghost function Entries(): seq<Entry>
      requires Valid()
      reads this
    {
      EntriesOf(data, pend)
    }

    /** DtsCreateMdataPool */
    constructor ()
      ensures Valid() && pend == [] && out == {} && inMdataTag == 0 && lastFetchTag == 0
    {
      flink := seq(POOL_SZ + 1, i => if i == LINK then LINK else i - 1);
      blink := seq(POOL_SZ + 1, i => if i == LINK then LINK else NULL);
      data := seq(POOL_SZ, _ => Blank);
      freeHead, inMdataTag, lastFetchTag := POOL_SZ - 1, 0, 0;
      free, pend, out := seq(POOL_SZ, i => POOL_SZ - 1 - i), [], {};
      new;
      FreshPartition(free);
    }

    /** DtsFreeMdata */
    method Free(n: int)
      requires Valid() && n in out
      modifies this
      ensures Valid() && free == [n] + old(free) && pend == old(pend) && out == old(out) - {n}
      ensures data == old(data) && inMdataTag == old(inMdataTag) && lastFetchTag == old(lastFetchTag)
    {
      ChainedPush(flink, free, n);
      ForwardFrame(flink, pend, n, freeHead);
      flink := flink[n := freeHead];
      freeHead := n;
      free, out := [n] + free, out - {n};
    }

    /** DtsInsertMdata */
    method Insert(n: int)
      requires Valid() && n in out
      modifies this
      ensures Valid() && free == old(free) && pend == old(pend) + [n] && out == old(out) - {n}
      ensures data == old(data) && inMdataTag == old(inMdataTag) && lastFetchTag == old(lastFetchTag)
      ensures Entries() == old(Entries()) + [Entry(data[n].intTag, data[n].appTimeStamp)]
    {
      ForwardInsert(flink, pend, n);
      BackwardInsert(blink, pend, n);
      ChainedFrame(flink, free, NULL, n, LINK);
      ChainedFrame(flink[n := LINK], free, NULL, At(pend, |pend| - 1, LINK), n);
      flink := flink[n := LINK];
      blink := blink[n := blink[LINK]];
      blink := blink[flink[n] := n];
      flink := flink[blink[n] := n];
      pend, out := pend + [n], out - {n};
    }

    /** DtsRemoveMdata with the DtsFreeMdata it ends in; `k` is where the node stands. */
    method Remove(n: int, ghost k: nat)
      requires Valid() && k < |pend| && pend[k] == n
      modifies this
      ensures Valid() && free == [n] + old(free) && pend == Without(old(pend), k) && out == old(out)
      ensures data == old(data) && inMdataTag == old(inMdataTag) && lastFetchTag == old(lastFetchTag)
      ensures Entries() == old(Entries()[..k] + Entries()[k + 1..])
    {
      Unlink(n, k);
      Free(n);
    }

    /** The node leaves the circle, and is the caller's. */
    method Unlink(n: int, ghost k: nat)
      requires Valid() && k < |pend| && pend[k] == n
      modifies this`flink, this`blink, this`pend, this`out
      ensures Valid() && pend == Without(old(pend), k) && out == old(out) + {n}
      ensures Entries() == old(Entries()[..k] + Entries()[k + 1..])
    {
      PartitionRemove(free, pend, out, k);
      ForwardRemove(flink, pend, k);
      BackwardRemove(blink, pend, k);
      ChainedFrame(flink, free, NULL, At(pend, k - 1, LINK), flink[n]);
      if flink[LINK] != LINK {
        blink := blink[flink[n] := blink[n]];
        flink := flink[blink[n] := flink[n]];
      }
      pend, out := Without(pend, k), out + {n};
    }

    /** The node a pointer names has this tag; the sentinel overlays MDPendHead,
        MDPendTail and, where a node has IntTag, MDLastFetchTag. */
    function TagAt(n: int): nat
      requires n == LINK || 0 <= n < |data|
      reads this
    {
      if n == LINK then lastFetchTag else data[n].intTag
    }

    /** DtsAllocMdata */
    method Alloc() returns (n: int)
      requires Valid()
      modifies this
      ensures Valid() && inMdataTag == old(inMdataTag) && lastFetchTag == old(lastFetchTag)
      ensures var past := old(pend) != [] && lastFetchTag > old(data)[old(pend)[0]].intTag + MAX_DISORDER_GAP;
              var drops := if old(free) == [] && past then 1 else 0;
              && (n == NULL <==> old(free) == [] && drops == 0)
              && (n == NULL ==> free == old(free) && out == old(out) && data == old(data))
              && (n != NULL ==> n !in old(out) && out == old(out) + {n} && |free| <= |old(free)| <= |free| + 1
                                && data == old(data)[n := Blank])
              && pend == old(pend)[drops..] && Entries() == old(Entries())[drops..]
    {
      if freeHead == NULL {
        var last := flink[LINK];
        if last != NULL && lastFetchTag > TagAt(last) + MAX_DISORDER_GAP {
          Remove(last, 0);
        } else {
          return NULL;
        }
      }
      n := TakeFree();
    }

    /** The head of the free list, cleared. */
    method TakeFree() returns (n: int)
      requires Valid() && free != []
      modifies this
      ensures Valid() && n == old(free)[0] && free == old(free)[1..] && out == old(out) + {n}
      ensures pend == old(pend) && Entries() == old(Entries()) && data == old(data)[n := Blank]
      ensures inMdataTag == old(inMdataTag) && lastFetchTag == old(lastFetchTag)
    {
      n := freeHead;
      PartitionTake(free, pend, out);
      ChainedPop(flink, free);
      ChainedFrame(flink, free[1..], NULL, n, NULL);
      ForwardFrame(flink, pend, n, NULL);
      BackwardFrame(blink, pend, n, NULL);
      freeHead := flink[freeHead];
      flink, blink, data := flink[n := NULL], blink[n := NULL], data[n := Blank];
      free, out := free[1..], out + {n};
    }

    /** DtsClrPendMdataList */
    method ClearPending()
      requires Valid()
      modifies this
      ensures Valid() && pend == [] && out == old(out) && data == old(data)
      ensures View() == Step(old(View()), Clear)
    {
      var temp := flink[LINK];
      while temp != NULL && temp != LINK
        invariant Valid() && temp == At(pend, 0, LINK) && out == old(out) && data == old(data)
        invariant inMdataTag == old(inMdataTag) && lastFetchTag == old(lastFetchTag)
        decreases |pend|
      {
        Remove(temp, 0);
        temp := flink[LINK];
      }
    }

    /** DtsPendMdataGarbageCollect */
    method GarbageCollect()
      requires Valid()
      modifies this
      ensures Valid() && out == old(out) && data == old(data)
      ensures inMdataTag == old(inMdataTag) && lastFetchTag == old(lastFetchTag)
      ensures var drops := Min(|old(pend)|, POOL_SZ - POOL_SZ_COLLECT + 1);
              pend == old(pend)[drops..] && |free| == |old(free)| + drops && Entries() == old(Entries())[drops..]
    {
      var temp := flink[LINK];
      var mdataCount := 0;
      while temp != NULL && temp != LINK
        invariant Valid() && temp == At(pend, 0, LINK) && out == old(out) && data == old(data)
        invariant inMdataTag == old(inMdataTag) && lastFetchTag == old(lastFetchTag)
        invariant mdataCount <= Min(|old(pend)|, POOL_SZ - POOL_SZ_COLLECT + 1)
        invariant pend == old(pend)[mdataCount..] && |free| == |old(free)| + mdataCount
        decreases |pend|
      {
        if mdataCount > POOL_SZ - POOL_SZ_COLLECT {
          break;
        }
        Remove(temp, 0);
        temp := flink[LINK];
        mdataCount := mdataCount + 1;
      }
    }

    /** DtsMdataSetIntTag */
    method SetIntTag(n: int)
      requires Valid() && n in out
      modifies this`inMdataTag, this`data
      ensures Valid() && inMdataTag == NextTag(old(inMdataTag)) && Entries() == old(Entries())
      ensures data == old(data)[n := data[n]] && data[n].intTag == inMdataTag
      ensures data[n].appTimeStamp == old(data)[n].appTimeStamp
      ensures data[n].seqNum0 + 0x100 * data[n].seqNum1 == inMdataTag
    {
      if inMdataTag == MAX_TAG {
        inMdataTag := 0;
      }
      inMdataTag := inMdataTag + 1;
      var tag := inMdataTag % (2 * TAG_MASK);
      var stemp := tag % 0x10000;
      data := data[n := data[n].(intTag := tag, seqNum0 := stemp % 0x100, seqNum1 := stemp / 0x100)];
    }

    method Stamp(n: int, timeStamp: nat)
      requires Valid() && n in out
      modifies this`data
      ensures Valid() && data == old(data)[n := old(data)[n].(appTimeStamp := timeStamp)] && Entries() == old(Entries())
    {
      data := data[n := data[n].(appTimeStamp := timeStamp)];
    }

    /** DtsPrepareMdata: it fails only when the caller holds every node of the pool. */
    method Prepare(timeStamp: nat) returns (sts: Status, n: int)
      requires Valid()
      modifies this
      ensures Valid() && lastFetchTag == old(lastFetchTag)
      ensures sts == if |old(out)| == POOL_SZ then Busy else Success
      ensures var drops := PrepareDrops(old(Entries()), lastFetchTag, |old(free)|);
              pend == old(pend)[drops..] && Entries() == old(Entries())[drops..]
      ensures sts.Busy? ==> out == old(out) && inMdataTag == old(inMdataTag)
      ensures sts.Success? ==>
        && n !in old(out) && out == old(out) + {n}
        && inMdataTag == NextTag(old(inMdataTag))
        && data[n].intTag == inMdataTag && data[n].appTimeStamp == timeStamp
        && data[n].seqNum0 + 0x100 * data[n].seqNum1 == inMdataTag
    {
      n := AllocOrCollect();
      if n == NULL {
        return Busy, n;
      }
      SetIntTag(n);
      Stamp(n, timeStamp);
      return Success, n;
    }

    /** The two attempts of DtsPrepareMdata, with a collection between them. */
    method AllocOrCollect() returns (n: int)
      requires Valid()
      modifies this
      ensures Valid() && lastFetchTag == old(lastFetchTag) && inMdataTag == old(inMdataTag)
      ensures n == NULL <==> |old(out)| == POOL_SZ
      ensures n == NULL ==> out == old(out)
      ensures n != NULL ==> n !in old(out) && out == old(out) + {n}
      ensures var drops := PrepareDrops(old(Entries()), lastFetchTag, |old(free)|);
              pend == old(pend)[drops..] && Entries() == old(Entries())[drops..]
    {
      n := Alloc();
      if n == NULL {
        assert free == [] && pend == old(pend) && Entries() == old(Entries());
        GarbageCollect();
        assert pend == old(pend)[PrepareDrops(old(Entries()), lastFetchTag, 0)..];
        n := Alloc();
      }
    }

    /** The pool as the abstract book of MdataQueue. */
    ghost function View(): Book
      requires Valid()
      reads this
    {
      Book(Entries(), inMdataTag, lastFetchTag)
    }

    /** DtsSendSPESPkt: get a node, then the packet goes out and the node is filed, or
        sending fails and the node is freed.  The source would try 20 times to get a
        node; with none checked out the first attempt succeeds. */
    method SendSPESPkt(timeStamp: nat, delivered: bool) returns (sts: Status)
      requires Valid() && out == {}
      modifies this
      ensures Valid() && out == {} && sts == Success
      ensures View() == Step(old(View()), if delivered then Send(timeStamp) else Drop)
    {
      var n;
      sts, n := Prepare(timeStamp);
      assert View() == Step(old(View()), Drop);
      assert out == {n};
      if delivered {
        Insert(n);
      } else {
        Free(n);
      }
      assert out == {};
    }

    /** The walk of DtsFetchMdata: the first pending node with this tag, or LINK. */
    method FindPending(inTag: nat) returns (n: int, ghost k: nat)
      requires Valid()
      ensures k == Find(Entries(), inTag) && n == At(pend, Find(Entries(), inTag), LINK)
    {
      n, k := flink[LINK], 0;
      while n != NULL && n != LINK
        invariant k <= |pend| && n == At(pend, k, LINK)
        invariant forall j :: 0 <= j < k ==> Entries()[j].tag != inTag
        decreases |pend| - k
      {
        if data[n].intTag == inTag {
          break;
        }
        n, k := flink[n], k + 1;
      }
      FindIs(Entries(), inTag, k);
    }

    /** One pass of the clearing loop: take the first node with this tag out of the list. */
    method RemoveTagged(inTag: nat)
      requires Valid()
      modifies this
      ensures Valid() && Entries() == RemoveTag(old(Entries()), inTag)
      ensures out == old(out) && data == old(data) && inMdataTag == old(inMdataTag) && lastFetchTag == old(lastFetchTag)
    {
      ghost var k;
      var n;
      n, k := FindPending(inTag);
      RemoveFound(Entries(), inTag, k);
      if n != LINK {
        Remove(n, k);
      }
    }

    /** The loop of DtsFetchMdata that clears lost pictures. */
    method ClearLost(snum: nat)
      requires Valid() && snum <= MAX_TAG
      modifies this
      ensures Valid() && Entries() == CleanOld(old(Entries()), inMdataTag, snum, 0)
      ensures out == old(out) && inMdataTag == old(inMdataTag) && lastFetchTag == old(lastFetchTag)
    {
      var i := 0;
      while i < 100
        invariant Valid() && i <= 100 && out == old(out)
        invariant inMdataTag == old(inMdataTag) && lastFetchTag == old(lastFetchTag)
        invariant CleanOld(Entries(), inMdataTag, snum, i) == CleanOld(old(Entries()), inMdataTag, snum, 0)
      {
        var tsnum := ToInt16(snum - (10 + i));
        if tsnum < 0 {
          break;
        }
        CleanTurn(Entries(), inMdataTag, snum, i, tsnum);
        RemoveTagged(IntTag(inMdataTag, tsnum));
        i := i + 1;
      }
      CleanEnd(Entries(), inMdataTag, snum, i);
    }

    /** DtsFetchMdata; `stamp` is what pout receives. */
    method Fetch(snum: nat) returns (sts: Status, stamp: nat)
      requires Valid() && snum <= MAX_TAG
      modifies this
      ensures Valid() && out == old(out) && inMdataTag == old(inMdataTag)
      ensures var (found, q) := MdataQueue.Fetch(old(Entries()), inMdataTag, snum);
              && Entries() == q
              && sts == (if found.Some? then Success else NoData)
              && (found.Some? ==> stamp == found.value)
              && View() == Step(old(View()), Take(snum))
    {
      stamp := 0;
      TakeStep(View(), snum);
      if snum == 0 {
        return NoData, 0;
      }
      var inTag := IntTag(inMdataTag, snum);
      var temp;
      ghost var k;
      temp, k := FindPending(inTag);
      FetchFound(Entries(), inMdataTag, snum, k);
      if temp == LINK {
        return NoData, 0;
      }
      stamp := data[temp].appTimeStamp;
      TakeOut(temp, inTag, snum, k);
      return Success, stamp;
    }

    /** What is done with the node found. */
    method TakeOut(temp: int, inTag: nat, snum: nat, ghost k: nat)
      requires Valid() && snum <= MAX_TAG && k < |pend| && pend[k] == temp && k == Find(Entries(), inTag)
      modifies this
      ensures Valid() && Entries() == CleanOld(RemoveTag(old(Entries()), inTag), inMdataTag, snum, 0)
      ensures out == old(out) && inMdataTag == old(inMdataTag) && lastFetchTag == inTag
    {
      RemoveFound(Entries(), inTag, k);
      Remove(temp, k);
      lastFetchTag := inTag;
      ClearLost(snum);
    }
  }

  lemma PartitionRemove(free: seq<int>, pend: seq<int>, out: set<int>, k: nat)
    requires Partition(free, pend, out) && k < |pend|
    ensures Partition(free, Without(pend, k), out + {pend[k]})
  {
    WithoutNodes(pend, k);
    forall n ensures n in pend <==> n in Without(pend, k) || n == pend[k] {
    }
  }

  lemma PartitionTake(free: seq<int>, pend: seq<int>, out: set<int>)
    requires Partition(free, pend, out) && free != []
    ensures Partition(free[1..], pend, out + {free[0]})
  {
    forall n ensures n in free <==> n in free[1..] || n == free[0] {
    }
  }

  lemma FreshPartition(free: seq<int>)
    requires free == seq(POOL_SZ, i => POOL_SZ - 1 - i)
    ensures Partition(free, [], {})
  {
    forall n | 0 <= n < POOL_SZ ensures n in free {
      assert free[POOL_SZ - 1 - n] == n;
    }
  }
}
