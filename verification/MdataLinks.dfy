/**
 Linked lists over the pool's nodes, on values: `links[n]` is the flink (or blink)
 of node `n`.  Node numbers stand for addresses in the pool; NULL and LINK, the
 address of MDPendHead, are the two that are not in it.
 */
module MdataLinks {
  import opened MdataQueue

  const NULL: int := -1
  const LINK: int := POOL_SZ

  type Links = seq<int>

  ghost predicate Nodes(s: seq<int>) {
    && (forall i :: 0 <= i < |s| ==> 0 <= s[i] < POOL_SZ)
    && (forall i, j :: 0 <= i < j < |s| ==> s[i] != s[j])
  }

  function At(s: seq<int>, i: int, end: int): int {
    if 0 <= i < |s| then s[i] else end
  }

  /** From each node of `s` to the next one, from the last to `end`. */
  ghost predicate Chained(links: Links, s: seq<int>, end: int) {
    && |links| == POOL_SZ + 1 && Nodes(s)
    && forall i {:trigger links[s[i]]} :: 0 <= i < |s| ==> links[s[i]] == At(s, i + 1, end)
  }

  ghost predicate Forward(flink: Links, s: seq<int>) {
    Chained(flink, s, LINK) && flink[LINK] == At(s, 0, LINK)
  }

  ghost predicate Backward(blink: Links, s: seq<int>) {
    && |blink| == POOL_SZ + 1 && Nodes(s)
    && (forall i {:trigger blink[s[i]]} :: 0 <= i < |s| ==> blink[s[i]] == At(s, i - 1, LINK))
    && blink[LINK] == At(s, |s| - 1, LINK)
  }

  function Without(s: seq<int>, k: nat): seq<int>
    requires k < |s|
  {
    s[..k] + s[k + 1..]
  }

  lemma WithoutNodes(s: seq<int>, k: nat)
    requires Nodes(s) && k < |s|
    ensures Nodes(Without(s, k))
    ensures forall i :: 0 <= i < |s| - 1 ==> Without(s, k)[i] == s[if i < k then i else i + 1]
  {
  }

  /** `s[k].blink.flink := s[k].flink` takes node `k` out of the forward circle. */
  lemma ForwardRemove(flink: Links, s: seq<int>, k: nat)
    requires Forward(flink, s) && k < |s|
    ensures Forward(flink[At(s, k - 1, LINK) := flink[s[k]]], Without(s, k))
  {
    WithoutNodes(s, k);
    var t, f := Without(s, k), flink[At(s, k - 1, LINK) := flink[s[k]]];
    forall i | 0 <= i < |t| ensures f[t[i]] == At(t, i + 1, LINK) {
      var j := if i < k then i else i + 1;
      assert t[i] == s[j] && flink[s[j]] == At(s, j + 1, LINK);
    }
  }

  /** `s[k].flink.blink := s[k].blink` takes node `k` out of the backward circle. */
  lemma BackwardRemove(blink: Links, s: seq<int>, k: nat)
    requires Backward(blink, s) && k < |s|
    ensures Backward(blink[At(s, k + 1, LINK) := blink[s[k]]], Without(s, k))
  {
    WithoutNodes(s, k);
    var t, b := Without(s, k), blink[At(s, k + 1, LINK) := blink[s[k]]];
    forall i | 0 <= i < |t| ensures b[t[i]] == At(t, i - 1, LINK) {
      BackwardAt(blink, s, k, i);
    }
    BackwardEnd(blink, s, k);
  }

  lemma BackwardEnd(blink: Links, s: seq<int>, k: nat)
    requires Backward(blink, s) && k < |s|
    ensures blink[At(s, k + 1, LINK) := blink[s[k]]][LINK] == At(Without(s, k), |s| - 2, LINK)
  {
    if k + 1 == |s| {
      assert blink[s[k]] == At(s, k - 1, LINK);
    }
  }

  lemma BackwardAt(blink: Links, s: seq<int>, k: nat, i: nat)
    requires Backward(blink, s) && k < |s| && i < |s| - 1
    ensures blink[At(s, k + 1, LINK) := blink[s[k]]][Without(s, k)[i]] == At(Without(s, k), i - 1, LINK)
  {
    if i < k {
      assert blink[s[i]] == At(s, i - 1, LINK);
    } else if i == k {
      assert blink[s[k]] == At(s, k - 1, LINK);
    } else {
      assert blink[s[i + 1]] == s[i] && s[i + 1] != s[k + 1];
    }
  }

  lemma ForwardInsert(flink: Links, s: seq<int>, n: int)
    requires Forward(flink, s) && 0 <= n < POOL_SZ && n !in s
    ensures Forward(flink[n := LINK][At(s, |s| - 1, LINK) := n], s + [n])
  {
    var t, f := s + [n], flink[n := LINK][At(s, |s| - 1, LINK) := n];
    forall i | 0 <= i < |t| ensures f[t[i]] == At(t, i + 1, LINK) {
      assert i < |s| ==> t[i] == s[i] && flink[s[i]] == At(s, i + 1, LINK);
    }
  }

  lemma BackwardInsert(blink: Links, s: seq<int>, n: int)
    requires Backward(blink, s) && 0 <= n < POOL_SZ && n !in s
    ensures Backward(blink[n := blink[LINK]][LINK := n], s + [n])
  {
    var t, b := s + [n], blink[n := blink[LINK]][LINK := n];
    forall i | 0 <= i < |t| ensures b[t[i]] == At(t, i - 1, LINK) {
      assert i < |s| ==> t[i] == s[i] && blink[s[i]] == At(s, i - 1, LINK);
    }
  }

  /** A write outside a list leaves it chained. */
  lemma ChainedFrame(links: Links, s: seq<int>, end: int, n: int, v: int)
    requires Chained(links, s, end) && 0 <= n < |links| && n !in s
    ensures Chained(links[n := v], s, end)
  {
  }

  lemma ForwardFrame(flink: Links, s: seq<int>, n: int, v: int)
    requires Forward(flink, s) && 0 <= n < POOL_SZ && n !in s
    ensures Forward(flink[n := v], s)
  {
  }

  lemma BackwardFrame(blink: Links, s: seq<int>, n: int, v: int)
    requires Backward(blink, s) && 0 <= n < POOL_SZ && n !in s
    ensures Backward(blink[n := v], s)
  {
  }

  lemma ChainedPop(links: Links, s: seq<int>)
    requires Chained(links, s, NULL) && s != []
    ensures Chained(links, s[1..], NULL) && links[s[0]] == At(s, 1, NULL)
  {
    forall i | 0 <= i < |s| - 1 ensures links[s[1..][i]] == At(s[1..], i + 1, NULL) {
      assert links[s[i + 1]] == At(s, i + 2, NULL);
    }
  }

  lemma ChainedPush(links: Links, s: seq<int>, n: int)
    requires Chained(links, s, NULL) && 0 <= n < POOL_SZ && n !in s
    ensures Chained(links[n := At(s, 0, NULL)], [n] + s, NULL)
  {
    var t, l := [n] + s, links[n := At(s, 0, NULL)];
    forall i | 0 <= i < |t| ensures l[t[i]] == At(t, i + 1, NULL) {
      assert 0 < i ==> t[i] == s[i - 1] && links[s[i - 1]] == At(s, i, NULL);
    }
  }
}
