/** The byte rope of gsm.c: without storage it only counts, with storage it also writes. */
module GsmRope {
  import opened Bytes

  /** The storage needed for `count` bytes, by halves. */
  function NewMax(max: nat, count: nat): (n: nat)
    ensures n >= max && n >= count
    decreases count - max
  {
    if max >= count then max else NewMax(max + (max / 2 + 4), count)
  }

  /** What realloc gives: `heap` is what the memory held before, and the bytes of the old
      storage come first, unless that was the built-in one. */
  function Grown(bytes: seq<Byte>, builtIn: bool, n: nat, heap: nat -> Byte): (s: seq<Byte>)
    requires |bytes| <= n
    ensures |s| == n
  {
    seq(n, i requires 0 <= i < n => if !builtIn && i < |bytes| then bytes[i] else heap(i))
  }

  /** What was written survives the growth, whatever the memory held, if and only if it is
      not in the built-in storage or there is nothing. */
  lemma SurvivesIff(bytes: seq<Byte>, builtIn: bool, n: nat, pos: nat)
    requires pos <= |bytes| <= n
    ensures (forall heap :: Grown(bytes, builtIn, n, heap)[..pos] == bytes[..pos]) <==> !builtIn || pos == 0
  {
    if builtIn && pos > 0 {
      var heap: nat -> Byte := _ => if bytes[0] == 0 then 1 else 0;
      assert Grown(bytes, builtIn, n, heap)[..pos][0] == heap(0) != bytes[..pos][0];
    }
  }

  class Rope {
    var data: array?<Byte>
    var max: nat
    var pos: nat
    /** The storage that is part of the record. */
    const data0: array<Byte>
    /** What new memory holds before it is written. */
    const heap: nat -> Byte

    ghost predicate Valid()
      reads this
    {
      data0.Length == 16 && (data != null ==> max == data.Length && pos <= max)
    }

    ghost predicate Room(n: nat)
      reads this
    {
      data != null && pos + n <= data.Length
    }

    ghost function Storage(): set<object>
      reads this
    {
      if data == null then {} else {data}
    }

    /** The storage with room for `n` more bytes. */
    ghost function Roomy(n: nat): (s: seq<Byte>)
      requires Valid() && data != null
      reads this, data
      ensures |s| >= pos + n
    {
      if Room(n) then data[..] else Grown(data[..], data == data0, NewMax(max, pos + n), heap)
    }

    /** gsm_rope_init */
    constructor (heap: nat -> Byte)
      ensures Valid() && data == null && pos == 0 && this.heap == heap
    {
      this.heap := heap;
      data0 := new Byte[16];
      data, max, pos := null, 0, 0;
    }

    /** gsm_rope_init_alloc */
    method InitAlloc(count: nat)
      requires Valid()
      modifies this
      ensures Valid() && pos == 0 && data != null
      ensures if count == 0 then data == data0 else fresh(data) && data[..] == ZeroBytes(count)
    {
      data, pos, max := data0, 0, 16;
      if count > 0 {
        data := new Byte[count](_ => 0);
        max := count;
      }
    }

    /** gsm_rope_ensure */
    method Ensure(newCount: nat)
      requires Valid()
      modifies this`data, this`max
      ensures Valid() && (data == null) == (old(data) == null)
      ensures max == if data == null then newCount else NewMax(old(max), newCount)
      ensures data != null ==> fresh(data) && data[..] == Grown(old(data[..]), old(data == data0), max, heap)
    {
      if data == null {
        max := newCount;
        return;
      }
      var newMax := max;
      while newMax < newCount
        invariant NewMax(newMax, newCount) == NewMax(max, newCount) && newMax >= max
      {
        newMax := newMax + (newMax / 2 + 4);
      }
      data := Realloc(if data == data0 then null else data, newMax, data[..]);
      max := newMax;
    }

    /** realloc; `bytes` are those of the storage that is to grow. */
    method Realloc(from: array?<Byte>, n: nat, ghost bytes: seq<Byte>) returns (to: array<Byte>)
      requires |bytes| <= n && (from != null ==> from[..] == bytes)
      ensures fresh(to) && to[..] == Grown(bytes, from == null, n, heap)
    {
      var f := heap;
      to := new Byte[n](i requires 0 <= i => f(i));
      if from != null {
        for i := 0 to from.Length
          invariant forall k :: 0 <= k < n ==> to[k] == if k < i then from[k] else heap(k)
        {
          to[i] := from[i];
        }
      }
    }

    /** gsm_rope_can_grow */
    method CanGrow(count: nat) returns (ok: bool)
      requires Valid()
      modifies this`data, this`max
      ensures Valid() && ok == (data != null) == (old(data) != null)
      ensures ok ==> pos + count <= data.Length && data[..] == old(Roomy(count))
      ensures if ok && !old(Room(count)) then fresh(data) else data == old(data)
      ensures ok && old(data) != data0 ==> data[..pos] == old(data[..pos])
    {
      if data == null {
        return false;
      }
      if pos + count > max {
        Ensure(pos + count);
      }
      return true;
    }

    /** gsm_rope_add_c */
    method AddC(c: Byte)
      requires Valid()
      modifies this, Storage()
      ensures Valid() && pos == old(pos) + 1 && (data == null) == (old(data) == null)
      ensures old(Room(1)) ==> data == old(data) && data[..] == old(data[..])[old(pos) := c]
      ensures old(data) != null ==> data[..] == old(Roomy(1))[old(pos) := c]
      ensures old(data) != null && old(data) != data0 ==> data[..pos] == old(data[..pos]) + [c]
    {
      var ok := CanGrow(1);
      if ok {
        data[pos] := c;
      }
      pos := pos + 1;
    }

    /** gsm_rope_add */
    method Add(buf: seq<Byte>)
      requires Valid()
      modifies this, Storage()
      ensures Valid() && pos == old(pos) + |buf| && (data == null) == (old(data) == null)
      ensures old(Room(|buf|)) ==> data == old(data) && data[..] == old(data[..pos]) + buf + old(data[pos + |buf|..])
      ensures old(data) != null ==> data[..] == old(Roomy(|buf|)[..pos] + buf + Roomy(|buf|)[pos + |buf|..])
      ensures old(data) != null && old(data) != data0 ==> data[..pos] == old(data[..pos]) + buf
    {
      var ok := CanGrow(|buf|);
      if ok {
        Copy(data, pos, buf);
      }
      pos := pos + |buf|;
    }

    /** gsm_rope_reserve: where the reserved bytes begin, if there is storage. */
    method Reserve(count: nat) returns (result: Option<nat>)
      requires Valid()
      modifies this
      ensures Valid() && pos == old(pos) + count && (data == null) == (old(data) == null)
      ensures result == if data == null then None else Some(old(pos))
      ensures old(Room(count)) ==> data == old(data)
      ensures old(data) != null ==> data[..] == old(Roomy(count))
      ensures old(data) != null && old(data) != data0 ==> data[..old(pos)] == old(data[..pos])
    {
      var ok := CanGrow(count);
      result := if ok then Some(pos) else None;
      pos := pos + count;
    }
  }

  /** memcpy */
  method Copy(a: array<Byte>, at: nat, buf: seq<Byte>)
    requires at + |buf| <= a.Length
    modifies a
    ensures a[..] == old(a[..at]) + buf + old(a[at + |buf|..])
  {
    for i := 0 to |buf|
      invariant a[..] == old(a[..at]) + buf[..i] + old(a[at + i..])
    {
      a[at + i] := buf[i];
    }
  }
}
