/**
 The transmit ring of the Crystal HD library as a state machine of one producer
 (txBufPush) and one consumer (txBufPop).  Each call is split where another
 thread can observe it: every byte of a memcpy, the pointer update, and the two
 counter updates made under pushpopLock.
 */
module TxRingSteps {
  import opened Bytes

  datatype Lock = Open | ByProducer | ByConsumer

  /** What a thread does next; Barred is a pop that was refused: it returned with
      flushLock held, so no later pop can begin. */
  datatype Phase = Rest | Copy(k: nat) | Advance | CountBusy | CountFree | Barred

  /** One end of the ring.  A call of `size` bytes moves them in at most two
      segments; the current one has `len` bytes, begins at offset `off` of the
      call and at buffer index `at`, and is the second one when `wrapped`.
      `ptr` is readPointer or writePointer.  `base` is history: the position in
      the byte stream where the current segment begins. */
  datatype End = End(ptr: nat, base: nat, size: nat, off: nat, len: nat, at: nat, wrapped: bool, phase: Phase)

  /** `pushed` and `popped` are history: every byte accepted, every byte delivered. */
  datatype Ring = Ring(
    buf: seq<Byte>, freeSize: int, busySize: int, lock: Lock, input: seq<Byte>,
    producer: End, consumer: End, pushed: seq<Byte>, popped: seq<Byte>)

  datatype Action = StartPush(data: seq<Byte>) | PushStep | StartPop(size: nat) | PopStep

  function Init(buf: seq<Byte>): Ring {
    var e := End(0, 0, 0, 0, 0, 0, false, Rest);
    Ring(buf, |buf|, 0, Open, [], e, e, [], [])
  }

  // ----- what both calls share -----

  /** How much fits before the top of the buffer. */
  function BeginEnd(e: End, size: nat, total: nat): End
    requires e.ptr < total
  {
    End(e.ptr, e.base, size, 0, Min(size, total - e.ptr), e.ptr, false, Copy(0))
  }

  function AdvanceEnd(e: End, total: nat): End
    requires 0 < total
  {
    e.(ptr := if e.wrapped then e.len else (e.ptr + e.len) % total, phase := CountBusy)
  }

  /** After the counters: the segment below the wrap, or done. */
  function FinishEnd(e: End): End
    requires e.len <= e.size
  {
    if !e.wrapped && e.size != e.len then
      End(e.ptr, e.base + e.len, e.size, e.len, e.size - e.len, 0, true, Copy(0))
    else
      End(e.ptr, e.base + e.len, 0, 0, 0, e.ptr, false, Rest)
  }

  predicate Runnable(e: End, total: nat, lock: Lock) {
    && !e.phase.Rest? && !e.phase.Barred?
    && 0 < total
    && e.off + e.len <= e.size
    && e.at + e.len <= total
    && (e.phase.CountBusy? ==> lock == Open)
  }

  // ----- the producer -----

  /** The size check of txBufPush reads freeSize without a lock. */
  function BeginPush(s: Ring, data: seq<Byte>): Ring
    requires s.producer.ptr < |s.buf|
  {
    if s.freeSize < |data| then s
    else s.(producer := BeginEnd(s.producer, |data|, |s.buf|), input := data, pushed := s.pushed + data)
  }

  predicate PushEnabled(s: Ring) {
    Runnable(s.producer, |s.buf|, s.lock) && s.producer.size == |s.input|
  }

  function NextPush(s: Ring): Ring
    requires PushEnabled(s)
  {
    var e := s.producer;
    match e.phase
    case Copy(k) =>
      if k < e.len then
        s.(buf := s.buf[e.at + k := s.input[e.off + k]], producer := e.(phase := Copy(k + 1)))
      else
        s.(producer := e.(phase := Advance))
    case Advance =>
      s.(producer := AdvanceEnd(e, |s.buf|))
    case CountBusy =>
      s.(busySize := s.busySize + e.len, lock := ByProducer, producer := e.(phase := CountFree))
    case CountFree =>
      s.(freeSize := s.freeSize - e.len, lock := Open, producer := FinishEnd(e))
  }

  // ----- the consumer -----

  function BeginPop(s: Ring, size: nat): Ring
    requires s.consumer.ptr < |s.buf|
  {
    if size > s.busySize then s.(consumer := s.consumer.(phase := Barred))
    else s.(consumer := BeginEnd(s.consumer, size, |s.buf|))
  }

  predicate PopEnabled(s: Ring) {
    Runnable(s.consumer, |s.buf|, s.lock)
  }

  function NextPop(s: Ring): Ring
    requires PopEnabled(s)
  {
    var e := s.consumer;
    match e.phase
    case Copy(k) =>
      if k < e.len then
        s.(popped := s.popped + [s.buf[e.at + k]], consumer := e.(phase := Copy(k + 1)))
      else
        s.(consumer := e.(phase := Advance))
    case Advance =>
      s.(consumer := AdvanceEnd(e, |s.buf|))
    case CountBusy =>
      s.(busySize := s.busySize - e.len, lock := ByConsumer, consumer := e.(phase := CountFree))
    case CountFree =>
      s.(freeSize := s.freeSize + e.len, lock := Open, consumer := FinishEnd(e))
  }

  // ----- runs -----

  predicate Enabled(s: Ring, a: Action) {
    match a
    case StartPush(_) => s.producer.phase.Rest? && s.producer.ptr < |s.buf|
    case PushStep => PushEnabled(s)
    case StartPop(_) => s.consumer.phase.Rest? && s.consumer.ptr < |s.buf|
    case PopStep => PopEnabled(s)
  }

  function Apply(s: Ring, a: Action): Ring
    requires Enabled(s, a)
  {
    match a
    case StartPush(data) => BeginPush(s, data)
    case PushStep => NextPush(s)
    case StartPop(size) => BeginPop(s, size)
    case PopStep => NextPop(s)
  }

  /** `s` can be reached from `from` by the interleaving `run`. */
  predicate Reaches(from: Ring, run: seq<Action>, s: Ring)
    decreases run
  {
    if run == [] then s == from
    else Enabled(from, run[0]) && Reaches(Apply(from, run[0]), run[1..], s)
  }

  // ----- the invariant -----

  /** The buffer index that holds byte `i` of the stream. */
  function Slot(i: nat, total: nat): (r: nat)
    requires 0 < total
    ensures r < total
    decreases i
  {
    if i < total then i else Slot(i - total, total)
  }

  /** Bytes of the current segment already copied. */
  function Copied(e: End): nat {
    if e.phase.Copy? then e.phase.k else e.len
  }

  /** Bytes of the current segment the pointer has moved past. */
  function Advanced(e: End): nat {
    if e.phase.CountBusy? || e.phase.CountFree? then e.len else 0
  }

  /** Bytes of the current segment that busySize counts and freeSize does not yet. */
  function HalfCounted(e: End): nat {
    if e.phase.CountFree? then e.len else 0
  }

  /** First stream position after the current call. */
  function CallEnd(e: End): int {
    e.base - e.off + e.size
  }

  predicate Shape(e: End) {
    && Copied(e) <= e.len
    && e.off <= e.base
    && (if e.wrapped then e.at == 0 && 0 < e.off && e.off + e.len == e.size
        else e.off == 0 && e.len <= e.size)
    && (e.phase.Rest? || e.phase.Barred? ==> e.size == 0 && !e.wrapped)
  }

  predicate Placed(e: End, total: nat)
    requires 0 < total
  {
    && e.at == Slot(e.base, total)
    && e.at + e.len <= total
    && e.size <= total
    && e.ptr == Slot(e.base + Advanced(e), total)
    && (!e.wrapped && e.len < e.size ==> e.at + e.len == total)
  }

  predicate Counted(s: Ring) {
    && s.busySize == s.producer.base + HalfCounted(s.producer) - s.consumer.base - HalfCounted(s.consumer)
    && s.freeSize == |s.buf| - s.producer.base + s.consumer.base
    && (s.lock == ByProducer <==> s.producer.phase.CountFree?)
    && (s.lock == ByConsumer <==> s.consumer.phase.CountFree?)
  }

  /** Nothing is accepted that does not fit; nothing is popped that is not there. */
  predicate Bounded(s: Ring) {
    && |s.pushed| == CallEnd(s.producer) <= s.consumer.base + |s.buf|
    && CallEnd(s.consumer) <= s.producer.base + HalfCounted(s.producer)
    && s.consumer.base + HalfCounted(s.consumer) <= s.producer.base
    && |s.popped| == s.consumer.base + Copied(s.consumer)
  }

  /** Stream bytes from `lo` to `hi` sit in their slots. */
  ghost predicate Buffered(buf: seq<Byte>, stream: seq<Byte>, lo: nat, hi: nat) {
    && 0 < |buf|
    && hi <= |stream|
    && forall i: nat :: lo <= i < hi ==> buf[Slot(i, |buf|)] == stream[i]
  }

  predicate IsSuffix(tail: seq<Byte>, all: seq<Byte>) {
    |tail| <= |all| && all[|all| - |tail|..] == tail
  }

  ghost predicate Stored(s: Ring) {
    && s.popped <= s.pushed
    && (s.producer.phase.Rest? || s.producer.size == |s.input|)
    && IsSuffix(s.input, s.pushed)
    && Buffered(s.buf, s.pushed, s.consumer.base, s.producer.base + Copied(s.producer))
  }

  ghost predicate Inv(s: Ring) {
    && 0 < |s.buf|
    && Shape(s.producer) && Shape(s.consumer)
    && Placed(s.producer, |s.buf|) && Placed(s.consumer, |s.buf|)
    && !s.producer.phase.Barred?
    && Counted(s) && Bounded(s) && Stored(s)
  }

  // ----- arithmetic of slots -----

  lemma {:induction false} SlotStep(a: nat, k: nat, total: nat)
    requires 0 < total && Slot(a, total) + k <= total
    ensures Slot(a + k, total) == if Slot(a, total) + k < total then Slot(a, total) + k else 0
    decreases a
  {
    if a >= total {
      SlotStep(a - total, k, total);
    }
  }

  lemma {:induction false} SlotDistinct(i: nat, j: nat, total: nat)
    requires 0 < total && i < j < i + total
    ensures Slot(i, total) != Slot(j, total)
    decreases i
  {
    if i >= total {
      SlotDistinct(i - total, j - total, total);
    } else if j >= total {
      assert Slot(j, total) == Slot(j - total, total) == j - total;
    }
  }

  lemma ModOfAtMost(x: nat, total: nat)
    requires x <= total && 0 < total
    ensures x % total == if x < total then x else 0
  {
  }

  // ----- one end -----

  lemma BeginEndOk(e: End, size: nat, total: nat)
    requires size <= total && 0 < total && e.phase.Rest? && Shape(e) && Placed(e, total)
    ensures var e' := BeginEnd(e, size, total); Shape(e') && Placed(e', total)
  {
  }

  lemma AdvanceEndOk(e: End, total: nat)
    requires 0 < total && Shape(e) && Placed(e, total) && e.phase.Advance?
    ensures var e' := AdvanceEnd(e, total); Shape(e') && Placed(e', total)
  {
    SlotStep(e.base, e.len, total);
    ModOfAtMost(e.at + e.len, total);
  }

  lemma FinishEndOk(e: End, total: nat)
    requires 0 < total && Shape(e) && Placed(e, total) && e.phase.CountFree?
    ensures var e' := FinishEnd(e); Shape(e') && Placed(e', total)
  {
    SlotStep(e.base, e.len, total);
  }

  // ----- every step keeps the invariant -----

  lemma BeginPushInv(s: Ring, data: seq<Byte>)
    requires Inv(s) && s.producer.phase.Rest?
    ensures Inv(BeginPush(s, data))
  {
    if |data| <= s.freeSize {
      BeginEndOk(s.producer, |data|, |s.buf|);
    }
  }

  lemma BeginPopInv(s: Ring, size: nat)
    requires Inv(s) && s.consumer.phase.Rest?
    ensures Inv(BeginPop(s, size))
  {
    if size <= s.busySize {
      BeginEndOk(s.consumer, size, |s.buf|);
    }
  }

  lemma BufferedWrite(buf: seq<Byte>, stream: seq<Byte>, lo: nat, hi: nat)
    requires Buffered(buf, stream, lo, hi) && hi < |stream| && hi < lo + |buf|
    ensures Buffered(buf[Slot(hi, |buf|) := stream[hi]], stream, lo, hi + 1)
  {
    forall i: nat | lo <= i < hi ensures Slot(i, |buf|) != Slot(hi, |buf|) {
      SlotDistinct(i, hi, |buf|);
    }
  }

  /** The slot the producer writes next holds no byte that is still unread. */
  lemma PushTargetIsFree(s: Ring, i: nat)
    requires Inv(s) && s.producer.phase.Copy? && s.producer.phase.k < s.producer.len
    requires s.consumer.base <= i < s.producer.base + s.producer.phase.k
    ensures Slot(i, |s.buf|) != s.producer.at + s.producer.phase.k
  {
    var e := s.producer;
    SlotStep(e.base, e.phase.k, |s.buf|);
    SlotDistinct(i, e.base + e.phase.k, |s.buf|);
  }

  lemma PushCopyStored(s: Ring)
    requires Inv(s) && PushEnabled(s) && s.producer.phase.Copy? && s.producer.phase.k < s.producer.len
    ensures Stored(NextPush(s))
  {
    var hi := s.producer.base + s.producer.phase.k;
    NextPushed(s, hi);
    BufferedWrite(s.buf, s.pushed, s.consumer.base, hi);
    OneByte(s, hi);
  }

  lemma OneByte(s: Ring, hi: nat)
    requires PushEnabled(s) && s.producer.phase.Copy? && s.producer.phase.k < s.producer.len && 0 < |s.buf|
    requires hi == s.producer.base + s.producer.phase.k < |s.pushed|
    requires Slot(hi, |s.buf|) == s.producer.at + s.producer.phase.k
    requires s.pushed[hi] == s.input[s.producer.off + s.producer.phase.k]
    ensures NextPush(s) == s.(buf := s.buf[Slot(hi, |s.buf|) := s.pushed[hi]],
                              producer := s.producer.(phase := Copy(s.producer.phase.k + 1)))
  {
  }

  /** The byte a push copies next is the byte of the stream that goes to its slot. */
  lemma NextPushed(s: Ring, hi: nat)
    requires Inv(s) && s.producer.phase.Copy? && s.producer.phase.k < s.producer.len
    requires hi == s.producer.base + s.producer.phase.k
    ensures Slot(hi, |s.buf|) == s.producer.at + s.producer.phase.k && hi < |s.pushed| && hi < s.consumer.base + |s.buf|
    ensures s.producer.off + s.producer.phase.k < |s.input|
    ensures s.pushed[hi] == s.input[s.producer.off + s.producer.phase.k]
  {
    SlotStep(s.producer.base, s.producer.phase.k, |s.buf|);
  }

  lemma PushCopyControl(s: Ring)
    requires PushEnabled(s) && s.producer.phase.Copy?
    requires Counted(s) && Bounded(s) && Shape(s.producer) && Placed(s.producer, |s.buf|)
    ensures var s' := NextPush(s);
            Counted(s') && Bounded(s') && Shape(s'.producer) && Placed(s'.producer, |s'.buf|)
  {
    PushCopyShape(s);
    PushCopyCounts(s);
  }

  lemma PushCopyShape(s: Ring)
    requires PushEnabled(s) && s.producer.phase.Copy? && Shape(s.producer) && Placed(s.producer, |s.buf|)
    ensures var s' := NextPush(s);
            && s'.consumer == s.consumer && |s'.buf| == |s.buf| && Shape(s'.producer) && Placed(s'.producer, |s'.buf|)
            && s'.producer.(phase := Rest) == s.producer.(phase := Rest) && HalfCounted(s'.producer) == 0
            && (s'.producer.phase.Copy? || s'.producer.phase.Advance?)
  {
  }

  lemma PushCopyCounts(s: Ring)
    requires PushEnabled(s) && s.producer.phase.Copy? && Counted(s) && Bounded(s)
    ensures Counted(NextPush(s)) && Bounded(NextPush(s))
  {
  }

  lemma PushCopyInv(s: Ring)
    requires Inv(s) && PushEnabled(s) && s.producer.phase.Copy? && s.producer.phase.k < s.producer.len
    ensures Inv(NextPush(s))
  {
    PushCopyControl(s);
    PushCopyStored(s);
  }

  lemma PushCopyDoneInv(s: Ring)
    requires Inv(s) && PushEnabled(s) && s.producer.phase == Copy(s.producer.len)
    ensures Inv(NextPush(s))
  {
    PushCopyControl(s);
  }

  lemma PushAdvanceInv(s: Ring)
    requires Inv(s) && PushEnabled(s) && s.producer.phase.Advance?
    ensures Inv(NextPush(s))
  {
    AdvanceEndOk(s.producer, |s.buf|);
  }

  lemma PushCountBusyInv(s: Ring)
    requires Inv(s) && PushEnabled(s) && s.producer.phase.CountBusy?
    ensures Inv(NextPush(s))
  {
  }

  lemma PushCountFreeInv(s: Ring)
    requires Inv(s) && PushEnabled(s) && s.producer.phase.CountFree?
    ensures Inv(NextPush(s))
  {
    FinishEndOk(s.producer, |s.buf|);
  }

  /** The byte a pop copies next is the next byte of the stream. */
  lemma PopReadsNext(s: Ring)
    requires Inv(s) && s.consumer.phase.Copy? && s.consumer.phase.k < s.consumer.len
    ensures |s.popped| < |s.pushed| && s.buf[s.consumer.at + s.consumer.phase.k] == s.pushed[|s.popped|]
  {
    var e := s.consumer;
    SlotStep(e.base, e.phase.k, |s.buf|);
    assert Slot(|s.popped|, |s.buf|) == e.at + e.phase.k;
  }

  lemma PopCopyInv(s: Ring)
    requires Inv(s) && PopEnabled(s) && s.consumer.phase.Copy? && s.consumer.phase.k < s.consumer.len
    ensures Inv(NextPop(s))
  {
    PopReadsNext(s);
    PopCopyControl(s);
  }

  lemma PopCopyControl(s: Ring)
    requires Inv(s) && PopEnabled(s) && s.consumer.phase.Copy? && s.consumer.phase.k < s.consumer.len
    ensures var s' := NextPop(s);
            Counted(s') && Bounded(s') && Shape(s'.consumer) && Placed(s'.consumer, |s'.buf|)
  {
  }

  lemma PopCopyDoneInv(s: Ring)
    requires Inv(s) && PopEnabled(s) && s.consumer.phase == Copy(s.consumer.len)
    ensures Inv(NextPop(s))
  {
  }

  lemma PopAdvanceInv(s: Ring)
    requires Inv(s) && PopEnabled(s) && s.consumer.phase.Advance?
    ensures Inv(NextPop(s))
  {
    AdvanceEndOk(s.consumer, |s.buf|);
  }

  lemma PopCountBusyInv(s: Ring)
    requires Inv(s) && PopEnabled(s) && s.consumer.phase.CountBusy?
    ensures Inv(NextPop(s))
  {
  }

  lemma PopCountFreeInv(s: Ring)
    requires Inv(s) && PopEnabled(s) && s.consumer.phase.CountFree?
    ensures Inv(NextPop(s))
  {
    FinishEndOk(s.consumer, |s.buf|);
  }

  lemma ApplyInv(s: Ring, a: Action)
    requires Inv(s) && Enabled(s, a)
    ensures Inv(Apply(s, a))
  {
    match a
    case StartPush(data) => BeginPushInv(s, data);
    case StartPop(size) => BeginPopInv(s, size);
    case PushStep =>
      match s.producer.phase {
        case Copy(k) => if k < s.producer.len { PushCopyInv(s); } else { PushCopyDoneInv(s); }
        case Advance => PushAdvanceInv(s);
        case CountBusy => PushCountBusyInv(s);
        case CountFree => PushCountFreeInv(s);
      }
    case PopStep =>
      match s.consumer.phase {
        case Copy(k) => if k < s.consumer.len { PopCopyInv(s); } else { PopCopyDoneInv(s); }
        case Advance => PopAdvanceInv(s);
        case CountBusy => PopCountBusyInv(s);
        case CountFree => PopCountFreeInv(s);
      }
  }

  lemma {:induction false} RunInv(s: Ring, run: seq<Action>, s': Ring)
    requires Inv(s) && Reaches(s, run, s')
    ensures Inv(s')
    decreases run
  {
    if run != [] {
      ApplyInv(s, run[0]);
      RunInv(Apply(s, run[0]), run[1..], s');
    }
  }

  // ----- what the callers gave and asked for -----

  /** The data of the pushes that found room for it, in order. */
  function Offered(s: Ring, run: seq<Action>): seq<Byte>
    decreases run
  {
    if run == [] || !Enabled(s, run[0]) then []
    else Given(run[0], s.freeSize) + Offered(Apply(s, run[0]), run[1..])
  }

  function Given(a: Action, freeSize: int): seq<Byte> {
    if a.StartPush? && |a.data| <= freeSize then a.data else []
  }

  /** The sizes of the pops that were not refused, together. */
  function Asked(s: Ring, run: seq<Action>): nat
    decreases run
  {
    if run == [] || !Enabled(s, run[0]) then 0
    else (if run[0].StartPop? && run[0].size <= s.busySize then run[0].size else 0) + Asked(Apply(s, run[0]), run[1..])
  }

  lemma {:induction false} PushedIsOffered(s: Ring, run: seq<Action>, s': Ring)
    requires Inv(s) && Reaches(s, run, s')
    ensures s'.pushed == s.pushed + Offered(s, run)
    decreases run
  {
    if run != [] {
      var next := Apply(s, run[0]);
      StepTakes(s, run[0]);
      ApplyInv(s, run[0]);
      PushedIsOffered(next, run[1..], s');
      Group(s.pushed, Given(run[0], s.freeSize), Offered(next, run[1..]));
    }
  }

  /** Nothing but the start of a push that finds room adds to the stream, and that its data. */
  lemma StepTakes(s: Ring, a: Action)
    requires Inv(s) && Enabled(s, a)
    ensures Apply(s, a).pushed == s.pushed + Given(a, s.freeSize)
  {
  }

  lemma {:induction false} EndIsAsked(s: Ring, run: seq<Action>, s': Ring)
    requires Inv(s) && Reaches(s, run, s')
    ensures CallEnd(s'.consumer) == CallEnd(s.consumer) + Asked(s, run)
    decreases run
  {
    if run != [] {
      StepAsks(s, run[0]);
      ApplyInv(s, run[0]);
      EndIsAsked(Apply(s, run[0]), run[1..], s');
    }
  }

  lemma StepAsks(s: Ring, a: Action)
    requires Inv(s) && Enabled(s, a)
    ensures CallEnd(Apply(s, a).consumer)
            == CallEnd(s.consumer) + if a.StartPop? && a.size <= s.busySize then a.size else 0
  {
    if !a.StartPop? {
      StepExtends(s, a);
    }
  }

  // ----- what the invariant means -----

  /** The segment being written and the segment being read share no byte of the buffer. */
  predicate RegionsApart(s: Ring) {
    var p, c := s.producer, s.consumer;
    p.len == 0 || c.len == 0 || p.at + p.len <= c.at || c.at + c.len <= p.at
  }

  /** The segment being written has no slot of a byte that is still to be read, be it in
      the segment being read or behind it. */
  ghost predicate UnreadApart(s: Ring) {
    0 < |s.buf| && forall i: nat :: s.consumer.base <= i < s.producer.base ==> !InSegment(Slot(i, |s.buf|), s.producer)
  }

  predicate InSegment(slot: nat, e: End) {
    e.at <= slot < e.at + e.len
  }

  ghost predicate Safe(s: Ring) {
    && (s.lock == Open ==> s.freeSize + s.busySize == |s.buf|)
    && 0 <= s.freeSize <= |s.buf|
    && 0 <= s.busySize <= |s.buf|
    && s.popped <= s.pushed
    && (s.producer.phase.Copy? ==> RegionsApart(s) && UnreadApart(s))
    && (s.producer.phase.Rest? && s.consumer.phase.Rest? ==>
          Drain(s.buf, s.consumer.ptr, s.busySize) == s.pushed[|s.popped|..])
  }

  /** The `n` bytes that start at index `at`, going on at index 0 past the top. */
  function Drain(buf: seq<Byte>, at: nat, n: int): seq<Byte> {
    if n < 0 || |buf| < n || |buf| < at then []
    else if at + n <= |buf| then buf[at..at + n]
    else buf[at..] + buf[..at + n - |buf|]
  }

  lemma RegionsAreApart(s: Ring)
    requires Inv(s) && s.producer.phase.Copy?
    ensures RegionsApart(s) && UnreadApart(s)
  {
    SegmentsAreApart(s);
    forall i: nat | s.consumer.base <= i < s.producer.base ensures !InSegment(Slot(i, |s.buf|), s.producer) {
      UnreadIsApart(s, i);
    }
  }

  lemma UnreadIsApart(s: Ring, i: nat)
    requires Inv(s) && s.producer.phase.Copy? && s.consumer.base <= i < s.producer.base
    ensures !InSegment(Slot(i, |s.buf|), s.producer)
  {
    var p, slot := s.producer, Slot(i, |s.buf|);
    if InSegment(slot, p) {
      SlotStep(p.base, slot - p.at, |s.buf|);
      SlotDistinct(i, p.base + (slot - p.at), |s.buf|);
    }
  }

  lemma SegmentsAreApart(s: Ring)
    requires Inv(s) && s.producer.phase.Copy?
    ensures RegionsApart(s)
  {
    var p, c, total := s.producer, s.consumer, |s.buf|;
    if 0 < p.len && 0 < c.len {
      if p.at <= c.at < p.at + p.len {
        SlotStep(p.base, c.at - p.at, total);
        SlotDistinct(c.base, p.base + (c.at - p.at), total);
      } else if c.at <= p.at < c.at + c.len {
        SlotStep(c.base, p.at - c.at, total);
        SlotDistinct(c.base + (p.at - c.at), p.base, total);
      }
    }
  }

  /** Below the top, consecutive stream bytes stand in consecutive slots. */
  lemma {:induction false} PieceBuffered(buf: seq<Byte>, stream: seq<Byte>, lo: nat, hi: nat, at: nat, end: nat)
    requires Buffered(buf, stream, lo, hi) && lo <= hi
    requires at == Slot(lo, |buf|) && end == at + (hi - lo) <= |buf|
    ensures buf[at..end] == stream[lo..hi]
    decreases hi
  {
    if lo < hi {
      PieceBuffered(buf, stream, lo, hi - 1, at, end - 1);
      SlotStep(lo, hi - 1 - lo, |buf|);
      OneMore(buf, at, end);
      OneMore(stream, lo, hi);
    }
  }

  lemma OneMore(s: seq<Byte>, i: nat, j: nat)
    requires i < j <= |s|
    ensures s[i..j] == s[i..j - 1] + [s[j - 1]]
  {
  }

  lemma DrainBuffered(buf: seq<Byte>, stream: seq<Byte>, lo: nat, hi: nat)
    requires Buffered(buf, stream, lo, hi) && lo <= hi <= lo + |buf|
    ensures Drain(buf, Slot(lo, |buf|), hi - lo) == stream[lo..hi]
  {
    var at := Slot(lo, |buf|);
    var end := at + (hi - lo);
    if end <= |buf| {
      PieceBuffered(buf, stream, lo, hi, at, end);
    } else {
      var mid := lo + (|buf| - at);
      SlotStep(lo, |buf| - at, |buf|);
      PieceBuffered(buf, stream, lo, mid, at, |buf|);
      PieceBuffered(buf, stream, mid, hi, 0, end - |buf|);
      Adjacent(stream, lo, mid, hi);
      assert buf[at..] == buf[at..|buf|] && buf[..end - |buf|] == buf[0..end - |buf|];
    }
  }

  lemma CountersSafe(s: Ring)
    requires Counted(s) && Bounded(s) && Shape(s.producer) && Shape(s.consumer)
    ensures s.lock == Open ==> s.freeSize + s.busySize == |s.buf|
    ensures 0 <= s.freeSize <= |s.buf| && 0 <= s.busySize <= |s.buf|
  {
  }

  lemma InvIsSafe(s: Ring)
    requires Inv(s)
    ensures Safe(s)
  {
    CountersSafe(s);
    if s.producer.phase.Copy? {
      RegionsAreApart(s);
    }
    if s.producer.phase.Rest? && s.consumer.phase.Rest? {
      RestDrains(s);
    }
  }

  lemma RestDrains(s: Ring)
    requires Inv(s) && s.producer.phase.Rest? && s.consumer.phase.Rest?
    ensures Drain(s.buf, s.consumer.ptr, s.busySize) == s.pushed[|s.popped|..]
  {
    var lo, hi := s.consumer.base, s.producer.base;
    RestCounts(s);
    DrainBuffered(s.buf, s.pushed, lo, hi);
    assert s.pushed[lo..hi] == s.pushed[lo..];
  }

  lemma RestCounts(s: Ring)
    requires Inv(s) && s.producer.phase.Rest? && s.consumer.phase.Rest?
    ensures |s.popped| == s.consumer.base <= s.producer.base == |s.pushed|
    ensures s.busySize == s.producer.base - s.consumer.base
    ensures s.consumer.ptr == Slot(s.consumer.base, |s.buf|) && s.producer.base <= s.consumer.base + |s.buf|
    ensures Buffered(s.buf, s.pushed, s.consumer.base, s.producer.base)
  {
  }

  predicate AtZero(e: End) {
    e.phase.Rest? && e.ptr == e.base == e.size == e.off == e.len == e.at == 0 && !e.wrapped
  }

  lemma InitInv(s: Ring)
    requires 0 < |s.buf| && AtZero(s.producer) && AtZero(s.consumer)
    requires s.freeSize == |s.buf| && s.busySize == 0 && s.lock == Open
    requires |s.pushed| == 0 && |s.popped| == 0 && |s.input| == 0
    ensures Inv(s)
  {
  }

  lemma ReachableInv(buf: seq<Byte>, run: seq<Action>, s: Ring)
    requires 0 < |buf| && Reaches(Init(buf), run, s)
    ensures Inv(s)
  {
    InitInv(Init(buf));
    RunInv(Init(buf), run, s);
  }

  /** Safety over every interleaving of pushes and pops of any sizes; what has been pushed
      is the callers' data, and a consumer at rest has had as much of it as its calls asked. */
  lemma EveryRunIsSafe(buf: seq<Byte>, run: seq<Action>, s: Ring)
    requires 0 < |buf| && Reaches(Init(buf), run, s)
    ensures Safe(s) && s.pushed == Offered(Init(buf), run)
    ensures s.consumer.phase.Rest? ==>
              Asked(Init(buf), run) <= |s.pushed| && s.popped == s.pushed[..Asked(Init(buf), run)]
  {
    ReachableInv(buf, run, s);
    InvIsSafe(s);
    InitInv(Init(buf));
    FromEmpty(Init(buf), run, s);
    if s.consumer.phase.Rest? {
      RestTakes(s, Asked(Init(buf), run));
    }
  }

  lemma FromEmpty(s: Ring, run: seq<Action>, s': Ring)
    requires Inv(s) && |s.pushed| == 0 && CallEnd(s.consumer) == 0 && Reaches(s, run, s')
    ensures s'.pushed == Offered(s, run) && CallEnd(s'.consumer) == Asked(s, run)
  {
    PushedIsOffered(s, run, s');
    EndIsAsked(s, run, s');
    NothingInFront(s.pushed, Offered(s, run));
  }

  lemma NothingInFront(a: seq<Byte>, b: seq<Byte>)
    requires |a| == 0
    ensures a + b == b
  {
  }

  lemma RestTakes(s: Ring, n: nat)
    requires Inv(s) && s.consumer.phase.Rest? && CallEnd(s.consumer) == n
    ensures n <= |s.pushed| && s.popped == s.pushed[..n]
  {
    AtRest(s);
  }

  // ----- progress -----

  /** Own steps left in the current call. */
  function StepsLeft(e: End): nat {
    var second := if !e.wrapped && e.len < e.size then e.size - e.len + 4 else 0;
    match e.phase
    case Copy(k) => (if k < e.len then e.len - k else 0) + 4 + second
    case Advance => 3 + second
    case CountBusy => 2 + second
    case CountFree => 1 + second
    case Rest => 0
    case Barred => 0
  }

  /** A push in progress can take its next step, or waits for a pop that is about
      to release the lock; each of its steps brings it closer to its end, and the
      consumer never sets it back. */
  lemma PushProgress(s: Ring)
    requires Inv(s) && !s.producer.phase.Rest?
    ensures PushEnabled(s) || (s.lock == ByConsumer && PopEnabled(s) && NextPop(s).lock == Open)
    ensures PushEnabled(s) ==> StepsLeft(NextPush(s).producer) < StepsLeft(s.producer)
    ensures PopEnabled(s) ==> NextPop(s).producer == s.producer
  {
  }

  lemma PopProgress(s: Ring)
    requires Inv(s) && !s.consumer.phase.Rest? && !s.consumer.phase.Barred?
    ensures PopEnabled(s) || (s.lock == ByProducer && PushEnabled(s) && NextPush(s).lock == Open)
    ensures PopEnabled(s) ==> StepsLeft(NextPop(s).consumer) < StepsLeft(s.consumer)
    ensures PushEnabled(s) ==> NextPush(s).consumer == s.consumer
  {
  }

  /** What a step may do to the history: extend it, and for a pop in progress only
      up to the end of the call. */
  lemma StepExtends(s: Ring, a: Action)
    requires Inv(s) && Enabled(s, a)
    ensures var s' := Apply(s, a);
            && s.pushed <= s'.pushed && s.popped <= s'.popped
            && (!a.StartPop? ==> CallEnd(s'.consumer) == CallEnd(s.consumer))
  {
    match a
    case StartPush(_) =>
    case PushStep => PushExtends(s);
    case StartPop(_) =>
    case PopStep => PopExtends(s);
  }

  lemma PushExtends(s: Ring)
    requires PushEnabled(s)
    ensures NextPush(s).pushed == s.pushed && NextPush(s).popped == s.popped && NextPush(s).consumer == s.consumer
  {
  }

  lemma PopExtends(s: Ring)
    requires Inv(s) && PopEnabled(s)
    ensures NextPop(s).pushed == s.pushed && s.popped <= NextPop(s).popped
    ensures CallEnd(NextPop(s).consumer) == CallEnd(s.consumer)
  {
  }

  /** A pop of `size` bytes that is accepted and has come to rest again, with no
      other pop between, has delivered exactly the next `size` bytes of the stream,
      whatever the producer did meanwhile. */
  lemma {:induction false} PopDelivers(s: Ring, size: nat, run: seq<Action>, s': Ring)
    requires Inv(s) && s.consumer.phase.Rest? && size <= s.busySize
    requires forall a <- run :: !a.StartPop?
    requires Reaches(BeginPop(s, size), run, s') && s'.consumer.phase.Rest?
    ensures |s.popped| + size <= |s'.pushed|
    ensures s'.popped == s'.pushed[..|s.popped| + size]
  {
    var b := BeginPop(s, size);
    assert CallEnd(b.consumer) == |s.popped| + size by {
      AtRest(s);
    }
    BeginPopInv(s, size);
    CallEndKept(b, run, s');
    RunInv(b, run, s');
    AtRest(s');
  }

  /** A push of data that fits: with no other push between, the stream ends in that data; one
      that does not fit changes nothing. */
  lemma {:induction false} PushDelivers(s: Ring, data: seq<Byte>, run: seq<Action>, s': Ring)
    requires Inv(s) && s.producer.phase.Rest?
    requires forall a <- run :: !a.StartPush?
    requires Reaches(Apply(s, StartPush(data)), run, s')
    ensures |data| <= s.freeSize ==> s'.pushed == s.pushed + data
    ensures |data| > s.freeSize ==> Apply(s, StartPush(data)) == s && s'.pushed == s.pushed
  {
    var b := Apply(s, StartPush(data));
    ApplyInv(s, StartPush(data));
    PushedIsOffered(b, run, s');
    NothingOffered(b, run);
  }

  lemma {:induction false} NothingOffered(s: Ring, run: seq<Action>)
    requires forall a <- run :: !a.StartPush?
    ensures Offered(s, run) == []
    decreases run
  {
    if run != [] && Enabled(s, run[0]) {
      NothingOffered(Apply(s, run[0]), run[1..]);
    }
  }

  lemma AtRest(s: Ring)
    requires Inv(s) && s.consumer.phase.Rest?
    ensures |s.popped| == CallEnd(s.consumer) == s.consumer.base <= |s.pushed|
    ensures s.popped == s.pushed[..|s.popped|]
  {
  }

  lemma {:induction false} CallEndKept(s: Ring, run: seq<Action>, s': Ring)
    requires Inv(s) && Reaches(s, run, s')
    requires forall a <- run :: !a.StartPop?
    ensures CallEnd(s'.consumer) == CallEnd(s.consumer)
    decreases run
  {
    if run != [] {
      StepExtends(s, run[0]);
      ApplyInv(s, run[0]);
      CallEndKept(Apply(s, run[0]), run[1..], s');
    }
  }

  /** A pop of more than busySize bytes is refused with flushLock still held: from
      then on no pop takes a step, in any run. */
  lemma {:induction false} RefusedPopBarsTheConsumer(s: Ring, size: nat, run: seq<Action>, s': Ring)
    requires Inv(s) && s.consumer.phase.Rest? && size > s.busySize
    requires Reaches(BeginPop(s, size), run, s')
    ensures s'.popped == s.popped && s'.consumer.phase.Barred?
  {
    BarredStays(BeginPop(s, size), run, s');
  }

  lemma {:induction false} BarredStays(s: Ring, run: seq<Action>, s': Ring)
    requires s.consumer.phase.Barred? && Reaches(s, run, s')
    ensures s'.popped == s.popped && s'.consumer.phase.Barred?
    decreases run
  {
    if run != [] {
      BarredStays(Apply(s, run[0]), run[1..], s');
    }
  }

  // ----- the ring as a queue -----

  predicate Quiet(s: Ring) {
    s.producer.phase.Rest? && s.consumer.phase.Rest?
  }

  function Unread(s: Ring): seq<Byte> {
    Drain(s.buf, s.consumer.ptr, s.busySize)
  }

  lemma {:induction false} HistoryGrows(s: Ring, run: seq<Action>, s': Ring)
    requires Inv(s) && Reaches(s, run, s')
    ensures s.pushed <= s'.pushed && s.popped <= s'.popped
    decreases run
  {
    if run != [] {
      StepExtends(s, run[0]);
      ApplyInv(s, run[0]);
      HistoryGrows(Apply(s, run[0]), run[1..], s');
    }
  }

  /** Between two quiet states, however the calls interleaved, what was waiting followed by
      the data of the pushes is what the pops took, all they asked for, followed by what
      waits now. */
  lemma QuietToQuietIsFifo(buf: seq<Byte>, before: seq<Action>, s: Ring, run: seq<Action>, s': Ring)
    requires 0 < |buf| && Reaches(Init(buf), before, s) && Quiet(s)
    requires Reaches(s, run, s') && Quiet(s')
    ensures s.popped <= s'.popped && |s'.popped| == |s.popped| + Asked(s, run)
    ensures Unread(s) + Offered(s, run) == s'.popped[|s.popped|..] + Unread(s')
  {
    ReachableInv(buf, before, s);
    Between(s, run, s');
    UnreadIsSuffix(s);
    UnreadIsSuffix(s');
    SplitTwice(s.popped, s.pushed, s'.popped, Offered(s, run));
  }

  lemma Between(s: Ring, run: seq<Action>, s': Ring)
    requires Inv(s) && Quiet(s) && Reaches(s, run, s') && Quiet(s')
    ensures Inv(s') && s.popped <= s'.popped && |s'.popped| == |s.popped| + Asked(s, run)
    ensures s'.pushed == s.pushed + Offered(s, run)
  {
    RunInv(s, run, s');
    HistoryGrows(s, run, s');
    PushedIsOffered(s, run, s');
    EndIsAsked(s, run, s');
    AtRest(s);
    AtRest(s');
  }

  lemma SplitTwice(b: seq<Byte>, a: seq<Byte>, b': seq<Byte>, more: seq<Byte>)
    requires b <= a && b <= b' <= a + more
    ensures a[|b|..] + more == b'[|b|..] + (a + more)[|b'|..]
  {
  }

  lemma UnreadIsSuffix(s: Ring)
    requires Inv(s) && Quiet(s)
    ensures s.popped <= s.pushed && Unread(s) == s.pushed[|s.popped|..]
  {
    InvIsSafe(s);
  }
}
