/** One producer and one consumer on a ring, without a lock.

    `__kfifo_in` and `__kfifo_out` run as interleaved steps: each reads the other side's index once,
    copies slot by slot in any order, and publishes its own index last.  Memory is sequentially
    consistent, as the barriers in the copy routines demand.  `produced` and `consumed` record
    the published elements of the whole run. */
module Spsc {
  import opened Machine
  import opened KfifoCore

  /** Idle, or copying `src` with the positions in `done` already stored. */
  datatype Producer<T> = ProducerIdle | Storing(src: seq<T>, done: set<nat>)

  /** Idle, or copying `len` elements with those in `got` already fetched. */
  datatype Consumer<T> = ConsumerIdle | Fetching(len: nat, got: map<nat, T>)

  datatype State<T> = State(
    cells: seq<T>, inIdx: nat, outIdx: nat,
    producer: Producer<T>, consumer: Consumer<T>,
    produced: seq<T>, consumed: seq<T>)

  datatype Step<T> =
    | BeginIn(buf: seq<T>)
    | Store(i: nat)
    | PublishIn
    | BeginOut(len: nat)
    | Fetch(i: nat)
    | PublishOut

  ghost predicate RingSize(size: nat) {
    2 <= size <= U32 / 2 && IsPow2(size)
  }

  /** Slot of the element `i` behind index `idx`. */
  ghost function SlotOf(idx: nat, i: nat, size: nat): (r: nat)
    requires size > 0
    ensures r < size
  {
    Residue(Wrap32(idx + i), size)
  }

  /** Free slots and live elements, as either side computes them from the indices it reads. */
  ghost function Free<T>(s: State<T>): nat {
    Wrap32(|s.cells| - Wrap32(s.inIdx - s.outIdx))
  }

  ghost function Used<T>(s: State<T>): nat {
    Wrap32(s.inIdx - s.outIdx)
  }

  ghost function Collected<T>(len: nat, got: map<nat, T>): (r: seq<T>)
    requires forall i: nat | i < len :: i in got
    ensures |r| == len
  {
    seq(len, i requires 0 <= i < len => got[i])
  }

  ghost predicate Init<T>(s: State<T>) {
    && RingSize(|s.cells|) && s.inIdx == 0 && s.outIdx == 0
    && s.producer.ProducerIdle? && s.consumer.ConsumerIdle? && s.produced == [] && s.consumed == []
  }

  /** One atomic step of either side. */
  ghost predicate Next<T>(s: State<T>, s': State<T>, step: Step<T>) {
    |s.cells| > 0 &&
    match step
    case BeginIn(buf) =>
      && s.producer.ProducerIdle?
      && s' == s.(producer := Storing(buf[..Min(|buf|, Free(s))], {}))
    case Store(i) =>
      && s.producer.Storing? && i < |s.producer.src| && i !in s.producer.done
      && s' == s.(cells := s.cells[SlotOf(s.inIdx, i, |s.cells|) := s.producer.src[i]],
                  producer := s.producer.(done := s.producer.done + {i}))
    case PublishIn =>
      && s.producer.Storing? && (forall i: nat | i < |s.producer.src| :: i in s.producer.done)
      && s' == s.(inIdx := Wrap32(s.inIdx + |s.producer.src|), producer := ProducerIdle,
                  produced := s.produced + s.producer.src)
    case BeginOut(len) =>
      && s.consumer.ConsumerIdle?
      && s' == s.(consumer := Fetching(Min(len, Used(s)), map[]))
    case Fetch(i) =>
      && s.consumer.Fetching? && i < s.consumer.len && i !in s.consumer.got
      && s' == s.(consumer := s.consumer.(got := s.consumer.got[i := s.cells[SlotOf(s.outIdx, i, |s.cells|)]]))
    case PublishOut =>
      && s.consumer.Fetching? && (forall i: nat | i < s.consumer.len :: i in s.consumer.got)
      && s' == s.(outIdx := Wrap32(s.outIdx + s.consumer.len), consumer := ConsumerIdle,
                  consumed := s.consumed + Collected(s.consumer.len, s.consumer.got))
  }

  // ---------------------------------------------------------------- the invariant

  /** The indices are the stream positions, truncated to 32 bits, and at most a ring apart. */
  ghost predicate Counters<T>(s: State<T>) {
    && RingSize(|s.cells|)
    && |s.consumed| <= |s.produced| <= |s.consumed| + |s.cells|
    && s.inIdx == Wrap32(|s.produced|) && s.outIdx == Wrap32(|s.consumed|)
  }

  /** Every live slot holds its element, and what was consumed was produced. */
  ghost predicate LiveSlots<T>(s: State<T>)
    requires |s.cells| > 0
  {
    && s.consumed <= s.produced
    && forall j: nat | |s.consumed| <= j < |s.produced| ::
         s.cells[Residue(j, |s.cells|)] == s.produced[j]
  }

  /** The producer works on free slots, and the finished ones hold what they should. */
  ghost predicate StoringOk<T>(s: State<T>)
    requires |s.cells| > 0
  {
    s.producer.Storing? ==>
      && |s.produced| + |s.producer.src| <= |s.consumed| + |s.cells|
      && forall i: nat | i in s.producer.done ::
           i < |s.producer.src| && s.cells[Residue(|s.produced| + i, |s.cells|)] == s.producer.src[i]
  }

  /** The consumer works on live slots, and has fetched the right elements. */
  ghost predicate FetchingOk<T>(s: State<T>) {
    s.consumer.Fetching? ==>
      && |s.consumed| + s.consumer.len <= |s.produced|
      && forall i: nat | i in s.consumer.got ::
           i < s.consumer.len && s.consumer.got[i] == s.produced[|s.consumed| + i]
  }

  ghost predicate Inv<T>(s: State<T>) {
    Counters(s) && LiveSlots(s) && StoringOk(s) && FetchingOk(s)
  }

  /** No slot the producer still works on is one the consumer works on. */
  ghost predicate NoRace<T>(s: State<T>)
    requires |s.cells| > 0
  {
    s.producer.Storing? && s.consumer.Fetching? ==>
      forall i: nat, k: nat | i < |s.producer.src| && k < s.consumer.len ::
        SlotOf(s.inIdx, i, |s.cells|) != SlotOf(s.outIdx, k, |s.cells|)
  }

  // ---------------------------------------------------------------- arithmetic

  /** Positions less than one round apart are in different slots. */
  lemma {:induction false} SlotsDiffer(a: nat, b: nat, size: nat)
    requires size > 0 && a < b < a + size
    ensures Residue(a, size) != Residue(b, size)
    decreases a
  {
    if a >= size {
      SlotsDiffer(a - size, b - size, size);
    } else if b >= size {
      assert Residue(b, size) == Residue(b - size, size) == b - size;
    }
  }

  /** A truncated index leads to the slot of the untruncated stream position. */
  lemma SlotOfPosition(pos: nat, i: nat, size: nat)
    requires RingSize(size)
    ensures SlotOf(Wrap32(pos), i, size) == Residue(pos + i, size)
  {
    var order: nat :| size == Pow2(order);
    OrderSmall(order);
    Wrap32Residue(pos);
    Wrap32Residue(Wrap32(pos) + i);
    Wrap32Residue(pos + i);
    assert Wrap32(Wrap32(pos) + i) == Wrap32(pos + i) by { WrapTwice(pos, i); }
    Wrap32Mod(pos + i, order);
    ResidueMod(Wrap32(pos + i), size);
    ResidueMod(pos + i, size);
  }

  lemma WrapTwice(pos: nat, i: nat)
    ensures Wrap32(Wrap32(pos) + i) == Wrap32(pos + i)
  {
    Wrap32Residue(pos);
    Wrap32Residue(Wrap32(pos) + i);
    Wrap32Residue(pos + i);
  }

  /** The unsigned difference of the indices is the number of live elements. */
  lemma UsedIs(p: nat, c: nat)
    requires c <= p <= c + U32 / 2
    ensures Wrap32(Wrap32(p) - Wrap32(c)) == p - c
  {
    Wrap32Residue(p);
    Wrap32Residue(c);
    Wrap32Residue(Wrap32(p) - Wrap32(c));
  }

  // ---------------------------------------------------------------- every step keeps it

  lemma InitInv<T>(s: State<T>)
    requires Init(s)
    ensures Inv(s)
  {}

  lemma BeginInKeeps<T>(s: State<T>, s': State<T>, buf: seq<T>)
    requires Inv(s) && Next(s, s', BeginIn(buf))
    ensures Inv(s') && s'.producer.src == buf[..Min(|buf|, |s.cells| - (|s.produced| - |s.consumed|))]
  {
    hide Residue, Wrap32;
    UsedIs(|s.produced|, |s.consumed|);
    assert Free(s) == |s.cells| - (|s.produced| - |s.consumed|) by { Wrap32Small(|s.cells| - Used(s)); }
  }

  lemma StoreKeeps<T>(s: State<T>, s': State<T>, i: nat)
    requires Inv(s) && Next(s, s', Store(i))
    ensures Inv(s')
  {
    hide Residue, Wrap32;
    var size, at := |s.cells|, |s.produced| + i;
    SlotOfPosition(|s.produced|, i, size);
    forall j: nat | |s.consumed| <= j < |s.produced|
      ensures s'.cells[Residue(j, size)] == s.produced[j]
    {
      SlotsDiffer(j, at, size);
    }
    forall k: nat | k in s'.producer.done
      ensures k < |s.producer.src| && s'.cells[Residue(|s.produced| + k, size)] == s.producer.src[k]
    {
      if k < i { SlotsDiffer(|s.produced| + k, at, size); }
      if k > i { SlotsDiffer(at, |s.produced| + k, size); }
    }
  }

  lemma PublishInKeeps<T>(s: State<T>, s': State<T>)
    requires Inv(s) && Next(s, s', PublishIn)
    ensures Inv(s')
    ensures s'.produced == s.produced + s.producer.src
  {
    hide Residue, Wrap32;
    WrapTwice(|s.produced|, |s.producer.src|);
    forall j: nat | |s.consumed| <= j < |s'.produced|
      ensures s'.cells[Residue(j, |s.cells|)] == s'.produced[j]
    {
      if j >= |s.produced| { assert j - |s.produced| in s.producer.done; }
    }
  }

  lemma BeginOutKeeps<T>(s: State<T>, s': State<T>, len: nat)
    requires Inv(s) && Next(s, s', BeginOut(len))
    ensures Inv(s') && s'.consumer.len == Min(len, |s.produced| - |s.consumed|)
  {
    hide Residue, Wrap32;
    UsedIs(|s.produced|, |s.consumed|);
  }

  lemma FetchKeeps<T>(s: State<T>, s': State<T>, i: nat)
    requires Inv(s) && Next(s, s', Fetch(i))
    ensures Inv(s')
  {
    hide Residue, Wrap32;
    SlotOfPosition(|s.consumed|, i, |s.cells|);
  }

  lemma PublishOutKeeps<T>(s: State<T>, s': State<T>)
    requires Inv(s) && Next(s, s', PublishOut)
    ensures Inv(s')
    ensures s'.consumed == s.produced[..|s.consumed| + s.consumer.len]
  {
    hide Residue, Wrap32, Collected, SlotOf, IsPow2;
    WrapTwice(|s.consumed|, s.consumer.len);
    CollectedIsNext(s.produced, |s.consumed|, s.consumer.len, s.consumer.got);
    PrefixGrows(s.consumed, s.produced, s.consumer.len);
  }

  lemma CollectedIsNext<T>(produced: seq<T>, c: nat, n: nat, got: map<nat, T>)
    requires c + n <= |produced| && forall i: nat | i < n :: i in got
    requires forall i: nat | i in got :: i < n && got[i] == produced[c + i]
    ensures Collected(n, got) == produced[c..c + n]
  {}

  lemma PrefixGrows<T>(a: seq<T>, b: seq<T>, n: nat)
    requires a <= b && |a| + n <= |b|
    ensures a + b[|a|..|a| + n] == b[..|a| + n]
  {}

  lemma NextKeepsInv<T>(s: State<T>, s': State<T>, step: Step<T>)
    requires Inv(s) && Next(s, s', step)
    ensures Inv(s')
  {
    match step
    case BeginIn(buf) => BeginInKeeps(s, s', buf);
    case Store(i) => StoreKeeps(s, s', i);
    case PublishIn => PublishInKeeps(s, s');
    case BeginOut(len) => BeginOutKeeps(s, s', len);
    case Fetch(i) => FetchKeeps(s, s', i);
    case PublishOut => PublishOutKeeps(s, s');
  }

  lemma InvNoRace<T>(s: State<T>)
    requires Inv(s)
    ensures NoRace(s)
  {
    hide Residue, Wrap32;
    if s.producer.Storing? && s.consumer.Fetching? {
      forall i: nat, k: nat | i < |s.producer.src| && k < s.consumer.len
        ensures SlotOf(s.inIdx, i, |s.cells|) != SlotOf(s.outIdx, k, |s.cells|)
      {
        SlotOfPosition(|s.produced|, i, |s.cells|);
        SlotOfPosition(|s.consumed|, k, |s.cells|);
        SlotsDiffer(|s.consumed| + k, |s.produced| + i, |s.cells|);
      }
    }
  }

  /** The live elements, oldest first, as the consumer would read them. */
  ghost function LiveElements<T>(cells: seq<T>, inIdx: nat, outIdx: nat): seq<T>
    requires |cells| > 0
  {
    seq(Wrap32(inIdx - outIdx), k requires 0 <= k => cells[SlotOf(outIdx, k, |cells|)])
  }

  /** The ring is a bounded queue: what went in is what came out followed by what is live. */
  ghost predicate IsAQueue<T>(s: State<T>)
    requires |s.cells| > 0
  {
    && s.produced == s.consumed + LiveElements(s.cells, s.inIdx, s.outIdx)
    && Wrap32(s.inIdx - s.outIdx) <= |s.cells|
  }

  lemma InvIsAQueue<T>(s: State<T>)
    requires Inv(s)
    ensures IsAQueue(s)
  {
    hide Residue, Wrap32, LiveElements;
    UsedIs(|s.produced|, |s.consumed|);
    LiveLength(s.cells, s.inIdx, s.outIdx);
    var live, behind := LiveElements(s.cells, s.inIdx, s.outIdx), s.produced[|s.consumed|..];
    forall k: nat | k < |live| ensures live[k] == behind[k] {
      LiveIsProduced(s, k);
    }
    assert live == behind;
    assert s.produced == s.consumed + behind;
  }

  lemma LiveLength<T>(cells: seq<T>, inIdx: nat, outIdx: nat)
    requires |cells| > 0
    ensures |LiveElements(cells, inIdx, outIdx)| == Wrap32(inIdx - outIdx)
  {}

  lemma LiveIsProduced<T>(s: State<T>, k: nat)
    requires Inv(s) && k < |LiveElements(s.cells, s.inIdx, s.outIdx)| && |s.consumed| + k < |s.produced|
    ensures LiveElements(s.cells, s.inIdx, s.outIdx)[k] == s.produced[|s.consumed| + k]
  {
    hide Residue, Wrap32;
    SlotOfPosition(|s.consumed|, k, |s.cells|);
  }

  // ---------------------------------------------------------------- runs

  /** A run: any interleaving of steps from an initial state. */
  ghost predicate Run<T>(states: seq<State<T>>, steps: seq<Step<T>>) {
    && |states| == |steps| + 1 && Init(states[0])
    && forall i: nat | i < |steps| :: Next(states[i], states[i + 1], steps[i])
  }

  lemma {:induction false} RunInv<T>(states: seq<State<T>>, steps: seq<Step<T>>, i: nat)
    requires Run(states, steps) && i < |states|
    ensures Inv(states[i])
    decreases i
  {
    hide Init, Next, Inv;
    if i == 0 {
      InitInv(states[0]);
    } else {
      RunInv(states, steps, i - 1);
      NextKeepsInv(states[i - 1], states[i], steps[i - 1]);
    }
  }

  /** In every state of every run: what was consumed is a prefix of what was produced, exactly the
      ring's live elements are missing from it, and no slot is read while it is written. */
  lemma RunIsAQueue<T>(states: seq<State<T>>, steps: seq<Step<T>>, i: nat)
    requires Run(states, steps) && i < |states|
    ensures var s := states[i]; |s.cells| > 0 && IsAQueue(s) && NoRace(s)
  {
    hide Residue, Wrap32, IsAQueue, NoRace;
    RunInv(states, steps, i);
    InvIsAQueue(states[i]);
    InvNoRace(states[i]);
  }

  // ---------------------------------------------------------------- a call on its own

  /** Steps one after the other, from any state. */
  ghost predicate Path<T>(states: seq<State<T>>, steps: seq<Step<T>>) {
    && |states| == |steps| + 1
    && forall i: nat | i < |steps| :: Next(states[i], states[i + 1], steps[i])
  }

  lemma Extend<T>(states: seq<State<T>>, steps: seq<Step<T>>, s: State<T>, step: Step<T>)
    requires Path(states, steps) && Next(states[|steps|], s, step)
    ensures Path(states + [s], steps + [step])
  {
    hide Next;
    var states', steps' := states + [s], steps + [step];
    forall i: nat | i < |steps'| ensures Next(states'[i], states'[i + 1], steps'[i]) {
      if i < |steps| { assert states'[i] == states[i] && states'[i + 1] == states[i + 1] && steps'[i] == steps[i]; }
    }
  }

  /** A producer that is left alone stores and publishes as much of `buf` as fits; the consumer sees
      nothing else. */
  lemma SoloIn<T>(s: State<T>, buf: seq<T>) returns (states: seq<State<T>>, steps: seq<Step<T>>)
    requires Inv(s) && s.producer.ProducerIdle?
    ensures Path(states, steps) && states[0] == s
    ensures var e, n := states[|steps|], Min(|buf|, |s.cells| - (|s.produced| - |s.consumed|));
            && 0 <= n && Inv(e) && e.producer.ProducerIdle? && e.produced == s.produced + buf[..n]
            && e.consumer == s.consumer && e.consumed == s.consumed && |e.cells| == |s.cells|
  {
    hide Residue, Wrap32, Inv, Path, Next;
    Bounds(s);
    var e := s.(producer := Storing(buf[..Min(|buf|, Free(s))], {}));
    assert Next(s, e, BeginIn(buf)) by { NextBeginIn(s, e, buf); }
    BeginInKeeps(s, e, buf);
    states, steps := [s], [];
    assert Path(states, steps) by { PathAlone(s); }
    Extend(states, steps, e, BeginIn(buf));
    states, steps := states + [e], steps + [BeginIn(buf)];
    var src, i := e.producer.src, 0;
    while i < |src|
      invariant i <= |src| && |states| == |steps| + 1 && Path(states, steps) && states[0] == s
      invariant e == states[|steps|] && Inv(e) && |e.cells| == |s.cells|
      invariant e.producer.Storing? && e.producer.src == src && forall j: nat :: j in e.producer.done <==> j < i
      invariant e == s.(cells := e.cells, producer := e.producer)
    {
      var e' := e.(cells := e.cells[SlotOf(e.inIdx, i, |e.cells|) := src[i]],
                   producer := e.producer.(done := e.producer.done + {i}));
      assert Next(e, e', Store(i)) by { NextStore(e, e', i); }
      StoreKeeps(e, e', i);
      Extend(states, steps, e', Store(i));
      states, steps, e, i := states + [e'], steps + [Store(i)], e', i + 1;
    }
    var e' := e.(inIdx := Wrap32(e.inIdx + |src|), producer := ProducerIdle, produced := e.produced + src);
    assert Next(e, e', PublishIn) by { NextPublishIn(e, e'); }
    PublishInKeeps(e, e');
    Extend(states, steps, e', PublishIn);
    states, steps := states + [e'], steps + [PublishIn];
  }

  lemma Bounds<T>(s: State<T>)
    requires Inv(s)
    ensures |s.cells| > 0 && |s.consumed| <= |s.produced| <= |s.consumed| + |s.cells|
  {}

  lemma PathAlone<T>(s: State<T>)
    ensures Path([s], [])
  {}

  lemma NextBeginIn<T>(s: State<T>, s': State<T>, buf: seq<T>)
    requires |s.cells| > 0 && s.producer.ProducerIdle?
    requires s' == s.(producer := Storing(buf[..Min(|buf|, Free(s))], {}))
    ensures Next(s, s', BeginIn(buf))
  {}

  lemma NextStore<T>(s: State<T>, s': State<T>, i: nat)
    requires |s.cells| > 0 && s.producer.Storing? && i < |s.producer.src| && i !in s.producer.done
    requires s' == s.(cells := s.cells[SlotOf(s.inIdx, i, |s.cells|) := s.producer.src[i]],
                      producer := s.producer.(done := s.producer.done + {i}))
    ensures Next(s, s', Store(i))
  {}

  lemma NextPublishIn<T>(s: State<T>, s': State<T>)
    requires |s.cells| > 0 && s.producer.Storing? && forall i: nat | i < |s.producer.src| :: i in s.producer.done
    requires s' == s.(inIdx := Wrap32(s.inIdx + |s.producer.src|), producer := ProducerIdle,
                      produced := s.produced + s.producer.src)
    ensures Next(s, s', PublishIn)
  {}

  /** A consumer that is left alone takes the oldest elements, as many as it asked for and there are. */
  lemma SoloOut<T>(s: State<T>, len: nat) returns (states: seq<State<T>>, steps: seq<Step<T>>)
    requires Inv(s) && s.consumer.ConsumerIdle?
    ensures Path(states, steps) && states[0] == s
    ensures var e, n := states[|steps|], Min(len, |s.produced| - |s.consumed|);
            && 0 <= n && Inv(e) && e.consumer.ConsumerIdle? && e.consumed == s.produced[..|s.consumed| + n]
            && e.producer == s.producer && e.produced == s.produced && e.cells == s.cells
  {
    hide Residue, Wrap32, Inv, Path, Next;
    Bounds(s);
    var e := s.(consumer := Fetching(Min(len, Used(s)), map[]));
    assert Next(s, e, BeginOut(len)) by { NextBeginOut(s, e, len); }
    BeginOutKeeps(s, e, len);
    states, steps := [s], [];
    assert Path(states, steps) by { PathAlone(s); }
    Extend(states, steps, e, BeginOut(len));
    states, steps := states + [e], steps + [BeginOut(len)];
    var n, i := e.consumer.len, 0;
    while i < n
      invariant i <= n && |states| == |steps| + 1 && Path(states, steps) && states[0] == s
      invariant e == states[|steps|] && Inv(e) && e == s.(consumer := e.consumer)
      invariant e.consumer.Fetching? && e.consumer.len == n && forall j: nat :: j in e.consumer.got <==> j < i
    {
      var e' := e.(consumer := e.consumer.(got := e.consumer.got[i := e.cells[SlotOf(e.outIdx, i, |e.cells|)]]));
      assert Next(e, e', Fetch(i)) by { NextFetch(e, e', i); }
      FetchKeeps(e, e', i);
      Extend(states, steps, e', Fetch(i));
      states, steps, e, i := states + [e'], steps + [Fetch(i)], e', i + 1;
    }
    var e' := e.(outIdx := Wrap32(e.outIdx + n), consumer := ConsumerIdle,
                 consumed := e.consumed + Collected(n, e.consumer.got));
    assert Next(e, e', PublishOut) by { NextPublishOut(e, e'); }
    PublishOutKeeps(e, e');
    Extend(states, steps, e', PublishOut);
    states, steps := states + [e'], steps + [PublishOut];
  }

  lemma NextBeginOut<T>(s: State<T>, s': State<T>, len: nat)
    requires |s.cells| > 0 && s.consumer.ConsumerIdle?
    requires s' == s.(consumer := Fetching(Min(len, Used(s)), map[]))
    ensures Next(s, s', BeginOut(len))
  {}

  lemma NextFetch<T>(s: State<T>, s': State<T>, i: nat)
    requires |s.cells| > 0 && s.consumer.Fetching? && i < s.consumer.len && i !in s.consumer.got
    requires s' == s.(consumer := s.consumer.(got := s.consumer.got[i := s.cells[SlotOf(s.outIdx, i, |s.cells|)]]))
    ensures Next(s, s', Fetch(i))
  {}

  lemma NextPublishOut<T>(s: State<T>, s': State<T>)
    requires |s.cells| > 0 && s.consumer.Fetching? && forall i: nat | i < s.consumer.len :: i in s.consumer.got
    requires s' == s.(outIdx := Wrap32(s.outIdx + s.consumer.len), consumer := ConsumerIdle,
                      consumed := s.consumed + Collected(s.consumer.len, s.consumer.got))
    ensures Next(s, s', PublishOut)
  {}
}
