/** What the calls of the UART driver come to: each step, in terms of who is inside and what waits in
    the rings, in every run; and whole reads, writes and interrupts that nobody interferes with. */
module Uart16550Calls {
  import opened Machine
  import opened KfifoCore
  import Spsc
  import opened Uart16550

  /** What is in the rings, in any state a run can reach. */
  lemma RingsHold(d: Device)
    requires Inv(d)
    ensures |d.input.cells| == FIFO_SIZE && |Waiting(d.input)| == Used(d.input) <= FIFO_SIZE
    ensures Kept(d.arrivals) == Taken(d.readLog) + Waiting(d.input)
    ensures |d.output.cells| == FIFO_SIZE && |Waiting(d.output)| == Used(d.output) <= FIFO_SIZE
    ensures Accepted(d.writeLog) == d.sent + InHand(d.handler) + Waiting(d.output)
    ensures Free(d.output) == FIFO_SIZE - |Waiting(d.output)|
  {
    hide Kept, Taken, Accepted, Reader, Writer, Wrap32, Spsc.SlotOf, Spsc.Inv;
    Spsc.InvIsAQueue(InputRing(d));
    Spsc.InvIsAQueue(OutputRing(d));
    Wrap32Small(|d.output.cells| - Used(d.output));
  }

  ghost predicate NobodyInside(threads: seq<Pc>, inside: Pc -> bool) {
    forall t: nat | t < |threads| :: !inside(threads[t])
  }

  lemma LockFreeIs(lock: nat, threads: seq<Pc>, inside: Pc -> bool)
    requires Exclusive(lock, threads, inside)
    ensures lock == 0 <==> NobodyInside(threads, inside)
  {}

  /** What a step of a read does to its thread, in terms of who is inside and what waits in the ring:
      it keeps its request until it is inside, takes the oldest bytes, as many as it asked for and
      there are, and returns those. */
  ghost predicate ReadOutcome(d: Device, step: Step, pc: Pc, pc': Pc)
    requires |d.input.cells| > 0
  {
    match step
    case CallRead(_, size) => pc == Outside && pc' == ReadWait(size)
    case TestInput(_) =>
      pc.ReadWait? && pc' == if NobodyInside(d.threads, InRead) then ReadCas(pc.size) else pc
    case CasInput(_) =>
      pc.ReadCas? && pc' == if NobodyInside(d.threads, InRead) then ReadLocked(pc.size) else ReadWait(pc.size)
    case BeginRead(_) => pc.ReadLocked? && pc' == ReadCopy(Min(pc.size, |Waiting(d.input)|), map[])
    case FetchRead(_, i) =>
      pc.ReadCopy? && i < pc.len && pc'.ReadCopy? && pc'.len == pc.len && pc'.got.Keys == pc.got.Keys + {i}
    case PublishRead(_) =>
      pc.ReadCopy? && pc.len <= |Waiting(d.input)| && pc' == ReadUnlock(Waiting(d.input)[..pc.len])
    case UnlockInput(_) => pc.ReadUnlock? && pc' == Outside
    case _ => false
  }

  /** Reads other than the publishing step leave the ring and the log alone. */
  ghost predicate ReadEffect(d: Device, d': Device, step: Step, pc: Pc)
    requires |d.input.cells| > 0 && |d'.input.cells| > 0
  {
    if step.PublishRead? then
      && pc.ReadCopy? && pc.len <= |Waiting(d.input)|
      && d'.readLog == d.readLog + [Waiting(d.input)[..pc.len]] && Waiting(d'.input) == Waiting(d.input)[pc.len..]
    else
      d'.readLog == d.readLog && d'.input == d.input
  }

  lemma ReadOutcomes(d: Device, d': Device, step: Step)
    requires Inv(d) && Next(d, d', step) && IsReadStep(step)
    ensures |d.input.cells| > 0 && |d'.input.cells| > 0 && step.t < |d.threads| == |d'.threads|
    ensures ReadOutcome(d, step, d.threads[step.t], d'.threads[step.t])
    ensures ReadEffect(d, d', step, d.threads[step.t])
    ensures d'.threads == d.threads[step.t := d'.threads[step.t]] && ReadLeaves(d, d')
  {
    hide Inv, Waiting, Used, Exclusive, NobodyInside, ReadOutcome, ReadEffect, ReadLeaves;
    hide ReadStep, WriteStep, HandlerStep;
    InvLocks(d);
    ReadFrame(d, d', step, step.t);
    if step.PublishRead? {
      PublishReadTakes(d, d', step);
      ReadPublishes(d, d', step);
    } else {
      RingsHold(d);
      LockFreeIs(d.inputLock, d.threads, InRead);
      ReadMoves(d, d', step, step.t);
    }
  }

  lemma ReadMoves(d: Device, d': Device, step: Step, t: nat)
    requires t < |d.threads| == |d'.threads| && |d.input.cells| > 0 && |d'.input.cells| > 0
    requires ReadStep(d, d', step, t) && !step.PublishRead?
    requires d.inputLock == 0 <==> NobodyInside(d.threads, InRead)
    requires |Waiting(d.input)| == Used(d.input)
    ensures ReadOutcome(d, step, d.threads[t], d'.threads[t]) && ReadEffect(d, d', step, d.threads[t])
  {
    hide Waiting, Used, Wrap32, Spsc.SlotOf, Spsc.Collected, NobodyInside;
  }

  lemma ReadPublishes(d: Device, d': Device, step: Step)
    requires step.PublishRead? && step.t < |d.threads| && step.t < |d'.threads| && |d.input.cells| > 0
    requires |d'.input.cells| > 0
    requires d.threads[step.t].ReadCopy? && d.threads[step.t].len <= |Waiting(d.input)|
    requires var len := d.threads[step.t].len;
             && d'.threads[step.t] == ReadUnlock(Waiting(d.input)[..len])
             && d'.readLog == d.readLog + [Waiting(d.input)[..len]] && Waiting(d'.input) == Waiting(d.input)[len..]
    ensures ReadOutcome(d, step, d.threads[step.t], d'.threads[step.t])
    ensures ReadEffect(d, d', step, d.threads[step.t])
  {
    hide Waiting, NobodyInside;
  }

  lemma InvLocks(d: Device)
    requires Inv(d)
    ensures Exclusive(d.inputLock, d.threads, InRead) && Exclusive(d.outputLock, d.threads, InWrite)
    ensures Sound(d) && |d.input.cells| > 0 && |d.output.cells| > 0
  {}

  lemma PublishReadTakes(d: Device, d': Device, step: Step)
    requires Inv(d) && Next(d, d', step) && step.PublishRead?
    ensures step.t < |d.threads| == |d'.threads| && |d.input.cells| > 0 && |d'.input.cells| > 0
    ensures d.threads[step.t].ReadCopy? && d.threads[step.t].len <= |Waiting(d.input)|
    ensures var len := d.threads[step.t].len;
            && d'.threads[step.t] == ReadUnlock(Waiting(d.input)[..len])
            && d'.readLog == d.readLog + [Waiting(d.input)[..len]] && Waiting(d'.input) == Waiting(d.input)[len..]
  {
    hide Inv, Waiting, Used, Free, Taken, Kept, Wrap32, Spsc.SlotOf, Spsc.Collected, WriteStep, HandlerStep;
    InvLocks(d);
    NextKeepsInv(d, d', step);
    RingsHold(d);
    RingsHold(d');
    var pc := d.threads[step.t];
    var bytes := Spsc.Collected(pc.len, pc.got);
    TakenGrows(d.readLog, bytes);
    SplitOff(Taken(d.readLog), bytes, Waiting(d'.input), Waiting(d.input));
  }

  lemma SplitOff<T>(before: seq<T>, bytes: seq<T>, rest: seq<T>, waiting: seq<T>)
    requires (before + bytes) + rest == before + waiting
    ensures |bytes| <= |waiting| && bytes == waiting[..|bytes|] && rest == waiting[|bytes|..]
  {
    var left, right := (before + bytes) + rest, before + waiting;
    assert |left| == |right|;
    forall i: nat | i < |bytes| ensures bytes[i] == waiting[i] {
      assert left[|before| + i] == right[|before| + i];
    }
    forall i: nat | i < |rest| ensures rest[i] == waiting[|bytes| + i] {
      assert left[|before| + |bytes| + i] == right[|before| + |bytes| + i];
    }
  }

  /** The same for a write: it accepts the front of its bytes, as many as there is room for. */
  ghost predicate WriteOutcome(d: Device, step: Step, pc: Pc, pc': Pc)
    requires |d.output.cells| > 0
  {
    match step
    case CallWrite(_, buf) => pc == Outside && pc' == WriteWait(buf)
    case TestOutput(_) =>
      pc.WriteWait? && pc' == if NobodyInside(d.threads, InWrite) then WriteCas(pc.buf) else pc
    case CasOutput(_) =>
      pc.WriteCas? && pc' == if NobodyInside(d.threads, InWrite) then WriteLocked(pc.buf) else WriteWait(pc.buf)
    case BeginWrite(_) =>
      && pc.WriteLocked? && pc'.WriteCopy? && pc'.buf == pc.buf && pc'.done == {}
      && pc'.n == Min(|pc.buf|, FIFO_SIZE - |Waiting(d.output)|)
    case StoreWrite(_, i) => pc.WriteCopy? && i < pc.n && pc' == WriteCopy(pc.buf, pc.n, pc.done + {i})
    case PublishWrite(_) => pc.WriteCopy? && pc' == WriteUnlock(pc.n)
    case UnlockOutput(_) => pc.WriteUnlock? && pc' == Outside
    case _ => false
  }

  ghost predicate WriteEffect(d: Device, d': Device, step: Step, pc: Pc)
    requires |d.output.cells| > 0 && |d'.output.cells| > 0
  {
    if step.PublishWrite? then
      && pc.WriteCopy? && pc.n <= |pc.buf|
      && d'.writeLog == d.writeLog + [Write(pc.buf, pc.n)] && Waiting(d'.output) == Waiting(d.output) + pc.buf[..pc.n]
    else
      d'.writeLog == d.writeLog && Waiting(d'.output) == Waiting(d.output)
  }

  lemma WriteOutcomes(d: Device, d': Device, step: Step)
    requires Inv(d) && Next(d, d', step) && IsWriteStep(step)
    ensures |d.output.cells| > 0 && |d'.output.cells| > 0 && step.t < |d.threads| == |d'.threads|
    ensures WriteOutcome(d, step, d.threads[step.t], d'.threads[step.t])
    ensures WriteEffect(d, d', step, d.threads[step.t])
    ensures d'.threads == d.threads[step.t := d'.threads[step.t]] && WriteLeaves(d, d')
  {
    hide Inv, Waiting, Free, Exclusive, NobodyInside, WriteOutcome, WriteEffect, WriteLeaves;
    hide ReadStep, WriteStep, HandlerStep;
    InvLocks(d);
    WriteFrame(d, d', step, step.t);
    RingsHold(d);
    LockFreeIs(d.outputLock, d.threads, InWrite);
    WriteMoves(d, d', step, step.t);
    NextKeepsInv(d, d', step);
    WriteFills(d, d', step, step.t);
  }

  lemma WriteMoves(d: Device, d': Device, step: Step, t: nat)
    requires t < |d.threads| == |d'.threads| && |d.output.cells| > 0 && WriteStep(d, d', step, t)
    requires d.outputLock == 0 <==> NobodyInside(d.threads, InWrite)
    requires Free(d.output) == FIFO_SIZE - |Waiting(d.output)|
    ensures WriteOutcome(d, step, d.threads[t], d'.threads[t])
  {
    hide Waiting, Used, Free, Wrap32, Spsc.SlotOf, NobodyInside;
  }

  lemma WriteFills(d: Device, d': Device, step: Step, t: nat)
    requires Inv(d) && Inv(d') && |d.output.cells| > 0 && |d'.output.cells| > 0
    requires t < |d.threads| && WriteStep(d, d', step, t)
    ensures WriteEffect(d, d', step, d.threads[t])
  {
    hide Inv, Waiting, Used, Free, Accepted, WriteStep, InHand;
    InvLocks(d);
    InvLocks(d');
    RingsHold(d);
    RingsHold(d');
    WriteFrame(d, d', step, t);
    var pc, gone := d.threads[t], d.sent + InHand(d.handler);
    if step.PublishWrite? {
      AcceptedGrows(d.writeLog, Write(pc.buf, pc.n));
      SplitBehind(gone, Waiting(d.output), pc.buf[..pc.n], Waiting(d'.output));
    } else {
      SplitOff(gone, [], Waiting(d'.output), Waiting(d.output));
    }
  }

  lemma SplitBehind<T>(before: seq<T>, waiting: seq<T>, more: seq<T>, waiting': seq<T>)
    requires (before + waiting) + more == before + waiting'
    ensures waiting' == waiting + more
  {
    assert (before + waiting) + more == before + (waiting + more);
    SplitOff(before, [], waiting', waiting + more);
  }

  /** What a step of the handler does, in terms of what waits in the rings. */
  ghost predicate HandlerOutcome(d: Device, d': Device, step: Step)
    requires |d.input.cells| > 0 && |d.output.cells| > 0 && |d'.input.cells| > 0 && |d'.output.cells| > 0
  {
    var h, h' := d.handler, d'.handler;
    match step
    case Interrupt => h == Ready && h' == Sending
    case SendOver => h == Sending && h' == Receiving
    case BeginGet => h == Sending && Waiting(d.output) != [] && h' == Getting(map[])
    case FetchGet => h.Getting? && 0 !in h.taken && h'.Getting? && 0 in h'.taken
    case PublishGet =>
      && h.Getting? && Waiting(d.output) != [] && h' == Got(Waiting(d.output)[0])
      && Waiting(d'.output) == Waiting(d.output)[1..]
    case WriteThr => h.Got? && h' == Sending && d'.sent == d.sent + [h.out]
    case ReceiveOver => h == Receiving && h' == Ready
    case ReadRbr(b) => h == Receiving && h' == Fetched(b) && d'.register == d.register + [Received(d.interrupts, b)]
    case DropByte =>
      && h.Fetched? && |Waiting(d.input)| == FIFO_SIZE && h' == Ready
      && d'.arrivals == d.arrivals + [Arrival(d.interrupts, h.arrived, false)]
    case BeginPut => h.Fetched? && |Waiting(d.input)| < FIFO_SIZE && h' == Putting(h.arrived, {})
    case StorePut => h.Putting? && 0 !in h.done && h' == Putting(h.kept, h.done + {0})
    case PublishPut =>
      && h.Putting? && h' == Receiving && Waiting(d'.input) == Waiting(d.input) + [h.kept]
      && d'.arrivals == d.arrivals + [Arrival(d.interrupts, h.kept, true)]
    case _ => false
  }

  /** What each step of the handler leaves alone. */
  ghost predicate HandlerLeaves(d: Device, d': Device, step: Step)
    requires |d.input.cells| > 0 && |d.output.cells| > 0 && |d'.input.cells| > 0 && |d'.output.cells| > 0
  {
    && d'.threads == d.threads && d'.inputLock == d.inputLock && d'.outputLock == d.outputLock
    && d'.readLog == d.readLog && d'.writeLog == d.writeLog
    && (step.PublishGet? || Waiting(d'.output) == Waiting(d.output))
    && (step.PublishPut? || Waiting(d'.input) == Waiting(d.input))
    && (step.WriteThr? || d'.sent == d.sent)
    && (step.ReadRbr? || d'.register == d.register)
    && (step.DropByte? || step.PublishPut? || d'.arrivals == d.arrivals)
    && d'.interrupts == d.interrupts + (if step.Interrupt? then 1 else 0)
  }

  lemma HandlerOutcomes(d: Device, d': Device, step: Step)
    requires Inv(d) && Next(d, d', step) && !IsReadStep(step) && !IsWriteStep(step)
    ensures |d.input.cells| > 0 && |d.output.cells| > 0 && |d'.input.cells| > 0 && |d'.output.cells| > 0
    ensures HandlerOutcome(d, d', step) && HandlerLeaves(d, d', step)
  {
    hide Inv, Waiting, Used, HandlerOutcome, HandlerLeaves, HandlerStep, ReadStep, WriteStep;
    InvLocks(d);
    NextKeepsInv(d, d', step);
    InvLocks(d');
    HandlerMovesNobody(d, d', step);
    GettingWaits(d);
    OutputLeft(d, d', step);
    InputLeft(d, d', step);
    RingsHold(d);
    HandlerSays(d, d', step);
  }

  /** While the handler is in `kfifo_get` there is something in the ring. */
  lemma GettingWaits(d: Device)
    requires Inv(d)
    ensures |d.output.cells| > 0
    ensures d.handler.Getting? || d.output.inIdx != d.output.outIdx ==> Waiting(d.output) != []
    ensures d.output.inIdx == d.output.outIdx ==> Waiting(d.output) == []
  {
    hide Kept, Taken, Accepted, Reader, Writer, Wrap32, Residue, Spsc.SlotOf, Waiting;
    RingsHold(d);
    var s := OutputRing(d);
    Spsc.UsedIs(|s.produced|, |s.consumed|);
    Wrap32Small(0);
  }

  lemma OutputLeft(d: Device, d': Device, step: Step)
    requires Inv(d) && Inv(d') && |d.input.cells| > 0 && |d.output.cells| > 0 && |d'.output.cells| > 0
    requires HandlerStep(d, d', step)
    ensures step.PublishGet? ==>
              Waiting(d.output) != [] && d'.handler == Got(Waiting(d.output)[0])
              && Waiting(d'.output) == Waiting(d.output)[1..]
    ensures !step.PublishGet? ==> Waiting(d'.output) == Waiting(d.output)
  {
    hide Inv, Waiting, Used, Accepted, InHand, HandlerStep;
    InvLocks(d);
    RingsHold(d);
    RingsHold(d');
    HandlerMovesNobody(d, d', step);
    var gone := d.sent + InHand(d.handler);
    var more := OutputTaken(d, d', step);
    assert (gone + more) + Waiting(d'.output) == gone + Waiting(d.output);
    SplitOff(gone, more, Waiting(d'.output), Waiting(d.output));
  }

  /** What the handler has given away or in hand grows only by the byte it takes from the ring. */
  lemma OutputTaken(d: Device, d': Device, step: Step) returns (more: seq<Byte>)
    requires |d.input.cells| > 0 && |d.output.cells| > 0 && HandlerStep(d, d', step)
    ensures d'.sent + InHand(d'.handler) == (d.sent + InHand(d.handler)) + more
    ensures step.PublishGet? ==> d'.handler.Got? && more == [d'.handler.out]
    ensures !step.PublishGet? ==> more == []
  {
    hide Wrap32, Spsc.SlotOf, Used;
    more := if step.PublishGet? then [d.handler.taken[0]] else [];
  }

  lemma InputLeft(d: Device, d': Device, step: Step)
    requires Inv(d) && Inv(d') && |d.input.cells| > 0 && |d.output.cells| > 0 && |d'.input.cells| > 0
    requires HandlerStep(d, d', step)
    ensures step.PublishPut? ==> d.handler.Putting? && Waiting(d'.input) == Waiting(d.input) + [d.handler.kept]
    ensures !step.PublishPut? ==> Waiting(d'.input) == Waiting(d.input)
  {
    hide Inv, Waiting, Used, Kept, Taken, Wrap32, Spsc.SlotOf;
    RingsHold(d);
    RingsHold(d');
    assert d'.readLog == d.readLog;
    if step.PublishPut? {
      KeptGrows(d.arrivals, Arrival(d.interrupts, d.handler.kept, true));
      SplitBehind(Taken(d.readLog), Waiting(d.input), [d.handler.kept], Waiting(d'.input));
    } else {
      if step.DropByte? { KeptGrows(d.arrivals, Arrival(d.interrupts, d.handler.arrived, false)); }
      SplitOff(Taken(d.readLog), [], Waiting(d'.input), Waiting(d.input));
    }
  }

  lemma HandlerSays(d: Device, d': Device, step: Step)
    requires |d.input.cells| == FIFO_SIZE && |d.output.cells| > 0 && |d'.input.cells| > 0 && |d'.output.cells| > 0
    requires HandlerStep(d, d', step) && |Waiting(d.input)| == Used(d.input) <= FIFO_SIZE
    requires d.handler.Getting? || d.output.inIdx != d.output.outIdx ==> Waiting(d.output) != []
    requires step.PublishGet? ==>
               Waiting(d.output) != [] && d'.handler == Got(Waiting(d.output)[0])
               && Waiting(d'.output) == Waiting(d.output)[1..]
    requires !step.PublishGet? ==> Waiting(d'.output) == Waiting(d.output)
    requires step.PublishPut? ==> d.handler.Putting? && Waiting(d'.input) == Waiting(d.input) + [d.handler.kept]
    requires !step.PublishPut? ==> Waiting(d'.input) == Waiting(d.input)
    ensures HandlerOutcome(d, d', step) && HandlerLeaves(d, d', step)
  {
    hide Waiting, Used, Wrap32, Spsc.SlotOf;
  }

  // ---------------------------------------------------------------- a call on its own

  /** Steps one after the other, from `d` to `e`. */
  ghost predicate Path(states: seq<Device>, steps: seq<Step>, d: Device, e: Device) {
    && |states| == |steps| + 1 && states[0] == d && states[|steps|] == e
    && forall i: nat | i < |steps| :: Next(states[i], states[i + 1], steps[i])
  }

  ghost predicate LeadsTo(d: Device, e: Device) {
    exists states, steps :: Path(states, steps, d, e)
  }

  lemma LeadsToItself(d: Device)
    ensures LeadsTo(d, d)
  {
    assert Path([d], [], d, d);
  }

  lemma OneMoreStep(d: Device, e: Device, e': Device, step: Step)
    requires LeadsTo(d, e) && Next(e, e', step)
    ensures LeadsTo(d, e')
  {
    hide Next;
    var states, steps :| Path(states, steps, d, e);
    var states', steps' := states + [e'], steps + [step];
    forall i: nat | i < |steps'| ensures Next(states'[i], states'[i + 1], steps'[i]) {
      if i < |steps| { assert states'[i] == states[i] && states'[i + 1] == states[i + 1] && steps'[i] == steps[i]; }
    }
    assert Path(states', steps', d, e');
  }

  /** The next step of a read, appended to a path. */
  lemma TakeRead(d: Device, e: Device, step: Step) returns (e': Device)
    requires LeadsTo(d, e) && Inv(e) && IsReadStep(step) && step.t < |e.threads|
    requires ReadReaches(e.threads[step.t], step)
    ensures LeadsTo(d, e') && Inv(e') && |e.input.cells| > 0 && |e'.input.cells| > 0 && |e'.threads| == |e.threads|
    ensures ReadOutcome(e, step, e.threads[step.t], e'.threads[step.t])
    ensures ReadEffect(e, e', step, e.threads[step.t])
    ensures e'.threads == e.threads[step.t := e'.threads[step.t]] && ReadLeaves(e, e')
  {
    hide Inv, Waiting, ReadReaches, ReadAfter, ReadOutcome, ReadEffect, ReadLeaves, LeadsTo;
    InvLocks(e);
    e' := ReadAfter(e, step, step.t);
    NextKeepsInv(e, e', step);
    ReadOutcomes(e, e', step);
    OneMoreStep(d, e, e', step);
  }

  /** Taking the lock when nobody is inside. */
  lemma SoloReadEnters(d: Device, t: nat, size: nat) returns (e: Device)
    requires Inv(d) && t < |d.threads| && d.threads[t] == Outside && NobodyInside(d.threads, InRead)
    ensures LeadsTo(d, e) && Inv(e) && e.threads == d.threads[t := ReadLocked(size)]
    ensures ReadLeaves(d, e) && e.input == d.input && e.readLog == d.readLog
  {
    hide Inv, Waiting, LeadsTo;
    LeadsToItself(d);
    e := TakeRead(d, d, CallRead(t, size));
    e := TakeRead(d, e, TestInput(t));
    e := TakeRead(d, e, CasInput(t));
  }

  /** Copying byte by byte. */
  lemma SoloReadCopies(d: Device, e0: Device, t: nat, n: nat) returns (e: Device)
    requires LeadsTo(d, e0) && Inv(e0) && t < |e0.threads| && e0.threads[t] == ReadCopy(n, map[])
    ensures LeadsTo(d, e) && Inv(e) && |e.threads| == |e0.threads| && e.threads == e0.threads[t := e.threads[t]]
    ensures e.threads[t].ReadCopy? && e.threads[t].len == n && forall j: nat | j < n :: j in e.threads[t].got
    ensures ReadLeaves(e0, e) && e.input == e0.input && e.readLog == e0.readLog
  {
    hide Inv, Waiting, LeadsTo;
    e := e0;
    for i: nat := 0 to n
      invariant LeadsTo(d, e) && Inv(e) && |e.threads| == |e0.threads| && e.threads == e0.threads[t := e.threads[t]]
      invariant e.threads[t].ReadCopy? && e.threads[t].len == n && forall j: nat :: j in e.threads[t].got <==> j < i
      invariant ReadLeaves(e0, e) && e.input == e0.input && e.readLog == e0.readLog
    {
      var e' := TakeRead(d, e, FetchRead(t, i));
      assert forall j: nat :: j in e'.threads[t].got <==> j in e.threads[t].got.Keys + {i};
      e := e';
    }
  }

  /** A read that nobody interferes with returns the oldest bytes of the input ring, as many as it
      asked for and there are, removes exactly those, and touches nothing else. */
  lemma SoloRead(d: Device, t: nat, size: nat) returns (e: Device)
    requires Inv(d) && t < |d.threads| && d.threads[t] == Outside && NobodyInside(d.threads, InRead)
    ensures LeadsTo(d, e) && e.threads == d.threads && ReadLeaves(d, e)
    ensures |d.input.cells| > 0 && |e.input.cells| > 0
    ensures var n := Min(size, |Waiting(d.input)|);
            e.readLog == d.readLog + [Waiting(d.input)[..n]] && Waiting(e.input) == Waiting(d.input)[n..]
  {
    hide Inv, Waiting, LeadsTo;
    e := SoloReadEnters(d, t, size);
    e := TakeRead(d, e, BeginRead(t));
    e := SoloReadCopies(d, e, t, Min(size, |Waiting(d.input)|));
    e := TakeRead(d, e, PublishRead(t));
    e := TakeRead(d, e, UnlockInput(t));
  }

  lemma TakeWrite(d: Device, e: Device, step: Step) returns (e': Device)
    requires LeadsTo(d, e) && Inv(e) && IsWriteStep(step) && step.t < |e.threads|
    requires WriteReaches(e.threads[step.t], step)
    ensures LeadsTo(d, e') && Inv(e') && |e.output.cells| > 0 && |e'.output.cells| > 0 && |e'.threads| == |e.threads|
    ensures WriteOutcome(e, step, e.threads[step.t], e'.threads[step.t])
    ensures WriteEffect(e, e', step, e.threads[step.t])
    ensures e'.threads == e.threads[step.t := e'.threads[step.t]] && WriteLeaves(e, e')
  {
    hide Inv, Waiting, WriteReaches, WriteAfter, WriteOutcome, WriteEffect, WriteLeaves, LeadsTo;
    InvLocks(e);
    e' := WriteAfter(e, step, step.t);
    NextKeepsInv(e, e', step);
    WriteOutcomes(e, e', step);
    OneMoreStep(d, e, e', step);
  }

  lemma SoloWriteEnters(d: Device, t: nat, buf: seq<Byte>) returns (e: Device)
    requires Inv(d) && t < |d.threads| && d.threads[t] == Outside && NobodyInside(d.threads, InWrite)
    ensures LeadsTo(d, e) && Inv(e) && e.threads == d.threads[t := WriteLocked(buf)] && WriteLeaves(d, e)
    ensures |d.output.cells| > 0 && |e.output.cells| > 0
    ensures Waiting(e.output) == Waiting(d.output) && e.writeLog == d.writeLog
  {
    hide Inv, Waiting, LeadsTo;
    LeadsToItself(d);
    e := TakeWrite(d, d, CallWrite(t, buf));
    e := TakeWrite(d, e, TestOutput(t));
    e := TakeWrite(d, e, CasOutput(t));
  }

  lemma SoloWriteCopies(d: Device, e0: Device, t: nat, buf: seq<Byte>, n: nat) returns (e: Device)
    requires LeadsTo(d, e0) && Inv(e0) && t < |e0.threads| && e0.threads[t] == WriteCopy(buf, n, {}) && n <= |buf|
    ensures LeadsTo(d, e) && Inv(e) && |e.threads| == |e0.threads| && e.threads == e0.threads[t := e.threads[t]]
    ensures e.threads[t].WriteCopy? && e.threads[t].buf == buf && e.threads[t].n == n
    ensures forall j: nat | j < n :: j in e.threads[t].done
    ensures WriteLeaves(e0, e) && e.writeLog == e0.writeLog
    ensures |e0.output.cells| > 0 && |e.output.cells| > 0 && Waiting(e.output) == Waiting(e0.output)
  {
    hide Inv, Waiting, LeadsTo;
    InvLocks(e0);
    e := e0;
    for i: nat := 0 to n
      invariant LeadsTo(d, e) && Inv(e) && |e.threads| == |e0.threads| && e.threads == e0.threads[t := e.threads[t]]
      invariant e.threads[t].WriteCopy? && e.threads[t].buf == buf && e.threads[t].n == n
      invariant forall j: nat :: j in e.threads[t].done <==> j < i
      invariant WriteLeaves(e0, e) && e.writeLog == e0.writeLog
      invariant |e.output.cells| > 0 && Waiting(e.output) == Waiting(e0.output)
    {
      e := TakeWrite(d, e, StoreWrite(t, i));
    }
  }

  /** A write that nobody interferes with appends the front of its bytes to the output ring, as many
      as there is room for, reports that number, and touches nothing else. */
  lemma SoloWrite(d: Device, t: nat, buf: seq<Byte>) returns (e: Device)
    requires Inv(d) && t < |d.threads| && d.threads[t] == Outside && NobodyInside(d.threads, InWrite)
    ensures LeadsTo(d, e) && e.threads == d.threads && WriteLeaves(d, e)
    ensures |d.output.cells| > 0 && |e.output.cells| > 0
    ensures var n := Min(|buf|, FIFO_SIZE - |Waiting(d.output)|);
            && 0 <= n && e.writeLog == d.writeLog + [Write(buf, n)]
            && Waiting(e.output) == Waiting(d.output) + buf[..n]
  {
    hide Inv, Waiting, LeadsTo;
    RingsHold(d);
    e := SoloWriteEnters(d, t, buf);
    e := TakeWrite(d, e, BeginWrite(t));
    e := SoloWriteCopies(d, e, t, buf, Min(|buf|, FIFO_SIZE - |Waiting(d.output)|));
    e := SoloWriteLeaves(d, e, t);
  }

  lemma SoloWriteLeaves(d: Device, e0: Device, t: nat) returns (e: Device)
    requires LeadsTo(d, e0) && Inv(e0) && t < |e0.threads| && Writing(e0.threads[t])
    requires forall j: nat | j < e0.threads[t].n :: j in e0.threads[t].done
    ensures LeadsTo(d, e) && e.threads == e0.threads[t := Outside] && WriteLeaves(e0, e)
    ensures |e0.output.cells| > 0 && |e.output.cells| > 0
    ensures var pc := e0.threads[t];
            && e.writeLog == e0.writeLog + [Write(pc.buf, pc.n)]
            && Waiting(e.output) == Waiting(e0.output) + pc.buf[..pc.n]
  {
    hide Inv, Waiting, LeadsTo;
    e := TakeWrite(d, e0, PublishWrite(t));
    e := TakeWrite(d, e, UnlockOutput(t));
  }

  lemma TakeHandler(d: Device, e: Device, step: Step) returns (e': Device)
    requires LeadsTo(d, e) && Inv(e) && !IsReadStep(step) && !IsWriteStep(step) && HandlerReaches(e, step)
    ensures LeadsTo(d, e') && Inv(e')
    ensures |e.input.cells| > 0 && |e.output.cells| > 0 && |e'.input.cells| > 0 && |e'.output.cells| > 0
    ensures HandlerOutcome(e, e', step) && HandlerLeaves(e, e', step)
  {
    hide Inv, Waiting, HandlerReaches, HandlerAfter, HandlerOutcome, HandlerLeaves, LeadsTo;
    InvLocks(e);
    e' := HandlerAfter(e, step);
    NextKeepsInv(e, e', step);
    HandlerOutcomes(e, e', step);
    OneMoreStep(d, e, e', step);
  }

  /** What the handler's two loops have done to a device that was in state `d`. */
  ghost predicate Handled(d: Device, e: Device, sent: nat, kept: seq<Byte>)
    requires |d.input.cells| > 0 && |d.output.cells| > 0 && |e.input.cells| > 0 && |e.output.cells| > 0
  {
    && e.threads == d.threads && e.readLog == d.readLog && e.writeLog == d.writeLog
    && sent <= |Waiting(d.output)| && e.sent == d.sent + Waiting(d.output)[..sent]
    && Waiting(e.output) == Waiting(d.output)[sent..] && Waiting(e.input) == Waiting(d.input) + kept
  }

  /** Between two states: nobody moves, and neither ring nor the transmit register changes. */
  ghost predicate Quiet(d: Device, e: Device)
    requires |d.input.cells| > 0 && |d.output.cells| > 0 && |e.input.cells| > 0 && |e.output.cells| > 0
  {
    && e.threads == d.threads && e.readLog == d.readLog && e.writeLog == d.writeLog && e.sent == d.sent
    && Waiting(e.output) == Waiting(d.output) && Waiting(e.input) == Waiting(d.input)
  }

  lemma SoloFetches(d: Device, e0: Device) returns (e: Device)
    requires LeadsTo(d, e0) && Inv(e0) && e0.handler == Sending
    requires |e0.input.cells| > 0 && |e0.output.cells| > 0 && Waiting(e0.output) != []
    ensures LeadsTo(d, e) && Inv(e) && e.handler.Getting? && 0 in e.handler.taken
    ensures |e.input.cells| > 0 && |e.output.cells| > 0 && Quiet(e0, e)
  {
    hide Inv, Waiting, LeadsTo, Used;
    GettingWaits(e0);
    e := TakeHandler(d, e0, BeginGet);
    e := TakeHandler(d, e, FetchGet);
  }

  /** One turn of the send loop gives the oldest byte to the device. */
  lemma SoloSend(d: Device, e0: Device) returns (e: Device)
    requires LeadsTo(d, e0) && Inv(e0) && e0.handler == Sending
    requires |e0.input.cells| > 0 && |e0.output.cells| > 0 && Waiting(e0.output) != []
    ensures LeadsTo(d, e) && Inv(e) && e.handler == Sending && |e.input.cells| > 0 && |e.output.cells| > 0
    ensures e.threads == e0.threads && e.readLog == e0.readLog && e.writeLog == e0.writeLog
    ensures e.sent == e0.sent + [Waiting(e0.output)[0]] && Waiting(e.output) == Waiting(e0.output)[1..]
    ensures Waiting(e.input) == Waiting(e0.input)
  {
    hide Inv, Waiting, LeadsTo, Used;
    e := SoloFetches(d, e0);
    e := TakeHandler(d, e, PublishGet);
    e := TakeHandler(d, e, WriteThr);
  }

  lemma SoloSends(d: Device, e0: Device, k: nat) returns (e: Device)
    requires LeadsTo(d, e0) && Inv(e0) && e0.handler == Sending
    requires |d.input.cells| > 0 && |d.output.cells| > 0 && |e0.input.cells| > 0 && |e0.output.cells| > 0
    requires Handled(d, e0, k, []) && k < |Waiting(d.output)|
    ensures LeadsTo(d, e) && Inv(e) && e.handler == Sending && |e.input.cells| > 0 && |e.output.cells| > 0
    ensures Handled(d, e, k + 1, [])
  {
    hide Inv, Waiting, LeadsTo;
    e := SoloSend(d, e0);
    var w := Waiting(d.output);
    assert w[..k] + [w[k..][0]] == w[..k + 1] && w[k..][1..] == w[k + 1..];
    assert e.sent == d.sent + (w[..k] + [w[k..][0]]);
  }

  /** One turn of the receive loop keeps the byte, or drops it and ends the interrupt when the ring is
      full. */
  lemma SoloReceive(d: Device, e0: Device, b: Byte) returns (e: Device)
    requires LeadsTo(d, e0) && Inv(e0) && e0.handler == Receiving && |e0.input.cells| > 0 && |e0.output.cells| > 0
    ensures LeadsTo(d, e) && Inv(e) && |e.input.cells| > 0 && |e.output.cells| > 0
    ensures e.threads == e0.threads && e.readLog == e0.readLog && e.writeLog == e0.writeLog
    ensures e.sent == e0.sent && Waiting(e.output) == Waiting(e0.output)
    ensures if |Waiting(e0.input)| < FIFO_SIZE
            then e.handler == Receiving && Waiting(e.input) == Waiting(e0.input) + [b]
            else e.handler == Ready && Waiting(e.input) == Waiting(e0.input)
  {
    hide Inv, Waiting, LeadsTo, Used;
    var e1 := SoloReads(d, e0, b);
    if |Waiting(e0.input)| < FIFO_SIZE {
      e := SoloPuts(d, e1);
    } else {
      e := TakeHandler(d, e1, DropByte);
    }
  }

  lemma SoloReads(d: Device, e0: Device, b: Byte) returns (e: Device)
    requires LeadsTo(d, e0) && Inv(e0) && e0.handler == Receiving && |e0.input.cells| > 0 && |e0.output.cells| > 0
    ensures LeadsTo(d, e) && Inv(e) && e.handler == Fetched(b)
    ensures |e.input.cells| == FIFO_SIZE && |e.output.cells| > 0 && Quiet(e0, e)
    ensures |Waiting(e.input)| == Used(e.input) <= FIFO_SIZE
  {
    hide Inv, Waiting, LeadsTo, Used;
    e := TakeHandler(d, e0, ReadRbr(b));
    RingsHold(e);
  }

  lemma SoloPuts(d: Device, e0: Device) returns (e: Device)
    requires LeadsTo(d, e0) && Inv(e0) && e0.handler.Fetched? && |e0.input.cells| == FIFO_SIZE
    requires |e0.output.cells| > 0
    requires |Waiting(e0.input)| == Used(e0.input) < FIFO_SIZE
    ensures LeadsTo(d, e) && Inv(e) && e.handler == Receiving && |e.input.cells| > 0 && |e.output.cells| > 0
    ensures e.threads == e0.threads && e.readLog == e0.readLog && e.writeLog == e0.writeLog
    ensures e.sent == e0.sent && Waiting(e.output) == Waiting(e0.output)
    ensures Waiting(e.input) == Waiting(e0.input) + [e0.handler.arrived]
  {
    hide Inv, Waiting, LeadsTo, Used;
    e := TakeHandler(d, e0, BeginPut);
    e := TakeHandler(d, e, StorePut);
    e := TakeHandler(d, e, PublishPut);
  }

  lemma SoloReceives(d: Device, e0: Device, sent: nat, kept: seq<Byte>, b: Byte) returns (e: Device)
    requires LeadsTo(d, e0) && Inv(e0) && e0.handler == Receiving
    requires |d.input.cells| > 0 && |d.output.cells| > 0 && |e0.input.cells| > 0 && |e0.output.cells| > 0
    requires Handled(d, e0, sent, kept)
    ensures LeadsTo(d, e) && Inv(e) && |e.input.cells| > 0 && |e.output.cells| > 0
    ensures if |Waiting(d.input) + kept| < FIFO_SIZE then e.handler == Receiving && Handled(d, e, sent, kept + [b])
            else e.handler == Ready && Handled(d, e, sent, kept)
  {
    hide Inv, Waiting, LeadsTo;
    e := SoloReceive(d, e0, b);
    assert Waiting(d.input) + (kept + [b]) == (Waiting(d.input) + kept) + [b];
  }

  /** An interrupt that nobody interferes with: while the device takes `k` bytes and has `bytes` for the
      driver, the `k` oldest bytes of the output ring are sent, and the input ring gets as many of
      `bytes` as there is room for; the first that finds it full is dropped and ends it. */
  lemma SoloInterrupt(d: Device, k: nat, bytes: seq<Byte>) returns (e: Device)
    requires Inv(d) && d.handler == Ready && |d.input.cells| > 0 && |d.output.cells| > 0
    requires k <= |Waiting(d.output)|
    ensures LeadsTo(d, e) && e.handler == Ready && |e.input.cells| > 0 && |e.output.cells| > 0
    ensures var n := Min(|bytes|, FIFO_SIZE - |Waiting(d.input)|);
            0 <= n && Handled(d, e, k, bytes[..n])
  {
    hide Inv, Waiting, LeadsTo, Used, Handled;
    RingsHold(d);
    e := SoloStarts(d);
    for j: nat := 0 to k
      invariant LeadsTo(d, e) && Inv(e) && e.handler == Sending && |e.input.cells| > 0 && |e.output.cells| > 0
      invariant Handled(d, e, j, [])
    {
      e := SoloSends(d, e, j);
    }
    e := SoloTurns(d, e, k);
    e := SoloReceivesAll(d, e, k, bytes);
  }

  lemma SoloStarts(d: Device) returns (e: Device)
    requires Inv(d) && d.handler == Ready && |d.input.cells| > 0 && |d.output.cells| > 0
    ensures LeadsTo(d, e) && Inv(e) && e.handler == Sending && |e.input.cells| > 0 && |e.output.cells| > 0
    ensures Handled(d, e, 0, [])
  {
    hide Inv, Waiting, LeadsTo, Used;
    LeadsToItself(d);
    e := TakeHandler(d, d, Interrupt);
  }

  lemma SoloTurns(d: Device, e0: Device, k: nat) returns (e: Device)
    requires LeadsTo(d, e0) && Inv(e0) && e0.handler == Sending
    requires |d.input.cells| > 0 && |d.output.cells| > 0 && |e0.input.cells| > 0 && |e0.output.cells| > 0
    requires Handled(d, e0, k, [])
    ensures LeadsTo(d, e) && Inv(e) && e.handler == Receiving && |e.input.cells| > 0 && |e.output.cells| > 0
    ensures Handled(d, e, k, [])
  {
    hide Inv, Waiting, LeadsTo, Used;
    e := TakeHandler(d, e0, SendOver);
  }

  lemma SoloReceivesAll(d: Device, e0: Device, sent: nat, bytes: seq<Byte>) returns (e: Device)
    requires LeadsTo(d, e0) && Inv(e0) && e0.handler == Receiving
    requires |d.input.cells| > 0 && |d.output.cells| > 0 && |e0.input.cells| > 0 && |e0.output.cells| > 0
    requires Handled(d, e0, sent, []) && |Waiting(d.input)| <= FIFO_SIZE
    ensures LeadsTo(d, e) && e.handler == Ready && |e.input.cells| > 0 && |e.output.cells| > 0
    ensures Handled(d, e, sent, bytes[..Min(|bytes|, FIFO_SIZE - |Waiting(d.input)|)])
  {
    hide Inv, Waiting, LeadsTo, Handled;
    e := e0;
    var room := FIFO_SIZE - |Waiting(d.input)|;
    var i := 0;
    assert bytes[..0] == [];
    while i < |bytes|
      invariant i <= |bytes| && i <= room && LeadsTo(d, e) && Inv(e) && e.handler == Receiving
      invariant |e.input.cells| > 0 && |e.output.cells| > 0 && Handled(d, e, sent, bytes[..i])
    {
      e := SoloReceives(d, e, sent, bytes[..i], bytes[i]);
      assert bytes[..i] + [bytes[i]] == bytes[..i + 1];
      if i == room { return; }
      i := i + 1;
    }
    var e' := TakeHandler(d, e, ReceiveOver);
    HandledKept(d, e, e', sent, bytes[..i]);
    e := e';
  }

  lemma HandledKept(d: Device, e: Device, e': Device, sent: nat, kept: seq<Byte>)
    requires |d.input.cells| > 0 && |d.output.cells| > 0 && |e.input.cells| > 0 && |e.output.cells| > 0
    requires |e'.input.cells| > 0 && |e'.output.cells| > 0
    requires Handled(d, e, sent, kept) && HandlerLeaves(e, e', ReceiveOver)
    ensures Handled(d, e', sent, kept)
  {
    hide Waiting;
  }

  // ---------------------------------------------------------------- the same in every run

  /** In every run, whatever else happens in between, each step of a thread or of the handler comes to
      what it should. */
  lemma RunOutcomes(states: seq<Device>, steps: seq<Step>, i: nat)
    requires Run(states, steps) && i < |steps|
    ensures |states[i].input.cells| > 0 && |states[i].output.cells| > 0
    ensures |states[i + 1].input.cells| > 0 && |states[i + 1].output.cells| > 0
    ensures IsReadStep(steps[i]) ==>
              && steps[i].t < |states[i].threads| == |states[i + 1].threads|
              && ReadOutcome(states[i], steps[i], states[i].threads[steps[i].t], states[i + 1].threads[steps[i].t])
              && ReadEffect(states[i], states[i + 1], steps[i], states[i].threads[steps[i].t])
              && states[i + 1].threads == states[i].threads[steps[i].t := states[i + 1].threads[steps[i].t]]
              && ReadLeaves(states[i], states[i + 1])
    ensures IsWriteStep(steps[i]) ==>
              && steps[i].t < |states[i].threads| == |states[i + 1].threads|
              && WriteOutcome(states[i], steps[i], states[i].threads[steps[i].t], states[i + 1].threads[steps[i].t])
              && WriteEffect(states[i], states[i + 1], steps[i], states[i].threads[steps[i].t])
              && states[i + 1].threads == states[i].threads[steps[i].t := states[i + 1].threads[steps[i].t]]
              && WriteLeaves(states[i], states[i + 1])
    ensures !IsReadStep(steps[i]) && !IsWriteStep(steps[i]) ==>
              HandlerOutcome(states[i], states[i + 1], steps[i]) && HandlerLeaves(states[i], states[i + 1], steps[i])
  {
    hide Inv, Next, Waiting, ReadOutcome, ReadEffect, ReadLeaves, WriteOutcome, WriteEffect, WriteLeaves;
    hide HandlerOutcome, HandlerLeaves;
    RunInv(states, steps, i);
    RunInv(states, steps, i + 1);
    InvLocks(states[i]);
    InvLocks(states[i + 1]);
    assert Next(states[i], states[i + 1], steps[i]);
    if IsReadStep(steps[i]) {
      ReadOutcomes(states[i], states[i + 1], steps[i]);
    } else if IsWriteStep(steps[i]) {
      WriteOutcomes(states[i], states[i + 1], steps[i]);
    } else {
      HandlerOutcomes(states[i], states[i + 1], steps[i]);
    }
  }
}
