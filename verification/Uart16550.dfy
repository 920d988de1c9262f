/** The UART driver: any number of threads in `uart16550_read` and `uart16550_write`, one interrupt
    handler, and the two rings they share.

    Threads serialise among themselves with a try-lock; the handler takes no lock.  Every access to
    an index, a slot, a lock word or a device register is a step of its own, and steps of all
    parties interleave freely.  What the device reports about its readiness is arbitrary. */
module Uart16550 {
  import opened Machine
  import opened KfifoCore
  import Spsc

  datatype Memory = Memory(cells: seq<Byte>, inIdx: nat, outIdx: nat)

  /** Where a thread is. */
  datatype Pc =
    | Outside
    | ReadWait(size: nat)
    | ReadCas(size: nat)
    | ReadLocked(size: nat)
    | ReadCopy(len: nat, got: map<nat, Byte>)
    | ReadUnlock(bytes: seq<Byte>)
    | WriteWait(buf: seq<Byte>)
    | WriteCas(buf: seq<Byte>)
    | WriteLocked(buf: seq<Byte>)
    | WriteCopy(buf: seq<Byte>, n: nat, done: set<nat>)
    | WriteUnlock(n: nat)

  /** Where the interrupt handler is. */
  datatype Handler =
    | Ready
    | Sending
    | Getting(taken: map<nat, Byte>)
    | Got(out: Byte)
    | Receiving
    | Fetched(arrived: Byte)
    | Putting(kept: Byte, done: set<nat>)

  /** A completed write: the user's bytes and how many of them were accepted. */
  datatype Write = Write(buf: seq<Byte>, n: nat)

  /** A byte read from the receive register, and during which interrupt. */
  datatype Received = Received(interrupt: nat, byte: Byte)

  /** What became of such a byte: stored in the input ring or dropped. */
  datatype Arrival = Arrival(interrupt: nat, byte: Byte, kept: bool)

  datatype Device = Device(
    input: Memory, output: Memory, inputLock: nat, outputLock: nat,
    threads: seq<Pc>, handler: Handler,
    writeLog: seq<Write>, readLog: seq<seq<Byte>>, sent: seq<Byte>,
    register: seq<Received>, arrivals: seq<Arrival>, interrupts: nat)

  datatype Step =
    | CallRead(t: nat, size: nat) | TestInput(t: nat) | CasInput(t: nat)
    | BeginRead(t: nat) | FetchRead(t: nat, i: nat) | PublishRead(t: nat) | UnlockInput(t: nat)
    | CallWrite(t: nat, buf: seq<Byte>) | TestOutput(t: nat) | CasOutput(t: nat)
    | BeginWrite(t: nat) | StoreWrite(t: nat, i: nat) | PublishWrite(t: nat) | UnlockOutput(t: nat)
    | Interrupt | SendOver | BeginGet | FetchGet | PublishGet | WriteThr
    | ReceiveOver | ReadRbr(b: Byte) | DropByte | BeginPut | StorePut | PublishPut

  // ---------------------------------------------------------------- steps

  ghost function Used(m: Memory): nat { Wrap32(m.inIdx - m.outIdx) }

  ghost function Free(m: Memory): nat { Wrap32(|m.cells| - Used(m)) }

  ghost function At(d: Device, t: nat, pc: Pc): Device
    requires t < |d.threads|
  {
    d.(threads := d.threads[t := pc])
  }

  /** The step `uart16550_read` has reached in a thread at `pc`. */
  ghost predicate ReadReaches(pc: Pc, step: Step) {
    match step
    case CallRead(_, _) => pc.Outside?
    case TestInput(_) => pc.ReadWait?
    case CasInput(_) => pc.ReadCas?
    case BeginRead(_) => pc.ReadLocked?
    case FetchRead(_, i) => pc.ReadCopy? && i < pc.len && i !in pc.got
    case PublishRead(_) => pc.ReadCopy? && forall i: nat | i < pc.len :: i in pc.got
    case UnlockInput(_) => pc.ReadUnlock?
    case _ => false
  }

  /** `uart16550_read` in thread `t`: wait, try-lock, `kfifo_out`, unlock. */
  ghost function ReadAfter(d: Device, step: Step, t: nat): Device
    requires t < |d.threads| && |d.input.cells| > 0 && ReadReaches(d.threads[t], step)
  {
    var pc := d.threads[t];
    match step
    case CallRead(_, size) => At(d, t, ReadWait(size))
    case TestInput(_) => At(d, t, if d.inputLock == 0 then ReadCas(pc.size) else pc)
    case CasInput(_) =>
      if d.inputLock == 0 then At(d, t, ReadLocked(pc.size)).(inputLock := 1) else At(d, t, ReadWait(pc.size))
    case BeginRead(_) => At(d, t, ReadCopy(Min(pc.size, Used(d.input)), map[]))
    case FetchRead(_, i) =>
      At(d, t, ReadCopy(pc.len, pc.got[i := d.input.cells[Spsc.SlotOf(d.input.outIdx, i, |d.input.cells|)]]))
    case PublishRead(_) =>
      var bytes := Spsc.Collected(pc.len, pc.got);
      At(d, t, ReadUnlock(bytes)).(input := d.input.(outIdx := Wrap32(d.input.outIdx + pc.len)),
                                   readLog := d.readLog + [bytes])
    case UnlockInput(_) => At(d, t, Outside).(inputLock := Wrap32(d.inputLock - 1))
  }

  ghost predicate ReadStep(d: Device, d': Device, step: Step, t: nat)
    requires t < |d.threads| && |d.input.cells| > 0
  {
    ReadReaches(d.threads[t], step) && d' == ReadAfter(d, step, t)
  }

  ghost predicate WriteReaches(pc: Pc, step: Step) {
    match step
    case CallWrite(_, _) => pc.Outside?
    case TestOutput(_) => pc.WriteWait?
    case CasOutput(_) => pc.WriteCas?
    case BeginWrite(_) => pc.WriteLocked?
    case StoreWrite(_, i) => pc.WriteCopy? && i < pc.n <= |pc.buf| && i !in pc.done
    case PublishWrite(_) => pc.WriteCopy? && pc.n <= |pc.buf| && forall i: nat | i < pc.n :: i in pc.done
    case UnlockOutput(_) => pc.WriteUnlock?
    case _ => false
  }

  /** `uart16550_write` in thread `t`: wait, try-lock, `kfifo_in`, unlock. */
  ghost function WriteAfter(d: Device, step: Step, t: nat): Device
    requires t < |d.threads| && |d.output.cells| > 0 && WriteReaches(d.threads[t], step)
  {
    var pc := d.threads[t];
    match step
    case CallWrite(_, buf) => At(d, t, WriteWait(buf))
    case TestOutput(_) => At(d, t, if d.outputLock == 0 then WriteCas(pc.buf) else pc)
    case CasOutput(_) =>
      if d.outputLock == 0 then At(d, t, WriteLocked(pc.buf)).(outputLock := 1) else At(d, t, WriteWait(pc.buf))
    case BeginWrite(_) => At(d, t, WriteCopy(pc.buf, Min(|pc.buf|, Free(d.output)), {}))
    case StoreWrite(_, i) =>
      var at := Spsc.SlotOf(d.output.inIdx, i, |d.output.cells|);
      At(d, t, WriteCopy(pc.buf, pc.n, pc.done + {i})).(output := d.output.(cells := d.output.cells[at := pc.buf[i]]))
    case PublishWrite(_) =>
      At(d, t, WriteUnlock(pc.n)).(output := d.output.(inIdx := Wrap32(d.output.inIdx + pc.n)),
                                   writeLog := d.writeLog + [Write(pc.buf, pc.n)])
    case UnlockOutput(_) => At(d, t, Outside).(outputLock := Wrap32(d.outputLock - 1))
  }

  ghost predicate WriteStep(d: Device, d': Device, step: Step, t: nat)
    requires t < |d.threads| && |d.output.cells| > 0
  {
    WriteReaches(d.threads[t], step) && d' == WriteAfter(d, step, t)
  }

  /** The step the handler has reached.  What the device reports is arbitrary, so both loops may go on
      or end. */
  ghost predicate HandlerReaches(d: Device, step: Step) {
    var h := d.handler;
    match step
    case Interrupt => h.Ready?
    case SendOver => h.Sending?
    case BeginGet => h.Sending? && d.output.inIdx != d.output.outIdx
    case FetchGet => h.Getting? && 0 !in h.taken
    case PublishGet => h.Getting? && 0 in h.taken
    case WriteThr => h.Got?
    case ReceiveOver => h.Receiving?
    case ReadRbr(_) => h.Receiving?
    case DropByte => h.Fetched? && Used(d.input) > |d.input.cells| - 1
    case BeginPut => h.Fetched? && Used(d.input) <= |d.input.cells| - 1
    case StorePut => h.Putting? && 0 !in h.done
    case PublishPut => h.Putting? && 0 in h.done
    case _ => false
  }

  /** `interrupt_handler`: drain the output ring into the transmit register, then fill the input
      ring from the receive register.  A byte that finds the ring full ends the interrupt. */
  ghost function HandlerAfter(d: Device, step: Step): Device
    requires |d.input.cells| > 0 && |d.output.cells| > 0 && HandlerReaches(d, step)
  {
    var h := d.handler;
    match step
    case Interrupt => d.(handler := Sending, interrupts := d.interrupts + 1)
    case SendOver => d.(handler := Receiving)
    case BeginGet => d.(handler := Getting(map[]))
    case FetchGet =>
      d.(handler := Getting(h.taken[0 := d.output.cells[Spsc.SlotOf(d.output.outIdx, 0, |d.output.cells|)]]))
    case PublishGet => d.(handler := Got(h.taken[0]), output := d.output.(outIdx := Wrap32(d.output.outIdx + 1)))
    case WriteThr => d.(handler := Sending, sent := d.sent + [h.out])
    case ReceiveOver => d.(handler := Ready)
    case ReadRbr(b) => d.(handler := Fetched(b), register := d.register + [Received(d.interrupts, b)])
    case DropByte => d.(handler := Ready, arrivals := d.arrivals + [Arrival(d.interrupts, h.arrived, false)])
    case BeginPut => d.(handler := Putting(h.arrived, {}))
    case StorePut =>
      var at := Spsc.SlotOf(d.input.inIdx, 0, |d.input.cells|);
      d.(handler := Putting(h.kept, h.done + {0}), input := d.input.(cells := d.input.cells[at := h.kept]))
    case PublishPut =>
      d.(handler := Receiving, input := d.input.(inIdx := Wrap32(d.input.inIdx + 1)),
         arrivals := d.arrivals + [Arrival(d.interrupts, h.kept, true)])
  }

  ghost predicate HandlerStep(d: Device, d': Device, step: Step)
    requires |d.input.cells| > 0 && |d.output.cells| > 0
  {
    HandlerReaches(d, step) && d' == HandlerAfter(d, step)
  }

  ghost predicate IsReadStep(step: Step) {
    || step.CallRead? || step.TestInput? || step.CasInput? || step.BeginRead? || step.FetchRead?
    || step.PublishRead? || step.UnlockInput?
  }

  ghost predicate IsWriteStep(step: Step) {
    || step.CallWrite? || step.TestOutput? || step.CasOutput? || step.BeginWrite? || step.StoreWrite?
    || step.PublishWrite? || step.UnlockOutput?
  }

  ghost predicate Next(d: Device, d': Device, step: Step) {
    && |d.input.cells| > 0 && |d.output.cells| > 0
    && if IsReadStep(step) then step.t < |d.threads| && ReadStep(d, d', step, step.t)
       else if IsWriteStep(step) then step.t < |d.threads| && WriteStep(d, d', step, step.t)
       else HandlerStep(d, d', step)
  }

  const FIFO_SIZE: nat := 4096

  /** `init_struct`: empty rings, free locks, nobody inside. */
  ghost predicate Init(d: Device) {
    && |d.input.cells| == FIFO_SIZE && d.input.inIdx == 0 && d.input.outIdx == 0
    && |d.output.cells| == FIFO_SIZE && d.output.inIdx == 0 && d.output.outIdx == 0
    && d.inputLock == 0 && d.outputLock == 0
    && (forall t: nat | t < |d.threads| :: d.threads[t].Outside?) && d.handler.Ready?
    && d.writeLog == [] && d.readLog == [] && d.sent == []
    && d.register == [] && d.arrivals == [] && d.interrupts == 0
  }

  // ---------------------------------------------------------------- locks

  /** Between a successful try-lock and the unlock. */
  predicate InRead(pc: Pc) { pc.ReadLocked? || pc.ReadCopy? || pc.ReadUnlock? }

  predicate InWrite(pc: Pc) { pc.WriteLocked? || pc.WriteCopy? || pc.WriteUnlock? }

  /** The lock word is 1 exactly while some thread is inside, and only one ever is. */
  ghost predicate Exclusive(lock: nat, threads: seq<Pc>, inside: Pc -> bool) {
    && lock <= 1
    && (lock == 0 ==> forall t: nat | t < |threads| :: !inside(threads[t]))
    && (lock == 1 ==> exists t: nat :: t < |threads| && inside(threads[t]))
    && AtMostOne(threads, inside)
  }

  ghost predicate AtMostOne(threads: seq<Pc>, inside: Pc -> bool) {
    forall t: nat, u: nat | t < |threads| && u < |threads| && inside(threads[t]) && inside(threads[u]) :: t == u
  }

  /** A thread stays out, or stays in. */
  lemma ExclusiveKept(lock: nat, threads: seq<Pc>, inside: Pc -> bool, t: nat, pc: Pc)
    requires Exclusive(lock, threads, inside) && t < |threads| && inside(threads[t]) == inside(pc)
    ensures Exclusive(lock, threads[t := pc], inside)
  {
    if lock == 1 {
      var u: nat :| u < |threads| && inside(threads[u]);
      assert inside(threads[t := pc][u]);
    }
  }

  lemma ExclusiveEnter(threads: seq<Pc>, inside: Pc -> bool, t: nat, pc: Pc)
    requires Exclusive(0, threads, inside) && t < |threads| && inside(pc)
    ensures Exclusive(1, threads[t := pc], inside)
  {
    assert inside(threads[t := pc][t]);
  }

  lemma ExclusiveLeave(lock: nat, threads: seq<Pc>, inside: Pc -> bool, t: nat, pc: Pc)
    requires Exclusive(lock, threads, inside) && t < |threads| && inside(threads[t]) && !inside(pc)
    ensures lock == 1 && Exclusive(0, threads[t := pc], inside)
  {}

  // ---------------------------------------------------------------- what each ring sees

  /** Every byte a write reported as accepted, in the order of the writes. */
  ghost function Accepted(log: seq<Write>): seq<Byte>
    requires forall w | w in log :: w.n <= |w.buf|
  {
    if log == [] then [] else Accepted(log[..|log| - 1]) + log[|log| - 1].buf[..log[|log| - 1].n]
  }

  /** Every byte a read took, in the order of the reads. */
  ghost function Taken(log: seq<seq<Byte>>): seq<Byte> {
    if log == [] then [] else Taken(log[..|log| - 1]) + log[|log| - 1]
  }

  /** Every received byte that was not dropped. */
  ghost function Kept(log: seq<Arrival>): seq<Byte> {
    if log == [] then []
    else Kept(log[..|log| - 1]) + (if log[|log| - 1].kept then [log[|log| - 1].byte] else [])
  }

  /** The byte the handler has taken from the ring and not yet given to the device. */
  ghost function InHand(h: Handler): seq<Byte> {
    if h.Got? then [h.out] else []
  }

  /** Some thread of which `p` holds, or none. */
  ghost function Finder(threads: seq<Pc>, p: Pc -> bool): (r: int)
    ensures r == -1 || (0 <= r < |threads| && p(threads[r]))
    ensures r == -1 ==> forall t: nat | t < |threads| :: !p(threads[t])
  {
    if t: nat :| t < |threads| && p(threads[t]) then t else -1
  }

  predicate Writing(pc: Pc) { pc.WriteCopy? && pc.n <= |pc.buf| }

  predicate Reading(pc: Pc) { pc.ReadCopy? }

  ghost function Writer(threads: seq<Pc>): Spsc.Producer<Byte> {
    var t := Finder(threads, Writing);
    if t == -1 then Spsc.ProducerIdle
    else Spsc.Storing(threads[t].buf[..threads[t].n], threads[t].done)
  }

  ghost function Reader(threads: seq<Pc>): Spsc.Consumer<Byte> {
    var t := Finder(threads, Reading);
    if t == -1 then Spsc.ConsumerIdle else Spsc.Fetching(threads[t].len, threads[t].got)
  }

  ghost function Getter(h: Handler): Spsc.Consumer<Byte> {
    if h.Getting? then Spsc.Fetching(1, h.taken) else Spsc.ConsumerIdle
  }

  ghost function Putter(h: Handler): Spsc.Producer<Byte> {
    if h.Putting? then Spsc.Storing([h.kept], h.done) else Spsc.ProducerIdle
  }

  ghost predicate Sound(d: Device) {
    && (forall w | w in d.writeLog :: w.n <= |w.buf|)
    && (forall t: nat | t < |d.threads| :: d.threads[t].WriteCopy? ==> d.threads[t].n <= |d.threads[t].buf|)
  }

  /** The output ring: writers produce, the handler consumes. */
  ghost function OutputRing(d: Device): Spsc.State<Byte>
    requires Sound(d)
  {
    Spsc.State(d.output.cells, d.output.inIdx, d.output.outIdx, Writer(d.threads), Getter(d.handler),
               Accepted(d.writeLog), d.sent + InHand(d.handler))
  }

  /** The input ring: the handler produces, readers consume. */
  ghost function InputRing(d: Device): Spsc.State<Byte> {
    Spsc.State(d.input.cells, d.input.inIdx, d.input.outIdx, Putter(d.handler), Reader(d.threads),
               Kept(d.arrivals), Taken(d.readLog))
  }

  /** A ring stays as it was, or makes a step of the lock-free protocol. */
  ghost predicate Moves(s: Spsc.State<Byte>, s': Spsc.State<Byte>) {
    s' == s || exists step :: Spsc.Next(s, s', step)
  }

  // ---------------------------------------------------------------- the invariant

  ghost predicate Locks(d: Device) {
    Exclusive(d.inputLock, d.threads, InRead) && Exclusive(d.outputLock, d.threads, InWrite)
  }

  /** A dropped byte is the last one its interrupt fetched. */
  ghost predicate Drops(d: Device) {
    && (forall i: nat | i < |d.arrivals| :: d.arrivals[i].interrupt <= d.interrupts)
    && (!d.handler.Ready? ==>
          forall i: nat | i < |d.arrivals| :: d.arrivals[i].interrupt == d.interrupts ==> d.arrivals[i].kept)
    && (forall i: nat, j: nat | i < j < |d.arrivals| ::
          d.arrivals[i].interrupt == d.arrivals[j].interrupt ==> d.arrivals[i].kept)
  }

  ghost function Registered(log: seq<Arrival>): seq<Received> {
    seq(|log|, i requires 0 <= i < |log| => Received(log[i].interrupt, log[i].byte))
  }

  /** The byte the handler has read and neither stored nor dropped. */
  ghost function InFlight(h: Handler, interrupt: nat): seq<Received> {
    if h.Fetched? then [Received(interrupt, h.arrived)]
    else if h.Putting? then [Received(interrupt, h.kept)]
    else []
  }

  /** Every byte read from the register has one fate, in order, but for the one in flight. */
  ghost predicate Accounted(d: Device) {
    && d.register == Registered(d.arrivals) + InFlight(d.handler, d.interrupts)
    && |d.input.cells| == FIFO_SIZE && |d.output.cells| == FIFO_SIZE
  }

  ghost predicate Inv(d: Device) {
    Locks(d) && Sound(d) && Drops(d) && Accounted(d) && Spsc.Inv(OutputRing(d)) && Spsc.Inv(InputRing(d))
  }

  // ---------------------------------------------------------------- finding the thread in the copy

  lemma FinderIs(threads: seq<Pc>, p: Pc -> bool, t: nat)
    requires AtMostOne(threads, p) && t < |threads| && p(threads[t])
    ensures Finder(threads, p) == t
  {}

  lemma FinderNone(threads: seq<Pc>, p: Pc -> bool)
    requires forall t: nat | t < |threads| :: !p(threads[t])
    ensures Finder(threads, p) == -1
  {}

  lemma WritingOne(threads: seq<Pc>)
    requires AtMostOne(threads, InWrite)
    ensures AtMostOne(threads, Writing)
  {
    assert forall pc: Pc :: Writing(pc) ==> InWrite(pc);
  }

  lemma ReadingOne(threads: seq<Pc>)
    requires AtMostOne(threads, InRead)
    ensures AtMostOne(threads, Reading)
  {
    assert forall pc: Pc :: Reading(pc) ==> InRead(pc);
  }

  /** A step that neither starts nor ends in the copy leaves the thread in the copy as it was. */
  lemma FinderKept(threads: seq<Pc>, p: Pc -> bool, t: nat, pc: Pc)
    requires AtMostOne(threads, p) && t < |threads| && !p(threads[t]) && !p(pc)
    ensures AtMostOne(threads[t := pc], p)
    ensures Finder(threads[t := pc], p) == Finder(threads, p) != t
  {
    var after := threads[t := pc];
    var u := Finder(threads, p);
    if u == -1 {
      FinderNone(after, p);
    } else {
      assert p(after[u]);
      FinderIs(after, p, u);
    }
  }

  lemma WriterKept(threads: seq<Pc>, t: nat, pc: Pc)
    requires AtMostOne(threads, InWrite) && t < |threads| && !Writing(threads[t]) && !Writing(pc)
    ensures Writer(threads[t := pc]) == Writer(threads)
  {
    WritingOne(threads);
    FinderKept(threads, Writing, t, pc);
  }

  lemma ReaderKept(threads: seq<Pc>, t: nat, pc: Pc)
    requires AtMostOne(threads, InRead) && t < |threads| && !Reading(threads[t]) && !Reading(pc)
    ensures Reader(threads[t := pc]) == Reader(threads)
  {
    ReadingOne(threads);
    FinderKept(threads, Reading, t, pc);
  }

  lemma WriterAt(threads: seq<Pc>, t: nat)
    requires AtMostOne(threads, InWrite) && t < |threads| && InWrite(threads[t])
    ensures Writer(threads) == if Writing(threads[t]) then Spsc.Storing(threads[t].buf[..threads[t].n], threads[t].done)
                               else Spsc.ProducerIdle
  {
    WritingOne(threads);
    if Writing(threads[t]) {
      FinderIs(threads, Writing, t);
    } else {
      forall u: nat | u < |threads| ensures !Writing(threads[u]) {
        assert Writing(threads[u]) ==> InWrite(threads[u]);
      }
      FinderNone(threads, Writing);
    }
  }

  lemma ReaderAt(threads: seq<Pc>, t: nat)
    requires AtMostOne(threads, InRead) && t < |threads| && InRead(threads[t])
    ensures Reader(threads) == if Reading(threads[t]) then Spsc.Fetching(threads[t].len, threads[t].got)
                               else Spsc.ConsumerIdle
  {
    ReadingOne(threads);
    if Reading(threads[t]) {
      FinderIs(threads, Reading, t);
    } else {
      forall u: nat | u < |threads| ensures !Reading(threads[u]) {
        assert Reading(threads[u]) ==> InRead(threads[u]);
      }
      FinderNone(threads, Reading);
    }
  }

  // ---------------------------------------------------------------- a longer log

  lemma AcceptedGrows(log: seq<Write>, w: Write)
    requires (forall v | v in log :: v.n <= |v.buf|) && w.n <= |w.buf|
    ensures Accepted(log + [w]) == Accepted(log) + w.buf[..w.n]
  {
    assert (log + [w])[..|log|] == log;
  }

  lemma TakenGrows(log: seq<seq<Byte>>, bytes: seq<Byte>)
    ensures Taken(log + [bytes]) == Taken(log) + bytes
  {
    assert (log + [bytes])[..|log|] == log;
  }

  lemma KeptGrows(log: seq<Arrival>, a: Arrival)
    ensures Kept(log + [a]) == if a.kept then Kept(log) + [a.byte] else Kept(log)
  {
    assert (log + [a])[..|log|] == log;
  }

  // ---------------------------------------------------------------- threads

  lemma ReadLocks(d: Device, d': Device, step: Step, t: nat)
    requires Locks(d) && t < |d.threads| && |d.input.cells| > 0 && ReadStep(d, d', step, t)
    ensures Locks(d') && t < |d'.threads| && d'.threads == d.threads[t := d'.threads[t]]
  {
    hide Exclusive, Spsc.SlotOf, Spsc.Collected, Wrap32;
    var pc := d'.threads[t];
    ExclusiveKept(d.outputLock, d.threads, InWrite, t, pc);
    if InRead(pc) == InRead(d.threads[t]) {
      ExclusiveKept(d.inputLock, d.threads, InRead, t, pc);
    } else if InRead(pc) {
      ExclusiveEnter(d.threads, InRead, t, pc);
    } else {
      ExclusiveLeave(d.inputLock, d.threads, InRead, t, pc);
      Wrap32Small(0);
    }
  }

  lemma WriteLocks(d: Device, d': Device, step: Step, t: nat)
    requires Locks(d) && t < |d.threads| && |d.output.cells| > 0 && WriteStep(d, d', step, t)
    ensures Locks(d') && t < |d'.threads| && d'.threads == d.threads[t := d'.threads[t]]
  {
    hide Exclusive, Spsc.SlotOf, Wrap32;
    var pc := d'.threads[t];
    ExclusiveKept(d.inputLock, d.threads, InRead, t, pc);
    if InWrite(pc) == InWrite(d.threads[t]) {
      ExclusiveKept(d.outputLock, d.threads, InWrite, t, pc);
    } else if InWrite(pc) {
      ExclusiveEnter(d.threads, InWrite, t, pc);
    } else {
      ExclusiveLeave(d.outputLock, d.threads, InWrite, t, pc);
      Wrap32Small(0);
    }
  }

  lemma OneInside(d: Device)
    requires Locks(d)
    ensures AtMostOne(d.threads, InRead) && AtMostOne(d.threads, InWrite)
  {}

  /** What no step of a read touches. */
  ghost predicate ReadLeaves(d: Device, d': Device) {
    && d'.output == d.output && d'.outputLock == d.outputLock && d'.writeLog == d.writeLog && d'.handler == d.handler
    && d'.sent == d.sent && d'.register == d.register && d'.arrivals == d.arrivals && d'.interrupts == d.interrupts
  }

  lemma ReadFrame(d: Device, d': Device, step: Step, t: nat)
    requires t < |d.threads| && |d.input.cells| > 0 && ReadStep(d, d', step, t)
    ensures |d'.threads| == |d.threads| && d'.threads == d.threads[t := d'.threads[t]] && ReadLeaves(d, d')
    ensures |d'.input.cells| == |d.input.cells|
    ensures !d.threads[t].WriteCopy? && !d'.threads[t].WriteCopy?
  {
    hide Used, Wrap32, Spsc.SlotOf, Spsc.Collected;
  }

  /** What no step of a write touches. */
  ghost predicate WriteLeaves(d: Device, d': Device) {
    && d'.input == d.input && d'.inputLock == d.inputLock && d'.readLog == d.readLog && d'.handler == d.handler
    && d'.sent == d.sent && d'.register == d.register && d'.arrivals == d.arrivals && d'.interrupts == d.interrupts
  }

  lemma WriteFrame(d: Device, d': Device, step: Step, t: nat)
    requires t < |d.threads| && |d.output.cells| > 0 && WriteStep(d, d', step, t)
    ensures |d'.threads| == |d.threads| && d'.threads == d.threads[t := d'.threads[t]] && WriteLeaves(d, d')
    ensures |d'.output.cells| == |d.output.cells|
    ensures !d.threads[t].ReadCopy? && !d'.threads[t].ReadCopy?
    ensures step.PublishWrite? ==> d.threads[t].WriteCopy? && d.threads[t].n <= |d.threads[t].buf|
    ensures step.PublishWrite? ==> d'.writeLog == d.writeLog + [Write(d.threads[t].buf, d.threads[t].n)]
    ensures !step.PublishWrite? ==> d'.writeLog == d.writeLog
  {
    hide Used, Free, Wrap32, Spsc.SlotOf;
  }

  /** A writing thread keeps the bounds of what it accepts. */
  lemma WriteSound(d: Device, d': Device, step: Step, t: nat)
    requires Sound(d) && t < |d.threads| && |d.output.cells| > 0 && WriteStep(d, d', step, t)
    ensures Sound(d')
  {
    hide Spsc.SlotOf, Wrap32;
  }

  /** A reading thread is invisible to the output ring. */
  lemma ReadLeavesOutput(d: Device, d': Device, step: Step, t: nat)
    requires Locks(d) && Sound(d) && t < |d.threads| && |d.input.cells| > 0 && ReadStep(d, d', step, t)
    ensures Sound(d') && OutputRing(d') == OutputRing(d)
  {
    hide Writer, Accepted, ReadStep, Exclusive;
    ReadFrame(d, d', step, t);
    OneInside(d);
    WriterKept(d.threads, t, d'.threads[t]);
  }

  lemma WriteLeavesInput(d: Device, d': Device, step: Step, t: nat)
    requires Locks(d) && Sound(d) && t < |d.threads| && |d.output.cells| > 0 && WriteStep(d, d', step, t)
    ensures Sound(d') && InputRing(d') == InputRing(d)
  {
    hide Reader, Kept, Taken, WriteStep, Exclusive, Sound;
    WriteFrame(d, d', step, t);
    WriteSound(d, d', step, t);
    OneInside(d);
    ReaderKept(d.threads, t, d'.threads[t]);
  }

  /** A thread that is not copying does not move the ring. */
  lemma ReadOutsideCopy(d: Device, d': Device, step: Step, t: nat)
    requires Locks(d) && t < |d.threads| && |d.input.cells| > 0 && ReadStep(d, d', step, t)
    requires step.CallRead? || step.TestInput? || step.CasInput? || step.UnlockInput?
    ensures InputRing(d') == InputRing(d)
  {
    hide Reader, Kept, Taken, Wrap32;
    ReadLocks(d, d', step, t);
    ReaderKept(d.threads, t, d'.threads[t]);
  }

  lemma WriteOutsideCopy(d: Device, d': Device, step: Step, t: nat)
    requires Locks(d) && Sound(d) && t < |d.threads| && |d.output.cells| > 0 && WriteStep(d, d', step, t)
    requires step.CallWrite? || step.TestOutput? || step.CasOutput? || step.UnlockOutput?
    ensures Sound(d') && OutputRing(d') == OutputRing(d)
  {
    hide Writer, Accepted, Wrap32;
    WriteLocks(d, d', step, t);
    WriterKept(d.threads, t, d'.threads[t]);
  }

  /** A thread inside `kfifo_out` is the ring's consumer. */
  lemma ReadInCopy(d: Device, d': Device, step: Step, t: nat)
    requires Locks(d) && t < |d.threads| && |d.input.cells| > 0 && ReadStep(d, d', step, t)
    requires step.BeginRead? || step.FetchRead? || step.PublishRead?
    ensures Moves(InputRing(d), InputRing(d'))
  {
    hide Reader, Kept, Taken, Wrap32, Spsc.SlotOf, Spsc.Collected;
    ReadLocks(d, d', step, t);
    ReaderAt(d.threads, t);
    ReaderAt(d'.threads, t);
    var s, s' := InputRing(d), InputRing(d');
    if step.BeginRead? {
      assert Spsc.Next(s, s', Spsc.BeginOut(d.threads[t].size));
    } else if step.FetchRead? {
      assert Spsc.Next(s, s', Spsc.Fetch(step.i));
    } else {
      TakenGrows(d.readLog, Spsc.Collected(d.threads[t].len, d.threads[t].got));
      assert Spsc.Next(s, s', Spsc.PublishOut);
    }
  }

  /** A thread inside `kfifo_in` is the ring's producer. */
  lemma WriteInCopy(d: Device, d': Device, step: Step, t: nat)
    requires Locks(d) && Sound(d) && t < |d.threads| && |d.output.cells| > 0 && WriteStep(d, d', step, t)
    requires step.BeginWrite? || step.StoreWrite? || step.PublishWrite?
    ensures Sound(d') && Moves(OutputRing(d), OutputRing(d'))
  {
    hide Writer, Accepted, Wrap32, Spsc.SlotOf;
    WriteLocks(d, d', step, t);
    WriterAt(d.threads, t);
    WriterAt(d'.threads, t);
    var s, s' := OutputRing(d), OutputRing(d');
    if step.BeginWrite? {
      assert Spsc.Next(s, s', Spsc.BeginIn(d.threads[t].buf));
    } else if step.StoreWrite? {
      assert Spsc.Next(s, s', Spsc.Store(step.i));
    } else {
      AcceptedGrows(d.writeLog, Write(d.threads[t].buf, d.threads[t].n));
      assert Spsc.Next(s, s', Spsc.PublishIn);
    }
  }

  // ---------------------------------------------------------------- the handler

  /** The handler inside `kfifo_get` is the output ring's consumer. */
  lemma HandlerOnOutput(d: Device, d': Device, step: Step)
    requires Sound(d) && |d.input.cells| > 0 && |d.output.cells| > 0 && HandlerStep(d, d', step)
    requires Spsc.Inv(OutputRing(d))
    ensures Sound(d') && Moves(OutputRing(d), OutputRing(d'))
  {
    hide Writer, Accepted, Wrap32, Residue, Kept, Taken, Spsc.Inv, Spsc.SlotOf;
    var s, s' := OutputRing(d), OutputRing(d');
    if step.BeginGet? {
      SomethingToGet(s);
      assert Spsc.Next(s, s', Spsc.BeginOut(1));
    } else if step.FetchGet? {
      assert Spsc.Next(s, s', Spsc.Fetch(0));
    } else if step.PublishGet? {
      assert s'.consumed == s.consumed + Spsc.Collected(1, d.handler.taken);
      assert Spsc.Next(s, s', Spsc.PublishOut);
    } else if step.WriteThr? {
      assert s'.consumed == s.consumed;
    }
  }

  /** A ring whose indices differ is not empty. */
  lemma SomethingToGet(s: Spsc.State<Byte>)
    requires Spsc.Inv(s) && s.inIdx != s.outIdx
    ensures Spsc.Used(s) >= 1
  {
    hide Wrap32, Residue;
    Spsc.UsedIs(|s.produced|, |s.consumed|);
  }

  /** The handler inside `kfifo_put` is the input ring's producer; a dropped byte leaves no trace. */
  lemma HandlerOnInput(d: Device, d': Device, step: Step)
    requires |d.input.cells| > 0 && |d.output.cells| > 0 && HandlerStep(d, d', step)
    requires Spsc.Inv(InputRing(d))
    ensures Moves(InputRing(d), InputRing(d'))
  {
    hide Reader, Accepted, Wrap32, Residue, Kept, Taken, Spsc.Inv, Spsc.SlotOf;
    var s, s' := InputRing(d), InputRing(d');
    if step.BeginPut? {
      RoomToPut(s);
      assert [d.handler.arrived][..1] == [d.handler.arrived];
      assert Spsc.Next(s, s', Spsc.BeginIn([d.handler.arrived]));
    } else if step.StorePut? {
      assert Spsc.Next(s, s', Spsc.Store(0));
    } else if step.PublishPut? {
      KeptGrows(d.arrivals, Arrival(d.interrupts, d.handler.kept, true));
      assert Spsc.Next(s, s', Spsc.PublishIn);
    } else if step.DropByte? {
      KeptGrows(d.arrivals, Arrival(d.interrupts, d.handler.arrived, false));
    }
  }

  lemma RoomToPut(s: Spsc.State<Byte>)
    requires Spsc.Inv(s) && Spsc.Used(s) <= |s.cells| - 1
    ensures Spsc.Free(s) >= 1
  {
    hide Wrap32, Residue;
    Spsc.UsedIs(|s.produced|, |s.consumed|);
    Wrap32Small(|s.cells| - Spsc.Used(s));
  }

  lemma HandlerDrops(d: Device, d': Device, step: Step)
    requires Drops(d) && |d.input.cells| > 0 && |d.output.cells| > 0 && HandlerStep(d, d', step)
    ensures Drops(d')
  {
    hide Wrap32, Spsc.SlotOf;
  }

  lemma RegisteredGrows(log: seq<Arrival>, a: Arrival)
    ensures Registered(log + [a]) == Registered(log) + [Received(a.interrupt, a.byte)]
  {}

  lemma HandlerMovesNobody(d: Device, d': Device, step: Step)
    requires |d.input.cells| > 0 && |d.output.cells| > 0 && HandlerStep(d, d', step)
    ensures d'.threads == d.threads && d'.inputLock == d.inputLock && d'.outputLock == d.outputLock
    ensures d'.readLog == d.readLog && d'.writeLog == d.writeLog
    ensures |d'.input.cells| == |d.input.cells| && |d'.output.cells| == |d.output.cells|
  {
    hide Wrap32, Spsc.SlotOf, Used;
  }

  lemma HandlerAccounts(d: Device, d': Device, step: Step)
    requires Accounted(d) && HandlerStep(d, d', step)
    ensures Accounted(d')
  {
    hide Wrap32, Spsc.SlotOf, Registered;
    if step.DropByte? {
      RegisteredGrows(d.arrivals, Arrival(d.interrupts, d.handler.arrived, false));
    } else if step.PublishPut? {
      RegisteredGrows(d.arrivals, Arrival(d.interrupts, d.handler.kept, true));
    }
  }

  // ---------------------------------------------------------------- every step, every run

  lemma MovesKeepsInv(s: Spsc.State<Byte>, s': Spsc.State<Byte>)
    requires Spsc.Inv(s) && Moves(s, s')
    ensures Spsc.Inv(s')
  {
    hide Spsc.Inv, Spsc.Next;
    if s' != s {
      var step :| Spsc.Next(s, s', step);
      Spsc.NextKeepsInv(s, s', step);
    }
  }

  /** Each step moves each ring by a step of the lock-free protocol or not at all. */
  lemma NextMovesRings(d: Device, d': Device, step: Step)
    requires Inv(d) && Next(d, d', step)
    ensures Sound(d') && Moves(OutputRing(d), OutputRing(d')) && Moves(InputRing(d), InputRing(d'))
  {
    hide Spsc.Inv, OutputRing, InputRing, ReadStep, WriteStep, HandlerStep, Locks, Sound, Drops;
    if step.CallRead? || step.TestInput? || step.CasInput? || step.UnlockInput? {
      ReadLeavesOutput(d, d', step, step.t);
      ReadOutsideCopy(d, d', step, step.t);
    } else if step.BeginRead? || step.FetchRead? || step.PublishRead? {
      ReadLeavesOutput(d, d', step, step.t);
      ReadInCopy(d, d', step, step.t);
    } else if step.CallWrite? || step.TestOutput? || step.CasOutput? || step.UnlockOutput? {
      WriteLeavesInput(d, d', step, step.t);
      WriteOutsideCopy(d, d', step, step.t);
    } else if step.BeginWrite? || step.StoreWrite? || step.PublishWrite? {
      WriteLeavesInput(d, d', step, step.t);
      WriteInCopy(d, d', step, step.t);
    } else {
      HandlerOnOutput(d, d', step);
      HandlerOnInput(d, d', step);
    }
  }

  lemma NextKeepsLocks(d: Device, d': Device, step: Step)
    requires Locks(d) && Drops(d) && Next(d, d', step)
    ensures Locks(d') && Drops(d')
  {
    hide Exclusive, ReadStep, WriteStep, HandlerStep;
    if IsReadStep(step) {
      ReadFrame(d, d', step, step.t);
      ReadLocks(d, d', step, step.t);
    } else if IsWriteStep(step) {
      WriteFrame(d, d', step, step.t);
      WriteLocks(d, d', step, step.t);
    } else {
      HandlerDrops(d, d', step);
      HandlerMovesNobody(d, d', step);
    }
  }

  lemma NextAccounts(d: Device, d': Device, step: Step)
    requires Accounted(d) && Next(d, d', step)
    ensures Accounted(d')
  {
    hide HandlerStep, ReadStep, WriteStep, Registered, InFlight;
    if IsReadStep(step) {
      ReadFrame(d, d', step, step.t);
    } else if IsWriteStep(step) {
      WriteFrame(d, d', step, step.t);
    } else {
      HandlerAccounts(d, d', step);
    }
  }

  lemma NextKeepsInv(d: Device, d': Device, step: Step)
    requires Inv(d) && Next(d, d', step)
    ensures Inv(d')
  {
    hide Spsc.Inv, OutputRing, InputRing, Next, Locks, Sound, Drops, Moves, Accounted;
    NextAccounts(d, d', step);
    NextMovesRings(d, d', step);
    NextKeepsLocks(d, d', step);
    MovesKeepsInv(OutputRing(d), OutputRing(d'));
    MovesKeepsInv(InputRing(d), InputRing(d'));
  }

  lemma InitInv(d: Device)
    requires Init(d)
    ensures Inv(d)
  {
    assert FIFO_SIZE == Pow2(12) by { assert Pow2(6) == 64; Pow2Add(6, 6); }
    FinderNone(d.threads, Writing);
    FinderNone(d.threads, Reading);
    Spsc.InitInv(OutputRing(d));
    Spsc.InitInv(InputRing(d));
  }

  /** A run: any interleaving of steps of the threads and the handler. */
  ghost predicate Run(states: seq<Device>, steps: seq<Step>) {
    && |states| == |steps| + 1 && Init(states[0])
    && forall i: nat | i < |steps| :: Next(states[i], states[i + 1], steps[i])
  }

  lemma {:induction false} RunInv(states: seq<Device>, steps: seq<Step>, i: nat)
    requires Run(states, steps) && i < |states|
    ensures Inv(states[i])
    decreases i
  {
    hide Init, Next, Inv;
    if i == 0 {
      InitInv(states[0]);
    } else {
      RunInv(states, steps, i - 1);
      NextKeepsInv(states[i - 1], states[i], steps[i - 1]);
    }
  }

  ghost function Waiting(m: Memory): seq<Byte>
    requires |m.cells| > 0
  {
    Spsc.LiveElements(m.cells, m.inIdx, m.outIdx)
  }

  /** Bytes going out: what the device was given, followed by the byte in the handler's hand and the
      bytes in the ring, is exactly the accepted prefixes of all writes, in their order.
      Nothing is lost, duplicated or reordered by any interleaving. */
  lemma OutgoingInOrder(states: seq<Device>, steps: seq<Step>, i: nat)
    requires Run(states, steps) && i < |states|
    ensures var d := states[i];
      && Sound(d) && |d.output.cells| > 0
      && Accepted(d.writeLog) == d.sent + InHand(d.handler) + Waiting(d.output)
  {
    hide Spsc.LiveElements, Accepted, Writer, Wrap32;
    RunInv(states, steps, i);
    Spsc.InvIsAQueue(OutputRing(states[i]));
  }

  /** Bytes coming in: what the handler read from the register is what it stored or dropped, followed
      by the byte in flight; and what it stored is exactly what the reads took, followed by what is in
      the ring. */
  lemma IncomingInOrder(states: seq<Device>, steps: seq<Step>, i: nat)
    requires Run(states, steps) && i < |states|
    ensures var d := states[i];
      && |d.input.cells| > 0
      && d.register == Registered(d.arrivals) + InFlight(d.handler, d.interrupts)
      && Kept(d.arrivals) == Taken(d.readLog) + Waiting(d.input)
  {
    hide Spsc.LiveElements, Kept, Taken, Reader, Wrap32, Registered, InFlight;
    RunInv(states, steps, i);
    Spsc.InvIsAQueue(InputRing(states[i]));
  }

  /** The fate of a byte: the step that settles it drops it exactly when the ring is full at that
      moment, and otherwise goes on to store it. */
  lemma DroppedExactlyWhenFull(states: seq<Device>, steps: seq<Step>, i: nat)
    requires Run(states, steps) && i < |steps| && states[i].handler.Fetched?
    requires states[i + 1].handler != states[i].handler
    ensures |states[i].input.cells| > 0
    ensures steps[i].DropByte? <==> |Waiting(states[i].input)| == FIFO_SIZE
    ensures !steps[i].DropByte? ==> states[i + 1].handler == Putting(states[i].handler.arrived, {})
  {
    hide Next, Waiting, Used;
    InputUse(states, steps, i);
    assert Next(states[i], states[i + 1], steps[i]);
    FetchedMoves(states[i], states[i + 1], steps[i]);
  }

  /** The ring holds as many bytes as its indices say, and never more than its size. */
  lemma InputUse(states: seq<Device>, steps: seq<Step>, i: nat)
    requires Run(states, steps) && i < |states|
    ensures |states[i].input.cells| == FIFO_SIZE
    ensures |Waiting(states[i].input)| == Used(states[i].input) <= FIFO_SIZE
  {
    hide Kept, Taken, Reader, Wrap32, Spsc.SlotOf, Run;
    RunInv(states, steps, i);
    Spsc.InvIsAQueue(InputRing(states[i]));
  }

  lemma FetchedMoves(d: Device, d': Device, step: Step)
    requires Next(d, d', step) && d.handler.Fetched? && d'.handler != d.handler
    ensures step.DropByte? || step.BeginPut?
    ensures step.DropByte? <==> Used(d.input) > |d.input.cells| - 1
    ensures !step.DropByte? ==> d'.handler == Putting(d.handler.arrived, {})
  {
    hide Used, Spsc.SlotOf, Wrap32, ReadStep, WriteStep;
    if IsReadStep(step) { ReadFrame(d, d', step, step.t); }
    if IsWriteStep(step) { WriteFrame(d, d', step, step.t); }
  }

  /** The log says so: an entry is added by a drop or by a publication, and marked accordingly. */
  lemma FateIsRecorded(states: seq<Device>, steps: seq<Step>, i: nat)
    requires Run(states, steps) && i < |steps| && states[i + 1].arrivals != states[i].arrivals
    ensures steps[i].DropByte? || steps[i].PublishPut?
    ensures states[i + 1].register == states[i].register == Registered(states[i + 1].arrivals)
    ensures exists a: Arrival ::
              states[i + 1].arrivals == states[i].arrivals + [a] && (a.kept <==> steps[i].PublishPut?)
  {
    hide Registered, Wrap32, Spsc.SlotOf, Spsc.Collected, Inv, Init;
    AccountedIn(states, steps, i + 1);
    var d, d' := states[i], states[i + 1];
    assert Next(d, d', steps[i]);
    var byte := if d.handler.Fetched? then d.handler.arrived else d.handler.kept;
    var a := Arrival(d.interrupts, byte, steps[i].PublishPut?);
    assert d'.arrivals == d.arrivals + [a];
  }

  lemma AccountedIn(states: seq<Device>, steps: seq<Step>, i: nat)
    requires Run(states, steps) && i < |states|
    ensures Accounted(states[i])
  {
    hide Run, Accounted, Locks, Sound, Drops, Spsc.Inv, OutputRing, InputRing;
    RunInv(states, steps, i);
  }

  /** One interrupt drops at most one byte, and it is the last byte that interrupt read from the
      register. */
  lemma AtMostOneDropped(states: seq<Device>, steps: seq<Step>, i: nat, j: nat, k: nat)
    requires Run(states, steps) && i < |states|
    requires j < |states[i].arrivals| && !states[i].arrivals[j].kept
    requires k < |states[i].register| && states[i].register[k].interrupt == states[i].arrivals[j].interrupt
    ensures k <= j
  {
    hide Spsc.Inv, OutputRing, InputRing, Locks, Sound, Run;
    RunInv(states, steps, i);
    assert k < |states[i].arrivals| ==> states[i].register[k] == Registered(states[i].arrivals)[k];
  }

  /** At any moment at most one thread is in `kfifo_in` and at most one in `kfifo_out`, and no ring
      slot is read by one party while another may still write it. */
  lemma OneThreadPerSide(states: seq<Device>, steps: seq<Step>, i: nat)
    requires Run(states, steps) && i < |states|
    ensures var d := states[i];
      && AtMostOne(d.threads, InRead) && AtMostOne(d.threads, InWrite)
      && Sound(d) && |d.output.cells| > 0 && Spsc.NoRace(OutputRing(d))
      && |d.input.cells| > 0 && Spsc.NoRace(InputRing(d))
  {
    hide Spsc.NoRace, Writer, Reader, Accepted, Kept, Taken, Wrap32, AtMostOne, Sound, Run;
    RunInv(states, steps, i);
    Spsc.InvNoRace(OutputRing(states[i]));
    Spsc.InvNoRace(InputRing(states[i]));
  }
}
