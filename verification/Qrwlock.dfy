/** The queue read/write lock word, run by any number of threads below 2^24.

    Every atomic access is one step.  The low byte of the word belongs to the writer, the rest counts
    readers, and the writer gives the lock back by storing one byte.  The slow paths are not
    part of this model: a thread that enters one stays there, with whatever it added to the word. */
module Qrwlock {
  import opened Machine
  import opened Threads

  const QW_LOCKED: nat := 0xff
  const QW_WMASK: nat := 0xff
  const QR_BIAS: nat := 0x100
  const MAX_THREADS: nat := 0x100_0000

  datatype Pc =
    | Outside
    | ReadAdd      // saw no writer, about to add a reader
    | BackOut      // added a reader, then saw a writer
    | Reading
    | ReadSlow     // added a reader and entered the slow path
    | WriteCas     // saw a free word, about to compare and exchange
    | Writing
    | WriteSlow

  datatype State = State(cnts: nat, threads: seq<Pc>)

  datatype Step =
    | TestForRead(t: nat) | AddReader(t: nat) | SubReader(t: nat) | ReadLock(t: nat) | ReadUnlock(t: nat)
    | TestForWrite(t: nat) | CasWriter(t: nat) | WriteLock(t: nat) | WriteUnlock(t: nat)

  ghost predicate Init(s: State) {
    s.cnts == 0 && forall t: nat | t < |s.threads| :: s.threads[t].Outside?
  }

  // ---------------------------------------------------------------- the word in memory

  /** The four bytes of a word, lowest address first. */
  function ToMemory(w: nat, big: bool): (m: seq<nat>)
    ensures |m| == 4
  {
    var b0, b1, b2, b3 := w % 256, w / 0x100 % 256, w / 0x1_0000 % 256, w / 0x100_0000 % 256;
    if big then [b3, b2, b1, b0] else [b0, b1, b2, b3]
  }

  function FromMemory(m: seq<nat>, big: bool): nat
    requires |m| == 4
  {
    if big then m[3] + 0x100 * m[2] + 0x1_0000 * m[1] + 0x100_0000 * m[0]
    else m[0] + 0x100 * m[1] + 0x1_0000 * m[2] + 0x100_0000 * m[3]
  }

  /** The address of the writer's byte. */
  function WriteByte(big: bool): nat { if big then 3 else 0 }

  /** Storing 0 in the writer's byte. */
  function ByteStored(w: nat, big: bool): nat {
    FromMemory(ToMemory(w, big)[WriteByte(big) := 0], big)
  }

  /** The picture of the lock word in the source. */
  lemma MemoryPicture()
    ensures ToMemory(0x1234_5678, false) == [0x78, 0x56, 0x34, 0x12]
    ensures ToMemory(0x1234_5678, true) == [0x12, 0x34, 0x56, 0x78]
  {}

  lemma MemoryRoundTrip(w: nat, big: bool)
    requires w < U32
    ensures FromMemory(ToMemory(w, big), big) == w
  {
    assert w / 0x100 / 0x100 == w / 0x1_0000;
    assert w / 0x1_0000 / 0x100 == w / 0x100_0000;
  }

  lemma StoreSubtracts(w: nat, big: bool)
    requires w < U32
    ensures ByteStored(w, big) == w - w % 256
  {
    MemoryRoundTrip(w, big);
  }

  /** On either byte order the store clears the writer's byte and keeps the readers' bits. */
  lemma ByteStoreKeepsReaders(readers: nat, writer: nat, big: bool)
    requires writer < 256 && 256 * readers + writer < U32
    ensures ByteStored(256 * readers + writer, big) == 256 * readers
  {
    hide ByteStored;
    var w := 256 * readers + writer;
    StoreSubtracts(w, big);
    assert w % 256 == writer;
  }

  // ---------------------------------------------------------------- steps

  /** What a thread tests: the writer's byte. */
  predicate WriterSeen(cnts: nat) { And(cnts, QW_WMASK) != 0 }

  function Moved(s: State, t: nat, pc: Pc, cnts: nat): State
    requires t < |s.threads|
  {
    State(cnts, s.threads[t := pc])
  }

  ghost predicate Next(s: State, s': State, step: Step, big: bool) {
    step.t < |s.threads| &&
    var t, pc := step.t, s.threads[step.t];
    var more, fewer := Wrap32(s.cnts + QR_BIAS), Wrap32(s.cnts - QR_BIAS);
    match step
    case TestForRead(_) =>
      pc.Outside? && s' == Moved(s, t, if WriterSeen(s.cnts) then Outside else ReadAdd, s.cnts)
    case AddReader(_) =>
      pc.ReadAdd? && s' == Moved(s, t, if WriterSeen(more) then BackOut else Reading, more)
    case SubReader(_) => pc.BackOut? && s' == Moved(s, t, Outside, fewer)
    case ReadLock(_) =>
      pc.Outside? && s' == Moved(s, t, if WriterSeen(more) then ReadSlow else Reading, more)
    case ReadUnlock(_) => pc.Reading? && s' == Moved(s, t, Outside, fewer)
    case TestForWrite(_) =>
      pc.Outside? && s' == Moved(s, t, if s.cnts != 0 then Outside else WriteCas, s.cnts)
    case CasWriter(_) =>
      && pc.WriteCas?
      && s' == if s.cnts == 0 then Moved(s, t, Writing, Or(0, QW_LOCKED)) else Moved(s, t, Outside, s.cnts)
    case WriteLock(_) =>
      && pc.Outside?
      && s' == if s.cnts == 0 then Moved(s, t, Writing, QW_LOCKED) else Moved(s, t, WriteSlow, s.cnts)
    case WriteUnlock(_) => pc.Writing? && s' == Moved(s, t, Outside, ByteStored(s.cnts, big))
  }

  // ---------------------------------------------------------------- the invariant

  predicate Counted(pc: Pc) { pc.Reading? || pc.BackOut? || pc.ReadSlow? }

  predicate Reads(pc: Pc) { pc.Reading? }

  predicate Writes(pc: Pc) { pc.Writing? }

  /** The word is exactly the readers in flight and the writer. */
  ghost predicate Inv(s: State) {
    && |s.threads| < MAX_THREADS
    && s.cnts == QR_BIAS * Count(s.threads, Counted) + QW_LOCKED * Count(s.threads, Writes)
    && Count(s.threads, Writes) <= 1
    && (Count(s.threads, Writes) == 1 ==> Count(s.threads, Reads) == 0)
  }

  lemma InitInv(s: State)
    requires Init(s) && |s.threads| < MAX_THREADS
    ensures Inv(s)
  {
    CountNone(s.threads, Counted);
    CountNone(s.threads, Writes);
  }

  /** The low byte is clear exactly when there is no writer. */
  lemma WriterSeenIs(readers: nat, writers: nat)
    requires writers <= 1
    ensures WriterSeen(QR_BIAS * readers + QW_LOCKED * writers) == (writers == 1)
  {
    hide And;
    AndMask(QR_BIAS * readers + QW_LOCKED * writers, 8);
  }

  lemma WriterBits()
    ensures Or(0, QW_LOCKED) == QW_LOCKED
  {}

  /** How the three counts change when one thread moves. */
  ghost predicate Recounted(s: State, s': State, t: nat)
    requires t < |s.threads| && t < |s'.threads|
  {
    && Count(s'.threads, Counted) + Unit(Counted(s.threads[t])) ==
         Count(s.threads, Counted) + Unit(Counted(s'.threads[t]))
    && Count(s'.threads, Reads) + Unit(Reads(s.threads[t])) ==
         Count(s.threads, Reads) + Unit(Reads(s'.threads[t]))
    && Count(s'.threads, Writes) + Unit(Writes(s.threads[t])) ==
         Count(s.threads, Writes) + Unit(Writes(s'.threads[t]))
  }

  lemma Recount(s: State, s': State, step: Step, big: bool)
    requires Next(s, s', step, big)
    ensures |s'.threads| == |s.threads| && Recounted(s, s', step.t)
  {
    hide Count, And, Or, Wrap32, ByteStored, WriterSeen;
    CountUpdate(s.threads, Counted, step.t, s'.threads[step.t]);
    CountUpdate(s.threads, Reads, step.t, s'.threads[step.t]);
    CountUpdate(s.threads, Writes, step.t, s'.threads[step.t]);
  }

  /** A reader comes: it holds the lock exactly when there is no writer. */
  lemma ReaderEnters(s: State, s': State, step: Step, big: bool)
    requires Inv(s) && Next(s, s', step, big) && (step.AddReader? || step.ReadLock?)
    ensures Inv(s')
  {
    hide Count, And, Or, Wrap32, ByteStored, WriterSeen;
    Recount(s, s', step, big);
    Wrap32Small(s.cnts + QR_BIAS);
    WriterSeenIs(Count(s.threads, Counted) + 1, Count(s.threads, Writes));
  }

  lemma ReaderLeaves(s: State, s': State, step: Step, big: bool)
    requires Inv(s) && Next(s, s', step, big) && (step.SubReader? || step.ReadUnlock?)
    ensures Inv(s')
  {
    hide Count, And, Or, Wrap32, ByteStored, WriterSeen;
    Recount(s, s', step, big);
    Wrap32Small(s.cnts - QR_BIAS);
  }

  /** A writer comes only when the word is free, so when no reader is in flight. */
  lemma WriterEnters(s: State, s': State, step: Step, big: bool)
    requires Inv(s) && Next(s, s', step, big) && (step.CasWriter? || step.WriteLock?)
    ensures Inv(s')
  {
    hide Count, And, Or, Wrap32, ByteStored, WriterSeen;
    Recount(s, s', step, big);
    WriterBits();
    CountImplies(s'.threads, Reads, Counted);
  }

  lemma WriterLeaves(s: State, s': State, step: Step, big: bool)
    requires Inv(s) && Next(s, s', step, big) && step.WriteUnlock?
    ensures Inv(s')
  {
    hide Count, And, Or, Wrap32, ByteStored, WriterSeen;
    Recount(s, s', step, big);
    ByteStoreKeepsReaders(Count(s.threads, Counted), QW_LOCKED, big);
  }

  lemma NextKeepsInv(s: State, s': State, step: Step, big: bool)
    requires Inv(s) && Next(s, s', step, big)
    ensures Inv(s')
  {
    hide Count, And, Or, Wrap32, ByteStored, WriterSeen;
    if step.AddReader? || step.ReadLock? {
      ReaderEnters(s, s', step, big);
    } else if step.SubReader? || step.ReadUnlock? {
      ReaderLeaves(s, s', step, big);
    } else if step.CasWriter? || step.WriteLock? {
      WriterEnters(s, s', step, big);
    } else if step.WriteUnlock? {
      WriterLeaves(s, s', step, big);
    } else {
      Recount(s, s', step, big);
    }
  }

  // ---------------------------------------------------------------- every run

  /** Any interleaving, on a machine of either byte order. */
  ghost predicate Run(states: seq<State>, steps: seq<Step>, big: bool) {
    && |states| == |steps| + 1 && Init(states[0]) && |states[0].threads| < MAX_THREADS
    && forall i: nat | i < |steps| :: Next(states[i], states[i + 1], steps[i], big)
  }

  lemma {:induction false} RunInv(states: seq<State>, steps: seq<Step>, big: bool, i: nat)
    requires Run(states, steps, big) && i < |states|
    ensures Inv(states[i])
    decreases i
  {
    hide Init, Next, Inv;
    if i == 0 {
      InitInv(states[0]);
    } else {
      RunInv(states, steps, big, i - 1);
      NextKeepsInv(states[i - 1], states[i], steps[i - 1], big);
    }
  }

  /** In every state of every run the word counts exactly the readers in flight (holding, backing
      out or in the slow path) and the writer. */
  lemma WordIsExact(states: seq<State>, steps: seq<Step>, big: bool, i: nat)
    requires Run(states, steps, big) && i < |states|
    ensures states[i].cnts == 256 * Count(states[i].threads, Counted) + 0xff * Count(states[i].threads, Writes) < U32
  {
    hide Count, Run;
    RunInv(states, steps, big, i);
    var threads := states[i].threads;
    CountDisjoint(threads, Counted, Writes);
  }

  /** A writer is alone: no other writer, no reader. */
  lemma WriterIsAlone(states: seq<State>, steps: seq<Step>, big: bool, i: nat, t: nat, u: nat)
    requires Run(states, steps, big) && i < |states| && t < |states[i].threads| && u < |states[i].threads|
    requires states[i].threads[t].Writing? && t != u
    ensures !states[i].threads[u].Writing? && !states[i].threads[u].Reading?
  {
    hide Count, Run;
    RunInv(states, steps, big, i);
    var threads := states[i].threads;
    CountPositive(threads, Writes, t);
    if threads[u].Writing? {
      CountTwo(threads, Writes, if t < u then t else u, if t < u then u else t);
    }
    if threads[u].Reading? { CountPositive(threads, Reads, u); }
  }

  ghost predicate NobodyWrites(s: State) {
    forall t: nat | t < |s.threads| :: !s.threads[t].Writing?
  }

  /** Nobody writes, reads, backs out or waits in the readers' slow path. */
  ghost predicate NobodyInFlight(s: State) {
    forall t: nat | t < |s.threads| :: !s.threads[t].Writing? && !Counted(s.threads[t])
  }

  lemma CanLock(s: State)
    requires Inv(s)
    ensures WriterSeen(s.cnts) <==> !NobodyWrites(s)
    ensures s.cnts == 0 <==> NobodyInFlight(s)
  {
    hide Count, WriterSeen;
    var threads := s.threads;
    WriterSeenIs(Count(threads, Counted), Count(threads, Writes));
    if Count(threads, Writes) == 1 {
      var t := CountWitness(threads, Writes);
    } else {
      forall t: nat | t < |threads| ensures !Writes(threads[t]) {
        if Writes(threads[t]) { CountPositive(threads, Writes, t); }
      }
    }
    if Count(threads, Counted) > 0 {
      var t := CountWitness(threads, Counted);
    } else {
      forall t: nat | t < |threads| ensures !Counted(threads[t]) {
        if Counted(threads[t]) { CountPositive(threads, Counted, t); }
      }
    }
  }

  /** `queued_read_can_lock` and `queued_write_can_lock` tell the truth about the moment they look. */
  lemma CanLockIs(states: seq<State>, steps: seq<Step>, big: bool, i: nat)
    requires Run(states, steps, big) && i < |states|
    ensures !WriterSeen(states[i].cnts) <==> NobodyWrites(states[i])
    ensures states[i].cnts == 0 <==> NobodyInFlight(states[i])
  {
    hide Run, WriterSeen, Inv;
    RunInv(states, steps, big, i);
    CanLock(states[i]);
  }

  // ---------------------------------------------------------------- what the calls come to

  /** Adding a reader does not change whether a writer is seen. */
  lemma AddingShowsTheSame(s: State, t: nat)
    requires Inv(s) && t < |s.threads| && !Counted(s.threads[t])
    ensures WriterSeen(Wrap32(s.cnts + QR_BIAS)) == WriterSeen(s.cnts)
  {
    hide Count, WriterSeen, Wrap32;
    CountUpdate(s.threads, Counted, t, Reading);
    Wrap32Small(s.cnts + QR_BIAS);
    WriterSeenIs(Count(s.threads, Counted), Count(s.threads, Writes));
    WriterSeenIs(Count(s.threads, Counted) + 1, Count(s.threads, Writes));
  }

  /** A reader gets in exactly when nobody writes, a writer exactly when nobody is in flight; who does
      not get in backs out, gives up or goes to the slow path, as the call has it; an unlock lets
      go.  Nobody else moves. */
  lemma Outcomes(states: seq<State>, steps: seq<Step>, big: bool, i: nat)
    requires Run(states, steps, big) && i < |steps|
    ensures steps[i].t < |states[i + 1].threads| == |states[i].threads|
    ensures var s, pc := states[i], states[i + 1].threads[steps[i].t];
            match steps[i]
            case TestForRead(_) => pc == if NobodyWrites(s) then ReadAdd else Outside
            case AddReader(_) => pc == if NobodyWrites(s) then Reading else BackOut
            case SubReader(_) => pc == Outside
            case ReadLock(_) => pc == if NobodyWrites(s) then Reading else ReadSlow
            case ReadUnlock(_) => pc == Outside
            case TestForWrite(_) => pc == if NobodyInFlight(s) then WriteCas else Outside
            case CasWriter(_) => pc == if NobodyInFlight(s) then Writing else Outside
            case WriteLock(_) => pc == if NobodyInFlight(s) then Writing else WriteSlow
            case WriteUnlock(_) => pc == Outside
    ensures forall u: nat | u < |states[i].threads| && u != steps[i].t ::
              states[i + 1].threads[u] == states[i].threads[u]
  {
    hide Count, WriterSeen, Wrap32, ByteStored, Or, Inv, NobodyWrites, NobodyInFlight;
    var s, t := states[i], steps[i].t;
    RunInv(states, steps, big, i);
    CanLock(s);
    assert Next(s, states[i + 1], steps[i], big);
    if !Counted(s.threads[t]) { AddingShowsTheSame(s, t); }
  }

  /** The step a thread can take next. */
  predicate Continues(pc: Pc, step: Step) {
    match pc
    case Outside => step.TestForRead? || step.ReadLock? || step.TestForWrite? || step.WriteLock?
    case ReadAdd => step.AddReader?
    case BackOut => step.SubReader?
    case Reading => step.ReadUnlock?
    case WriteCas => step.CasWriter?
    case Writing => step.WriteUnlock?
    case ReadSlow => false
    case WriteSlow => false
  }

  lemma StepsAre(s: State, step: Step, big: bool)
    requires step.t < |s.threads|
    ensures Continues(s.threads[step.t], step) <==> exists s' :: Next(s, s', step, big)
  {
    hide WriterSeen, Wrap32, ByteStored, Or;
    var t := step.t;
    var more, fewer := Wrap32(s.cnts + QR_BIAS), Wrap32(s.cnts - QR_BIAS);
    if Continues(s.threads[t], step) {
      var s' :=
        match step
        case TestForRead(_) => Moved(s, t, if WriterSeen(s.cnts) then Outside else ReadAdd, s.cnts)
        case AddReader(_) => Moved(s, t, if WriterSeen(more) then BackOut else Reading, more)
        case SubReader(_) => Moved(s, t, Outside, fewer)
        case ReadLock(_) => Moved(s, t, if WriterSeen(more) then ReadSlow else Reading, more)
        case ReadUnlock(_) => Moved(s, t, Outside, fewer)
        case TestForWrite(_) => Moved(s, t, if s.cnts != 0 then Outside else WriteCas, s.cnts)
        case CasWriter(_) =>
          if s.cnts == 0 then Moved(s, t, Writing, Or(0, QW_LOCKED)) else Moved(s, t, Outside, s.cnts)
        case WriteLock(_) => if s.cnts == 0 then Moved(s, t, Writing, QW_LOCKED) else Moved(s, t, WriteSlow, s.cnts)
        case WriteUnlock(_) => Moved(s, t, Outside, ByteStored(s.cnts, big));
      assert Next(s, s', step, big);
    }
  }
}
