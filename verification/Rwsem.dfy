/** The read/write semaphore count, run by any number of threads below half the active field.

    Every atomic access is one step; the compare-and-swap loop of the read trylock is two.
    The slow paths are not part of this model: a thread that enters one stays there, with
    the bias it added. */
module Rwsem {
  import opened Threads

  /** RWSEM_ACTIVE_MASK + 1 on 32-bit and on 64-bit machines. */
  ghost predicate Width(w: nat) { w == 0x1_0000 || w == 0x1_0000_0000 }

  /** A signed long, of twice the width of the active field, wrapping around. */
  ghost function Long(x: int, w: nat): int
    requires Width(w)
  {
    if w == 0x1_0000 then (x + 0x8000_0000) % 0x1_0000_0000 - 0x8000_0000
    else (x + 0x8000_0000_0000_0000) % 0x1_0000_0000_0000_0000 - 0x8000_0000_0000_0000
  }

  /** RWSEM_ACTIVE_WRITE_BIAS = -(mask + 1) + 1. */
  ghost function WriteBias(w: nat): int { 1 - w }

  datatype Pc =
    | Outside
    | ReadLoop             // in the trylock loop, about to read the count
    | ReadCas(seen: int)   // read `seen`, about to compare and swap
    | Reading
    | ReadSlow
    | Writing
    | WriteSlow

  /** `wakes` counts the calls of `rwsem_wake` and `rwsem_downgrade_wake`. */
  datatype State = State(count: int, threads: seq<Pc>, wakes: nat)

  datatype Step =
    | DownRead(t: nat) | TryRead(t: nat) | LoadCount(t: nat) | SwapCount(t: nat) | UpRead(t: nat)
    | DownWrite(t: nat) | TryWrite(t: nat) | UpWrite(t: nat) | Downgrade(t: nat)

  ghost predicate Init(s: State, w: nat) {
    && Width(w) && 2 * |s.threads| < w && s.count == 0 && s.wakes == 0
    && forall t: nat | t < |s.threads| :: s.threads[t].Outside?
  }

  ghost function Moved(s: State, t: nat, pc: Pc, count: int, wake: bool): State
    requires t < |s.threads|
  {
    State(count, s.threads[t := pc], s.wakes + Unit(wake))
  }

  /** In two's complement the bits under the mask are the residue. */
  ghost predicate NoneActive(count: int, w: nat)
    requires Width(w)
  {
    count % w == 0
  }

  ghost predicate Next(s: State, s': State, step: Step, w: nat)
    requires Width(w)
  {
    step.t < |s.threads| &&
    var t, pc := step.t, s.threads[step.t];
    match step
    case DownRead(_) =>
      && pc.Outside?
      && var tmp := Long(s.count + 1, w); s' == Moved(s, t, if tmp <= 0 then ReadSlow else Reading, tmp, false)
    case TryRead(_) => pc.Outside? && s' == Moved(s, t, ReadLoop, s.count, false)
    case LoadCount(_) =>
      pc.ReadLoop? && s' == Moved(s, t, if s.count >= 0 then ReadCas(s.count) else Outside, s.count, false)
    case SwapCount(_) =>
      && pc.ReadCas?
      && s' == if s.count == pc.seen then Moved(s, t, Reading, Long(pc.seen + 1, w), false)
               else Moved(s, t, ReadLoop, s.count, false)
    case UpRead(_) =>
      && pc.Reading?
      && var tmp := Long(s.count - 1, w); s' == Moved(s, t, Outside, tmp, tmp < -1 && NoneActive(tmp, w))
    case DownWrite(_) =>
      && pc.Outside?
      && var tmp := Long(s.count + WriteBias(w), w);
         s' == Moved(s, t, if tmp != WriteBias(w) then WriteSlow else Writing, tmp, false)
    case TryWrite(_) =>
      && pc.Outside?
      && s' == if s.count == 0 then Moved(s, t, Writing, WriteBias(w), false) else s
    case UpWrite(_) =>
      && pc.Writing?
      && var tmp := Long(s.count - WriteBias(w), w); s' == Moved(s, t, Outside, tmp, tmp < 0)
    case Downgrade(_) =>
      && pc.Writing?
      && var tmp := Long(s.count + w, w); s' == Moved(s, t, Reading, tmp, tmp < 0)
  }

  // ---------------------------------------------------------------- the count

  predicate Reads(pc: Pc) { pc.Reading? }

  predicate Writes(pc: Pc) { pc.Writing? }

  predicate AddedRead(pc: Pc) { pc.Reading? || pc.ReadSlow? }

  predicate AddedWrite(pc: Pc) { pc.Writing? || pc.WriteSlow? }

  /** The count that `r` read biases and `n` write biases make. */
  ghost function Biases(r: int, n: int, w: nat): int { r + n - w * n }

  lemma BiasesFit(r: nat, n: nat, w: nat)
    requires Width(w) && 2 * (r + n) < w
    ensures Long(Biases(r, n, w), w) == Biases(r, n, w)
  {
    if w == 0x1_0000 {
      assert Biases(r, n, w) == r + n - 0x1_0000 * n;
    } else {
      assert Biases(r, n, w) == r + n - 0x1_0000_0000 * n;
    }
  }

  lemma BiasesStep(r: int, n: int, w: nat)
    ensures Biases(r + 1, n, w) == Biases(r, n, w) + 1
    ensures Biases(r, n + 1, w) == Biases(r, n, w) + WriteBias(w)
  {
    assert w * (n + 1) == w * n + w;
  }

  lemma Multiples(n: nat, w: nat)
    ensures n == 0 ==> w * n == 0
    ensures n == 1 ==> w * n == w
    ensures n >= 2 ==> w * n >= w + w
  {
    if n >= 2 { assert w * n == w * (n - 2) + w + w; }
  }

  /** A count that is not negative has no write bias in it. */
  lemma NotNegative(r: nat, n: nat, w: nat)
    requires 2 * (r + n) < w && Biases(r, n, w) >= 0
    ensures n == 0 && Biases(r, n, w) == r
  {
    Multiples(n, w);
  }

  /** A count equal to the write bias has exactly one write bias and no read bias in it. */
  lemma WriterAlone(r: nat, n: nat, w: nat)
    requires Width(w) && 2 * (r + n) < w && Biases(r, n, w) == WriteBias(w)
    ensures n == 1 && r == 0
  {
    Multiples(n, w);
    WriterAloneLinear(r, n, w, w * n);
  }

  lemma WriterAloneLinear(r: nat, n: nat, w: int, product: int)
    requires 1 < w && 2 * (r + n) < w && r + n - product == 1 - w
    requires n == 0 ==> product == 0
    requires n == 1 ==> product == w
    requires n >= 2 ==> product >= w + w
    ensures n == 1 && r == 0
  {}

  // ---------------------------------------------------------------- the invariant

  ghost predicate Inv(s: State, w: nat) {
    && Width(w) && 2 * |s.threads| < w
    && s.count == Biases(Count(s.threads, AddedRead), Count(s.threads, AddedWrite), w)
    && Count(s.threads, Writes) <= 1
    && (Count(s.threads, Writes) == 1 ==> Count(s.threads, Reads) == 0)
    && forall t: nat | t < |s.threads| :: s.threads[t].ReadCas? ==> s.threads[t].seen >= 0
  }

  lemma InitInv(s: State, w: nat)
    requires Init(s, w)
    ensures Inv(s, w)
  {
    CountNone(s.threads, AddedRead);
    CountNone(s.threads, AddedWrite);
    CountNone(s.threads, Writes);
  }

  /** How a count of threads changes when one of them moves. */
  ghost predicate Recounted(s: State, s': State, p: Pc -> bool, t: nat)
    requires t < |s.threads| && t < |s'.threads|
  {
    Count(s'.threads, p) + Unit(p(s.threads[t])) == Count(s.threads, p) + Unit(p(s'.threads[t]))
  }

  lemma Recount(s: State, s': State, step: Step, w: nat)
    requires Width(w) && Next(s, s', step, w)
    ensures |s'.threads| == |s.threads|
    ensures Recounted(s, s', Reads, step.t) && Recounted(s, s', Writes, step.t)
    ensures Recounted(s, s', AddedRead, step.t) && Recounted(s, s', AddedWrite, step.t)
  {
    hide Count, Long, NoneActive;
    assert s'.threads == s.threads[step.t := s'.threads[step.t]];
    CountUpdate(s.threads, Reads, step.t, s'.threads[step.t]);
    CountUpdate(s.threads, Writes, step.t, s'.threads[step.t]);
    CountUpdate(s.threads, AddedRead, step.t, s'.threads[step.t]);
    CountUpdate(s.threads, AddedWrite, step.t, s'.threads[step.t]);
  }

  lemma Together(threads: seq<Pc>)
    ensures Count(threads, AddedRead) + Count(threads, AddedWrite) <= |threads|
    ensures Count(threads, Reads) <= Count(threads, AddedRead)
    ensures Count(threads, Writes) <= Count(threads, AddedWrite)
  {
    CountDisjoint(threads, AddedRead, AddedWrite);
    CountImplies(threads, Reads, AddedRead);
    CountImplies(threads, Writes, AddedWrite);
  }

  /** A reader gets in only when no write bias is in the count. */
  lemma ReaderEnters(s: State, s': State, step: Step, w: nat)
    requires Inv(s, w) && Next(s, s', step, w) && (step.DownRead? || step.SwapCount?)
    ensures Inv(s', w)
  {
    hide Count, Long, NoneActive, Biases;
    Recount(s, s', step, w);
    Together(s.threads);
    Together(s'.threads);
    var r, n := Count(s.threads, AddedRead), Count(s.threads, AddedWrite);
    BiasesStep(r, n, w);
    if Count(s'.threads, AddedRead) == r + 1 { BiasesFit(r + 1, n, w); }
    if s'.threads[step.t].Reading? && s'.count >= 0 { NotNegative(r + 1, n, w); }
  }

  lemma ReaderLeaves(s: State, s': State, step: Step, w: nat)
    requires Inv(s, w) && Next(s, s', step, w) && step.UpRead?
    ensures Inv(s', w)
  {
    hide Count, Long, NoneActive, Biases;
    Recount(s, s', step, w);
    Together(s'.threads);
    var r, n := Count(s'.threads, AddedRead), Count(s'.threads, AddedWrite);
    BiasesStep(r, n, w);
    BiasesFit(r, n, w);
  }

  /** A writer gets in only when the count is the write bias alone. */
  lemma WriterEnters(s: State, s': State, step: Step, w: nat)
    requires Inv(s, w) && Next(s, s', step, w) && (step.DownWrite? || step.TryWrite?)
    ensures Inv(s', w)
  {
    hide Count, Long, NoneActive, Biases;
    Recount(s, s', step, w);
    Together(s.threads);
    Together(s'.threads);
    var r, n := Count(s.threads, AddedRead), Count(s.threads, AddedWrite);
    BiasesStep(r, n, w);
    if s'.threads != s.threads {
      BiasesFit(r, n + 1, w);
      if s'.count == WriteBias(w) { WriterAlone(r, n + 1, w); }
    }
  }

  lemma WriterLeaves(s: State, s': State, step: Step, w: nat)
    requires Inv(s, w) && Next(s, s', step, w) && (step.UpWrite? || step.Downgrade?)
    ensures Inv(s', w)
  {
    hide Count, Long, NoneActive, Biases;
    Recount(s, s', step, w);
    Together(s'.threads);
    var r: int, n: int := Count(s'.threads, AddedRead), Count(s'.threads, AddedWrite);
    BiasesFit(r, n, w);
    BiasesStep(r, n, w);
    BiasesStep(r - 1, n, w);
    BiasesStep(r - 1, n + 1, w);
  }

  lemma NextKeepsInv(s: State, s': State, step: Step, w: nat)
    requires Inv(s, w) && Next(s, s', step, w)
    ensures Inv(s', w)
  {
    hide Count, Long, NoneActive, Biases;
    match step
    case DownRead(_) => ReaderEnters(s, s', step, w);
    case SwapCount(_) => ReaderEnters(s, s', step, w);
    case UpRead(_) => ReaderLeaves(s, s', step, w);
    case DownWrite(_) => WriterEnters(s, s', step, w);
    case TryWrite(_) => WriterEnters(s, s', step, w);
    case UpWrite(_) => WriterLeaves(s, s', step, w);
    case Downgrade(_) => WriterLeaves(s, s', step, w);
    case _ => Recount(s, s', step, w);
  }

  // ---------------------------------------------------------------- every run

  ghost predicate Run(states: seq<State>, steps: seq<Step>, w: nat) {
    && Width(w) && |states| == |steps| + 1 && Init(states[0], w)
    && forall i: nat | i < |steps| :: Next(states[i], states[i + 1], steps[i], w)
  }

  lemma {:induction false} RunInv(states: seq<State>, steps: seq<Step>, w: nat, i: nat)
    requires Run(states, steps, w) && i < |states|
    ensures Inv(states[i], w)
    decreases i
  {
    hide Init, Next, Inv;
    if i == 0 {
      InitInv(states[0], w);
    } else {
      RunInv(states, steps, w, i - 1);
      NextKeepsInv(states[i - 1], states[i], steps[i - 1], w);
    }
  }

  /** The thread that writes is alone: no other writer, no reader. */
  lemma WriterIsAlone(states: seq<State>, steps: seq<Step>, w: nat, i: nat, t: nat, u: nat)
    requires Run(states, steps, w) && i < |states| && t < |states[i].threads| && u < |states[i].threads|
    requires states[i].threads[t].Writing? && t != u
    ensures !states[i].threads[u].Writing? && !states[i].threads[u].Reading?
  {
    hide Count, Run, Biases;
    RunInv(states, steps, w, i);
    var threads := states[i].threads;
    CountPositive(threads, Writes, t);
    if threads[u].Writing? {
      CountTwo(threads, Writes, if t < u then t else u, if t < u then u else t);
    }
    if threads[u].Reading? { CountPositive(threads, Reads, u); }
  }

  /** While a thread reads, no step lets a writer in. */
  lemma NoWriterWhileReading(states: seq<State>, steps: seq<Step>, w: nat, i: nat, t: nat, u: nat)
    requires Run(states, steps, w) && i < |steps| && t < |states[i].threads| && states[i].threads[t].Reading?
    requires u < |states[i + 1].threads|
    ensures !states[i + 1].threads[u].Writing?
  {
    hide Count, Long, NoneActive, Biases;
    var s, s', step := states[i], states[i + 1], steps[i];
    if s'.threads[u].Writing? {
      assert (u == step.t && t != u) || s.threads[u].Writing?;
      if s.threads[u].Writing? {
        WriterIsAlone(states, steps, w, i, u, t);
      } else {
        WriterIsAlone(states, steps, w, i + 1, u, t);
      }
    }
  }

  /** A downgrade turns the writer into the one reader, and no writer is left. */
  lemma DowngradeLeavesOneReader(states: seq<State>, steps: seq<Step>, w: nat, i: nat)
    requires Run(states, steps, w) && i < |steps| && steps[i].Downgrade?
    ensures steps[i].t < |states[i + 1].threads| && states[i + 1].threads[steps[i].t].Reading?
    ensures Count(states[i + 1].threads, Reads) == 1 && Count(states[i + 1].threads, Writes) == 0
  {
    hide Count, Long, NoneActive, Biases;
    RunInv(states, steps, w, i);
    RunInv(states, steps, w, i + 1);
    assert Next(states[i], states[i + 1], steps[i], w);
    Recount(states[i], states[i + 1], steps[i], w);
  }

  // ---------------------------------------------------------------- runs of trylocks only

  predicate Trying(step: Step) { !step.DownRead? && !step.DownWrite? }

  ghost predicate NobodySlow(s: State) {
    s.wakes == 0 && forall t: nat | t < |s.threads| :: !s.threads[t].ReadSlow? && !s.threads[t].WriteSlow?
  }

  /** The count tells everything: how many read, or that one writes. */
  ghost predicate Plain(s: State, w: nat) {
    || (s.count == Count(s.threads, Reads) && Count(s.threads, Writes) == 0)
    || (s.count == WriteBias(w) && Count(s.threads, Writes) == 1 && Count(s.threads, Reads) == 0)
  }

  lemma NobodySlowIsPlain(s: State, w: nat)
    requires Inv(s, w) && NobodySlow(s)
    ensures Plain(s, w)
  {
    hide Count;
    CountImplies(s.threads, AddedRead, Reads);
    CountImplies(s.threads, AddedWrite, Writes);
    Together(s.threads);
    Multiples(Count(s.threads, Writes), w);
  }

  /** Without a slow thread an unlock or a downgrade finds nobody to wake. */
  lemma TryingKeeps(s: State, s': State, step: Step, w: nat)
    requires Inv(s, w) && NobodySlow(s) && Next(s, s', step, w) && Trying(step)
    ensures NobodySlow(s')
  {
    hide Count, NoneActive, Biases, Long;
    NobodySlowIsPlain(s, w);
    if s.threads[step.t].Writing? {
      CountPositive(s.threads, Writes, step.t);
      LongSmall(0, w);
      LongSmall(1, w);
    } else if s.threads[step.t].Reading? {
      CountPositive(s.threads, Reads, step.t);
      LongSmall(s.count - 1, w);
    }
  }

  lemma LongSmall(x: nat, w: nat)
    requires Width(w) && 2 * x < w
    ensures Long(x, w) == x
  {}

  lemma {:induction false} RunTrying(states: seq<State>, steps: seq<Step>, w: nat, i: nat)
    requires Run(states, steps, w) && i < |states| && forall j: nat | j < |steps| :: Trying(steps[j])
    ensures NobodySlow(states[i])
    decreases i
  {
    hide Next, Inv;
    if i > 0 {
      RunTrying(states, steps, w, i - 1);
      RunInv(states, steps, w, i - 1);
      TryingKeeps(states[i - 1], states[i], steps[i - 1], w);
    }
  }

  /** In a run of trylocks, unlocks and downgrades the count is the number of readers, or the write
      bias with exactly one writer, and nobody is ever woken. */
  lemma TryingRunsArePlain(states: seq<State>, steps: seq<Step>, w: nat, i: nat)
    requires Run(states, steps, w) && i < |states| && forall j: nat | j < |steps| :: Trying(steps[j])
    ensures Plain(states[i], w) && states[i].wakes == 0
  {
    hide Run, Inv, Plain;
    RunTrying(states, steps, w, i);
    RunInv(states, steps, w, i);
    NobodySlowIsPlain(states[i], w);
  }

  // ---------------------------------------------------------------- what the calls come to

  ghost predicate NoWriteBias(s: State) {
    forall t: nat | t < |s.threads| :: !AddedWrite(s.threads[t])
  }

  ghost predicate NoBias(s: State) {
    forall t: nat | t < |s.threads| :: !AddedWrite(s.threads[t]) && !AddedRead(s.threads[t])
  }

  ghost predicate SlowWriter(s: State) {
    exists t: nat :: t < |s.threads| && s.threads[t].WriteSlow?
  }

  lemma NoneIs(threads: seq<Pc>, p: Pc -> bool)
    ensures Count(threads, p) == 0 <==> forall t: nat | t < |threads| :: !p(threads[t])
  {
    if Count(threads, p) == 0 {
      forall t: nat | t < |threads| ensures !p(threads[t]) {
        if p(threads[t]) { CountPositive(threads, p, t); }
      }
    } else {
      var t := CountWitness(threads, p);
    }
  }

  /** What the sign of the count, and a free count, say about the threads. */
  lemma CountSays(s: State, w: nat)
    requires Inv(s, w)
    ensures s.count >= 0 <==> NoWriteBias(s)
    ensures s.count == 0 <==> NoBias(s)
  {
    hide Count, Biases;
    var r, n := Count(s.threads, AddedRead), Count(s.threads, AddedWrite);
    NoneIs(s.threads, AddedRead);
    NoneIs(s.threads, AddedWrite);
    Together(s.threads);
    SignIs(r, n, w);
  }

  lemma SignIs(r: nat, n: nat, w: nat)
    requires 2 * (r + n) < w
    ensures Biases(r, n, w) >= 0 <==> n == 0
    ensures Biases(r, n, w) == 0 <==> n == 0 && r == 0
  {
    Multiples(n, w);
    if Biases(r, n, w) >= 0 { NotNegative(r, n, w); }
  }

  /** A thread that adds its bias finds what the others make of the count. */
  lemma AddingFinds(s: State, t: nat, w: nat)
    requires Inv(s, w) && t < |s.threads| && !AddedRead(s.threads[t]) && !AddedWrite(s.threads[t])
    ensures Long(s.count + 1, w) == s.count + 1 && (s.count + 1 > 0 <==> NoWriteBias(s))
    ensures Long(s.count + WriteBias(w), w) == s.count + WriteBias(w)
  {
    hide Count, Biases, Long;
    var r, n := Count(s.threads, AddedRead), Count(s.threads, AddedWrite);
    CountUpdate(s.threads, AddedRead, t, Reading);
    CountUpdate(s.threads, AddedWrite, t, Reading);
    CountUpdate(s.threads, AddedRead, t, Writing);
    CountUpdate(s.threads, AddedWrite, t, Writing);
    Together(s.threads[t := Reading]);
    Together(s.threads[t := Writing]);
    BiasesStep(r, n, w);
    BiasesFit(r + 1, n, w);
    BiasesFit(r, n + 1, w);
    CountSays(s, w);
  }

  /** A writer that leaves, or becomes a reader, leaves a negative count exactly when another thread
      waits for writing. */
  lemma LeavingFinds(s: State, t: nat, w: nat)
    requires Inv(s, w) && t < |s.threads| && s.threads[t].Writing?
    ensures Long(s.count - WriteBias(w), w) < 0 <==> SlowWriter(s)
    ensures Long(s.count + w, w) < 0 <==> SlowWriter(s)
  {
    hide Count, Biases, Long;
    var r, n := Count(s.threads, AddedRead), Count(s.threads, AddedWrite);
    CountPositive(s.threads, AddedWrite, t);
    CountUpdate(s.threads, AddedRead, t, Reading);
    CountUpdate(s.threads, AddedWrite, t, Reading);
    Together(s.threads);
    Together(s.threads[t := Reading]);
    BiasesStep(r, n - 1, w);
    BiasesStep(r, n, w);
    assert Biases(r + 1, n - 1, w) == s.count + w by { BiasesStep(r + 1, n - 1, w); }
    BiasesFit(r, n - 1, w);
    BiasesFit(r + 1, n - 1, w);
    SignIs(r, n - 1, w);
    SignIs(r + 1, n - 1, w);
    OtherWriters(s, t, w);
  }

  lemma OtherWriters(s: State, t: nat, w: nat)
    requires Inv(s, w) && t < |s.threads| && s.threads[t].Writing?
    ensures Count(s.threads, AddedWrite) > 1 <==> SlowWriter(s)
  {
    hide Count, Biases;
    if SlowWriter(s) {
      var u: nat :| u < |s.threads| && s.threads[u].WriteSlow?;
      CountTwo(s.threads, AddedWrite, if t < u then t else u, if t < u then u else t);
    } else {
      CountImplies(s.threads, AddedWrite, Writes);
    }
  }

  /** With every slow thread keeping its bias, an unlocking reader never leaves an idle count below
      zero. */
  lemma ReaderNeverWakes(s: State, t: nat, w: nat)
    requires Inv(s, w) && t < |s.threads| && s.threads[t].Reading?
    ensures !(Long(s.count - 1, w) < -1 && NoneActive(Long(s.count - 1, w), w))
  {
    hide Count, Long, Biases, NoneActive;
    var r, n := Count(s.threads, AddedRead), Count(s.threads, AddedWrite);
    CountPositive(s.threads, AddedRead, t);
    Together(s.threads);
    BiasesStep(r - 1, n, w);
    BiasesFit(r - 1, n, w);
    ActiveIs(r - 1, n, w);
  }

  lemma ActiveIs(r: nat, n: nat, w: nat)
    requires Width(w) && 2 * (r + n) < w
    ensures NoneActive(Biases(r, n, w), w) ==> Biases(r, n, w) == 0
  {
    if w == 0x1_0000 {
      assert Biases(r, n, w) == (r + n) - 0x1_0000 * n;
    } else {
      assert Biases(r, n, w) == (r + n) - 0x1_0000_0000 * n;
    }
  }

  /** What an unlocking reader decides, in any state at all: it calls `rwsem_wake` exactly when it
      leaves no active thread and at least one waiting bias in the count. */
  lemma IdleCountIsWoken(s: State, s': State, t: nat, w: nat, active: nat, waiting: nat)
    requires Width(w) && Next(s, s', UpRead(t), w)
    requires Long(s.count - 1, w) == active - w * waiting && active < w
    ensures s'.wakes == s.wakes + Unit(active == 0 && waiting >= 1)
  {
    hide Long, NoneActive;
    IdleIs(active, waiting, w);
  }

  lemma IdleIs(active: nat, waiting: nat, w: nat)
    requires Width(w) && active < w
    ensures active - w * waiting < -1 && NoneActive(active - w * waiting, w) <==> active == 0 && waiting >= 1
  {
    if w == 0x1_0000 {
      IdleIs32(active, waiting, active - w * waiting);
    } else {
      IdleIs64(active, waiting, active - w * waiting);
    }
  }

  lemma IdleIs32(active: nat, waiting: nat, count: int)
    requires count == active - 0x1_0000 * waiting && active < 0x1_0000
    ensures count < -1 && count % 0x1_0000 == 0 <==> active == 0 && waiting >= 1
  {}

  lemma IdleIs64(active: nat, waiting: nat, count: int)
    requires count == active - 0x1_0000_0000 * waiting && active < 0x1_0000_0000
    ensures count < -1 && count % 0x1_0000_0000 == 0 <==> active == 0 && waiting >= 1
  {}

  /** A reader gets in exactly when no write bias is in the count, a writer exactly when no bias is.
      Who does not get in gives up, tries again or goes to the slow path, as the call has it.  A
      leaving or downgrading writer calls a wake-up function exactly when another thread waits for
      writing; nothing else ever does. */
  lemma Outcomes(states: seq<State>, steps: seq<Step>, w: nat, i: nat)
    requires Run(states, steps, w) && i < |steps|
    ensures steps[i].t < |states[i + 1].threads| == |states[i].threads|
    ensures var s, pc, pc' := states[i], states[i].threads[steps[i].t], states[i + 1].threads[steps[i].t];
            match steps[i]
            case DownRead(_) => pc' == if NoWriteBias(s) then Reading else ReadSlow
            case TryRead(_) => pc' == ReadLoop
            case LoadCount(_) => pc' == if NoWriteBias(s) then ReadCas(s.count) else Outside
            case SwapCount(_) => pc.ReadCas? && pc' == if s.count == pc.seen then Reading else ReadLoop
            case UpRead(_) => pc' == Outside
            case DownWrite(_) => pc' == if NoBias(s) then Writing else WriteSlow
            case TryWrite(_) => pc' == if NoBias(s) then Writing else Outside
            case UpWrite(_) => pc' == Outside
            case Downgrade(_) => pc' == Reading
    ensures states[i + 1].wakes ==
              states[i].wakes + Unit((steps[i].UpWrite? || steps[i].Downgrade?) && SlowWriter(states[i]))
    ensures forall u: nat | u < |states[i].threads| && u != steps[i].t ::
              states[i + 1].threads[u] == states[i].threads[u]
  {
    hide Long, Inv, NoWriteBias, NoBias, SlowWriter, NoneActive;
    var s, t := states[i], steps[i].t;
    RunInv(states, steps, w, i);
    assert Next(s, states[i + 1], steps[i], w);
    CountSays(s, w);
    if s.threads[t].Outside? { AddingFinds(s, t, w); }
    if s.threads[t].Writing? { LeavingFinds(s, t, w); }
    if s.threads[t].Reading? { ReaderNeverWakes(s, t, w); }
  }

  /** The step a thread can take next. */
  predicate Continues(pc: Pc, step: Step) {
    match pc
    case Outside => step.DownRead? || step.TryRead? || step.DownWrite? || step.TryWrite?
    case ReadLoop => step.LoadCount?
    case ReadCas(_) => step.SwapCount?
    case Reading => step.UpRead?
    case Writing => step.UpWrite? || step.Downgrade?
    case ReadSlow => false
    case WriteSlow => false
  }

  lemma StepsAre(s: State, step: Step, w: nat)
    requires Width(w) && step.t < |s.threads|
    ensures Continues(s.threads[step.t], step) <==> exists s' :: Next(s, s', step, w)
  {
    hide Long, NoneActive;
    var t, pc := step.t, s.threads[step.t];
    if Continues(pc, step) {
      var s' :=
        match step
        case DownRead(_) =>
          var tmp := Long(s.count + 1, w); Moved(s, t, if tmp <= 0 then ReadSlow else Reading, tmp, false)
        case TryRead(_) => Moved(s, t, ReadLoop, s.count, false)
        case LoadCount(_) => Moved(s, t, if s.count >= 0 then ReadCas(s.count) else Outside, s.count, false)
        case SwapCount(_) =>
          if s.count == pc.seen then Moved(s, t, Reading, Long(pc.seen + 1, w), false)
          else Moved(s, t, ReadLoop, s.count, false)
        case UpRead(_) =>
          var tmp := Long(s.count - 1, w); Moved(s, t, Outside, tmp, tmp < -1 && NoneActive(tmp, w))
        case DownWrite(_) =>
          var tmp := Long(s.count + WriteBias(w), w);
          Moved(s, t, if tmp != WriteBias(w) then WriteSlow else Writing, tmp, false)
        case TryWrite(_) => if s.count == 0 then Moved(s, t, Writing, WriteBias(w), false) else s
        case UpWrite(_) => var tmp := Long(s.count - WriteBias(w), w); Moved(s, t, Outside, tmp, tmp < 0)
        case Downgrade(_) => var tmp := Long(s.count + w, w); Moved(s, t, Reading, tmp, tmp < 0);
      assert Next(s, s', step, w);
    }
  }
}
