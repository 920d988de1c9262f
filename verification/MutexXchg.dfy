/** The exchange-based mutex fast path, run by any number of threads.

    The count is 1 when free, 0 when held, and below 0 when held with someone to wake.  Every
    atomic access is one step.  A thread that lost both exchanges goes to the slow path, which is
    not part of this model, and stays there. */
module MutexXchg {
  import opened Threads

  datatype Pc =
    | Outside
    | Between                // lost the first exchange, has not made the second
    | Failed                 // called fail_fn, or returned -1
    | Holding
    | TryXchg                // read 1, about to exchange
    | TryRestore(prev: int)  // took a contended mark, about to put it back

  /** `wakes` counts the unlocks that called `fail_fn`; `pending` says that some locker has failed and
      none of them came since. */
  datatype State = State(count: int, threads: seq<Pc>, wakes: nat, pending: bool)

  datatype Step =
    | Lock(t: nat) | LockAgain(t: nat) | Unlock(t: nat) | TryRead(t: nat) | TryTake(t: nat) | TryPutBack(t: nat)

  ghost predicate Init(s: State) {
    s.count == 1 && s.wakes == 0 && !s.pending && forall t: nat | t < |s.threads| :: s.threads[t].Outside?
  }

  /** What an unlock does: exchange 1 in, call `fail_fn` unless 0 came out. */
  predicate UnlockWakes(s: State) { s.count != 0 }

  /** Thread `t` moves to `pc`, exchanging `count` in. */
  function Moved(s: State, t: nat, pc: Pc, count: int): State
    requires t < |s.threads|
  {
    s.(count := count, threads := s.threads[t := pc])
  }

  ghost predicate Next(s: State, s': State, step: Step) {
    step.t < |s.threads| &&
    var t, pc := step.t, s.threads[step.t];
    match step
    case Lock(_) =>
      pc.Outside? && s' == Moved(s, t, if s.count == 1 then Holding else Between, 0)
    case LockAgain(_) =>
      && pc.Between?
      && s' == if s.count == 1 then Moved(s, t, Holding, -1) else Moved(s, t, Failed, -1).(pending := true)
    case Unlock(_) =>
      && pc.Holding?
      && s' == Moved(s, t, Outside, 1).(wakes := s.wakes + Unit(UnlockWakes(s)),
                                        pending := s.pending && !UnlockWakes(s))
    case TryRead(_) =>
      pc.Outside? && s' == Moved(s, t, if s.count == 1 then TryXchg else Outside, s.count)
    case TryTake(_) =>
      && pc.TryXchg?
      && s' == Moved(s, t, if s.count < 0 then TryRestore(s.count) else if s.count == 0 then Outside else Holding, 0)
    case TryPutBack(_) =>
      && pc.TryRestore?
      && s' == Moved(s, t, if s.count <= 0 then Outside else Holding, pc.prev)
  }

  // ---------------------------------------------------------------- the invariant

  predicate Holds(pc: Pc) { pc.Holding? }

  /** Owes the count a negative value. */
  predicate Owes(pc: Pc) { pc.Between? || pc.TryRestore? }

  ghost predicate SomeoneOwes(s: State) {
    exists t: nat :: t < |s.threads| && Owes(s.threads[t])
  }

  ghost predicate Inv(s: State) {
    && -1 <= s.count <= 1
    && Count(s.threads, Holds) + Unit(s.count == 1) == 1
    && (s.pending ==> s.count == -1 || Count(s.threads, Owes) >= 1)
    && forall t: nat | t < |s.threads| :: s.threads[t].TryRestore? ==> s.threads[t].prev == -1
  }

  lemma InitInv(s: State)
    requires Init(s)
    ensures Inv(s)
  {
    CountNone(s.threads, Holds);
  }

  lemma NextKeepsInv(s: State, s': State, step: Step)
    requires Inv(s) && Next(s, s', step)
    ensures Inv(s')
  {
    hide Count;
    CountUpdate(s.threads, Holds, step.t, s'.threads[step.t]);
    CountUpdate(s.threads, Owes, step.t, s'.threads[step.t]);
  }

  // ---------------------------------------------------------------- every run

  ghost predicate Run(states: seq<State>, steps: seq<Step>) {
    && |states| == |steps| + 1 && Init(states[0])
    && forall i: nat | i < |steps| :: Next(states[i], states[i + 1], steps[i])
  }

  lemma {:induction false} RunInv(states: seq<State>, steps: seq<Step>, i: nat)
    requires Run(states, steps) && i < |states|
    ensures Inv(states[i])
    decreases i
  {
    hide Init, Next, Inv;
    if i == 0 {
      InitInv(states[0]);
    } else {
      RunInv(states, steps, i - 1);
      NextKeepsInv(states[i - 1], states[i], steps[i - 1]);
    }
  }

  /** Holders plus the free mutex always make one: there is never a second holder, and the mutex is
      free exactly when nobody holds it. */
  lemma HoldersPlusFreeIsOne(states: seq<State>, steps: seq<Step>, i: nat)
    requires Run(states, steps) && i < |states|
    ensures Count(states[i].threads, Holds) + Unit(states[i].count == 1) == 1
    ensures forall t: nat, u: nat | t < u < |states[i].threads| ::
              !(states[i].threads[t].Holding? && states[i].threads[u].Holding?)
  {
    hide Count, Run;
    RunInv(states, steps, i);
    var threads := states[i].threads;
    forall t: nat, u: nat | t < u < |threads| ensures !(threads[t].Holding? && threads[u].Holding?) {
      if threads[t].Holding? && threads[u].Holding? { CountTwo(threads, Holds, t, u); }
    }
  }

  /** No wake-up is lost.  While a failed locker waits, the count is -1 or some thread is between
      its exchanges; and whatever that thread's next step finds, it leaves the count at -1. */
  lemma NoLostWakeup(states: seq<State>, steps: seq<Step>, i: nat)
    requires Run(states, steps) && i < |states| && states[i].pending
    ensures states[i].count == -1 || SomeoneOwes(states[i])
    ensures forall s', step :: Next(states[i], s', step) && Owes(states[i].threads[step.t]) ==> s'.count == -1
  {
    hide Count, Run;
    RunInv(states, steps, i);
    if states[i].count != -1 {
      var t := CountWitness(states[i].threads, Owes);
    }
  }

  /** Once no thread is between its exchanges, a failed locker has a holder to wait for, and that
      holder's unlock does call `fail_fn`. */
  lemma HolderWillWake(states: seq<State>, steps: seq<Step>, i: nat)
    requires Run(states, steps) && i < |states| && states[i].pending && !SomeoneOwes(states[i])
    ensures Count(states[i].threads, Holds) == 1
    ensures i < |steps| && steps[i].Unlock? ==> states[i + 1].wakes == states[i].wakes + 1
  {
    hide Count;
    RunInv(states, steps, i);
    CountNone(states[i].threads, Owes);
    if i < |steps| { assert Next(states[i], states[i + 1], steps[i]); }
  }

  /** An unlock that does not call `fail_fn` strands nobody: a thread still between its exchanges
      either takes the mutex over or marks it contended for the next holder. */
  lemma QuietUnlockStrandsNobody(states: seq<State>, steps: seq<Step>, i: nat)
    requires Run(states, steps) && i < |steps| && steps[i].Unlock?
    requires states[i].pending && states[i + 1].wakes == states[i].wakes
    ensures SomeoneOwes(states[i + 1])
  {
    hide Count;
    RunInv(states, steps, i + 1);
    var t := CountWitness(states[i + 1].threads, Owes);
  }

  // ---------------------------------------------------------------- what the calls come to

  /** Some locker fails in step `j`. */
  ghost predicate FailsAt(states: seq<State>, j: nat) {
    && j + 1 < |states| && |states[j].threads| == |states[j + 1].threads|
    && exists t: nat :: t < |states[j].threads| && !states[j].threads[t].Failed? && states[j + 1].threads[t].Failed?
  }

  /** A locker that fails has marked the count and is accounted for. */
  lemma FailedIsMarked(states: seq<State>, steps: seq<Step>, i: nat)
    requires Run(states, steps) && FailsAt(states, i)
    ensures states[i + 1].count == -1 && states[i + 1].pending && steps[i].LockAgain?
  {
    assert Next(states[i], states[i + 1], steps[i]);
  }

  lemma {:induction false} WakesGrow(states: seq<State>, steps: seq<Step>, i: nat, j: nat)
    requires Run(states, steps) && i <= j < |states|
    ensures states[i].wakes <= states[j].wakes
    decreases j
  {
    if i < j {
      WakesGrow(states, steps, i, j - 1);
      assert Next(states[j - 1], states[j], steps[j - 1]);
    }
  }

  /** `pending` is what it says: a locker failed, and no unlock has called `fail_fn` since. */
  lemma {:induction false} PendingMeans(states: seq<State>, steps: seq<Step>, i: nat)
    requires Run(states, steps) && i < |states|
    ensures states[i].pending <==>
              exists j: nat :: j < i && FailsAt(states, j) && states[j + 1].wakes == states[i].wakes
    decreases i
  {
    hide FailsAt;
    if i > 0 {
      var s, s', step := states[i - 1], states[i], steps[i - 1];
      PendingMeans(states, steps, i - 1);
      assert Next(s, s', step);
      FailsOnlyThere(states, steps, i - 1);
      if s'.pending {
        var j: nat := if FailsAt(states, i - 1) then i - 1
                      else var k: nat :| k < i - 1 && FailsAt(states, k) && states[k + 1].wakes == s.wakes; k;
        assert j < i && FailsAt(states, j) && states[j + 1].wakes == s'.wakes;
      } else {
        forall j: nat | j < i && FailsAt(states, j) ensures states[j + 1].wakes != s'.wakes {
          if j < i - 1 { WakesGrow(states, steps, j + 1, i - 1); }
        }
      }
    }
  }

  /** The failing step is the second exchange of a locker that does not find 1. */
  lemma FailsOnlyThere(states: seq<State>, steps: seq<Step>, i: nat)
    requires Run(states, steps) && i < |steps|
    ensures FailsAt(states, i) <==> steps[i].LockAgain? && states[i].count != 1
  {
    assert Next(states[i], states[i + 1], steps[i]);
    if steps[i].LockAgain? && states[i].count != 1 {
      assert !states[i].threads[steps[i].t].Failed? && states[i + 1].threads[steps[i].t].Failed?;
    }
  }

  /** Nobody holds the mutex. */
  ghost predicate Free(s: State) {
    forall t: nat | t < |s.threads| :: !s.threads[t].Holding?
  }

  lemma FreeIs(s: State)
    requires Inv(s)
    ensures Free(s) <==> s.count == 1
  {
    hide Count;
    if s.count == 1 {
      forall t: nat | t < |s.threads| ensures !s.threads[t].Holding? {
        if s.threads[t].Holding? { CountPositive(s.threads, Holds, t); }
      }
    } else {
      var t := CountWitness(s.threads, Holds);
    }
  }

  /** Every exchange takes the mutex exactly when nobody holds it.  A locker that misses it goes on to
      its second exchange and then fails; a trylock gives up, after putting a mark it took back;
      an unlock lets go, and calls `fail_fn` exactly for a marked count. */
  lemma Outcomes(states: seq<State>, steps: seq<Step>, i: nat)
    requires Run(states, steps) && i < |steps|
    ensures steps[i].t < |states[i + 1].threads| == |states[i].threads|
    ensures var s, s', t := states[i], states[i + 1], steps[i].t;
            match steps[i]
            case Lock(_) => s'.threads[t] == if Free(s) then Holding else Between
            case LockAgain(_) => s'.threads[t] == if Free(s) then Holding else Failed
            case TryRead(_) => s'.threads[t] == (if Free(s) then TryXchg else Outside) && s'.count == s.count
            case TryTake(_) =>
              s'.threads[t] == if Free(s) then Holding else if s.count == 0 then Outside else TryRestore(-1)
            case TryPutBack(_) => s'.threads[t] == if Free(s) then Holding else Outside
            case Unlock(_) => s'.threads[t] == Outside && Free(s') && s'.wakes == s.wakes + Unit(s.count == -1)
    ensures !steps[i].Unlock? ==> states[i + 1].wakes == states[i].wakes
    ensures forall u: nat | u < |states[i].threads| && u != steps[i].t ::
              states[i + 1].threads[u] == states[i].threads[u]
  {
    hide Count, Free;
    RunInv(states, steps, i);
    RunInv(states, steps, i + 1);
    FreeIs(states[i]);
    FreeIs(states[i + 1]);
    assert Next(states[i], states[i + 1], steps[i]);
    if steps[i].Unlock? { CountInRange(states, steps, i); }
  }

  /** As long as nobody had to exchange twice, no unlock calls `fail_fn`. */
  lemma {:induction false} UncontendedIsQuiet(states: seq<State>, steps: seq<Step>, i: nat)
    requires Run(states, steps) && i < |states|
    requires forall j: nat | j < i :: !steps[j].LockAgain? && !steps[j].TryPutBack?
    ensures states[i].count >= 0 && states[i].wakes == 0
    decreases i
  {
    hide Inv;
    if i > 0 {
      UncontendedIsQuiet(states, steps, i - 1);
      assert Next(states[i - 1], states[i], steps[i - 1]);
      if steps[i - 1].Unlock? { CountInRange(states, steps, i - 1); }
    }
  }

  /** A holder never finds 1. */
  lemma CountInRange(states: seq<State>, steps: seq<Step>, i: nat)
    requires Run(states, steps) && i < |steps| && steps[i].Unlock?
    ensures states[i].count == 0 || states[i].count == -1
  {
    hide Count;
    RunInv(states, steps, i);
    assert Next(states[i], states[i + 1], steps[i]);
    CountPositive(states[i].threads, Holds, steps[i].t);
  }

  /** The step a thread can take next: a call when it is outside, otherwise its call's next access.  A
      failed locker is in the slow path. */
  predicate Continues(pc: Pc, step: Step) {
    match pc
    case Outside => step.Lock? || step.TryRead?
    case Between => step.LockAgain?
    case Failed => false
    case Holding => step.Unlock?
    case TryXchg => step.TryTake?
    case TryRestore(_) => step.TryPutBack?
  }

  lemma StepsAre(s: State, step: Step)
    requires step.t < |s.threads|
    ensures Continues(s.threads[step.t], step) <==> exists s' :: Next(s, s', step)
  {
    var t, pc := step.t, s.threads[step.t];
    if Continues(pc, step) {
      var s' :=
        match step
        case Lock(_) => Moved(s, t, if s.count == 1 then Holding else Between, 0)
        case LockAgain(_) =>
          if s.count == 1 then Moved(s, t, Holding, -1) else Moved(s, t, Failed, -1).(pending := true)
        case Unlock(_) =>
          Moved(s, t, Outside, 1).(wakes := s.wakes + Unit(UnlockWakes(s)), pending := s.pending && !UnlockWakes(s))
        case TryRead(_) => Moved(s, t, if s.count == 1 then TryXchg else Outside, s.count)
        case TryTake(_) =>
          Moved(s, t, if s.count < 0 then TryRestore(s.count) else if s.count == 0 then Outside else Holding, 0)
        case TryPutBack(_) => Moved(s, t, if s.count <= 0 then Outside else Holding, pc.prev);
      assert Next(s, s', step);
    }
  }
}
