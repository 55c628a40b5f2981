/** Interrupts, nested runs and close of one engine: JsEngine.kt over the
    run-state machine of mquickjs_kmp.c, for any number of interrupting threads.

    A state is reached by atomic steps; the thread that owns the engine opens
    and closes runs, the others interrupt, and one call of close() wins.
    Nothing keeps close() from being called inside a run. */
module EngineRuns {
  import opened RunStates

  /** Where a thread is inside JsEngine.interrupt or JsEngine.close. */
  datatype Pc =
    | Outside
    | Counted      // the in-flight counter was incremented
    | PassedCheck  // closed was read as false: native.interrupt() comes next
    | Leaving      // the in-flight counter is still to be decremented
    | Waiting      // close() won the exchange and spins on the counter
    | Freeing      // the counter was read as zero: native.close() comes next
    | Finished     // close() returned

  /** runs holds, innermost last, what each open run_begin returned. */
  datatype State = State(
    run: RunState,
    runs: seq<bool>,
    closed: bool,
    inFlight: int,
    freed: nat,
    usedAfterFree: bool,
    threads: seq<Pc>)

  datatype Step =
    | RunBegin
    | RunEnd
    | Enter(t: nat)
    | Check(t: nat)
    | Fire(t: nat)
    | Leave(t: nat)
    | CloseExchange(t: nat)
    | CloseSpin(t: nat)
    | CloseFree(t: nat)

  ghost predicate Init(s: State) {
    && s.run == Idle && s.runs == [] && !s.closed && s.inFlight == 0 && s.freed == 0 && !s.usedAfterFree
    && forall t :: 0 <= t < |s.threads| ==> s.threads[t] == Outside
  }

  function At(s: State, t: nat, pc: Pc): State
    requires t < |s.threads|
  {
    s.(threads := s.threads[t := pc])
  }

  /** A native call after native.close() would be a use after free. */
  function Touch(s: State): State {
    if s.freed > 0 then s.(usedAfterFree := true) else s
  }

  /** run_begin: the exchange succeeds only from idle. */
  function BeginRun(s: State): State {
    Touch(if s.run == Idle then s.(run := Running, runs := s.runs + [true]) else s.(runs := s.runs + [false]))
  }

  function EndRun(s: State): State
    requires |s.runs| > 0
  {
    var outermost := s.runs[|s.runs| - 1];
    Touch(s.(run := if outermost then Idle else s.run, runs := s.runs[..|s.runs| - 1]))
  }

  /** kmpjs_interrupt: the exchange succeeds only from running. */
  function Interrupt(s: State): State {
    Touch(if s.run == Running then s.(run := Interrupted) else s)
  }

  /** One atomic step.  The owner opens runs only while the engine is open. */
  ghost predicate Next(s: State, step: Step, s': State) {
    match step
    case RunBegin => !s.closed && s' == BeginRun(s)
    case RunEnd => |s.runs| > 0 && s' == EndRun(s)
    case Enter(t) =>
      t < |s.threads| && s.threads[t] == Outside && s' == At(s, t, Counted).(inFlight := s.inFlight + 1)
    case Check(t) =>
      t < |s.threads| && s.threads[t] == Counted && s' == At(s, t, if s.closed then Leaving else PassedCheck)
    case Fire(t) =>
      t < |s.threads| && s.threads[t] == PassedCheck && s' == At(Interrupt(s), t, Leaving)
    case Leave(t) =>
      t < |s.threads| && s.threads[t] == Leaving && s' == At(s, t, Outside).(inFlight := s.inFlight - 1)
    case CloseExchange(t) =>
      && t < |s.threads| && s.threads[t] == Outside
      && s' == if s.closed then At(s, t, Finished) else At(s, t, Waiting).(closed := true)
    case CloseSpin(t) =>
      t < |s.threads| && s.threads[t] == Waiting && s.inFlight == 0 && s' == At(s, t, Freeing)
    case CloseFree(t) =>
      t < |s.threads| && s.threads[t] == Freeing && s' == At(s, t, Finished).(freed := s.freed + 1)
  }

  // ----- counting threads inside interrupt() -----

  predicate Counting(pc: Pc) {
    pc == Counted || pc == PassedCheck || pc == Leaving
  }

  function InFlight(threads: seq<Pc>): nat {
    if |threads| == 0 then 0
    else InFlight(threads[..|threads| - 1]) + (if Counting(threads[|threads| - 1]) then 1 else 0)
  }

  lemma {:induction false} InFlightUpdate(threads: seq<Pc>, t: nat, pc: Pc)
    requires t < |threads|
    ensures InFlight(threads[t := pc]) == InFlight(threads)
              + (if Counting(pc) then 1 else 0) - (if Counting(threads[t]) then 1 else 0)
    decreases |threads|
  {
    var n := |threads| - 1;
    if t < n {
      InFlightUpdate(threads[..n], t, pc);
      assert threads[t := pc][..n] == threads[..n][t := pc];
    } else {
      assert threads[t := pc][..n] == threads[..n];
    }
  }

  lemma {:induction false} NoneInFlight(threads: seq<Pc>, t: nat)
    requires t < |threads| && InFlight(threads) == 0
    ensures !Counting(threads[t])
    decreases |threads|
  {
    if t < |threads| - 1 {
      NoneInFlight(threads[..|threads| - 1], t);
    }
  }

  lemma {:induction false} NoneCounting(threads: seq<Pc>)
    requires forall t :: 0 <= t < |threads| ==> threads[t] == Outside
    ensures InFlight(threads) == 0
  {
    if |threads| > 0 {
      NoneCounting(threads[..|threads| - 1]);
    }
  }

  // ----- the invariant -----

  /** The state is idle exactly when no run is open, and only the outermost run
      will set it back. */
  ghost predicate RunsBalanced(s: State) {
    && (s.run == Idle <==> |s.runs| == 0)
    && forall i :: 0 <= i < |s.runs| ==> (s.runs[i] <==> i == 0)
  }

  predicate Closing(pc: Pc) {
    pc == Waiting || pc == Freeing
  }

  ghost predicate SomeoneCloses(threads: seq<Pc>) {
    exists t :: 0 <= t < |threads| && Closing(threads[t])
  }

  ghost predicate CloseOnce(s: State) {
    && (!s.closed ==> s.freed == 0)
    && (!s.closed ==> forall t :: 0 <= t < |s.threads| ==> !Closing(s.threads[t]) && s.threads[t] != Finished)
    && s.freed <= 1
    && (s.freed == 1 ==> forall t :: 0 <= t < |s.threads| ==> !Closing(s.threads[t]))
    && (forall t, u :: 0 <= t < u < |s.threads| ==> !(Closing(s.threads[t]) && Closing(s.threads[u])))
    && (s.closed ==> s.freed == 1 || SomeoneCloses(s.threads))
  }

  /** Once the handle is being freed, no interrupt is on the way to native code. */
  ghost predicate NoLateInterrupt(s: State) {
    (s.freed > 0 || (exists t :: 0 <= t < |s.threads| && s.threads[t] == Freeing) ==>
        forall t :: 0 <= t < |s.threads| ==> s.threads[t] != PassedCheck)
  }

  ghost predicate Inv(s: State) {
    RunsBalanced(s) && s.inFlight == InFlight(s.threads) && CloseOnce(s) && NoLateInterrupt(s)
  }

  lemma InitInv(s: State)
    requires Init(s)
    ensures Inv(s)
  {
    NoneCounting(s.threads);
  }

  lemma CountPreserved(s: State, step: Step, s': State)
    requires Inv(s) && Next(s, step, s')
    ensures s'.inFlight == InFlight(s'.threads)
  {
    hide RunsBalanced, CloseOnce, NoLateInterrupt, InFlight;
    match step
    case RunBegin =>
    case RunEnd =>
    case Enter(t) => InFlightUpdate(s.threads, t, Counted);
    case Check(t) => InFlightUpdate(s.threads, t, if s.closed then Leaving else PassedCheck);
    case Fire(t) => InFlightUpdate(s.threads, t, Leaving);
    case Leave(t) => InFlightUpdate(s.threads, t, Outside);
    case CloseExchange(t) => InFlightUpdate(s.threads, t, if s.closed then Finished else Waiting);
    case CloseSpin(t) => InFlightUpdate(s.threads, t, Freeing);
    case CloseFree(t) => InFlightUpdate(s.threads, t, Finished);
  }

  lemma RunsPreserved(s: State, step: Step, s': State)
    requires Inv(s) && Next(s, step, s')
    ensures RunsBalanced(s')
  {
  }

  lemma ClosePreserved(s: State, step: Step, s': State)
    requires Inv(s) && Next(s, step, s')
    ensures CloseOnce(s')
  {
    hide CloseOnce, InFlight, NoLateInterrupt, RunsBalanced;
    if step.CloseExchange? || step.CloseSpin? || step.CloseFree? {
      ClosingStep(s, step, s');
    } else {
      OtherStep(s, step, s');
    }
  }

  lemma ClosingStep(s: State, step: Step, s': State)
    requires CloseOnce(s) && Next(s, step, s') && (step.CloseExchange? || step.CloseSpin? || step.CloseFree?)
    ensures CloseOnce(s')
  {
    if !step.CloseFree? {
      assert s.closed && step.CloseExchange? ==> !Closing(s.threads[step.t]);
      OtherCloser(s.threads, step.t, s'.threads[step.t]);
    }
  }

  /** Who closes goes on closing, whatever another thread does. */
  lemma OtherCloser(threads: seq<Pc>, t: nat, pc: Pc)
    requires t < |threads|
    ensures Closing(pc) || (SomeoneCloses(threads) && !Closing(threads[t])) ==> SomeoneCloses(threads[t := pc])
  {
    var threads' := threads[t := pc];
    if Closing(pc) {
      assert Closing(threads'[t]);
    } else if SomeoneCloses(threads) && !Closing(threads[t]) {
      var u :| 0 <= u < |threads| && Closing(threads[u]);
      assert Closing(threads'[u]);
    }
  }

  lemma OtherStep(s: State, step: Step, s': State)
    requires CloseOnce(s) && Next(s, step, s') && !step.CloseExchange? && !step.CloseSpin? && !step.CloseFree?
    ensures CloseOnce(s')
  {
    if !step.RunBegin? && !step.RunEnd? {
      var pc := if step.Enter? then Counted
                else if step.Check? then (if s.closed then Leaving else PassedCheck)
                else if step.Fire? then Leaving
                else Outside;
      hide CloseOnce;
      ThreadMoves(s, step.t, pc, s');
    }
  }

  /** A thread that is not closing the engine moves on. */
  lemma ThreadMoves(s: State, t: nat, pc: Pc, s': State)
    requires CloseOnce(s) && t < |s.threads| && s'.threads == s.threads[t := pc]
    requires !Closing(s.threads[t]) && !Closing(pc) && pc != Finished
    requires s'.closed == s.closed && s'.freed == s.freed
    ensures CloseOnce(s')
  {
    OtherCloser(s.threads, t, pc);
  }

  lemma UsePreserved(s: State, step: Step, s': State)
    requires Inv(s) && Next(s, step, s')
    ensures NoLateInterrupt(s')
  {
    if step.CloseSpin? {
      forall t | 0 <= t < |s.threads|
        ensures s.threads[t] != PassedCheck
      {
        NoneInFlight(s.threads, t);
      }
    }
  }

  lemma NextInv(s: State, step: Step, s': State)
    requires Inv(s) && Next(s, step, s')
    ensures Inv(s')
  {
    CountPreserved(s, step, s');
    RunsPreserved(s, step, s');
    ClosePreserved(s, step, s');
    UsePreserved(s, step, s');
  }

  // ----- whole runs -----

  ghost predicate IsRun(states: seq<State>, steps: seq<Step>) {
    && |states| == |steps| + 1 && Init(states[0])
    && forall i :: 0 <= i < |steps| ==> Next(states[i], steps[i], states[i + 1])
  }

  lemma {:induction false} RunInv(states: seq<State>, steps: seq<Step>, n: nat)
    requires IsRun(states, steps) && n < |states|
    ensures Inv(states[n])
  {
    if n == 0 {
      InitInv(states[0]);
    } else {
      RunInv(states, steps, n - 1);
      NextInv(states[n - 1], steps[n - 1], states[n]);
    }
  }

  /** In every state of every run: idle exactly when no run is open, the engine
      is freed at most once, and no interrupt is about to enter it after that. */
  lemma EngineSafe(states: seq<State>, steps: seq<Step>, n: nat)
    requires IsRun(states, steps) && n < |states|
    ensures states[n].run == Idle <==> |states[n].runs| == 0
    ensures states[n].freed <= 1
    ensures states[n].freed > 0 ==> forall t :: 0 <= t < |states[n].threads| ==> states[n].threads[t] != PassedCheck
  {
    RunInv(states, steps, n);
  }

  // ----- use after free -----

  /** The run ends in native code that was freed. */
  ghost predicate EndsFreed(states: seq<State>, steps: seq<Step>, k: int) {
    0 <= k < |steps| < |states| && steps[k].RunEnd? && states[k].freed > 0
  }

  /** Native code is entered after it was freed exactly by run_end: never by an
      interrupt, and never by a run that begins. */
  lemma {:induction false} LateUseIsRunEnd(states: seq<State>, steps: seq<Step>, n: nat)
    requires IsRun(states, steps) && n < |states|
    ensures states[n].usedAfterFree <==> exists k :: 0 <= k < n && EndsFreed(states, steps, k)
  {
    StepCount(states, steps);
    if n > 0 {
      assert Next(states[n - 1], steps[n - 1], states[n]);
      hide Next, Inv, IsRun;
      LateUseIsRunEnd(states, steps, n - 1);
      RunInv(states, steps, n - 1);
      UseStep(states[n - 1], steps[n - 1], states[n]);
      assert EndsFreed(states, steps, n - 1) <==> steps[n - 1].RunEnd? && states[n - 1].freed > 0;
    }
  }

  lemma UseStep(s: State, step: Step, s': State)
    requires Inv(s) && Next(s, step, s')
    ensures s'.usedAfterFree <==> s.usedAfterFree || (step.RunEnd? && s.freed > 0)
  {
    hide InFlight;
  }

  /** close() won while a run was open. */
  ghost predicate ClosesInside(states: seq<State>, steps: seq<Step>, k: int) {
    0 <= k < |steps| < |states| && steps[k].CloseExchange? && !states[k].closed && |states[k].runs| > 0
  }

  ghost predicate ClosedInside(states: seq<State>, steps: seq<Step>, n: nat) {
    exists k :: 0 <= k < n && ClosesInside(states, steps, k)
  }

  /** A run that is open on a closed engine was open when it was closed. */
  lemma {:induction false} OpenWhenClosed(states: seq<State>, steps: seq<Step>, n: nat)
    requires IsRun(states, steps) && n < |states| && states[n].closed && |states[n].runs| > 0
    ensures ClosedInside(states, steps, n)
  {
    if n > 0 {
      var s, step, s' := states[n - 1], steps[n - 1], states[n];
      assert Next(s, step, s');
      if s.closed {
        OpenWhenClosed(states, steps, n - 1);
      } else {
        assert ClosesInside(states, steps, n - 1);
      }
    }
  }

  /** The owner closes: while close() runs, no run of its ends. */
  ghost predicate OwnerCloses(states: seq<State>, steps: seq<Step>)
    requires IsRun(states, steps)
  {
    forall k, t :: 0 <= k < |steps| && 0 <= t < |states[k].threads| && Closing(states[k].threads[t]) ==>
      !steps[k].RunEnd?
  }

  /** Such a run is still open, or has ended in freed code. */
  lemma {:induction false} InnerCloseIsFatal(states: seq<State>, steps: seq<Step>, n: nat)
    requires IsRun(states, steps) && OwnerCloses(states, steps) && n < |states| && ClosedInside(states, steps, n)
    ensures states[n].closed && (|states[n].runs| > 0 || states[n].usedAfterFree)
  {
    hide ClosesInside, Next, Inv, IsRun, OwnerCloses;
    var k :| 0 <= k < n && ClosesInside(states, steps, k);
    StepCount(states, steps);
    RunInv(states, steps, n - 1);
    StepOf(states, steps, n - 1);
    if k == n - 1 {
      ClosingInside(states, steps, k);
    } else {
      assert ClosedInside(states, steps, n - 1);
      InnerCloseIsFatal(states, steps, n - 1);
      FatalStep(states[n - 1], steps[n - 1], states[n]);
    }
  }

  lemma StepCount(states: seq<State>, steps: seq<Step>)
    requires IsRun(states, steps)
    ensures |states| == |steps| + 1
  {
  }

  lemma StepOf(states: seq<State>, steps: seq<Step>, k: nat)
    requires IsRun(states, steps) && OwnerCloses(states, steps) && k < |steps|
    ensures Next(states[k], steps[k], states[k + 1])
    ensures steps[k].RunEnd? ==> forall t :: 0 <= t < |states[k].threads| ==> !Closing(states[k].threads[t])
  {
    hide Next, Init, Closing;
  }

  lemma ClosingInside(states: seq<State>, steps: seq<Step>, k: nat)
    requires ClosesInside(states, steps, k) && Next(states[k], steps[k], states[k + 1])
    ensures states[k + 1].closed && |states[k + 1].runs| > 0
  {
  }

  lemma FatalStep(s: State, step: Step, s': State)
    requires Inv(s) && Next(s, step, s') && s.closed && (|s.runs| > 0 || s.usedAfterFree)
    requires step.RunEnd? ==> forall t :: 0 <= t < |s.threads| ==> !Closing(s.threads[t])
    ensures s'.closed && (|s'.runs| > 0 || s'.usedAfterFree)
  {
    hide InFlight;
  }

  /** Late use needs a close() inside a run, whichever thread makes it.  When
      close() is the owner's own call, as the class asks, the two are the same:
      once all its runs have ended, native code was entered after it was freed
      exactly if close() won inside one of them. */
  lemma LateUseIsInnerClose(states: seq<State>, steps: seq<Step>, n: nat)
    requires IsRun(states, steps) && n < |states|
    ensures states[n].usedAfterFree ==> ClosedInside(states, steps, n)
    ensures OwnerCloses(states, steps) && |states[n].runs| == 0 ==>
              (states[n].usedAfterFree <==> ClosedInside(states, steps, n))
  {
    LateUseIsRunEnd(states, steps, n);
    if states[n].usedAfterFree {
      var k :| 0 <= k < n && EndsFreed(states, steps, k);
      RunInv(states, steps, k);
      assert Next(states[k], steps[k], states[k + 1]);
      OpenWhenClosed(states, steps, k);
    }
    if OwnerCloses(states, steps) && ClosedInside(states, steps, n) {
      InnerCloseIsFatal(states, steps, n);
    }
  }

  /** So an engine that is only ever closed outside its runs is never used after
      it was freed. */
  lemma ClosedOutsideIsSafe(states: seq<State>, steps: seq<Step>, n: nat)
    requires IsRun(states, steps) && n < |states|
    requires forall k :: 0 <= k < |steps| && steps[k].CloseExchange? ==> |states[k].runs| == 0
    ensures !states[n].usedAfterFree
  {
    LateUseIsInnerClose(states, steps, n);
  }

  /** A host function that closes the engine of the run it was called from: the
      run ends in freed code. */
  lemma CloseInHostFunction() returns (states: seq<State>, steps: seq<Step>)
    ensures steps == [RunBegin, CloseExchange(0), CloseSpin(0), CloseFree(0), RunEnd]
    ensures IsRun(states, steps) && OwnerCloses(states, steps) && states[5].usedAfterFree && !states[4].usedAfterFree
  {
    var s0 := State(Idle, [], false, 0, 0, false, [Outside]);
    var s1 := State(Running, [true], false, 0, 0, false, [Outside]);
    var s2 := State(Running, [true], true, 0, 0, false, [Waiting]);
    var s3 := State(Running, [true], true, 0, 0, false, [Freeing]);
    var s4 := State(Running, [true], true, 0, 1, false, [Finished]);
    var s5 := State(Idle, [], true, 0, 1, true, [Finished]);
    states := [s0, s1, s2, s3, s4, s5];
    steps := [RunBegin, CloseExchange(0), CloseSpin(0), CloseFree(0), RunEnd];
    InnerCloseSteps(s0, s1, s2, s3, s4, s5);
    hide Next, Init, Closing, IsRun, OwnerCloses;
    FiveSteps(states, steps);
    OnlyLastEnds(states, steps);
  }

  lemma OnlyLastEnds(states: seq<State>, steps: seq<Step>)
    requires IsRun(states, steps) && |states| == 6 && |steps| == 5
    requires forall k :: 0 <= k < 4 ==> !steps[k].RunEnd?
    requires forall t :: 0 <= t < |states[4].threads| ==> !Closing(states[4].threads[t])
    ensures OwnerCloses(states, steps)
  {
    hide Next, Init, IsRun;
  }

  lemma FiveSteps(states: seq<State>, steps: seq<Step>)
    requires |states| == 6 && |steps| == 5 && Init(states[0])
    requires Next(states[0], steps[0], states[1]) && Next(states[1], steps[1], states[2])
    requires Next(states[2], steps[2], states[3]) && Next(states[3], steps[3], states[4])
    requires Next(states[4], steps[4], states[5])
    ensures IsRun(states, steps)
  {
    hide Next, Init;
  }

  lemma InnerCloseSteps(s0: State, s1: State, s2: State, s3: State, s4: State, s5: State)
    requires s0 == State(Idle, [], false, 0, 0, false, [Outside])
    requires s1 == State(Running, [true], false, 0, 0, false, [Outside])
    requires s2 == State(Running, [true], true, 0, 0, false, [Waiting])
    requires s3 == State(Running, [true], true, 0, 0, false, [Freeing])
    requires s4 == State(Running, [true], true, 0, 1, false, [Finished])
    requires s5 == State(Idle, [], true, 0, 1, true, [Finished])
    ensures Init(s0) && Next(s0, RunBegin, s1) && Next(s1, CloseExchange(0), s2) && Next(s2, CloseSpin(0), s3)
    ensures Next(s3, CloseFree(0), s4) && Next(s4, RunEnd, s5) && !Closing(Finished)
  {
  }

  /** An interrupt that landed stays set until the outermost run ends. */
  lemma {:induction false} InterruptPersists(states: seq<State>, steps: seq<Step>, i: nat, t: nat, j: nat)
    requires IsRun(states, steps) && i < |steps| && i < j < |states|
    requires steps[i] == Fire(t) && |states[i].runs| > 0
    requires forall k :: i < k <= j ==> |states[k].runs| > 0
    ensures states[j].run == Interrupted
    decreases j
  {
    hide *;
    if i + 1 < j {
      InterruptPersists(states, steps, i, t, j - 1);
      InterruptStays(states, steps, j - 1);
    } else {
      InterruptLands(states, steps, i, t);
    }
  }

  lemma InterruptStays(states: seq<State>, steps: seq<Step>, k: nat)
    requires IsRun(states, steps) && k + 1 < |states| && states[k].run == Interrupted && |states[k + 1].runs| > 0
    ensures states[k + 1].run == Interrupted
  {
    RunInv(states, steps, k);
    assert Next(states[k], steps[k], states[k + 1]);
    hide IsRun, Next, Inv;
    InterruptedStep(states[k], steps[k], states[k + 1]);
  }

  /** What the state becomes when an interrupt is delivered: a run that is open
      is interrupted, and nothing else is touched. */
  lemma InterruptLands(states: seq<State>, steps: seq<Step>, i: nat, t: nat)
    requires IsRun(states, steps) && i < |steps| && steps[i] == Fire(t)
    ensures i + 1 < |states| && states[i + 1].runs == states[i].runs
    ensures states[i + 1].run == if |states[i].runs| > 0 then Interrupted else Idle
  {
    RunInv(states, steps, i);
    assert Next(states[i], steps[i], states[i + 1]);
    hide InFlight;
  }

  /** Step k delivered the interrupt of thread t, or it found the engine closed. */
  ghost predicate Answers(states: seq<State>, steps: seq<Step>, t: nat, k: int) {
    0 <= k < |steps| < |states| && (steps[k] == Fire(t) || (steps[k] == Check(t) && states[k].closed))
  }

  /** No call of interrupt() returns without having interrupted an open engine:
      on its way out, the last thing the thread did was to deliver the interrupt
      or to find the engine closed. */
  lemma {:induction false} NoInterruptIsLost(states: seq<State>, steps: seq<Step>, j: nat, t: nat) returns (k: nat)
    requires IsRun(states, steps) && j < |states| && t < |states[j].threads| && states[j].threads[t] == Leaving
    ensures k < j && Answers(states, steps, t, k)
    ensures forall m :: k < m <= j ==> t < |states[m].threads| && states[m].threads[t] == Leaving
  {
    hide *;
    StepCount(states, steps);
    NobodyLeaves(states, steps, t);
    k := j - 1;
    LeavingStep(states, steps, k, t);
    if states[k].threads[t] == Leaving {
      k := NoInterruptIsLost(states, steps, j - 1, t);
    }
  }

  lemma NobodyLeaves(states: seq<State>, steps: seq<Step>, t: nat)
    requires IsRun(states, steps)
    ensures t < |states[0].threads| ==> states[0].threads[t] != Leaving
  {
    hide Next;
  }

  lemma LeavingStep(states: seq<State>, steps: seq<Step>, k: nat, t: nat)
    requires IsRun(states, steps) && k < |steps| && k + 1 < |states|
    requires t < |states[k + 1].threads| && states[k + 1].threads[t] == Leaving
    ensures t < |states[k].threads| && (states[k].threads[t] == Leaving || Answers(states, steps, t, k))
  {
    assert Next(states[k], steps[k], states[k + 1]);
    hide IsRun;
  }

  /** Only an interrupt stops a run: while one is open and none is delivered, it
      goes on as it is. */
  lemma OnlyInterruptsStop(states: seq<State>, steps: seq<Step>, i: nat)
    requires IsRun(states, steps) && i < |steps| && |states[i].runs| > 0
    ensures i + 1 < |states|
    ensures |states[i + 1].runs| > 0 && states[i + 1].run != states[i].run ==>
              states[i].run == Running && states[i + 1].run == Interrupted && steps[i].Fire?
    ensures |states[i + 1].runs| == 0 ==> states[i + 1].run == Idle
  {
    RunInv(states, steps, i);
    assert Next(states[i], steps[i], states[i + 1]);
    hide InFlight;
  }

  lemma InterruptedStep(s: State, step: Step, s': State)
    requires Inv(s) && Next(s, step, s') && s.run == Interrupted && |s'.runs| > 0
    ensures s'.run == Interrupted
  {
  }

  /** An interrupt outside any run changes nothing but where its own thread is:
      every state up to the next run is idle, and that run starts uninterrupted. */
  lemma IdleInterruptIsDropped(states: seq<State>, steps: seq<Step>, i: nat, t: nat, j: nat)
    requires IsRun(states, steps) && i < |steps| && steps[i] == Fire(t) && |states[i].runs| == 0
    requires i < j < |states| && forall k :: i < k < j ==> |states[k].runs| == 0
    ensures t < |states[i].threads| && states[i + 1] == At(states[i], t, Leaving)
    ensures states[j].run == if |states[j].runs| == 0 then Idle else Running
  {
    RunInv(states, steps, i);
    RunInv(states, steps, j - 1);
    RunInv(states, steps, j);
    hide InFlight;
    assert Next(states[i], steps[i], states[i + 1]);
    assert Next(states[j - 1], steps[j - 1], states[j]);
    FireWhenIdle(states[i], t, states[i + 1]);
  }

  lemma FireWhenIdle(s: State, t: nat, s': State)
    requires Inv(s) && Next(s, Fire(t), s') && |s.runs| == 0
    ensures s' == At(s, t, Leaving)
  {
    hide InFlight;
  }
}
