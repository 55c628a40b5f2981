/** JsRuntime.kt: any number of tasks in withEngine, close() and shutdown(),
    over one mutex, two flags and one engine, with a watchdog for every block.

    Each step is one atomic action of one task.  JsEngine.interrupt and
    JsEngine.close are single steps here; what happens inside them is the
    subject of EngineRuns. */
module RuntimeClose {
  import opened RunStates

  /** Where a task is. */
  datatype Pc =
    | Start           // not called yet
    // withEngine
    | WantLock        // mutex.withLock
    | Locked          // the lock is held, closed is still to be checked
    | Body            // runExclusive: the block runs, the watchdog waits
    | Stopping        // done is set, the watchdog cancelled; the scope joins it
    | Unlocking       // the lock is held, about to be released
    // closeIfPending
    | CheckPending
    | TryLock
    | ClosingEngine   // the lock is held, engine.close() comes next
    | UnlockClosed    // the lock is held, the engine is closed
    // close() after winning the exchange
    | CloseInterrupt
    | SetPending
    // shutdown() after winning the exchange
    | ShutInterrupt
    | ShutWantLock
    | ShutClosing     // the lock is held, engine.close() comes next
    | ShutUnlock      // the lock is held, the engine is closed
    | End

  /** The watchdog of a block: launched but not started yet, started and waiting,
      cancelled, about to interrupt, or over. */
  datatype Dog = NoDog | Launched | Waiting | Woken | Firing | Gone

  /** depth is the number of open native runs of the task's block. */
  datatype Task = Task(pc: Pc, dog: Dog, done: bool, depth: nat)

  /** holder is the task that holds the mutex, or -1; byBlock says whether a
      block closed the engine that it was given. */
  datatype Shared = Shared(
    closed: bool,
    pending: bool,
    holder: int,
    engineClosed: bool,
    freed: nat,
    native: RunState,
    byBlock: bool)

  datatype State = State(shared: Shared, tasks: seq<Task>)

  datatype Action =
    | CallWithEngine
    | CallClose
    | CallShutdown
    | AcquireLock
    | CancelWait
    | CancelLocked
    | CheckClosed
    | BeginNative
    | EndNative
    | CloseInBlock
    | StartDog
    | CancelCaller
    | WakeDog
    | FireDog
    | EndBody
    | JoinDog
    | ReleaseLock
    | LoadPending
    | TryAcquire
    | CloseEngine
    | ReleaseAfterClose
    | InterruptFirst
    | StorePending

  /** Task t performs an action. */
  datatype Step = Step(t: nat, action: Action)

  ghost predicate Init(s: State) {
    && s.shared == Shared(false, false, -1, false, 0, Idle, false)
    && forall t :: 0 <= t < |s.tasks| ==> s.tasks[t] == Task(Start, NoDog, false, 0)
  }

  /** engine.interrupt() */
  function InterruptEngine(g: Shared): Shared {
    if !g.engineClosed && g.native == Running then g.(native := Interrupted) else g
  }

  /** engine.close() */
  function EngineClose(g: Shared): Shared {
    if g.engineClosed then g else g.(engineClosed := true, freed := g.freed + 1)
  }

  /** A watchdog that is cancelled before it starts never interrupts. */
  function CancelledDog(dog: Dog): Dog {
    match dog
    case Launched => Gone
    case Waiting => Woken
    case _ => dog
  }

  /** What task number t may do from k, with the shared state changing from g. */
  ghost predicate Acts(g: Shared, k: Task, a: Action, t: nat, g': Shared, k': Task) {
    match a
    case CallWithEngine => k.pc == Start && g' == g && k' == k.(pc := WantLock)
    case CallClose =>
      && k.pc == Start
      && (if g.closed then g' == g && k' == k.(pc := End)
          else g' == g.(closed := true) && k' == k.(pc := CloseInterrupt))
    case CallShutdown =>
      && k.pc == Start
      && (if g.closed then g' == g && k' == k.(pc := End)
          else g' == g.(closed := true) && k' == k.(pc := ShutInterrupt))
    case AcquireLock =>
      && g.holder == -1 && g' == g.(holder := t)
      && ((k.pc == WantLock && k' == k.(pc := Locked)) || (k.pc == ShutWantLock && k' == k.(pc := ShutClosing)))
    case CancelWait => k.pc == WantLock && g' == g && k' == k.(pc := CheckPending)
    case CancelLocked => k.pc == Locked && g' == g && k' == k.(pc := Unlocking)
    case CheckClosed =>
      k.pc == Locked && g' == g && k' == if g.closed then k.(pc := Unlocking) else Task(Body, Launched, false, 0)
    case BeginNative =>
      && k.pc == Body && !g.engineClosed && k' == k.(depth := k.depth + 1)
      && g' == g.(native := if g.native == Idle then Running else g.native)
    case EndNative =>
      && k.pc == Body && k.depth > 0 && k' == k.(depth := k.depth - 1)
      && g' == g.(native := if k.depth == 1 then Idle else g.native)
    case CloseInBlock =>
      k.pc == Body && k' == k && g' == EngineClose(g).(byBlock := g.byBlock || !g.engineClosed)
    case StartDog => k.dog == Launched && g' == g && k' == k.(dog := Waiting)
    case CancelCaller => (k.dog == Launched || k.dog == Waiting) && g' == g && k' == k.(dog := CancelledDog(k.dog))
    case WakeDog => k.dog == Woken && g' == g && k' == k.(dog := if k.done then Gone else Firing)
    case FireDog => k.dog == Firing && g' == InterruptEngine(g) && k' == k.(dog := Gone)
    case EndBody =>
      && k.pc == Body && k.depth == 0 && g' == g
      && k' == k.(pc := Stopping, done := true, dog := CancelledDog(k.dog))
    case JoinDog => k.pc == Stopping && k.dog == Gone && g' == g && k' == k.(pc := Unlocking)
    case ReleaseLock => k.pc == Unlocking && g' == g.(holder := -1) && k' == k.(pc := CheckPending)
    case LoadPending => k.pc == CheckPending && g' == g && k' == k.(pc := if g.pending then TryLock else End)
    case TryAcquire =>
      && k.pc == TryLock
      && (if g.holder == -1 then g' == g.(holder := t) && k' == k.(pc := ClosingEngine)
          else g' == g && k' == k.(pc := End))
    case CloseEngine =>
      && g' == EngineClose(g)
      && (|| (k.pc == ClosingEngine && k' == k.(pc := UnlockClosed))
          || (k.pc == ShutClosing && k' == k.(pc := ShutUnlock)))
    case ReleaseAfterClose =>
      (k.pc == UnlockClosed || k.pc == ShutUnlock) && g' == g.(holder := -1) && k' == k.(pc := End)
    case InterruptFirst =>
      && g' == InterruptEngine(g)
      && (|| (k.pc == CloseInterrupt && k' == k.(pc := SetPending))
          || (k.pc == ShutInterrupt && k' == k.(pc := ShutWantLock)))
    case StorePending => k.pc == SetPending && g' == g.(pending := true) && k' == k.(pc := CheckPending)
  }

  ghost predicate Next(s: State, step: Step, s': State) {
    && step.t < |s.tasks| == |s'.tasks|
    && s'.tasks == s.tasks[step.t := s'.tasks[step.t]]
    && Acts(s.shared, s.tasks[step.t], step.action, step.t, s'.shared, s'.tasks[step.t])
  }

  // ----- the mutex -----

  predicate HoldsLock(pc: Pc) {
    pc == Locked || pc == Body || pc == Stopping || pc == Unlocking || pc == ClosingEngine
    || pc == UnlockClosed || pc == ShutClosing || pc == ShutUnlock
  }

  /** Exactly the holder is at a point where the lock is held. */
  ghost predicate Exclusive(s: State) {
    && -1 <= s.shared.holder < |s.tasks|
    && forall t :: 0 <= t < |s.tasks| ==> (HoldsLock(s.tasks[t].pc) <==> s.shared.holder == t)
  }

  /** The mutex changes hands exactly when the task crosses a lock boundary. */
  lemma LockMoves(g: Shared, k: Task, a: Action, t: nat, g': Shared, k': Task)
    requires Acts(g, k, a, t, g', k')
    ensures if HoldsLock(k.pc) == HoldsLock(k'.pc) then g'.holder == g.holder
            else if HoldsLock(k'.pc) then g.holder == -1 && g'.holder == t
            else g'.holder == -1
  {
  }

  lemma ExclusivePreserved(s: State, step: Step, s': State)
    requires Exclusive(s) && Next(s, step, s')
    ensures Exclusive(s')
  {
    LockMoves(s.shared, s.tasks[step.t], step.action, step.t, s'.shared, s'.tasks[step.t]);
    hide Acts, HoldsLock;
  }

  // ----- the engine's state -----

  predicate AfterClose(pc: Pc) {
    pc == UnlockClosed || pc == ShutUnlock
  }

  predicate CloseWon(pc: Pc) {
    pc == CloseInterrupt || pc == SetPending || pc == ShutInterrupt || pc == ShutWantLock || pc == ShutClosing
    || pc == ShutUnlock
  }

  /** The shared flags in order. */
  predicate FlagsInOrder(g: Shared) {
    (g.engineClosed ==> g.closed || g.byBlock) && (g.byBlock ==> g.engineClosed) && (g.pending ==> g.closed) &&
      g.freed == (if g.engineClosed then 1 else 0)
  }

  /** What a task's position says about the flags. */
  predicate TaskInOrder(g: Shared, k: Task) {
    && (g.engineClosed && !g.byBlock ==> k.pc != Body)
    && (AfterClose(k.pc) ==> g.engineClosed)
    && (CloseWon(k.pc) ==> g.closed)
    && (k.pc == TryLock || k.pc == ClosingEngine ==> g.pending)
  }

  /** The engine is only closed by a block, or after close() or shutdown() began
      and with no block inside it; and at most once. */
  ghost predicate ClosedInOrder(s: State) {
    && FlagsInOrder(s.shared)
    && forall t :: 0 <= t < |s.tasks| ==> TaskInOrder(s.shared, s.tasks[t])
  }

  lemma FlagsMove(g: Shared, k: Task, a: Action, t: nat, g': Shared, k': Task)
    requires Acts(g, k, a, t, g', k') && FlagsInOrder(g) && TaskInOrder(g, k)
    ensures FlagsInOrder(g') && TaskInOrder(g', k')
    ensures (g.closed ==> g'.closed) && (g.pending ==> g'.pending) && (g.engineClosed ==> g'.engineClosed)
    ensures g'.engineClosed && !g.engineClosed ==> HoldsLock(k.pc) && (a == CloseEngine || a == CloseInBlock)
    ensures g'.byBlock <==> g.byBlock || (a == CloseInBlock && !g.engineClosed)
  {
  }

  lemma ClosedInOrderPreserved(s: State, step: Step, s': State)
    requires Exclusive(s) && ClosedInOrder(s) && Next(s, step, s')
    ensures ClosedInOrder(s')
  {
    var t := step.t;
    FlagsMove(s.shared, s.tasks[t], step.action, t, s'.shared, s'.tasks[t]);
    assert HoldsLock(Body);
    hide Acts, HoldsLock, AfterClose, CloseWon;
    forall u | 0 <= u < |s'.tasks|
      ensures TaskInOrder(s'.shared, s'.tasks[u])
    {
      if u != t {
        assert TaskInOrder(s.shared, s.tasks[u]);
      }
    }
  }

  // ----- runs and watchdogs -----

  predicate DogInside(k: Task) {
    && (k.depth > 0 ==> k.pc == Body)
    && (k.dog != NoDog && k.dog != Gone ==> k.pc == Body || k.pc == Stopping)
    && (k.pc == Body ==> k.dog != NoDog)
    && (k.pc == Stopping ==> k.dog == Woken || k.dog == Firing || k.dog == Gone)
  }

  /** Native runs are open only inside the block of the task that holds the
      mutex, and a watchdog is alive only while its task does. */
  ghost predicate OwnRun(s: State) {
    && (forall t :: 0 <= t < |s.tasks| ==> DogInside(s.tasks[t]))
    && (s.shared.native != Idle <==> 0 <= s.shared.holder < |s.tasks| && s.tasks[s.shared.holder].depth > 0)
  }

  lemma NativeMoves(g: Shared, k: Task, a: Action, t: nat, g': Shared, k': Task)
    requires Acts(g, k, a, t, g', k') && DogInside(k) && (k.depth > 0 ==> g.native != Idle)
    ensures DogInside(k')
    ensures if k.depth == 0 && k'.depth > 0 then g'.native != Idle
            else if k.depth > 0 && k'.depth == 0 then g'.native == Idle
            else g'.native == Idle <==> g.native == Idle
  {
  }

  lemma OwnRunPreserved(s: State, step: Step, s': State)
    requires Exclusive(s) && OwnRun(s) && Next(s, step, s')
    ensures OwnRun(s')
  {
    var t := step.t;
    var g, k, g', k' := s.shared, s.tasks[t], s'.shared, s'.tasks[t];
    assert HoldsLock(Body);
    NativeMoves(g, k, step.action, t, g', k');
    LockMoves(g, k, step.action, t, g', k');
    hide Acts, HoldsLock;
    assert forall u :: 0 <= u < |s'.tasks| && u != t ==> s'.tasks[u] == s.tasks[u];
    assert forall u :: 0 <= u < |s.tasks| && s.tasks[u].depth > 0 ==> s.shared.holder == u;
  }

  // ----- no missed close -----

  /** Tasks that are bound to close the engine, or to hand the duty on. */
  predicate Responsible(pc: Pc, pending: bool) {
    || pc == CloseInterrupt || pc == SetPending || pc == ShutInterrupt || pc == ShutWantLock || pc == ShutClosing
    || (pending && (pc == CheckPending || pc == TryLock || pc == ClosingEngine
                    || pc == Locked || pc == Body || pc == Stopping || pc == Unlocking))
  }

  ghost predicate SomeoneResponsible(s: State) {
    exists t :: 0 <= t < |s.tasks| && Responsible(s.tasks[t].pc, s.shared.pending)
  }

  ghost predicate NoMissedClose(s: State) {
    s.shared.closed && !s.shared.engineClosed ==> SomeoneResponsible(s)
  }

  /** A responsible task stays so until the engine is closed, unless its tryLock
      fails; the exchange makes one. */
  lemma DutyMoves(g: Shared, k: Task, a: Action, t: nat, g': Shared, k': Task)
    requires Acts(g, k, a, t, g', k') && !g'.engineClosed
    ensures Responsible(k.pc, g.pending) ==>
              Responsible(k'.pc, g'.pending) || (k.pc == TryLock && g.holder != -1 && g.pending)
    ensures g'.closed && !g.closed ==> Responsible(k'.pc, g'.pending)
    ensures g.pending ==> g'.pending
  {
  }

  /** Whoever holds the lock while the engine is open closes it or, when the
      flag is up, checks the flag after releasing it. */
  lemma HolderResponsible(g: Shared, k: Task)
    requires HoldsLock(k.pc) && TaskInOrder(g, k) && !g.engineClosed && g.pending
    ensures Responsible(k.pc, true)
  {
  }

  lemma NoMissedClosePreserved(s: State, step: Step, s': State)
    requires Exclusive(s) && ClosedInOrder(s) && NoMissedClose(s) && Next(s, step, s')
    ensures NoMissedClose(s')
  {
    var t := step.t;
    var g, k, g', k' := s.shared, s.tasks[t], s'.shared, s'.tasks[t];
    if g'.closed && !g'.engineClosed {
      FlagsMove(g, k, step.action, t, g', k');
      DutyMoves(g, k, step.action, t, g', k');
      if g.closed {
        var u :| 0 <= u < |s.tasks| && Responsible(s.tasks[u].pc, g.pending);
        if u == t && k.pc == TryLock && g.holder != -1 && g.pending {
          HolderResponsible(g, s.tasks[g.holder]);
          assert !HoldsLock(TryLock);
          assert Responsible(s'.tasks[g.holder].pc, g'.pending);
        } else {
          assert Responsible(s'.tasks[u].pc, g'.pending);
        }
      } else {
        assert Responsible(s'.tasks[t].pc, g'.pending);
      }
    }
  }

  // ----- whole runs -----

  ghost predicate Inv(s: State) {
    Exclusive(s) && ClosedInOrder(s) && OwnRun(s) && NoMissedClose(s)
  }

  ghost predicate IsRun(states: seq<State>, steps: seq<Step>) {
    && |states| == |steps| + 1 && Init(states[0])
    && forall i :: 0 <= i < |steps| ==> Next(states[i], steps[i], states[i + 1])
  }

  lemma {:induction false} RunInv(states: seq<State>, steps: seq<Step>, n: nat)
    requires IsRun(states, steps) && n < |states|
    ensures Inv(states[n])
  {
    if n > 0 {
      RunInv(states, steps, n - 1);
      var s, step, s' := states[n - 1], steps[n - 1], states[n];
      hide Next, Exclusive, ClosedInOrder, OwnRun, NoMissedClose;
      ExclusivePreserved(s, step, s');
      ClosedInOrderPreserved(s, step, s');
      OwnRunPreserved(s, step, s');
      NoMissedClosePreserved(s, step, s');
    }
  }

  predicate At(s: State, t: nat, pc: Pc) {
    t < |s.tasks| && s.tasks[t].pc == pc
  }

  /** A block that closed the engine while it was open. */
  ghost predicate BlockCloses(states: seq<State>, steps: seq<Step>, k: int) {
    0 <= k < |steps| < |states| && steps[k].action == CloseInBlock && !states[k].shared.engineClosed
  }

  lemma ByBlockStep(states: seq<State>, steps: seq<Step>, n: nat)
    requires IsRun(states, steps) && n < |steps|
    ensures n + 1 < |states|
    ensures states[n + 1].shared.byBlock <==> states[n].shared.byBlock || BlockCloses(states, steps, n)
  {
    var s, step, s' := states[n], steps[n], states[n + 1];
    assert Next(s, step, s');
    RunInv(states, steps, n);
    FlagsMove(s.shared, s.tasks[step.t], step.action, step.t, s'.shared, s'.tasks[step.t]);
    hide IsRun, Next, Acts, Inv;
  }

  lemma StartsOpen(states: seq<State>, steps: seq<Step>)
    requires IsRun(states, steps)
    ensures |states| == |steps| + 1 && !states[0].shared.byBlock
  {
    hide Next;
  }

  lemma BlockClosesBefore(states: seq<State>, steps: seq<Step>, n: nat)
    ensures (exists k :: 0 <= k < n + 1 && BlockCloses(states, steps, k))
         <==> (exists k :: 0 <= k < n && BlockCloses(states, steps, k)) || BlockCloses(states, steps, n)
  {
    hide *;
  }

  lemma {:induction false} ByBlockIsHistory(states: seq<State>, steps: seq<Step>, n: nat)
    requires IsRun(states, steps) && n < |states|
    ensures states[n].shared.byBlock <==> exists k :: 0 <= k < n && BlockCloses(states, steps, k)
  {
    hide *;
    StartsOpen(states, steps);
    if n > 0 {
      ByBlockIsHistory(states, steps, n - 1);
      ByBlockStep(states, steps, n - 1);
      BlockClosesBefore(states, steps, n - 1);
    }
  }

  /** At most one block runs; it runs on a closed engine only if it, or a block
      before it, closed the engine itself; and the engine is freed at most once. */
  lemma RuntimeSafe(states: seq<State>, steps: seq<Step>, n: nat)
    requires IsRun(states, steps) && n < |states|
    ensures forall t, u :: At(states[n], t, Body) && At(states[n], u, Body) ==> t == u
    ensures forall t :: At(states[n], t, Body) ==> states[n].shared.holder == t
    ensures forall t :: At(states[n], t, Body) && states[n].shared.engineClosed ==>
              exists k :: 0 <= k < n && BlockCloses(states, steps, k)
    ensures states[n].shared.freed <= 1
  {
    RunInv(states, steps, n);
    ByBlockIsHistory(states, steps, n);
    assert HoldsLock(Body);
    hide HoldsLock, Next, BlockCloses;
    forall t: nat | At(states[n], t, Body)
      ensures states[n].shared.holder == t && (states[n].shared.engineClosed ==> states[n].shared.byBlock)
    {
      assert TaskInOrder(states[n].shared, states[n].tasks[t]);
    }
  }

  /** Once close() or shutdown() has won the exchange no block starts, however
      far the closing task has come; until then a caller that gets the lock runs
      its block. */
  lemma RefusedOnceClosed(states: seq<State>, steps: seq<Step>, n: nat, t: nat)
    requires IsRun(states, steps) && n < |steps|
    ensures n + 1 < |states|
    ensures states[n].shared.closed && At(states[n + 1], t, Body) ==> At(states[n], t, Body)
    ensures At(states[n], t, Locked) && steps[n] == Step(t, CheckClosed) ==>
              (At(states[n + 1], t, Body) <==> !states[n].shared.closed)
  {
    assert Next(states[n], steps[n], states[n + 1]);
  }

  /** From then on, in every later state, only blocks that were running then
      may still run. */
  lemma {:induction false} NoBlockAfterClose(states: seq<State>, steps: seq<Step>, n: nat, m: nat, t: nat)
    requires IsRun(states, steps) && n <= m < |states| && states[n].shared.closed
    ensures states[m].shared.closed
    ensures At(states[m], t, Body) ==> At(states[n], t, Body)
    decreases m
  {
    hide *;
    StartsOpen(states, steps);
    if n < m {
      NoBlockAfterClose(states, steps, n, m - 1, t);
      RefusedOnceClosed(states, steps, m - 1, t);
      StaysClosed(states, steps, m - 1);
    }
  }

  lemma StaysClosed(states: seq<State>, steps: seq<Step>, n: nat)
    requires IsRun(states, steps) && n < |steps|
    ensures n + 1 < |states| && (states[n].shared.closed ==> states[n + 1].shared.closed)
  {
    assert Next(states[n], steps[n], states[n + 1]);
  }

  /** An interrupt of the runtime, by close(), by shutdown() or by the watchdog
      of a cancelled call, stops the script that is running. */
  lemma InterruptLands(states: seq<State>, steps: seq<Step>, n: nat)
    requires IsRun(states, steps) && n < |steps|
    requires steps[n].action == InterruptFirst || steps[n].action == FireDog
    ensures n + 1 < |states| && states[n + 1].shared.native ==
              if states[n].shared.native != Idle && !states[n].shared.engineClosed then Interrupted
              else states[n].shared.native
  {
    assert Next(states[n], steps[n], states[n + 1]);
  }

  /** The engine is closed only by the task that holds the mutex; and outside
      blocks with no native run open, as JsEngine.close needs. */
  lemma ClosedUnderLock(states: seq<State>, steps: seq<Step>, n: nat)
    requires IsRun(states, steps) && n < |steps|
    ensures states[n + 1].shared.engineClosed && !states[n].shared.engineClosed ==>
              steps[n].action == CloseEngine || steps[n].action == CloseInBlock
    ensures steps[n].action == CloseEngine || steps[n].action == CloseInBlock ==> states[n].shared.holder == steps[n].t
    ensures steps[n].action == CloseEngine ==>
              && states[n].shared.native == Idle
              && forall t :: 0 <= t < |states[n].tasks| ==> states[n].tasks[t].depth == 0
  {
    RunInv(states, steps, n);
    var s, t, s' := states[n], steps[n].t, states[n + 1];
    assert Next(s, steps[n], s');
    FlagsMove(s.shared, s.tasks[t], steps[n].action, t, s'.shared, s'.tasks[t]);
    if steps[n].action == CloseEngine {
      NoRunOpen(s, t);
    }
  }

  lemma NoRunOpen(s: State, t: nat)
    requires Inv(s) && t < |s.tasks| && (s.tasks[t].pc == ClosingEngine || s.tasks[t].pc == ShutClosing)
    ensures s.shared.holder == t && s.shared.native == Idle
    ensures forall u :: 0 <= u < |s.tasks| ==> s.tasks[u].depth == 0
  {
    assert HoldsLock(Body) && HoldsLock(ClosingEngine) && HoldsLock(ShutClosing);
    hide HoldsLock, NoMissedClose, ClosedInOrder;
    forall u | 0 <= u < |s.tasks|
      ensures s.tasks[u].depth == 0
    {
      assert DogInside(s.tasks[u]);
    }
  }

  /** Once every task that was started has finished after a close() or
      shutdown(), the engine is closed. */
  lemma NoCloseIsMissed(states: seq<State>, steps: seq<Step>, n: nat)
    requires IsRun(states, steps) && n < |states|
    requires forall t :: 0 <= t < |states[n].tasks| ==> states[n].tasks[t].pc == End || states[n].tasks[t].pc == Start
    ensures states[n].shared.closed ==> states[n].shared.engineClosed && states[n].shared.freed == 1
  {
    RunInv(states, steps, n);
  }

  /** Steps that no caller, script or cancellation has to ask for. */
  predicate Advances(a: Action) {
    match a
    case CallWithEngine | CallClose | CallShutdown | CancelWait | CancelLocked | CancelCaller | BeginNative
         | CloseInBlock => false
    case _ => true
  }

  predicate Unfinished(k: Task) {
    k.pc != Start && k.pc != End
  }

  /** What a task can do next: always something when it holds the mutex, and
      when the mutex is free. */
  lemma CanAct(g: Shared, k: Task, t: nat) returns (a: Action, g': Shared, k': Task)
    requires Unfinished(k) && DogInside(k) && (HoldsLock(k.pc) || g.holder == -1)
    ensures Advances(a) && Acts(g, k, a, t, g', k')
  {
    g', k' := g, k;
    match k.pc {
      case WantLock | ShutWantLock =>
        a, g', k' := AcquireLock, g.(holder := t), k.(pc := if k.pc == WantLock then Locked else ShutClosing);
      case Locked => a, k' := CheckClosed, if g.closed then k.(pc := Unlocking) else Task(Body, Launched, false, 0);
      case Body =>
        if k.depth > 0 {
          a, k' := EndNative, k.(depth := k.depth - 1);
          g' := g.(native := if k.depth == 1 then Idle else g.native);
        } else {
          a, k' := EndBody, k.(pc := Stopping, done := true, dog := CancelledDog(k.dog));
        }
      case Stopping =>
        if k.dog == Woken {
          a, k' := WakeDog, k.(dog := if k.done then Gone else Firing);
        } else if k.dog == Firing {
          a, g', k' := FireDog, InterruptEngine(g), k.(dog := Gone);
        } else {
          a, k' := JoinDog, k.(pc := Unlocking);
        }
      case Unlocking => a, g', k' := ReleaseLock, g.(holder := -1), k.(pc := CheckPending);
      case CheckPending => a, k' := LoadPending, k.(pc := if g.pending then TryLock else End);
      case TryLock => a, g', k' := TryAcquire, g.(holder := t), k.(pc := ClosingEngine);
      case ClosingEngine | ShutClosing =>
        a, g', k' := CloseEngine, EngineClose(g), k.(pc := if k.pc == ClosingEngine then UnlockClosed else ShutUnlock);
      case UnlockClosed | ShutUnlock => a, g', k' := ReleaseAfterClose, g.(holder := -1), k.(pc := End);
      case CloseInterrupt | ShutInterrupt =>
        a, g' := InterruptFirst, InterruptEngine(g);
        k' := k.(pc := if k.pc == CloseInterrupt then SetPending else ShutWantLock);
      case SetPending => a, g', k' := StorePending, g.(pending := true), k.(pc := CheckPending);
    }
  }

  /** No deadlock: while a call is unfinished, some unfinished call can go on,
      without anybody's help. */
  lemma NoDeadlock(states: seq<State>, steps: seq<Step>, n: nat, t: nat) returns (step: Step, s': State)
    requires IsRun(states, steps) && n < |states| && t < |states[n].tasks| && Unfinished(states[n].tasks[t])
    ensures Advances(step.action) && Next(states[n], step, s')
    ensures step.t < |states[n].tasks| && Unfinished(states[n].tasks[step.t])
  {
    RunInv(states, steps, n);
    var s := states[n];
    hide ClosedInOrder, NoMissedClose, IsRun, Acts, DogInside;
    var u: nat := if s.shared.holder == -1 then t else s.shared.holder;
    assert HoldsLock(s.tasks[u].pc) || s.shared.holder == -1;
    assert DogInside(s.tasks[u]);
    assert Unfinished(s.tasks[u]);
    var a, g', k' := CanAct(s.shared, s.tasks[u], u);
    step, s' := Step(u, a), State(g', s.tasks[u := k']);
  }

  /** How many steps a call has left, if nothing new is asked of it. */
  function StepsLeft(k: Task): nat {
    var p: nat := match k.pc
      case WantLock => 9
      case Locked => 8
      case Body => 7
      case Stopping => 6
      case Unlocking | SetPending => 5
      case CheckPending | ShutInterrupt => 4
      case TryLock | ShutWantLock => 3
      case ClosingEngine | ShutClosing => 2
      case UnlockClosed | ShutUnlock => 1
      case CloseInterrupt => 6
      case _ => 0;
    var d: nat := match k.dog
      case Launched => 4
      case Waiting => 3
      case Woken => 2
      case Firing => 1
      case _ => 0;
    5 * p + k.depth + d
  }

  function AllStepsLeft(tasks: seq<Task>): nat {
    if |tasks| == 0 then 0 else AllStepsLeft(tasks[..|tasks| - 1]) + StepsLeft(tasks[|tasks| - 1])
  }

  lemma {:induction false} StepsLeftUpdate(tasks: seq<Task>, t: nat, k: Task)
    requires t < |tasks|
    ensures AllStepsLeft(tasks[t := k]) + StepsLeft(tasks[t]) == AllStepsLeft(tasks) + StepsLeft(k)
    decreases |tasks|
  {
    hide StepsLeft;
    var n := |tasks| - 1;
    if t < n {
      StepsLeftUpdate(tasks[..n], t, k);
      assert tasks[t := k][..n] == tasks[..n][t := k];
    } else {
      assert tasks[t := k][..n] == tasks[..n];
    }
  }

  lemma AdvanceShortens(g: Shared, k: Task, a: Action, t: nat, g': Shared, k': Task)
    requires Acts(g, k, a, t, g', k') && Advances(a) && DogInside(k)
    ensures StepsLeft(k') < StepsLeft(k)
  {
  }

  /** And it comes to an end: every such step leaves fewer to take, so that after
      AllStepsLeft of them all calls have finished. */
  lemma EveryStepCounts(states: seq<State>, steps: seq<Step>, n: nat, step: Step, s': State)
    requires IsRun(states, steps) && n < |states| && Next(states[n], step, s') && Advances(step.action)
    ensures AllStepsLeft(s'.tasks) < AllStepsLeft(states[n].tasks)
  {
    RunInv(states, steps, n);
    var s, t := states[n], step.t;
    hide ClosedInOrder, NoMissedClose, IsRun, Acts, StepsLeft, AllStepsLeft, Advances, DogInside;
    assert DogInside(s.tasks[t]);
    AdvanceShortens(s.shared, s.tasks[t], step.action, t, s'.shared, s'.tasks[t]);
    StepsLeftUpdate(s.tasks, t, s'.tasks[t]);
  }

  /** Step k made the watchdog of task t interrupt, or cancelled it before it
      had started. */
  ghost predicate DogActed(states: seq<State>, steps: seq<Step>, t: nat, k: int) {
    && 0 <= k < |steps| < |states| && steps[k].t == t < |states[k].tasks|
    && (steps[k].action == FireDog || (steps[k].action == CancelCaller && states[k].tasks[t].dog == Launched))
  }

  /** While its block still runs, a watchdog is not over without having
      interrupted the engine, unless it was cancelled before it started. */
  lemma {:induction false} WatchdogFires(states: seq<State>, steps: seq<Step>, n: nat, t: nat) returns (k: nat)
    requires IsRun(states, steps) && n < |states| && At(states[n], t, Body) && states[n].tasks[t].dog == Gone
    ensures k < n && DogActed(states, steps, t, k)
    ensures forall m :: k < m <= n ==> At(states[m], t, Body)
  {
    BodyExists(states[n], t);
    hide *;
    StartsOpen(states, steps);
    NobodyRuns(states, steps, t);
    k := n - 1;
    DogStep(states, steps, k, t);
    if At(states[k], t, Body) && states[k].tasks[t].dog == Gone {
      k := WatchdogFires(states, steps, n - 1, t);
    }
  }

  lemma BodyExists(s: State, t: nat)
    requires At(s, t, Body)
    ensures t < |s.tasks|
  {
  }

  lemma NobodyRuns(states: seq<State>, steps: seq<Step>, t: nat)
    requires IsRun(states, steps)
    ensures !At(states[0], t, Body)
  {
    hide Next;
  }

  lemma DogStep(states: seq<State>, steps: seq<Step>, k: nat, t: nat)
    requires IsRun(states, steps) && k < |steps| && k + 1 < |states|
    requires At(states[k + 1], t, Body) && states[k + 1].tasks[t].dog == Gone
    ensures t < |states[k].tasks|
    ensures (At(states[k], t, Body) && states[k].tasks[t].dog == Gone) || DogActed(states, steps, t, k)
  {
    NotDoneInBody(states, steps, k, t);
    NotDoneInBody(states, steps, k + 1, t);
    assert Next(states[k], steps[k], states[k + 1]);
    hide IsRun;
  }

  lemma {:induction false} NotDoneInBody(states: seq<State>, steps: seq<Step>, n: nat, t: nat)
    requires IsRun(states, steps) && n < |states|
    ensures At(states[n], t, Body) ==> !states[n].tasks[t].done
  {
    if n > 0 {
      NotDoneInBody(states, steps, n - 1, t);
      assert Next(states[n - 1], steps[n - 1], states[n]);
    }
  }

  /** A watchdog's interrupt only ever lands in the run of its own withEngine
      call. */
  lemma WatchdogStopsOwnCall(states: seq<State>, steps: seq<Step>, n: nat)
    requires IsRun(states, steps) && n < |steps| && steps[n].action == FireDog
    requires states[n + 1].shared.native != states[n].shared.native
    ensures At(states[n], steps[n].t, Body) && states[n].tasks[steps[n].t].depth > 0
    ensures states[n].shared.native == Running && states[n + 1].shared.native == Interrupted
  {
    RunInv(states, steps, n);
    var s, t := states[n], steps[n].t;
    assert Next(s, steps[n], states[n + 1]);
    assert DogInside(s.tasks[t]);
    assert HoldsLock(Body) && HoldsLock(Stopping);
    assert s.shared.holder == t;
  }

  /** And it does not outlive that call: the next block starts on an idle
      engine. */
  lemma BlocksStartIdle(states: seq<State>, steps: seq<Step>, n: nat)
    requires IsRun(states, steps) && n < |steps| && steps[n].action == CheckClosed && !states[n].shared.closed
    ensures At(states[n + 1], steps[n].t, Body) && states[n + 1].shared.native == Idle
  {
    RunInv(states, steps, n);
    var s, t := states[n], steps[n].t;
    assert Next(s, steps[n], states[n + 1]);
    assert HoldsLock(Locked) && s.shared.holder == t;
    assert DogInside(s.tasks[t]);
  }
}
