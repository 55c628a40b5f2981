/** The entry points of mquickjs_kmp.c that run script: each of them leaves the
    run state as it found it, on every exit and under any nesting, except that
    an interrupt stays until the outermost run is over. */
module EntryPoints {
  import opened RunStates

  /** What can happen while the engine runs script: another thread interrupts,
      or a host function calls back into the engine. */
  datatype Event = InterruptedByThread | HostCalls(entries: seq<Entry>)

  /** An engine operation that may run script, and whether it fails. */
  datatype Operation = Operation(events: seq<Event>, failing: bool)

  /** A call of an entry point, with the outcome of every step it takes. */
  datatype Entry =
    | Eval(parse: Operation, convert: Operation)
    | RefGet(valid: bool, property: Operation, convert: Operation)
    | RefGetIndex(valid: bool, negative: bool, property: Operation, convert: Operation)
    | RefSet(valid: bool, value: Operation, assign: Operation)
    | RefCall(valid: bool, callable: bool, thisGiven: bool, thisValid: bool, outOfMemory: bool,
              args: seq<Operation>, stackFull: bool, call: Operation, convert: Operation)
    | RefToJson(valid: bool, callable: bool, stringify: Operation, copied: bool)
    | RunProgram(valid: bool, run: Operation, convert: Operation)

  // ----- whether an interrupt comes on the path that is taken -----

  predicate EventHit(e: Event)
    decreases e
  {
    e.InterruptedByThread? || exists j :: 0 <= j < |e.entries| && EntryHit(e.entries[j])
  }

  /** Script is interrupted, itself or in an engine call of a host function,
      however deep. */
  predicate EventsHit(events: seq<Event>)
    decreases events
  {
    exists i :: 0 <= i < |events| && EventHit(events[i])
  }

  predicate OpHit(op: Operation)
    decreases op
  {
    EventsHit(op.events)
  }

  /** Arguments are converted up to the first that fails. */
  predicate ArgsHit(args: seq<Operation>)
    decreases args
  {
    exists i :: 0 <= i < |args| && OpHit(args[i]) && forall k :: 0 <= k < i ==> !args[k].failing
  }

  predicate AllConverted(args: seq<Operation>) {
    forall k :: 0 <= k < |args| ==> !args[k].failing
  }

  predicate EntryHit(entry: Entry)
    decreases entry
  {
    match entry
    case Eval(parse, convert) => OpHit(parse) || (!parse.failing && OpHit(convert))
    case RefGet(valid, property, convert) =>
      valid && (OpHit(property) || (!property.failing && OpHit(convert)))
    case RefGetIndex(valid, negative, property, convert) =>
      valid && !negative && (OpHit(property) || (!property.failing && OpHit(convert)))
    case RefSet(valid, value, assign) => valid && (OpHit(value) || (!value.failing && OpHit(assign)))
    case RefCall(valid, callable, thisGiven, thisValid, outOfMemory, args, stackFull, call, convert) =>
      && valid && callable && (!thisGiven || thisValid) && !(outOfMemory && |args| > 0)
      && (ArgsHit(args)
          || (AllConverted(args) && !stackFull && (OpHit(call) || (!call.failing && OpHit(convert)))))
    case RefToJson(valid, callable, stringify, _) => valid && !callable && OpHit(stringify)
    case RunProgram(valid, run, convert) => valid && (OpHit(run) || (!run.failing && OpHit(convert)))
  }

  /** An entry point succeeds when the handles it is given are usable and no step
      that it takes fails. */
  predicate Succeeds(entry: Entry) {
    match entry
    case Eval(parse, convert) => !parse.failing && !convert.failing
    case RefGet(valid, property, convert) => valid && !property.failing && !convert.failing
    case RefGetIndex(valid, negative, property, convert) =>
      valid && !negative && !property.failing && !convert.failing
    case RefSet(valid, value, assign) => valid && !value.failing && !assign.failing
    case RefCall(valid, callable, thisGiven, thisValid, outOfMemory, args, stackFull, call, convert) =>
      && valid && callable && (thisGiven ==> thisValid) && (outOfMemory ==> args == [])
      && AllConverted(args) && !stackFull && !call.failing && !convert.failing
    case RefToJson(valid, callable, stringify, copied) => valid && (callable || (!stringify.failing && copied))
    case RunProgram(valid, run, convert) => valid && !run.failing && !convert.failing
  }

  /** The state after something that is interrupted or not: only a running engine
      takes an interrupt, and only the end of the outermost run clears it. */
  function After(before: RunState, hit: bool): RunState {
    if before == Running && hit then Interrupted else before
  }

  class Engine {
    var state: RunState

    constructor ()
      ensures state == Idle
    {
      state := Idle;
    }

    /** kmpjs_interrupt */
    method Interrupt()
      modifies this
      ensures state == if old(state) == Running then Interrupted else old(state)
    {
      if state == Running {
        state := Interrupted;
      }
    }

    /** run_begin */
    method RunBegin() returns (outermost: bool)
      modifies this
      ensures outermost <==> old(state) == Idle
      ensures state == if outermost then Running else old(state)
    {
      outermost := state == Idle;
      if outermost {
        state := Running;
      }
    }

    /** run_end */
    method RunEnd(outermost: bool)
      modifies this
      ensures state == if outermost then Idle else old(state)
    {
      if outermost {
        state := Idle;
      }
    }

    /** Script runs, and may be interrupted or call back. */
    method Happens(events: seq<Event>)
      requires state != Idle
      modifies this
      ensures state == After(old(state), EventsHit(events))
      decreases events, 0
    {
      ghost var hit := false;
      for i := 0 to |events|
        invariant hit <==> exists k :: 0 <= k < i && EventHit(events[k])
        invariant state == After(old(state), hit)
      {
        match events[i] {
          case InterruptedByThread => Interrupt();
          case HostCalls(entries) => HostFunction(entries);
        }
        hit := hit || EventHit(events[i]);
      }
    }

    /** A host function calls the engine. */
    method HostFunction(entries: seq<Entry>)
      requires state != Idle
      modifies this
      ensures state == After(old(state), EventHit(HostCalls(entries)))
      decreases entries, 0
    {
      ghost var hit := false;
      for j := 0 to |entries|
        invariant hit <==> exists k :: 0 <= k < j && EntryHit(entries[k])
        invariant state == After(old(state), hit)
      {
        var rc := Call(entries[j]);
        hit := hit || EntryHit(entries[j]);
      }
    }

    /** One engine operation inside a run. */
    method Performs(op: Operation) returns (ok: bool)
      requires state != Idle
      modifies this
      ensures state == After(old(state), OpHit(op)) && ok == !op.failing
      decreases op, 1
    {
      Happens(op.events);
      ok := !op.failing;
    }

    /** finish: the result is converted, and the run ends. */
    method Finish(outermost: bool, ok: bool, convert: Operation) returns (rc: int)
      requires state != Idle
      modifies this
      ensures state == if outermost then Idle else After(old(state), ok && OpHit(convert))
      ensures rc == if ok && !convert.failing then 0 else -1
      decreases convert, 2
    {
      rc := -1;
      if ok {
        var converted := Performs(convert);
        if converted {
          rc := 0;
        }
      }
      RunEnd(outermost);
    }

    /** A property is read, or a program is run, and the result converted. */
    method Access(op: Operation, convert: Operation, ghost entry: Entry) returns (rc: int)
      requires (entry decreases to op) && (entry decreases to convert)
      modifies this
      ensures state == After(old(state), OpHit(op) || (!op.failing && OpHit(convert)))
      ensures rc == if op.failing || convert.failing then -1 else 0
      decreases entry, 0
    {
      var outermost := RunBegin();
      var ok := Performs(op);
      rc := Finish(outermost, ok, convert);
    }

    /** kmpjs_ref_set: the value is converted first. */
    method RefSet(value: Operation, assign: Operation, ghost entry: Entry) returns (rc: int)
      requires (entry decreases to value) && (entry decreases to assign)
      modifies this
      ensures state == After(old(state), OpHit(value) || (!value.failing && OpHit(assign)))
      ensures rc == if value.failing || assign.failing then -1 else 0
      decreases entry, 0
    {
      var outermost := RunBegin();
      var ok := Performs(value);
      if !ok {
        RunEnd(outermost);
        return -1;
      }
      ok := Performs(assign);
      if !ok {
        RunEnd(outermost);
        return -1;
      }
      RunEnd(outermost);
      rc := 0;
    }

    /** kmpjs_ref_call, from run_begin on: every failure leaves through `done`. */
    method RefCall(outOfMemory: bool, args: seq<Operation>, stackFull: bool, call: Operation, convert: Operation,
                   ghost entry: Entry)
      returns (rc: int)
      requires (entry decreases to call) && (entry decreases to convert)
      requires forall a :: a in args ==> (entry decreases to a)
      modifies this
      ensures state == After(old(state), !(outOfMemory && |args| > 0) && (ArgsHit(args)
                || (AllConverted(args) && !stackFull && (OpHit(call) || (!call.failing && OpHit(convert))))))
      ensures rc == 0 <==> !(outOfMemory && |args| > 0) && AllConverted(args)
                           && !stackFull && !call.failing && !convert.failing
      ensures rc == 0 || rc == -1
      decreases entry, 1
    {
      rc := -1;
      var outermost := RunBegin();
      var ok := !(outOfMemory && |args| > 0);
      if ok {
        ok := ConvertArgs(args, entry);
      }
      if ok && !stackFull {
        ok := Performs(call);
        if ok {
          ok := Performs(convert);
          if ok {
            rc := 0;
          }
        }
      }
      RunEnd(outermost);
    }

    /** The arguments of a call, up to the first that fails. */
    method ConvertArgs(args: seq<Operation>, ghost entry: Entry) returns (ok: bool)
      requires state != Idle && forall a :: a in args ==> (entry decreases to a)
      modifies this
      ensures state == After(old(state), ArgsHit(args)) && (ok <==> AllConverted(args))
      decreases entry, 0
    {
      ok := true;
      var i := 0;
      ghost var hit := false;
      while ok && i < |args|
        invariant 0 <= i <= |args| && (ok <==> forall k :: 0 <= k < i ==> !args[k].failing)
        invariant forall k :: 0 <= k < i - 1 ==> !args[k].failing
        invariant hit <==> exists k :: 0 <= k < i && OpHit(args[k])
        invariant state == After(old(state), hit)
      {
        assert args[i] in args;
        ok := Performs(args[i]);
        hit := hit || OpHit(args[i]);
        i := i + 1;
      }
      assert hit <==> ArgsHit(args);
    }

    /** kmpjs_ref_to_json, for what is no function. */
    method RefToJson(stringify: Operation, copied: bool, ghost entry: Entry) returns (rc: int)
      requires (entry decreases to stringify)
      modifies this
      ensures state == After(old(state), OpHit(stringify)) && rc == if stringify.failing || !copied then -1 else 0
      decreases entry, 0
    {
      rc := 0;
      var outermost := RunBegin();
      var ok := Performs(stringify);
      if !ok || !copied {
        rc := -1;
      }
      RunEnd(outermost);
    }

    /** Any entry point, with any outcome of any of its steps. */
    method Call(entry: Entry) returns (rc: int)
      modifies this
      ensures state == After(old(state), EntryHit(entry)) && rc == if Succeeds(entry) then 0 else -1
      ensures entry.RefCall? && (!entry.valid || !entry.callable || (entry.thisGiven && !entry.thisValid)) ==>
                rc == -1 && state == old(state)
      decreases entry, 2
    {
      rc := -1;
      match entry {
        case Eval(parse, convert) => rc := Access(parse, convert, entry);
        case RefGet(valid, property, convert) =>
          if valid {
            rc := Access(property, convert, entry);
          }
        case RefGetIndex(valid, negative, property, convert) =>
          if valid && !negative {
            rc := Access(property, convert, entry);
          }
        case RefSet(valid, value, assign) =>
          if valid {
            rc := RefSet(value, assign, entry);
          }
        case RefCall(valid, callable, thisGiven, thisValid, outOfMemory, args, stackFull, call, convert) =>
          if valid && callable && (!thisGiven || thisValid) {
            rc := RefCall(outOfMemory, args, stackFull, call, convert, entry);
          }
        case RefToJson(valid, callable, stringify, copied) =>
          if valid {
            if callable {
              rc := 0;
            } else {
              rc := RefToJson(stringify, copied, entry);
            }
          }
        case RunProgram(valid, run, convert) =>
          if valid {
            rc := Access(run, convert, entry);
          }
      }
    }
  }
}
