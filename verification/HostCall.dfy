/** Host functions called from script: js_kmp_host hands transient refs to the
    host and takes them back, on every exit and under any nesting. */
module HostCall {
  import opened MachineWords
  import opened RefTable

  /** What value_to_out meets in one argument: a plain value, an object sent as
      JSON (whose conversion may run script and so call the host again), or an
      object sent as a ref. */
  datatype Arg =
    | Plain
    | Json(script: seq<Action>, failing: bool)
    | ByRef(value: Value, grown: bool)

  /** What a host function may do while it runs.  It never closes the refs it
      was handed as arguments; it may retain them. */
  datatype Action =
    | RetainArg(index: nat)
    | Obtain(obtained: Value, roomy: bool)
    | CloseHeld(position: nat)
    | RunScript(args: seq<Arg>, body: seq<Action>, outOfMemory: bool)

  // A bound on the slots a script can free, which also bounds its nesting.
  function Weight(body: seq<Action>): nat
    decreases body
  {
    if |body| == 0 then 0 else ActionWeight(body[0]) + Weight(body[1..])
  }

  function ActionWeight(a: Action): nat
    decreases a
  {
    match a
    case RunScript(args, body, _) => 1 + 2 * ArgsWeight(args) + Weight(body)
    case _ => 1
  }

  function ArgsWeight(args: seq<Arg>): nat
    decreases args
  {
    if |args| == 0 then 0 else ArgWeight(args[0]) + ArgsWeight(args[1..])
  }

  function ArgWeight(a: Arg): nat
    decreases a
  {
    match a
    case Json(script, _) => 1 + Weight(script)
    case _ => 1
  }

  // ----- what a host call does, told by the objects that the host holds -----

  /** From holding `before`, an action of a host function that was handed the
      objects args leads to holding `after`.  No ref can be made when the table
      would have to grow and cannot: it is not roomy, or it is full. */
  ghost predicate ActionDone(a: Action, args: seq<Value>, before: seq<Value>, after: seq<Value>, full: bool)
    decreases a
  {
    match a
    case RetainArg(k) => after == if k < |args| then before + [args[k]] else before
    case Obtain(v, roomy) => after == before + [v] || (after == before && (full || !roomy))
    case CloseHeld(k) => after == if k < |before| then before[..k] + before[k + 1..] else before
    case RunScript(inner, body, outOfMemory) =>
      if outOfMemory && |inner| > 0 then after == before
      else exists done: nat, mid :: done <= |inner| && ArgsDone(inner, done, before, mid, full) &&
             (if done == |inner| then BodyDone(body, RefValues(inner), mid, after, full) else after == mid)
  }

  /** All actions, in order. */
  ghost predicate BodyDone(body: seq<Action>, args: seq<Value>, before: seq<Value>, after: seq<Value>, full: bool)
    decreases body
  {
    if |body| == 0 then after == before
    else
      var n := |body| - 1;
      exists mid :: BodyDone(body[..n], args, before, mid, full) && ActionDone(body[n], args, mid, after, full)
  }

  /** One argument is converted or fails; its conversion may run script. */
  ghost predicate ArgDone(arg: Arg, before: seq<Value>, after: seq<Value>, ok: bool, full: bool)
    decreases arg
  {
    match arg
    case Plain => ok && after == before
    case Json(script, failing) => ok == !failing && BodyDone(script, [], before, after, full)
    case ByRef(_, grown) => after == before && (!ok ==> full || !grown)
  }

  /** The arguments before number `done` are converted; the next one, if any,
      fails. */
  ghost predicate ArgsDone(args: seq<Arg>, done: nat, before: seq<Value>, after: seq<Value>, full: bool)
    requires done <= |args|
    decreases args
  {
    if |args| == 0 then after == before
    else
      var n := |args| - 1;
      if done < n then ArgsDone(args[..n], done, before, after, full)
      else exists mid :: ArgsDone(args[..n], n, before, mid, full) && ArgDone(args[n], mid, after, done == |args|, full)
  }

  /** What js_kmp_host does: without memory nothing; otherwise the arguments are
      converted, and if all of them could be, the host function runs. */
  ghost predicate CallDone(args: seq<Arg>, body: seq<Action>, outOfMemory: bool, before: seq<Value>, after: seq<Value>,
                           ok: bool, full: bool)
  {
    if outOfMemory && |args| > 0 then !ok && after == before
    else exists done: nat, mid :: CallDoneWith(args, body, before, after, ok, full, done, mid)
  }

  ghost predicate CallDoneWith(args: seq<Arg>, body: seq<Action>, before: seq<Value>, after: seq<Value>, ok: bool,
                               full: bool, done: nat, mid: seq<Value>)
  {
    && done <= |args| && ArgsDone(args, done, before, mid, full) && (ok <==> done == |args|)
    && if ok then BodyDone(body, RefValues(args), mid, after, full) else after == mid
  }

  // A table that is full stays full.

  lemma {:induction false} ActionFuller(a: Action, args: seq<Value>, before: seq<Value>, after: seq<Value>, full: bool,
                                        full': bool)
    requires ActionDone(a, args, before, after, full) && (full ==> full')
    ensures ActionDone(a, args, before, after, full')
    decreases a
  {
    if a.RunScript? && !(a.outOfMemory && |a.args| > 0) {
      var done: nat, mid :| done <= |a.args| && ArgsDone(a.args, done, before, mid, full) &&
        (if done == |a.args| then BodyDone(a.body, RefValues(a.args), mid, after, full) else after == mid);
      hide ArgsDone, BodyDone, RefValues;
      ArgsFuller(a.args, done, before, mid, full, full');
      if done == |a.args| {
        BodyFuller(a.body, RefValues(a.args), mid, after, full, full');
      }
    }
  }

  lemma {:induction false} BodyFuller(body: seq<Action>, args: seq<Value>, before: seq<Value>, after: seq<Value>,
                                      full: bool, full': bool)
    requires BodyDone(body, args, before, after, full) && (full ==> full')
    ensures BodyDone(body, args, before, after, full')
    decreases body
  {
    if |body| > 0 {
      var n := |body| - 1;
      var mid :| BodyDone(body[..n], args, before, mid, full) && ActionDone(body[n], args, mid, after, full);
      hide ActionDone;
      BodyFuller(body[..n], args, before, mid, full, full');
      ActionFuller(body[n], args, mid, after, full, full');
    }
  }

  lemma ArgFuller(arg: Arg, before: seq<Value>, after: seq<Value>, ok: bool, full: bool, full': bool)
    requires ArgDone(arg, before, after, ok, full) && (full ==> full')
    ensures ArgDone(arg, before, after, ok, full')
    decreases arg
  {
    hide BodyDone;
    if arg.Json? {
      BodyFuller(arg.script, [], before, after, full, full');
    }
  }

  lemma {:induction false} ArgsFuller(args: seq<Arg>, done: nat, before: seq<Value>, after: seq<Value>, full: bool,
                                      full': bool)
    requires done <= |args| && ArgsDone(args, done, before, after, full) && (full ==> full')
    ensures ArgsDone(args, done, before, after, full')
    decreases args
  {
    if |args| > 0 {
      var n := |args| - 1;
      if done < n {
        ArgsFuller(args[..n], done, before, after, full, full');
      } else {
        var mid :| ArgsDone(args[..n], n, before, mid, full) && ArgDone(args[n], mid, after, done == |args|, full);
        hide ArgDone;
        ArgsFuller(args[..n], n, before, mid, full, full');
        ArgFuller(args[n], mid, after, done == |args|, full, full');
      }
    }
  }

  lemma BodySnoc(body: seq<Action>, i: nat, args: seq<Value>, before: seq<Value>, mid: seq<Value>, after: seq<Value>,
                 full: bool)
    requires i < |body| && BodyDone(body[..i], args, before, mid, full) && ActionDone(body[i], args, mid, after, full)
    ensures BodyDone(body[..i + 1], args, before, after, full)
  {
    hide ActionDone;
    assert body[..i + 1][..i] == body[..i];
  }

  lemma ArgsSnoc(args: seq<Arg>, i: nat, before: seq<Value>, mid: seq<Value>, after: seq<Value>, ok: bool, full: bool)
    requires i < |args| && ArgsDone(args[..i], i, before, mid, full) && ArgDone(args[i], mid, after, ok, full)
    ensures ArgsDone(args[..i + 1], if ok then i + 1 else i, before, after, full)
  {
    hide ArgDone;
    assert args[..i + 1][..i] == args[..i];
  }

  /** Arguments after the one that failed are not looked at. */
  lemma {:induction false} ArgsStop(args: seq<Arg>, i: nat, done: nat, before: seq<Value>, after: seq<Value>,
                                    full: bool)
    requires done < i <= |args| && ArgsDone(args[..i], done, before, after, full)
    ensures ArgsDone(args, done, before, after, full)
    decreases |args| - i
  {
    if i == |args| {
      assert args[..i] == args;
    } else {
      assert args[..i + 1][..i] == args[..i];
      ArgsStop(args, i + 1, done, before, after, full);
    }
  }

  /** The table cannot grow. */
  predicate Full(slots: seq<Slot>) {
    |slots| == INT32_MAX
  }

  /** All outstanding releases: those of `rest`, and one for each ref in held. */
  ghost predicate Holds(t: RefTable, rest: multiset<int>, held: seq<int>)
    reads t
  {
    t.Valid() && t.Outstanding() == rest + multiset(held)
  }

  lemma MoreHeld(rest: multiset<int>, held: seq<int>, ref: int)
    ensures rest + multiset(held + [ref]) == rest + multiset(held) + multiset{ref}
  {
    assert multiset(held + [ref]) == multiset(held) + multiset{ref};
  }

  lemma LessHeld(held: seq<int>, k: nat)
    requires k < |held|
    ensures multiset(held) == multiset(held[..k] + held[k + 1..]) + multiset{held[k]}
  {
    assert held == held[..k] + [held[k]] + held[k + 1..];
  }

  /** ref reaches the object that it was made for. */
  ghost predicate Reaches(slots: seq<Slot>, ref: int, value: Value) {
    SlotGet(slots, ref) >= 0 && slots[SlotGet(slots, ref)].value == value
  }

  /** Ref k reaches value k. */
  ghost predicate Carries(slots: seq<Slot>, refs: seq<int>, values: seq<Value>) {
    |refs| == |values| && forall k :: 0 <= k < |refs| ==> Reaches(slots, refs[k], values[k])
  }

  /** A conversion fails for an object: as JSON, or when no ref can be made. */
  predicate MayFail(arg: Arg) {
    arg.ByRef? || (arg.Json? && arg.failing)
  }

  /** The arguments that are sent as refs. */
  function RefValues(args: seq<Arg>): seq<Value> {
    if |args| == 0 then []
    else
      var last := args[|args| - 1];
      RefValues(args[..|args| - 1]) + (if last.ByRef? then [last.value] else [])
  }

  lemma RefValuesSnoc(args: seq<Arg>, i: nat)
    requires i < |args|
    ensures RefValues(args[..i + 1]) == RefValues(args[..i]) + (if args[i].ByRef? then [args[i].value] else [])
  {
    assert args[..i + 1][..i] == args[..i];
  }

  /** What is still outstanding still reaches its object. */
  lemma StillReaches(slots: seq<Slot>, slots': seq<Slot>, ref: int, value: Value)
    requires Evolves(slots, slots') && Reaches(slots, ref, value) && SlotGet(slots', ref) >= 0
    ensures Reaches(slots', ref, value)
  {
  }

  lemma StillCarries(t: RefTable, before: seq<Slot>, rest: multiset<int>, refs: seq<int>, held: seq<int>,
                     values: seq<Value>)
    requires Evolves(before, t.slots) && Carries(before, refs, values)
    requires Holds(t, rest + multiset(refs), held) && Budget(t.slots, 0)
    ensures Carries(t.slots, refs, values)
  {
    hide Refs, SlotGet, FreeList, Evolves, Reaches;
    forall k | 0 <= k < |refs|
      ensures Reaches(t.slots, refs[k], values[k])
    {
      assert refs[k] in multiset(refs);
      OutstandingResolves(t.slots, refs[k]);
      StillReaches(before, t.slots, refs[k], values[k]);
    }
  }

  /** So do the refs that the host holds. */
  lemma StillHeld(t: RefTable, before: seq<Slot>, rest: multiset<int>, held: seq<int>, values: seq<Value>)
    requires Evolves(before, t.slots) && Carries(before, held, values)
    requires Holds(t, rest, held) && Budget(t.slots, 0)
    ensures Carries(t.slots, held, values)
  {
    hide Refs, SlotGet, FreeList, Evolves, Reaches, Carries, Budget;
    Regroup(t, rest, held, []);
    StillCarries(t, before, rest, held, [], values);
  }

  /** And the refs of the arguments. */
  lemma StillLent(t: RefTable, before: seq<Slot>, rest: multiset<int>, refs: seq<int>, held: seq<int>,
                  values: seq<Value>, n: nat)
    requires Evolves(before, t.slots) && Carries(before, refs, values)
    requires Holds(t, rest + multiset(refs), held) && Budget(t.slots, n)
    ensures Carries(t.slots, refs, values)
  {
    hide Refs, SlotGet, FreeList, Evolves, Reaches, Carries;
    StillCarries(t, before, rest, refs, held, values);
  }

  lemma CarriesRemoved(slots: seq<Slot>, refs: seq<int>, values: seq<Value>, k: nat)
    requires Carries(slots, refs, values) && k < |refs|
    ensures Carries(slots, refs[..k] + refs[k + 1..], values[..k] + values[k + 1..])
  {
    hide Reaches;
  }

  lemma CarriesSnoc(slots: seq<Slot>, refs: seq<int>, values: seq<Value>, ref: int, value: Value)
    requires Carries(slots, refs, values) && Reaches(slots, ref, value)
    ensures Carries(slots, refs + [ref], values + [value])
  {
    hide Reaches;
  }

  /** One ref held by the host or handed out is released. */
  method ReleaseOne(t: RefTable, refs: seq<int>, k: nat, ghost rest: multiset<int>, ghost n: nat)
    requires Holds(t, rest, refs) && k < |refs| && 0 < n < TWO31 && Budget(t.slots, n)
    modifies t
    ensures Holds(t, rest, refs[..k] + refs[k + 1..]) && Budget(t.slots, n - 1) && Evolves(old(t.slots), t.slots)
  {
    hide Refs, SlotGet, SmallTable, FreeList;
    LessHeld(refs, k);
    OutstandingResolves(t.slots, refs[k]);
    t.Release(refs[k]);
    CancelSum(t.Outstanding(), rest + multiset(refs[..k] + refs[k + 1..]), multiset{refs[k]});
  }

  /** One more ref for an object. */
  method ObtainOne(t: RefTable, value: Value, grown: bool, refs: seq<int>, ghost rest: multiset<int>, ghost n: nat)
    returns (refs': seq<int>, ok: bool)
    requires Holds(t, rest, refs) && n < TWO31 && Budget(t.slots, n)
    modifies t
    ensures Holds(t, rest, refs') && Budget(t.slots, n) && Evolves(old(t.slots), t.slots)
    ensures !ok ==> Full(t.slots) || !grown
    ensures if ok then |refs'| == |refs| + 1 && refs'[..|refs|] == refs && Reaches(t.slots, refs'[|refs|], value)
            else refs' == refs
  {
    hide Refs, SlotGet, SmallTable, FreeList;
    var ref := t.New(value, grown);
    if ref != 0 {
      NewReaches(t.slots, ref, value, n);
    }
    ok := ref != 0;
    refs' := refs;
    if ok {
      MoreHeld(rest, refs, ref);
      refs' := refs + [ref];
    }
  }

  lemma NewReaches(slots: seq<Slot>, ref: int, value: Value, n: nat)
    requires SmallTable(slots) && Budget(slots, n)
    requires exists i ::
               0 <= i < |slots| && ref == Handle(i, slots[i].gen) && slots[i].refcount == 1 && slots[i].value == value
    ensures Reaches(slots, ref, value)
  {
    var i: nat :| i < |slots| && ref == Handle(i, slots[i].gen) && slots[i].refcount == 1 && slots[i].value == value;
    hide Handle;
    LiveHandleResolves(slots, i);
  }

  lemma SuffixWeight(args: seq<Arg>, i: nat)
    requires i < |args|
    ensures ArgsWeight(args[i..]) == ArgWeight(args[i]) + ArgsWeight(args[i + 1..]) && ArgWeight(args[i]) >= 1
  {
    assert args[i..][1..] == args[i + 1..];
  }

  lemma SuffixBodyWeight(body: seq<Action>, i: nat)
    requires i < |body|
    ensures Weight(body[i..]) == ActionWeight(body[i]) + Weight(body[i + 1..])
  {
    assert body[i..][1..] == body[i + 1..];
  }

  lemma EvolvesReflexive(slots: seq<Slot>)
    ensures Evolves(slots, slots)
  {
  }

  lemma LowerBudget(slots: seq<Slot>, n: nat, m: nat)
    requires Budget(slots, n) && m <= n
    ensures Budget(slots, m)
  {
  }

  /** Which of the outstanding releases are called held is a matter of view. */
  lemma Regroup(t: RefTable, rest: multiset<int>, refs: seq<int>, held: seq<int>)
    ensures Holds(t, rest + multiset(refs), held) <==> Holds(t, rest + multiset(held), refs)
    ensures Holds(t, rest + multiset(refs), []) <==> Holds(t, rest, refs)
  {
    hide Refs;
    assert rest + multiset(refs) + multiset(held) == rest + multiset(held) + multiset(refs);
    assert rest + multiset(refs) + multiset([]) == rest + multiset(refs);
  }

  /** kmpjs_ref_retain on a ref that is outstanding. */
  method RetainOne(t: RefTable, ref: int, held0: seq<int>, ghost rest: multiset<int>, ghost n: nat, ghost value: Value,
                   ghost before: seq<Value>)
    returns (held: seq<int>)
    requires Holds(t, rest, held0) && ref in rest && n < TWO31 && Budget(t.slots, n)
    requires Carries(t.slots, held0, before) && Reaches(t.slots, ref, value)
    modifies t
    ensures Holds(t, rest, held) && held == held0 + [ref] && Budget(t.slots, n) && Evolves(old(t.slots), t.slots)
    ensures Carries(t.slots, held, before + [value])
  {
    hide Refs, SlotGet, SmallTable, FreeList, Reaches, Carries, Evolves;
    OutstandingResolves(t.slots, ref);
    MoreHeld(rest, held0, ref);
    ghost var slots := t.slots;
    t.Retain(ref);
    held := held0 + [ref];
    CarriesSnoc(slots, held0, before, ref, value);
    StillHeld(t, slots, rest, held, before + [value]);
  }

  /** value_to_out on one argument. */
  method ConvertArg(t: RefTable, arg: Arg, refs0: seq<int>, held0: seq<int>, ghost rest: multiset<int>, ghost n: nat,
                    ghost before: seq<Value>)
    returns (refs: seq<int>, held: seq<int>, ok: bool, ghost after: seq<Value>)
    requires Holds(t, rest + multiset(refs0), held0) && ArgWeight(arg) <= n < TWO31 && Budget(t.slots, n)
    requires Carries(t.slots, held0, before)
    modifies t
    ensures Carries(t.slots, held, after) && ArgDone(arg, before, after, ok, Full(t.slots))
    ensures Holds(t, rest + multiset(refs), held)
    ensures if ok && arg.ByRef?
            then |refs| == |refs0| + 1 && refs[..|refs0|] == refs0 && Reaches(t.slots, refs[|refs0|], arg.value)
            else refs == refs0
    ensures (!ok ==> MayFail(arg)) && (arg.Json? ==> ok == !arg.failing)
    ensures Budget(t.slots, n - ArgWeight(arg)) && Evolves(old(t.slots), t.slots)
    decreases ArgWeight(arg), 0
  {
    hide Refs, SlotGet, SmallTable, FreeList, Holds, Budget, Evolves, Reaches, Carries, BodyDone, Full;
    refs, held, ok, after := refs0, held0, true, before;
    match arg {
      case Plain =>
        EvolvesReflexive(t.slots);
        LowerBudget(t.slots, n, n - 1);
      case Json(script, failing) =>
        LowerBudget(t.slots, n, n - 1);
        assert rest + multiset(refs0) + multiset([]) == rest + multiset(refs0);
        NoneCarried(t.slots);
        held, after := RunActions(t, [], script, held0, rest + multiset(refs0), n - 1, [], before);
        ok := !failing;
      case ByRef(value, grown) =>
        ghost var slots := t.slots;
        Regroup(t, rest, refs0, held0);
        refs, ok := ObtainOne(t, value, grown, refs0, rest + multiset(held0), n);
        Regroup(t, rest, refs, held0);
        LowerBudget(t.slots, n, 0);
        StillHeld(t, slots, rest + multiset(refs), held0, before);
        LowerBudget(t.slots, n, n - 1);
    }
  }

  lemma NoneCarried(slots: seq<Slot>)
    ensures Carries(slots, [], [])
  {
  }

  /** One argument more was converted, or none. */
  lemma ArgCarries(t: RefTable, before: seq<Slot>, rest: multiset<int>, refs0: seq<int>, refs: seq<int>, held: seq<int>,
                   values: seq<Value>, arg: Arg, ok: bool)
    requires Evolves(before, t.slots) && Carries(before, refs0, values)
    requires Holds(t, rest + multiset(refs), held) && Budget(t.slots, 0)
    requires if ok && arg.ByRef?
             then |refs| == |refs0| + 1 && refs[..|refs0|] == refs0 && Reaches(t.slots, refs[|refs0|], arg.value)
             else refs == refs0
    ensures Carries(t.slots, refs, values + if ok && arg.ByRef? then [arg.value] else [])
  {
    hide Refs, SlotGet, FreeList, Evolves, Reaches, Budget, Holds, Carries;
    if ok && arg.ByRef? {
      var ref := refs[|refs0|];
      assert refs == refs0 + [ref];
      assert rest + multiset(refs) == (rest + multiset{ref}) + multiset(refs0);
      StillCarries(t, before, rest + multiset{ref}, refs0, held, values);
      CarriesSnoc(t.slots, refs0, values, ref, arg.value);
    } else {
      assert values + [] == values;
      StillCarries(t, before, rest, refs0, held, values);
    }
  }

  /** The conversion loop of js_kmp_host: transient refs for exactly the
      arguments before the first that fails, each of which reaches its object. */
  method ConvertArgs(t: RefTable, args: seq<Arg>, held0: seq<int>, ghost rest: multiset<int>, ghost n: nat,
                     ghost before: seq<Value>)
    returns (refs: seq<int>, held: seq<int>, ok: bool, ghost done: nat, ghost after: seq<Value>)
    requires Holds(t, rest, held0) && ArgsWeight(args) <= n < TWO31 && Budget(t.slots, n)
    requires Carries(t.slots, held0, before)
    modifies t
    ensures done <= |args| && Carries(t.slots, held, after) && ArgsDone(args, done, before, after, Full(t.slots))
    ensures Holds(t, rest + multiset(refs), held) && |refs| <= ArgsWeight(args)
    ensures done <= |args| && Carries(t.slots, refs, RefValues(args[..done]))
    ensures if ok then done == |args| else done < |args| && MayFail(args[done])
    ensures Budget(t.slots, n - ArgsWeight(args)) && Evolves(old(t.slots), t.slots)
    decreases ArgsWeight(args), 1
  {
    hide Refs, SlotGet, SmallTable, FreeList, Holds, Budget, Evolves, Reaches, Carries, ArgsDone, ArgDone, MayFail;
    hide RefValues, ArgWeight, Full;
    refs, held, ok, after := [], held0, true, before;
    var i := 0;
    done := 0;
    assert args[0..] == args && rest + multiset(refs) == rest;
    EvolvesReflexive(t.slots);
    NoneCarried(t.slots);
    NoArgs(args, before, Full(t.slots));
    while i < |args| && ok
      invariant done <= i <= |args| && Carries(t.slots, refs, RefValues(args[..done]))
      invariant if ok then done == i else done < i && MayFail(args[done])
      invariant 0 <= i <= |args| && |refs| + ArgsWeight(args[i..]) <= ArgsWeight(args)
      invariant Holds(t, rest + multiset(refs), held) && Carries(t.slots, held, after)
      invariant ArgsDone(args[..i], done, before, after, Full(t.slots))
      invariant Budget(t.slots, n - (ArgsWeight(args) - ArgsWeight(args[i..])))
      invariant Evolves(old(t.slots), t.slots)
    {
      SuffixWeight(args, i);
      ghost var slots, refs0, mid := t.slots, refs, after;
      refs, held, ok, after :=
        ConvertArg(t, args[i], refs, held, rest, n - (ArgsWeight(args) - ArgsWeight(args[i..])), mid);
      EvolvesTransitive(old(t.slots), slots, t.slots);
      LowerBudget(t.slots, n - (ArgsWeight(args) - ArgsWeight(args[i + 1..])), 0);
      RefValuesSnoc(args, i);
      ArgCarries(t, slots, rest, refs0, refs, held, RefValues(args[..i]), args[i], ok);
      StaysFull(t, slots, rest + multiset(refs), held);
      ArgsFuller(args[..i], i, before, mid, Full(slots), Full(t.slots));
      ArgsSnoc(args, i, before, mid, after, ok, Full(t.slots));
      assert RefValues(args[..i]) + [] == RefValues(args[..i]);
      i := i + 1;
      done := if ok then i else done;
    }
    if ok {
      assert args[..i] == args;
    } else {
      ArgsStop(args, i, done, before, after, Full(t.slots));
    }
    LowerBudget(t.slots, n - (ArgsWeight(args) - ArgsWeight(args[i..])), n - ArgsWeight(args));
  }

  lemma NoArgs(args: seq<Arg>, before: seq<Value>, full: bool)
    ensures RefValues(args[..0]) == [] && ArgsDone(args[..0], 0, before, before, full)
  {
  }

  lemma StaysFull(t: RefTable, before: seq<Slot>, rest: multiset<int>, held: seq<int>)
    requires Evolves(before, t.slots) && Holds(t, rest, held)
    ensures Full(before) ==> Full(t.slots)
  {
    hide FreeList, Refs;
  }

  /** The host function itself: it may retain its arguments, obtain and close
      refs of its own, and call back into script. */
  method RunActions(t: RefTable, refs: seq<int>, body: seq<Action>, held0: seq<int>, ghost rest: multiset<int>,
                    ghost n: nat, ghost args: seq<Value>, ghost before: seq<Value>)
    returns (held: seq<int>, ghost after: seq<Value>)
    requires Holds(t, rest + multiset(refs), held0) && Weight(body) <= n < TWO31 && Budget(t.slots, n)
    requires Carries(t.slots, refs, args) && Carries(t.slots, held0, before)
    modifies t
    ensures Holds(t, rest + multiset(refs), held)
    ensures Carries(t.slots, held, after) && BodyDone(body, args, before, after, Full(t.slots))
    ensures Budget(t.slots, n - Weight(body)) && Evolves(old(t.slots), t.slots)
    decreases Weight(body), 2
  {
    hide Refs, SlotGet, SmallTable, FreeList, Holds, Budget, Evolves, Carries, ActionDone, BodyDone;
    held, after := held0, before;
    ghost var all := rest + multiset(refs);
    var i := 0;
    assert body[0..] == body;
    EvolvesReflexive(t.slots);
    NoActions(body, args, before, Full(t.slots));
    while i < |body|
      invariant 0 <= i <= |body| && Weight(body[i..]) <= Weight(body)
      invariant Holds(t, all, held) && Carries(t.slots, refs, args) && Carries(t.slots, held, after)
      invariant BodyDone(body[..i], args, before, after, Full(t.slots))
      invariant Budget(t.slots, n - (Weight(body) - Weight(body[i..])))
      invariant Evolves(old(t.slots), t.slots)
    {
      SuffixBodyWeight(body, i);
      ghost var slots, mid := t.slots, after;
      held, after := RunAction(t, refs, body[i], held, rest, n - (Weight(body) - Weight(body[i..])), args, mid);
      EvolvesTransitive(old(t.slots), slots, t.slots);
      StillLent(t, slots, rest, refs, held, args, n - (Weight(body) - Weight(body[i + 1..])));
      StaysFull(t, slots, all, held);
      BodyFuller(body[..i], args, before, mid, Full(slots), Full(t.slots));
      BodySnoc(body, i, args, before, mid, after, Full(t.slots));
      i := i + 1;
    }
    assert body[..i] == body;
  }

  lemma NoActions(body: seq<Action>, args: seq<Value>, before: seq<Value>, full: bool)
    ensures BodyDone(body[..0], args, before, before, full)
  {
  }

  method RunAction(t: RefTable, refs: seq<int>, action: Action, held0: seq<int>, ghost rest: multiset<int>,
                   ghost n: nat, ghost args: seq<Value>, ghost before: seq<Value>)
    returns (held: seq<int>, ghost after: seq<Value>)
    requires Holds(t, rest + multiset(refs), held0) && ActionWeight(action) <= n < TWO31 && Budget(t.slots, n)
    requires Carries(t.slots, refs, args) && Carries(t.slots, held0, before)
    modifies t
    ensures Holds(t, rest + multiset(refs), held)
    ensures Carries(t.slots, held, after) && ActionDone(action, args, before, after, Full(t.slots))
    ensures Budget(t.slots, n - ActionWeight(action)) && Evolves(old(t.slots), t.slots)
    decreases ActionWeight(action), 1
  {
    hide Refs, SlotGet, SmallTable, FreeList, Holds, Budget, Evolves, Reaches, ArgsDone, BodyDone, RefValues, Full;
    held, after := held0, before;
    ghost var all, slots := rest + multiset(refs), t.slots;
    EvolvesReflexive(t.slots);
    LowerBudget(t.slots, n, n - 1);
    match action {
      case RetainArg(k) =>
        if k < |refs| {
          held := RetainOne(t, refs[k], held, all, n - 1, args[k], before);
          after := before + [args[k]];
        }
      case Obtain(value, roomy) =>
        held, after := ObtainHeld(t, value, roomy, held, all, n - 1, before);
      case CloseHeld(k) =>
        if k < |held| {
          held, after := CloseOne(t, held, k, all, n, before);
        }
      case RunScript(inner, body, outOfMemory) =>
        var ok;
        held, ok, after := JsKmpHost(t, inner, body, outOfMemory, held, all, n - 1, before);
        ScriptDone(action, args, before, after, ok, Full(t.slots));
    }
  }

  lemma ScriptDone(a: Action, args: seq<Value>, before: seq<Value>, after: seq<Value>, ok: bool, full: bool)
    requires a.RunScript? && CallDone(a.args, a.body, a.outOfMemory, before, after, ok, full)
    ensures ActionDone(a, args, before, after, full)
  {
    hide ArgsDone, BodyDone, RefValues;
    if !(a.outOfMemory && |a.args| > 0) {
      var done: nat, mid :| CallDoneWith(a.args, a.body, before, after, ok, full, done, mid);
      assert done <= |a.args| && ArgsDone(a.args, done, before, mid, full);
    }
  }

  /** A ref of its own for the host, if there is room. */
  method ObtainHeld(t: RefTable, value: Value, grown: bool, held0: seq<int>, ghost rest: multiset<int>, ghost n: nat,
                    ghost before: seq<Value>)
    returns (held: seq<int>, ghost after: seq<Value>)
    requires Holds(t, rest, held0) && n < TWO31 && Budget(t.slots, n) && Carries(t.slots, held0, before)
    modifies t
    ensures Holds(t, rest, held) && Budget(t.slots, n) && Evolves(old(t.slots), t.slots)
    ensures Carries(t.slots, held, after)
    ensures after == before + [value] || (after == before && (Full(t.slots) || !grown))
  {
    hide Refs, SlotGet, SmallTable, FreeList, Budget, Evolves, Reaches, Carries, Full;
    ghost var slots := t.slots;
    var ok;
    held, ok := ObtainOne(t, value, grown, held0, rest, n);
    LowerBudget(t.slots, n, 0);
    after := before;
    if ok {
      ghost var ref := held[|held0|];
      assert held == held0 + [ref];
      MoreHeld(rest, held0, ref);
      assert rest + multiset(held) == rest + multiset{ref} + multiset(held0);
      StillHeld(t, slots, rest + multiset{ref}, held0, before);
      CarriesSnoc(t.slots, held0, before, ref, value);
      after := before + [value];
    } else {
      StillHeld(t, slots, rest, held, before);
    }
  }

  /** A held ref is closed. */
  method CloseOne(t: RefTable, held0: seq<int>, k: nat, ghost rest: multiset<int>, ghost n: nat,
                  ghost before: seq<Value>)
    returns (held: seq<int>, ghost after: seq<Value>)
    requires Holds(t, rest, held0) && k < |held0| && 0 < n < TWO31 && Budget(t.slots, n)
    requires Carries(t.slots, held0, before)
    modifies t
    ensures Holds(t, rest, held) && Budget(t.slots, n - 1) && Evolves(old(t.slots), t.slots)
    ensures Carries(t.slots, held, after) && |before| == |held0| && after == before[..k] + before[k + 1..]
  {
    hide Refs, SlotGet, SmallTable, FreeList, Budget, Evolves, Reaches, Holds;
    ghost var slots := t.slots;
    ReleaseOne(t, held0, k, rest, n);
    held, after := held0[..k] + held0[k + 1..], before[..k] + before[k + 1..];
    LowerBudget(t.slots, n - 1, 0);
    CarriesRemoved(slots, held0, before, k);
    StillHeld(t, slots, rest, held, after);
  }

  /** The release loop of js_kmp_host. */
  method ReleaseArgs(t: RefTable, refs: seq<int>, ghost rest: multiset<int>, ghost n: nat)
    requires Holds(t, rest, refs) && |refs| <= n < TWO31 && Budget(t.slots, n)
    modifies t
    ensures Holds(t, rest, []) && Budget(t.slots, n - |refs|) && Evolves(old(t.slots), t.slots)
  {
    hide Refs, SlotGet, SmallTable, FreeList, Holds, Budget, Evolves;
    var i := 0;
    assert refs[0..] == refs;
    EvolvesReflexive(t.slots);
    while i < |refs|
      invariant 0 <= i <= |refs| && Holds(t, rest, refs[i..]) && Budget(t.slots, n - i)
      invariant Evolves(old(t.slots), t.slots)
    {
      ghost var before := t.slots;
      ReleaseOne(t, refs[i..], 0, rest, n - i);
      assert refs[i..][..0] + refs[i..][0 + 1..] == refs[i + 1..];
      EvolvesTransitive(old(t.slots), before, t.slots);
      i := i + 1;
    }
    assert refs[i..] == [];
  }

  /** js_kmp_host: whatever happens, everything but the refs that the host holds
      itself is outstanding exactly as before; and the host function runs exactly
      when all its arguments could be converted. */
  method JsKmpHost(t: RefTable, args: seq<Arg>, body: seq<Action>, outOfMemory: bool, held0: seq<int>,
                   ghost rest: multiset<int>, ghost n: nat, ghost before: seq<Value>)
    returns (held: seq<int>, ok: bool, ghost after: seq<Value>)
    requires Holds(t, rest, held0) && 2 * ArgsWeight(args) + Weight(body) <= n < TWO31 && Budget(t.slots, n)
    requires Carries(t.slots, held0, before)
    modifies t
    ensures Holds(t, rest, held) && Carries(t.slots, held, after)
    ensures CallDone(args, body, outOfMemory, before, after, ok, Full(t.slots))
    ensures Budget(t.slots, n - (2 * ArgsWeight(args) + Weight(body))) && Evolves(old(t.slots), t.slots)
    decreases 2 * ArgsWeight(args) + Weight(body), 3
  {
    hide Refs, SlotGet, SmallTable, FreeList, Holds, Budget, Evolves, Carries, RefValues, MayFail;
    hide ArgsDone, BodyDone, CallDoneWith, Full;
    ghost var final := n - (2 * ArgsWeight(args) + Weight(body));
    EvolvesReflexive(t.slots);
    if outOfMemory && |args| > 0 {
      LowerBudget(t.slots, n, final);
      return held0, false, before;
    }
    var refs;
    ghost var done, mid;
    refs, held, ok, done, mid := ConvertArgs(t, args, held0, rest, n, before);
    after := mid;
    ghost var left := n - ArgsWeight(args);
    ghost var converted := t.slots;
    if ok {
      assert args[..done] == args;
      held, after := RunActions(t, refs, body, held, rest, left, RefValues(args), mid);
      EvolvesTransitive(old(t.slots), converted, t.slots);
      StaysFull(t, converted, rest + multiset(refs), held);
      ArgsFuller(args, done, before, mid, Full(converted), Full(t.slots));
      left := left - Weight(body);
    }
    Regroup(t, rest, refs, held);
    ghost var slots := t.slots;
    ReleaseArgs(t, refs, rest + multiset(held), left);
    EvolvesTransitive(old(t.slots), slots, t.slots);
    Regroup(t, rest, held, []);
    LowerBudget(t.slots, left - |refs|, final);
    LowerBudget(t.slots, final, 0);
    StillHeld(t, slots, rest, held, after);
    StaysFull(t, slots, rest, held);
    ArgsFuller(args, done, before, mid, Full(slots), Full(t.slots));
    if ok {
      BodyFuller(body, RefValues(args), mid, after, Full(slots), Full(t.slots));
    }
    CallIntro(args, body, before, after, ok, Full(t.slots), done, mid);
  }

  lemma CallIntro(args: seq<Arg>, body: seq<Action>, before: seq<Value>, after: seq<Value>, ok: bool, full: bool,
                  done: nat, mid: seq<Value>)
    requires done <= |args| && ArgsDone(args, done, before, mid, full) && (ok <==> done == |args|)
    requires if ok then BodyDone(body, RefValues(args), mid, after, full) else after == mid
    ensures exists done: nat, mid :: CallDoneWith(args, body, before, after, ok, full, done, mid)
  {
    hide ArgsDone, BodyDone, RefValues;
    assert CallDoneWith(args, body, before, after, ok, full, done, mid);
  }

  /** Why the host must not close the refs it was handed: after retaining one
      and closing the original, the release at the end of the call takes the
      copy that is still held. */
  method ClosedArgumentLosesCopy(t: RefTable, v: Value, grown: bool) returns (copy: int)
    requires t.Valid() && Budget(t.slots, 2)
    modifies t
    ensures t.Valid()
    ensures copy != 0 ==> SlotGet(t.slots, copy) < 0 && t.Outstanding() == old(t.Outstanding())
  {
    hide Refs, SlotGet, SmallTable, FreeList, Evolves;
    copy := t.New(v, grown);
    if copy != 0 {
      OutstandingResolves(t.slots, copy);
      t.Retain(copy);
      OutstandingResolves(t.slots, copy);
      t.Release(copy);
      CancelSum(t.Outstanding(), old(t.Outstanding()) + multiset{copy}, multiset{copy});
      OutstandingResolves(t.slots, copy);
      t.Release(copy);
      CancelSum(t.Outstanding(), old(t.Outstanding()), multiset{copy});
    }
  }
}
