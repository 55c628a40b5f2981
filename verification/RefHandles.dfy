/** JsRef on top of the ref table: who owes the release of a native reference.
    Handles made by decode or retain owe one until they are closed; those that a
    host function receives as arguments owe none and die with the call.  A host
    that closes one of those takes a release that is due elsewhere: the accounts
    keep book of the releases that were taken in this way. */
module RefHandles {
  import opened MachineWords
  import opened RefTable

  /** A handle as the accounting sees it. */
  datatype Account = Account(id: int, owing: bool)

  /** The releases that handles still owe. */
  ghost function Owed(accounts: seq<Account>): multiset<int> {
    if |accounts| == 0 then multiset{}
    else
      var last := accounts[|accounts| - 1];
      Owed(accounts[..|accounts| - 1]) + (if last.owing then multiset{last.id} else multiset{})
  }

  lemma OwedSnoc(accounts: seq<Account>, a: Account)
    ensures Owed(accounts + [a]) == Owed(accounts) + (if a.owing then multiset{a.id} else multiset{})
  {
    assert (accounts + [a])[..|accounts|] == accounts;
  }

  lemma {:induction false} Settle(accounts: seq<Account>, k: nat)
    requires k < |accounts| && accounts[k].owing
    ensures Owed(accounts[k := Account(accounts[k].id, false)]) + multiset{accounts[k].id} == Owed(accounts)
    decreases |accounts|
  {
    hide Owed;
    var n := |accounts| - 1;
    var front, last := accounts[..n], accounts[n];
    OwedSnoc(front, last);
    assert accounts == front + [last];
    if k < n {
      var settled := front[k := Account(accounts[k].id, false)];
      Settle(front, k);
      OwedSnoc(settled, last);
      assert accounts[k := Account(accounts[k].id, false)] == settled + [last];
    } else {
      OwedSnoc(front, Account(last.id, false));
      assert accounts[k := Account(last.id, false)] == front + [Account(last.id, false)];
    }
  }

  lemma {:induction false} OwedContains(accounts: seq<Account>, k: nat)
    requires k < |accounts| && accounts[k].owing
    ensures accounts[k].id in Owed(accounts)
  {
    Settle(accounts, k);
  }

  /** Closing every handle leaves no debt. */
  lemma {:induction false} NothingOwed(accounts: seq<Account>)
    requires forall k :: 0 <= k < |accounts| ==> !accounts[k].owing
    ensures Owed(accounts) == multiset{}
  {
    if |accounts| > 0 {
      NothingOwed(accounts[..|accounts| - 1]);
    }
  }

  lemma SmallerBudgets(slots: seq<Slot>)
    ensures forall n :: 0 < n < TWO31 && Budget(slots, n) ==> Budget(slots, n - 1)
  {
  }

  /** A reference as the native side numbers it: a signed 64-bit number. */
  predicate InRange(id: int) {
    0 - TWO63 <= id < TWO63
  }

  lemma OutstandingInRange(slots: seq<Slot>, id: int)
    requires SmallTable(slots) && id in Refs(slots)
    ensures InRange(id)
  {
    var i := OutstandingSlot(slots, id);
    HandleInRange(i, slots[i].gen);
  }

  lemma HandleInRange(i: nat, gen: nat)
    requires gen < TWO32
    ensures InRange(Handle(i, gen))
  {
  }

  /** What resolves is what is outstanding. */
  lemma ResolvesIffOutstanding(slots: seq<Slot>, id: int)
    requires SmallTable(slots) && Budget(slots, 0) && InRange(id)
    ensures SlotGet(slots, id) >= 0 <==> id in Refs(slots)
  {
    hide SlotGet, Refs;
    ResolvedIsOutstanding(slots, id);
    if id in Refs(slots) {
      OutstandingResolves(slots, id);
    }
  }

  // ----- releases: outstanding and taken ones are the lent and the owed ones -----

  /** What stays taken when a release that is due is made: if nothing is
      outstanding any more, it was this one that had been taken. */
  ghost function StillTaken(taken: multiset<int>, outstanding: multiset<int>, id: int): multiset<int> {
    if id in outstanding then taken else taken - multiset{id}
  }

  lemma NothingTaken(taken: multiset<int>, outstanding: multiset<int>, id: int)
    ensures taken == multiset{} ==> StillTaken(taken, outstanding, id) == multiset{}
  {
  }

  /** Every release that is due, lent or owed, is outstanding or was taken. */
  ghost predicate Books(outstanding: multiset<int>, taken: multiset<int>, lent: multiset<int>, owed: multiset<int>) {
    outstanding + taken == lent + owed
  }

  lemma GainOne(o: multiset<int>, taken: multiset<int>, lent: multiset<int>, owed: multiset<int>, id: int)
    requires Books(o, taken, lent, owed)
    ensures Books(o + multiset{id}, taken, lent + multiset{id}, owed)
    ensures Books(o + multiset{id}, taken, lent, owed + multiset{id})
    ensures Books(o, taken + multiset{id}, lent, owed + multiset{id})
  {
    var h := multiset{id};
    assert (o + h) + taken == (o + taken) + h == o + (taken + h);
    assert (lent + h) + owed == (lent + owed) + h == lent + (owed + h);
  }

  lemma PayOwed(o: multiset<int>, taken: multiset<int>, lent: multiset<int>, owed: multiset<int>, id: int)
    requires Books(o, taken, lent, owed + multiset{id})
    ensures Books(o - multiset{id}, StillTaken(taken, o, id), lent, owed)
  {
    var h := multiset{id};
    assert lent + (owed + h) == (lent + owed) + h;
    assert ((lent + owed) + h)[id] > 0;
    if id in o {
      assert ((o - h) + taken) + h == ((o - h) + h) + taken && (o - h) + h == o;
      CancelSum((o - h) + taken, lent + owed, h);
    } else {
      assert (o + (taken - h)) + h == o + ((taken - h) + h) && (taken - h) + h == taken && o - h == o;
      CancelSum(o + (taken - h), lent + owed, h);
    }
  }

  lemma PayLent(o: multiset<int>, taken: multiset<int>, lent: multiset<int>, owed: multiset<int>, id: int)
    requires Books(o, taken, lent, owed) && id in lent
    ensures Books(o - multiset{id}, StillTaken(taken, o, id), lent - multiset{id}, owed)
  {
    var rest := lent - multiset{id};
    assert rest + multiset{id} == lent;
    assert lent + owed == owed + lent;
    PayOwed(o, taken, owed, rest, id);
    assert owed + rest == rest + owed;
  }

  /** What is taken after the release of an argument that was not due. */
  ghost function MoreTaken(taken: multiset<int>, outstanding: multiset<int>, id: int): multiset<int> {
    if id in outstanding then taken + multiset{id} else taken
  }

  lemma TakeOne(o: multiset<int>, taken: multiset<int>, lent: multiset<int>, owed: multiset<int>, id: int)
    requires Books(o, taken, lent, owed)
    ensures Books(o - multiset{id}, MoreTaken(taken, o, id), lent, owed)
  {
    if id in o {
      assert (o - multiset{id}) + (taken + multiset{id}) == ((o - multiset{id}) + multiset{id}) + taken;
      assert (o - multiset{id}) + multiset{id} == o;
    } else {
      assert o - multiset{id} == o;
    }
  }

  /** The books after the release that comes with closing handle k. */
  lemma CloseBooks(o: multiset<int>, taken: multiset<int>, lent: multiset<int>, accounts: seq<Account>, k: nat)
    requires k < |accounts| && Books(o, taken, lent, Owed(accounts))
    ensures var a := accounts[k];
            Books(o - multiset{a.id}, if a.owing then StillTaken(taken, o, a.id) else MoreTaken(taken, o, a.id), lent,
                  Owed(accounts[k := Account(a.id, false)]))
  {
    hide Owed, Books, StillTaken, MoreTaken;
    var a := accounts[k];
    if a.owing {
      Settle(accounts, k);
      PayOwed(o, taken, lent, Owed(accounts[k := Account(a.id, false)]), a.id);
    } else {
      assert accounts[k := Account(a.id, false)] == accounts;
      TakeOne(o, taken, lent, Owed(accounts), a.id);
    }
  }

  lemma DueIn(o: multiset<int>, taken: multiset<int>, lent: multiset<int>, owed: multiset<int>, id: int)
    requires Books(o, taken, lent, owed)
    ensures id in o <==> taken[id] < (lent + owed)[id]
  {
    assert (lent + owed)[id] == (o + taken)[id] == o[id] + taken[id];
  }

  lemma NoSum(a: multiset<int>, c: multiset<int>)
    ensures a + c == multiset{} ==> a == c == multiset{}
  {
    if a + c == multiset{} {
      assert a <= a + c && c <= a + c;
    }
  }

  /** The arguments from i on are lent, besides the rest. */
  ghost predicate LentFrom(lent: multiset<int>, rest: multiset<int>, ids: seq<int>, i: nat) {
    i <= |ids| && lent == rest + multiset(ids[i..])
  }

  lemma LentAll(lent: multiset<int>, rest: multiset<int>, ids: seq<int>)
    ensures LentFrom(lent, rest, ids, 0) <==> lent == rest + multiset(ids)
    ensures LentFrom(lent, rest, ids, |ids|) <==> lent == rest
  {
    assert ids[0..] == ids && ids[|ids|..] == [];
    assert rest + multiset([]) == rest;
  }

  lemma LentRest(lent: multiset<int>, rest: multiset<int>, ids: seq<int>, i: nat)
    requires i < |ids| && LentFrom(lent, rest, ids, i)
    ensures LentFrom(lent - multiset{ids[i]}, rest, ids, i + 1) && ids[i] in lent
    ensures rest <= lent - multiset{ids[i]} <= lent
  {
    assert ids[i..] == [ids[i]] + ids[i + 1..];
    assert lent - multiset{ids[i]} == rest + multiset(ids[i + 1..]);
  }

  /** What a host function may do with handles while it runs; script that it
      calls may call a host function in turn, with objects as arguments. */
  datatype HostStep =
    | RetainArg(index: nat)
    | ObtainHandle(obtained: Value, roomy: bool)
    | CloseHandle(index: nat)
    | CloseArg(index: nat)
    | CallScript(values: seq<Value>, grown: bool, steps: seq<HostStep>)

  // A bound on the slots that the steps can free.
  function StepWeight(step: HostStep): nat
    decreases step
  {
    match step
    case CallScript(values, _, steps) => 1 + |values| + StepsWeight(steps)
    case _ => 1
  }

  function StepsWeight(steps: seq<HostStep>): nat
    decreases steps
  {
    if |steps| == 0 then 0 else StepWeight(steps[0]) + StepsWeight(steps[1..])
  }

  /** Whether some argument of a host call is closed by its host. */
  predicate ClosesArg(step: HostStep)
    decreases step
  {
    match step
    case CloseArg(_) => true
    case CallScript(_, _, steps) => ClosesArgs(steps)
    case _ => false
  }

  predicate ClosesArgs(steps: seq<HostStep>)
    decreases steps
  {
    |steps| > 0 && (ClosesArg(steps[0]) || ClosesArgs(steps[1..]))
  }

  lemma SuffixCloses(steps: seq<HostStep>, i: nat)
    requires i < |steps| && !ClosesArgs(steps[i..])
    ensures !ClosesArg(steps[i]) && !ClosesArgs(steps[i + 1..])
  {
    assert steps[i..][1..] == steps[i + 1..];
  }

  lemma SuffixWeight(steps: seq<HostStep>, i: nat)
    requires i < |steps|
    ensures StepsWeight(steps[i..]) == StepWeight(steps[i]) + StepsWeight(steps[i + 1..])
  {
    assert steps[i..][1..] == steps[i + 1..];
  }

  lemma EvolvesReflexive(slots: seq<Slot>)
    ensures Evolves(slots, slots)
  {
  }

  lemma LowerBudget(slots: seq<Slot>, n: nat, m: nat)
    requires Budget(slots, n) && m <= n
    ensures Budget(slots, m)
  {
  }

  // ----- what a host function does, told by the handles in the order made -----

  /** A handle as its holders see it. */
  datatype View = View(id: int, closed: bool)

  function ClosedAt(w: seq<View>, p: nat): (w': seq<View>)
    ensures |w'| == |w|
  {
    if p < |w| then w[p := View(w[p].id, true)] else w
  }

  function ClosedAll(w: seq<View>, ps: seq<nat>): (w': seq<View>)
    ensures |w'| == |w|
  {
    if |ps| == 0 then w else ClosedAt(ClosedAll(w, ps[..|ps| - 1]), ps[|ps| - 1])
  }

  function Opened(ids: seq<int>): (w: seq<View>)
    ensures |w| == |ids|
  {
    seq(|ids|, k requires 0 <= k < |ids| => View(ids[k], false))
  }

  function Numbers(first: nat, n: nat): (ps: seq<nat>)
    ensures |ps| == n
  {
    seq(n, k => first + k)
  }

  /** A step of a host function that knows the arguments args and has made the
      handles own, all of them given by their numbers, leads from handles w to
      handles w'.  No handle can be made when the table has no room. */
  ghost predicate StepDone(step: HostStep, args: seq<nat>, own: seq<nat>, w: seq<View>, own': seq<nat>, w': seq<View>,
                           full: bool)
    decreases step
  {
    match step
    case RetainArg(k) =>
      if k < |args| && args[k] < |w| && !w[args[k]].closed
      then own' == own + [|w|] && w' == w + [View(w[args[k]].id, false)]
      else own' == own && w' == w
    case ObtainHandle(_, roomy) =>
      || (own' == own && w' == w && (full || !roomy))
      || (own' == own + [|w|] && |w'| == |w| + 1 && w'[..|w|] == w && !w'[|w|].closed)
    case CloseHandle(k) => own' == own && w' == if k < |own| then ClosedAt(w, own[k]) else w
    case CloseArg(k) => own' == own && w' == if k < |args| then ClosedAt(w, args[k]) else w
    case CallScript(values, grown, steps) =>
      || (own' == own && w' == w && |values| > 0 && (full || !grown))
      || exists ids: seq<int>, v: seq<View> ::
           && |ids| == |values|
           && StepsDone(steps, args + Numbers(|w|, |ids|), own, w + Opened(ids), own', v, full)
           && w' == ClosedAll(v, Numbers(|w|, |ids|))
  }

  /** All steps, in order. */
  ghost predicate StepsDone(steps: seq<HostStep>, args: seq<nat>, own: seq<nat>, w: seq<View>, own': seq<nat>,
                            w': seq<View>, full: bool)
    decreases steps
  {
    if |steps| == 0 then own' == own && w' == w
    else
      var n := |steps| - 1;
      exists mid, v ::
        StepsDone(steps[..n], args, own, w, mid, v, full) && StepDone(steps[n], args, mid, v, own', w', full)
  }

  /** onHostCall: the arguments get handles of their own, the host function
      runs, and those handles are closed after it. */
  ghost predicate CallDone(ids: seq<int>, steps: seq<HostStep>, args: seq<nat>, own: seq<nat>, w: seq<View>,
                           own': seq<nat>, w': seq<View>, full: bool)
  {
    exists v :: CallDoneBy(ids, steps, args, own, w, own', w', full, v)
  }

  ghost predicate CallDoneBy(ids: seq<int>, steps: seq<HostStep>, args: seq<nat>, own: seq<nat>, w: seq<View>,
                             own': seq<nat>, w': seq<View>, full: bool, v: seq<View>)
  {
    && StepsDone(steps, args + Numbers(|w|, |ids|), own, w + Opened(ids), own', v, full)
    && w' == ClosedAll(v, Numbers(|w|, |ids|))
  }

  lemma {:induction false} StepFuller(step: HostStep, args: seq<nat>, own: seq<nat>, w: seq<View>, own': seq<nat>,
                                      w': seq<View>, full: bool, full': bool)
    requires StepDone(step, args, own, w, own', w', full) && (full ==> full')
    ensures StepDone(step, args, own, w, own', w', full')
    decreases step
  {
    if step.CallScript? && !(own' == own && w' == w && |step.values| > 0 && (full || !step.grown)) {
      hide StepsDone, ClosedAll, Numbers, Opened;
      var ids: seq<int>, v: seq<View> :|
        && |ids| == |step.values|
        && StepsDone(step.steps, args + Numbers(|w|, |ids|), own, w + Opened(ids), own', v, full)
        && w' == ClosedAll(v, Numbers(|w|, |ids|));
      StepsFuller(step.steps, args + Numbers(|w|, |ids|), own, w + Opened(ids), own', v, full, full');
    }
  }

  lemma {:induction false} StepsFuller(steps: seq<HostStep>, args: seq<nat>, own: seq<nat>, w: seq<View>,
                                       own': seq<nat>, w': seq<View>, full: bool, full': bool)
    requires StepsDone(steps, args, own, w, own', w', full) && (full ==> full')
    ensures StepsDone(steps, args, own, w, own', w', full')
    decreases steps
  {
    if |steps| > 0 {
      var n := |steps| - 1;
      var mid, v :|
        StepsDone(steps[..n], args, own, w, mid, v, full) && StepDone(steps[n], args, mid, v, own', w', full);
      hide StepDone;
      StepsFuller(steps[..n], args, own, w, mid, v, full, full');
      StepFuller(steps[n], args, mid, v, own', w', full, full');
    }
  }

  lemma StepsSnoc(steps: seq<HostStep>, i: nat, args: seq<nat>, own: seq<nat>, w: seq<View>, mid: seq<nat>,
                  v: seq<View>, own': seq<nat>, w': seq<View>, full: bool)
    requires i < |steps| && StepsDone(steps[..i], args, own, w, mid, v, full)
    requires StepDone(steps[i], args, mid, v, own', w', full)
    ensures StepsDone(steps[..i + 1], args, own, w, own', w', full)
  {
    hide StepDone;
    assert steps[..i + 1][..i] == steps[..i];
  }

  lemma NoSteps(steps: seq<HostStep>, args: seq<nat>, own: seq<nat>, w: seq<View>, full: bool)
    ensures StepsDone(steps[..0], args, own, w, own, w, full)
  {
  }

  lemma ScriptDone(step: HostStep, ids: seq<int>, args: seq<nat>, own: seq<nat>, w: seq<View>, own': seq<nat>,
                   w': seq<View>, full: bool)
    requires step.CallScript? && |ids| == |step.values|
    requires CallDone(ids, step.steps, args, own, w, own', w', full)
    ensures StepDone(step, args, own, w, own', w', full)
  {
    hide StepsDone, ClosedAll, Numbers, Opened;
    var v :| CallDoneBy(ids, step.steps, args, own, w, own', w', full, v);
  }

  lemma ScriptSkipped(step: HostStep, args: seq<nat>, own: seq<nat>, w: seq<View>, full: bool)
    requires step.CallScript? && |step.values| > 0 && (full || !step.grown)
    ensures StepDone(step, args, own, w, own, w, full)
  {
  }

  lemma RetainDone(step: HostStep, args: seq<nat>, own: seq<nat>, w: seq<View>, full: bool)
    requires step.RetainArg?
    ensures if step.index < |args| && args[step.index] < |w| && !w[args[step.index]].closed
            then StepDone(step, args, own, w, own + [|w|], w + [View(w[args[step.index]].id, false)], full)
            else StepDone(step, args, own, w, own, w, full)
  {
  }

  lemma ObtainDone(step: HostStep, args: seq<nat>, own: seq<nat>, w: seq<View>, id: int, ok: bool, full: bool)
    requires step.ObtainHandle? && (ok || full || !step.roomy)
    ensures if ok then StepDone(step, args, own, w, own + [|w|], w + [View(id, false)], full)
            else StepDone(step, args, own, w, own, w, full)
  {
    assert (w + [View(id, false)])[..|w|] == w;
  }

  lemma OpenedSnoc(w: seq<View>, ids: seq<int>, i: nat)
    requires i < |ids|
    ensures w + Opened(ids[..i + 1]) == (w + Opened(ids[..i])) + [View(ids[i], false)]
    ensures Numbers(|w|, i + 1) == Numbers(|w|, i) + [|w| + i]
  {
  }

  lemma ClosedSnoc(w: seq<View>, ps: seq<nat>, i: nat)
    requires i < |ps|
    ensures ClosedAll(w, ps[..i + 1]) == ClosedAt(ClosedAll(w, ps[..i]), ps[i])
  {
    assert ps[..i + 1][..i] == ps[..i];
  }

  predicate Full(slots: seq<Slot>) {
    |slots| == INT32_MAX
  }

  lemma StaysFull(slots: seq<Slot>, slots': seq<Slot>)
    requires Evolves(slots, slots') && |slots'| <= INT32_MAX
    ensures Full(slots) ==> Full(slots')
  {
  }

  class JsRef {
    const engine: JsEngine
    const id: int
    ghost const transient: bool
    var closed: bool

    constructor (engine: JsEngine, id: int, ghost transient: bool)
      ensures this.engine == engine && this.id == id && this.transient == transient && !closed
    {
      this.engine, this.id, this.transient, closed := engine, id, transient, false;
    }
  }

  ghost function AccountsOf(handles: seq<JsRef>): (a: seq<Account>)
    reads handles
    ensures |a| == |handles|
  {
    seq(|handles|, k requires 0 <= k < |handles| reads handles =>
      Account(handles[k].id, !handles[k].closed && !handles[k].transient))
  }

  ghost function ViewsOf(handles: seq<JsRef>): (w: seq<View>)
    reads handles
    ensures |w| == |handles|
  {
    seq(|handles|, k requires 0 <= k < |handles| reads handles => View(handles[k].id, handles[k].closed))
  }

  /** hs are the elements of all with the numbers ps. */
  ghost predicate PlacedIn(all: seq<JsRef>, hs: seq<JsRef>, ps: seq<nat>) {
    |hs| == |ps| && forall k :: 0 <= k < |hs| ==> ps[k] < |all| && all[ps[k]] == hs[k]
  }

  class JsEngine {
    const native: RefTable
    var closed: bool
    ghost var handles: seq<JsRef>
    // releases that no handle owes: those of the arguments of running host calls
    ghost var lent: multiset<int>
    // releases that are due but were already made by closing an argument
    ghost var taken: multiset<int>

    ghost function Accounts(): (a: seq<Account>)
      reads this`handles, handles
      ensures |a| == |handles|
    {
      AccountsOf(handles)
    }

    ghost function Views(): (w: seq<View>)
      reads this`handles, handles
      ensures |w| == |handles|
    {
      ViewsOf(handles)
    }

    /** hs are the handles with these numbers. */
    ghost predicate Placed(hs: seq<JsRef>, ps: seq<nat>)
      reads this`handles
    {
      PlacedIn(handles, hs, ps)
    }

    /** The releases that are due. */
    ghost function Due(): multiset<int>
      reads this`handles, this`lent, handles
    {
      lent + Owed(Accounts())
    }

    /** The handles of arguments whose call is still running. */
    ghost function OpenTransients(): set<JsRef>
      reads this`handles, handles
    {
      set h | h in handles && h.transient && !h.closed
    }

    ghost predicate Registered()
      reads this`handles
    {
      && (forall i, j :: 0 <= i < j < |handles| ==> handles[i] != handles[j])
      && (forall h :: h in handles ==> h.engine == this && InRange(h.id))
    }

    /** Outstanding native releases and those that were taken are together those
        lent to running host calls and those owed by open handles. */
    ghost predicate Balanced()
      reads this, native, handles
    {
      && native.Valid() && Books(native.Outstanding(), taken, lent, Owed(Accounts()))
      && Lends(lent)
    }

    /** The open handles of arguments are among what is lent. */
    ghost predicate Lends(ids: multiset<int>)
      reads this`handles, handles
    {
      && (forall id :: id in ids ==> InRange(id))
      && (forall h :: h in handles && h.transient && !h.closed ==> h.id in ids)
    }

    ghost predicate Valid()
      reads this, native, handles
    {
      Registered() && (!closed ==> Balanced())
    }

    constructor (table: RefTable)
      requires table.Valid() && table.Outstanding() == multiset{}
      ensures Valid() && native == table && !closed && handles == [] && lent == taken == multiset{}
    {
      native, closed, handles, lent, taken := table, false, [], multiset{}, multiset{};
    }

    lemma LendsRest(part: multiset<int>, rest: multiset<int>)
      requires Valid() && !closed && Lends(rest) && rest <= part <= lent
      ensures Lends(part)
    {
    }

    lemma AccountAt(k: nat)
      requires k < |handles|
      ensures Accounts()[k] == Account(handles[k].id, !handles[k].closed && !handles[k].transient)
    {
    }

    lemma NotOpen(h: JsRef)
      requires h.closed || !h.transient
      ensures OpenTransients() == OpenTransients() - {h} && h !in OpenTransients()
    {
    }

    lemma NamesInRange(h: JsRef)
      requires Registered() && h in handles
      ensures InRange(h.id)
    {
    }

    lemma LentInRange(id: int)
      requires Lends(lent) && id in lent
      ensures InRange(id)
    {
    }

    /** Fewer arguments are open, and the same is lent. */
    twostate lemma LendsStill()
      requires old(Valid()) && !old(closed) && OpenTransients() <= old(OpenTransients())
      ensures Lends(old(lent))
    {
      forall h | h in handles && h.transient && !h.closed
        ensures h.id in old(lent)
      {
        assert h in OpenTransients();
      }
    }

    /** A release of what an open handle names is due. */
    lemma OpenHandle(h: JsRef)
      requires Valid() && !closed && h in handles && !h.closed
      ensures h.id in Due()
    {
      hide Refs;
      if !h.transient {
        var k :| 0 <= k < |handles| && handles[k] == h;
        OwedContains(Accounts(), k);
      }
    }

    /** isValid: a usable handle reaches its slot exactly when fewer releases of
        it were taken than are due, while generations stay below 2^31. */
    method IsValid(h: JsRef) returns (usable: bool)
      requires Valid() && h in handles && Budget(native.slots, 0)
      ensures usable <==> !h.closed && !closed
      ensures usable ==> h.id in Due() && (SlotGet(native.slots, h.id) >= 0 <==> taken[h.id] < Due()[h.id])
    {
      usable := !h.closed && !closed;
      if usable {
        OpenHandle(h);
        hide Refs, SlotGet, Owed, Books;
        ResolvesIffOutstanding(native.slots, h.id);
        DueIn(native.Outstanding(), taken, lent, Owed(Accounts()), h.id);
      }
    }

    /** A new handle joins the others. */
    method Register(id: int, ghost transient: bool) returns (h: JsRef)
      requires Registered() && InRange(id)
      modifies this`handles
      ensures fresh(h) && h.id == id && h.transient == transient && !h.closed
      ensures Registered() && handles == old(handles) + [h]
      ensures Accounts() == old(Accounts()) + [Account(id, !transient)]
      ensures Views() == old(Views()) + [View(id, false)]
      ensures OpenTransients() == old(OpenTransients()) + (if transient then {h} else {})
      ensures h !in old(OpenTransients())
      ensures old(Lends(lent)) && (transient ==> id in lent) ==> Lends(lent)
    {
      h := new JsRef(this, id, transient);
      handles := handles + [h];
    }

    /** decode of a native REF value: the new reference is owed by its handle. */
    method Obtain(v: Value, grown: bool) returns (h: JsRef?)
      requires Valid() && !closed
      modifies this`handles, native
      ensures Valid() && closed == old(closed) && Evolves(old(native.slots), native.slots)
      ensures h == null ==> handles == old(handles) && native.slots == old(native.slots)
      ensures h == null ==> Views() == old(Views()) && (Full(native.slots) || !grown)
      ensures h != null ==> Views() == old(Views()) + [View(h.id, false)]
      ensures h != null ==> fresh(h) && handles == old(handles) + [h] && !h.closed && !h.transient
      ensures OpenTransients() == old(OpenTransients())
      ensures h != null ==> native.Outstanding() == old(native.Outstanding()) + multiset{h.id}
      ensures forall n :: 0 <= n < TWO31 && old(Budget(native.slots, n)) ==> Budget(native.slots, n)
    {
      hide Refs, SlotGet, FreeList, Owed, AccountsOf, ViewsOf, Books, Registered, Lends, OpenTransients, Budget,
        Evolves;
      ghost var accounts, outstanding := Accounts(), native.Outstanding();
      var ref := native.New(v, grown);
      h := null;
      if ref != 0 {
        OutstandingInRange(native.slots, ref);
        h := Register(ref, false);
        OwedSnoc(accounts, Account(ref, true));
        GainOne(outstanding, taken, lent, Owed(accounts), ref);
      }
    }

    /** retain: a second handle on the same object, which owes its own release;
        refused on a closed handle or engine.  On a handle whose object is gone
        the native side does nothing, and the release of the copy counts as taken. */
    method Retain(h: JsRef) returns (copy: JsRef?)
      requires Valid() && h in handles && Budget(native.slots, 0)
      modifies this`handles, this`taken, native
      ensures Valid() && closed == old(closed) && Evolves(old(native.slots), native.slots)
      ensures copy == null <==> h.closed || closed
      ensures copy == null ==> handles == old(handles) && native.slots == old(native.slots) && taken == old(taken)
      ensures copy == null ==> Views() == old(Views())
      ensures copy != null ==> Views() == old(Views()) + [View(h.id, false)]
      ensures copy != null ==> fresh(copy) && handles == old(handles) + [copy] && copy.id == h.id
      ensures copy != null ==> !copy.closed && !copy.transient
      ensures OpenTransients() == old(OpenTransients())
      ensures copy != null && h.id in old(native.Outstanding()) ==>
                native.Outstanding() == old(native.Outstanding()) + multiset{h.id} && taken == old(taken)
      ensures copy != null && h.id !in old(native.Outstanding()) ==>
                native.slots == old(native.slots) && taken == old(taken) + multiset{h.id}
      ensures old(taken) == multiset{} ==> taken == multiset{}
      ensures forall n :: 0 < n < TWO31 && old(Budget(native.slots, n)) ==> Budget(native.slots, n - 1)
    {
      copy := null;
      hide Refs, SlotGet, FreeList, SmallTable, Owed, AccountsOf, ViewsOf, Evolves, Budget, Books, Lends,
        OpenTransients;
      SmallerBudgets(native.slots);
      if h.closed || closed {
        EvolvesReflexive(native.slots);
        return;
      }
      OpenHandle(h);
      ghost var accounts, outstanding := Accounts(), native.Outstanding();
      ResolvesIffOutstanding(native.slots, h.id);
      DueIn(outstanding, taken, lent, Owed(accounts), h.id);
      native.Retain(h.id);
      SmallerBudgets(native.slots);
      copy := Register(h.id, false);
      OwedSnoc(accounts, Account(h.id, true));
      GainOne(outstanding, taken, lent, Owed(accounts), h.id);
      if h.id !in outstanding {
        taken := taken + multiset{h.id};
      }
    }

    /** Marking a handle closed settles its account. */
    method MarkClosed(h: JsRef, ghost k: nat)
      requires Registered() && k < |handles| && handles[k] == h
      modifies h`closed
      ensures h.closed && Registered() && (old(Lends(lent)) ==> Lends(lent))
      ensures OpenTransients() == old(OpenTransients()) - {h} && (!h.transient ==> h !in old(OpenTransients()))
      ensures Accounts() == old(Accounts())[k := Account(h.id, false)]
      ensures Views() == old(Views())[k := View(h.id, true)]
    {
      h.closed := true;
    }

    /** kmpjs_ref_release: one outstanding release less, if there is one. */
    method ReleaseId(id: int)
      requires native.Valid() && InRange(id) && Budget(native.slots, 0)
      modifies native
      ensures native.Valid() && Evolves(old(native.slots), native.slots)
      ensures native.Outstanding() == old(native.Outstanding()) - multiset{id}
      ensures forall n :: 0 < n < TWO31 && old(Budget(native.slots, n)) ==> Budget(native.slots, n - 1)
    {
      hide Refs, SlotGet, FreeList, SmallTable, Budget, Evolves;
      ghost var outstanding := native.Outstanding();
      ResolvesIffOutstanding(native.slots, id);
      native.Release(id);
      if id in outstanding {
        CancelSum(native.Outstanding(), outstanding - multiset{id}, multiset{id});
      }
    }

    /** releaseRef, on an open engine, for handle k that was just marked closed. */
    method ReleaseRef(id: int, ghost accounts: seq<Account>, ghost k: nat)
      requires Registered() && Lends(lent) && native.Valid() && Budget(native.slots, 0) && InRange(id)
      requires k < |accounts| && accounts[k].id == id && Accounts() == accounts[k := Account(id, false)]
      requires Books(native.Outstanding(), taken, lent, Owed(accounts))
      modifies this`taken, native
      ensures Balanced() && Evolves(old(native.slots), native.slots)
      ensures native.Outstanding() == old(native.Outstanding()) - multiset{id}
      ensures taken == if accounts[k].owing then StillTaken(old(taken), old(native.Outstanding()), id)
                       else MoreTaken(old(taken), old(native.Outstanding()), id)
      ensures forall n :: 0 < n < TWO31 && old(Budget(native.slots, n)) ==> Budget(native.slots, n - 1)
    {
      hide Refs, SlotGet, FreeList, SmallTable, Owed, Budget, Evolves, Books, StillTaken, MoreTaken, Lends,
        AccountsOf, Registered;
      ghost var outstanding := native.Outstanding();
      CloseBooks(outstanding, taken, lent, accounts, k);
      ReleaseId(id);
      taken := if accounts[k].owing then StillTaken(taken, outstanding, id) else MoreTaken(taken, outstanding, id);
    }

    /** close: one release, once; nothing after that, nor after the engine is
        closed.  On the handle of an argument, which owes none, it takes a
        release that is due elsewhere, and nothing else does. */
    method Close(h: JsRef, ghost k: nat)
      requires Valid() && k < |handles| && handles[k] == h && Budget(native.slots, 0)
      modifies h`closed, this`taken, native
      ensures Valid() && h.closed && Views() == old(Views())[k := View(h.id, true)]
      ensures OpenTransients() == old(OpenTransients()) - {h} && (!h.transient ==> h !in old(OpenTransients()))
      ensures Evolves(old(native.slots), native.slots)
      ensures old(h.closed) || closed ==> native.slots == old(native.slots) && taken == old(taken)
      ensures !old(h.closed) && !closed ==> native.Outstanding() == old(native.Outstanding()) - multiset{h.id}
      ensures old(taken) == multiset{} ==> (taken == multiset{} <==> !h.transient || old(h.closed) || closed)
      ensures !h.transient ==> taken <= old(taken)
      ensures forall n :: 0 < n < TWO31 && old(Budget(native.slots, n)) ==> Budget(native.slots, n - 1)
    {
      hide Refs, SlotGet, FreeList, SmallTable, Owed, Books, Evolves, Budget, Lends, AccountsOf, OpenTransients,
        Registered;
      EvolvesReflexive(native.slots);
      SmallerBudgets(native.slots);
      if h.closed {
        NotOpen(h);
        assert Views()[k := View(h.id, true)] == Views();
        return;
      }
      NamesInRange(h);
      AccountAt(k);
      ghost var accounts := Accounts();
      if closed {
        MarkClosed(h, k);
      } else {
        OpenHandle(h);
        DueIn(native.Outstanding(), taken, lent, Owed(accounts), h.id);
        MarkClosed(h, k);
        ReleaseRef(h.id, accounts, k);
      }
    }

    /** js_kmp_host makes a ref for an argument. */
    method Lend(v: Value, grown: bool) returns (id: int)
      requires Valid() && !closed
      modifies this`lent, native
      ensures Valid() && Evolves(old(native.slots), native.slots)
      ensures id == 0 ==> lent == old(lent) && native.slots == old(native.slots) && (Full(native.slots) || !grown)
      ensures id != 0 ==> lent == old(lent) + multiset{id}
      ensures id != 0 ==> native.Outstanding() == old(native.Outstanding()) + multiset{id}
      ensures forall n :: 0 <= n < TWO31 && old(Budget(native.slots, n)) ==> Budget(native.slots, n)
    {
      hide Refs, SlotGet, FreeList, SmallTable, Owed, Books;
      ghost var outstanding := native.Outstanding();
      id := native.New(v, grown);
      if id != 0 {
        OutstandingInRange(native.slots, id);
        GainOne(outstanding, taken, lent, Owed(Accounts()), id);
        lent := lent + multiset{id};
      }
    }

    /** js_kmp_host releases the ref of an argument after the call. */
    method TakeBack(id: int)
      requires Valid() && !closed && id in lent && Budget(native.slots, 0)
      requires Lends(lent - multiset{id})
      modifies this`lent, this`taken, native
      ensures Valid() && lent == old(lent) - multiset{id} && Evolves(old(native.slots), native.slots)
      ensures native.Outstanding() == old(native.Outstanding()) - multiset{id}
      ensures taken == StillTaken(old(taken), old(native.Outstanding()), id)
      ensures old(taken) == multiset{} ==> taken == multiset{}
      ensures forall n :: 0 < n < TWO31 && old(Budget(native.slots, n)) ==> Budget(native.slots, n - 1)
    {
      hide Refs, SlotGet, FreeList, SmallTable, Owed, Budget, Evolves, Books, StillTaken, Lends, AccountsOf, Registered;
      ghost var outstanding := native.Outstanding();
      PayLent(outstanding, taken, lent, Owed(Accounts()), id);
      LentInRange(id);
      ReleaseId(id);
      NothingTaken(taken, outstanding, id);
      lent, taken := lent - multiset{id}, StillTaken(taken, outstanding, id);
    }

    /** A handle for an argument of a host call. */
    method DecodeArg(id: int) returns (h: JsRef)
      requires Valid() && !closed && id in lent
      modifies this`handles
      ensures Valid() && fresh(h) && handles == old(handles) + [h] && h.id == id && h.transient && !h.closed
      ensures Views() == old(Views()) + [View(id, false)]
      ensures OpenTransients() == old(OpenTransients()) + {h} && h !in old(OpenTransients())
    {
      hide Refs, FreeList, SmallTable, Owed, AccountsOf, ViewsOf, Books, Registered, Lends, OpenTransients;
      ghost var accounts := Accounts();
      LentInRange(id);
      h := Register(id, true);
      OwedSnoc(accounts, Account(id, false));
      assert Owed(accounts) + multiset{} == Owed(accounts);
    }

    /** invalidate: a transient handle dies without a release. */
    method Invalidate(h: JsRef, ghost k: nat)
      requires Valid() && !closed && k < |handles| && handles[k] == h && h.transient
      modifies h`closed
      ensures Valid() && h.closed && OpenTransients() == old(OpenTransients()) - {h}
      ensures Views() == ClosedAt(old(Views()), k)
    {
      hide Refs, FreeList, SmallTable, Owed;
      ghost var accounts := Accounts();
      MarkClosed(h, k);
      assert accounts[k := Account(h.id, false)] == accounts;
    }

    /** One step of a host function that knows args, its own arguments and those
        of the calls around it. */
    method HostDoes(step: HostStep, args: seq<JsRef>, own: seq<JsRef>, ghost n: nat, ghost argsAt: seq<nat>,
                    ghost ownAt: seq<nat>)
      returns (own': seq<JsRef>, ghost ownAt': seq<nat>)
      requires Valid() && !closed && StepWeight(step) <= n < TWO31 && Budget(native.slots, n)
      requires Transients(args) && Owners(own) && Placed(args, argsAt) && Placed(own, ownAt)
      modifies this`handles, this`lent, this`taken, native, own, args
      ensures Valid() && lent == old(lent) && old(handles) <= handles && Survive(old(OpenTransients()), args)
      ensures Evolves(old(native.slots), native.slots) && Budget(native.slots, n - StepWeight(step))
      ensures Owners(own') && forall k :: 0 <= k < |own'| ==> own'[k] in own || fresh(own'[k])
      ensures Placed(own', ownAt')
      ensures StepDone(step, argsAt, ownAt, old(Views()), ownAt', Views(), Full(native.slots))
      ensures old(taken) == multiset{} && !ClosesArg(step) ==> taken == multiset{}
      decreases step, 0
    {
      hide Refs, SlotGet, FreeList, SmallTable, Owed, Evolves, Budget, Valid, OpenTransients, AccountsOf, ViewsOf,
        Members, StepsDone, ClosedAll, Full;
      own', ownAt' := own, ownAt;
      EvolvesReflexive(native.slots);
      LowerBudget(native.slots, n, n - 1);
      LowerBudget(native.slots, n, 0);
      match step {
        case CallScript(values, grown, steps) =>
          own', ownAt' := CallBack(values, grown, steps, own, args, n - 1, argsAt, ownAt, step);
        case CloseHandle(k) =>
          if k < |own| {
            Closes(own[k], args, n, ownAt[k]);
          }
        case CloseArg(k) =>
          if k < |args| {
            MemberAt(args, k);
            Closes(args[k], args, n, argsAt[k]);
          }
        case _ =>
          own', ownAt' := Acquires(step, args, own, n, argsAt, ownAt);
      }
    }

    /** A step that closes a handle. */
    method Closes(h: JsRef, args: seq<JsRef>, ghost n: nat, ghost p: nat)
      requires Valid() && !closed && 1 <= n < TWO31 && Budget(native.slots, n)
      requires p < |handles| && handles[p] == h && (h.transient ==> h in Members(args))
      modifies this`taken, native, h`closed
      ensures Valid() && Survive(old(OpenTransients()), args) && Views() == ClosedAt(old(Views()), p)
      ensures Evolves(old(native.slots), native.slots) && Budget(native.slots, n - 1)
      ensures old(taken) == multiset{} && !h.transient ==> taken == multiset{}
    {
      hide Refs, SlotGet, Evolves, Budget, Valid, OpenTransients, AccountsOf, Members;
      LowerBudget(native.slots, n, 0);
      Close(h, p);
    }

    /** A step that makes a handle. */
    method Acquires(step: HostStep, args: seq<JsRef>, own: seq<JsRef>, ghost n: nat, ghost argsAt: seq<nat>,
                    ghost ownAt: seq<nat>)
      returns (own': seq<JsRef>, ghost ownAt': seq<nat>)
      requires step.RetainArg? || step.ObtainHandle?
      requires Valid() && !closed && 1 <= n < TWO31 && Budget(native.slots, n)
      requires Transients(args) && Owners(own) && Placed(args, argsAt) && Placed(own, ownAt)
      modifies this`handles, this`taken, native
      ensures Valid() && old(handles) <= handles && OpenTransients() == old(OpenTransients())
      ensures Evolves(old(native.slots), native.slots) && Budget(native.slots, n - 1)
      ensures Owners(own') && forall k :: 0 <= k < |own'| ==> own'[k] in own || fresh(own'[k])
      ensures Placed(own', ownAt')
      ensures StepDone(step, argsAt, ownAt, old(Views()), ownAt', Views(), Full(native.slots))
      ensures old(taken) == multiset{} ==> taken == multiset{}
    {
      hide Refs, SlotGet, FreeList, SmallTable, Owed, Evolves, Budget, Valid, OpenTransients, AccountsOf, ViewsOf, Full,
        StepDone, PlacedIn;
      ghost var before := handles;
      EvolvesReflexive(native.slots);
      LowerBudget(native.slots, n, n - 1);
      LowerBudget(native.slots, n, 0);
      ghost var w := Views();
      var h := null;
      if step.ObtainHandle? {
        h := Obtain(step.obtained, step.roomy);
        ObtainDone(step, argsAt, ownAt, w, if h == null then 0 else h.id, h != null, Full(native.slots));
      } else if step.index < |args| {
        PlacedAt(args, argsAt, step.index);
        h := Retain(args[step.index]);
        RetainDone(step, argsAt, ownAt, w, Full(native.slots));
      } else {
        PlacedLength(args, argsAt);
        RetainDone(step, argsAt, ownAt, w, Full(native.slots));
      }
      PlacedStill(before, own, ownAt);
      own', ownAt' := own, ownAt;
      if h != null {
        PlacedMore(own, ownAt, h);
        own', ownAt' := own + [h], ownAt + [|w|];
      }
    }

    lemma PlacedLength(hs: seq<JsRef>, ps: seq<nat>)
      requires Placed(hs, ps)
      ensures |hs| == |ps|
    {
    }

    lemma PlacedAt(hs: seq<JsRef>, ps: seq<nat>, k: nat)
      requires Placed(hs, ps) && k < |hs|
      ensures k < |ps| && ps[k] < |handles| && hs[k] in handles
      ensures Views()[ps[k]] == View(hs[k].id, hs[k].closed)
    {
      ViewAt(ps[k]);
    }

    lemma PlacedStill(before: seq<JsRef>, hs: seq<JsRef>, ps: seq<nat>)
      requires PlacedIn(before, hs, ps) && before <= handles
      ensures Placed(hs, ps)
    {
    }

    lemma PlacedMore(hs: seq<JsRef>, ps: seq<nat>, h: JsRef)
      requires Placed(hs, ps) && |handles| > 0 && handles[|handles| - 1] == h
      ensures Placed(hs + [h], ps + [|handles| - 1])
    {
    }

    lemma ViewAt(k: nat)
      requires k < |handles|
      ensures Views()[k] == View(handles[k].id, handles[k].closed)
    {
    }

    /** Of the arguments of running calls only some of args were closed. */
    ghost predicate Survive(before: set<JsRef>, args: seq<JsRef>)
      reads this`handles, handles
    {
      OpenTransients() <= before && before - Members(args) <= OpenTransients()
    }

    /** Handles that owe their release, whoever holds them. */
    ghost predicate Owners(own: seq<JsRef>)
      reads this`handles
    {
      forall k :: 0 <= k < |own| ==> own[k] in handles && !own[k].transient
    }

    /** js_kmp_host around onHostCall, when script calls a host function: the
        arguments are lent for the call and taken back after it. */
    method CallBack(values: seq<Value>, grown: bool, steps: seq<HostStep>, own0: seq<JsRef>, outer: seq<JsRef>,
                    ghost n: nat, ghost outerAt: seq<nat>, ghost ownAt0: seq<nat>, ghost step: HostStep)
      returns (own: seq<JsRef>, ghost ownAt: seq<nat>)
      requires Valid() && !closed && |values| + StepsWeight(steps) <= n < TWO31 && Budget(native.slots, n)
      requires Transients(outer) && Owners(own0) && Placed(outer, outerAt) && Placed(own0, ownAt0)
      requires step == CallScript(values, grown, steps)
      modifies this`handles, this`lent, this`taken, native, own0, outer
      ensures Valid() && lent == old(lent) && old(handles) <= handles && Survive(old(OpenTransients()), outer)
      ensures Evolves(old(native.slots), native.slots) && Budget(native.slots, n - (|values| + StepsWeight(steps)))
      ensures old(taken) == multiset{} && !ClosesArgs(steps) ==> taken == multiset{}
      ensures Owners(own) && forall k :: 0 <= k < |own| ==> own[k] in own0 || fresh(own[k])
      ensures Placed(own, ownAt)
      ensures StepDone(step, outerAt, ownAt0, old(Views()), ownAt, Views(), Full(native.slots))
      decreases steps, 2
    {
      hide Refs, SlotGet, FreeList, SmallTable, Owed, Evolves, Budget, AccountsOf, ViewsOf, StepDone, StepsDone,
        CallDone, Full, Valid, Lends, OpenTransients, Members, ClosesArgs;
      own, ownAt := own0, ownAt0;
      var ids := LendAll(values, grown, n);
      ghost var left := n;
      ghost var before, w := native.slots, Views();
      EvolvesReflexive(native.slots);
      if |ids| == |values| {
        var args;
        args, own, ownAt := OnHostCall(ids, steps, own0, outer, n, outerAt, ownAt0);
        left := n - StepsWeight(steps);
        ScriptDone(step, ids, outerAt, ownAt0, w, ownAt, Views(), Full(native.slots));
      } else {
        ScriptSkipped(step, outerAt, ownAt0, w, Full(native.slots));
      }
      EvolvesTransitive(old(native.slots), before, native.slots);
      ghost var between := native.slots;
      LendsStill();
      TakeAllBack(ids, old(lent), left);
      NativeFull(between);
      StepFuller(step, outerAt, ownAt0, w, ownAt, Views(), Full(between), Full(native.slots));
      EvolvesTransitive(old(native.slots), between, native.slots);
      LowerBudget(native.slots, left - |ids|, n - (|values| + StepsWeight(steps)));
    }

    lemma NativeFull(before: seq<Slot>)
      requires Valid() && !closed && Evolves(before, native.slots)
      ensures Full(before) ==> Full(native.slots)
    {
      hide Refs, FreeList;
      StaysFull(before, native.slots);
    }

    /** The refs of the arguments, up to the first that cannot be made. */
    method LendAll(values: seq<Value>, grown: bool, ghost n: nat) returns (ids: seq<int>)
      requires Valid() && !closed && n < TWO31 && Budget(native.slots, n)
      modifies this`lent, native
      ensures Valid() && |ids| <= |values| && lent == old(lent) + multiset(ids)
      ensures |ids| < |values| ==> Full(native.slots) || !grown
      ensures Evolves(old(native.slots), native.slots) && Budget(native.slots, n)
    {
      hide Refs, SlotGet, FreeList, SmallTable, Owed, Evolves, Budget, Valid;
      ids := [];
      EvolvesReflexive(native.slots);
      var i := 0;
      while i < |values|
        invariant 0 <= i <= |values| && |ids| == i && Valid() && lent == old(lent) + multiset(ids)
        invariant Evolves(old(native.slots), native.slots) && Budget(native.slots, n)
      {
        ghost var before := native.slots;
        var id := Lend(values[i], grown);
        EvolvesTransitive(old(native.slots), before, native.slots);
        if id == 0 {
          break;
        }
        assert multiset(ids + [id]) == multiset(ids) + multiset{id};
        ids := ids + [id];
        i := i + 1;
      }
    }

    /** The release loop of js_kmp_host. */
    method TakeAllBack(ids: seq<int>, ghost rest: multiset<int>, ghost n: nat)
      requires Valid() && !closed && lent == rest + multiset(ids) && |ids| <= n < TWO31 && Budget(native.slots, n)
      requires Lends(rest)
      modifies this`lent, this`taken, native
      ensures old(taken) == multiset{} ==> taken == multiset{}
      ensures Valid() && lent == rest && Evolves(old(native.slots), native.slots) && Budget(native.slots, n - |ids|)
    {
      hide Refs, SlotGet, FreeList, SmallTable, Owed, Evolves, Budget, Valid, Lends, StillTaken, LentFrom;
      EvolvesReflexive(native.slots);
      LentAll(lent, rest, ids);
      for i := 0 to |ids|
        invariant Valid() && LentFrom(lent, rest, ids, i)
        invariant old(taken) == multiset{} ==> taken == multiset{}
        invariant Evolves(old(native.slots), native.slots) && Budget(native.slots, n - i)
      {
        ghost var before := native.slots;
        TakeNext(ids, i, rest, n - i);
        EvolvesTransitive(old(native.slots), before, native.slots);
      }
      LentAll(lent, rest, ids);
    }

    /** One round of the loop. */
    method TakeNext(ids: seq<int>, i: nat, ghost rest: multiset<int>, ghost n: nat)
      requires Valid() && !closed && i < |ids| && LentFrom(lent, rest, ids, i) && Lends(rest)
      requires 0 < n < TWO31 && Budget(native.slots, n)
      modifies this`lent, this`taken, native
      ensures Valid() && LentFrom(lent, rest, ids, i + 1)
      ensures Evolves(old(native.slots), native.slots) && Budget(native.slots, n - 1)
      ensures old(taken) == multiset{} ==> taken == multiset{}
    {
      hide Refs, SlotGet, FreeList, SmallTable, Owed, Evolves, Budget, Valid, Lends, StillTaken, LentFrom;
      LentRest(lent, rest, ids, i);
      LendsRest(lent - multiset{ids[i]}, rest);
      LowerBudget(native.slots, n, 0);
      TakeBack(ids[i]);
    }

    /** When every handle that owes a release is closed, nothing has leaked:
        only arguments of running calls are outstanding, and every release that
        was taken from a closed handle has been made up for. */
    lemma NothingLeaks()
      requires Valid() && !closed && forall h :: h in handles ==> h.closed || h.transient
      ensures native.Outstanding() + taken == lent
      ensures lent == multiset{} ==> native.Outstanding() == taken == multiset{}
    {
      hide Refs;
      NothingOwed(Accounts());
      NoSum(native.Outstanding(), taken);
    }

    /** onHostCall: the arguments get handles, the host function runs, and the
        handles of the arguments die whatever it did; copies it retained live
        on, and of the arguments of outer calls it closes only those it closes
        itself.  The books balance again after the call, and nothing is ever
        taken unless a host closes an argument. */
    method OnHostCall(ids: seq<int>, steps: seq<HostStep>, own0: seq<JsRef>, outer: seq<JsRef>, ghost n: nat,
                      ghost outerAt: seq<nat>, ghost ownAt0: seq<nat>)
      returns (args: seq<JsRef>, own: seq<JsRef>, ghost ownAt: seq<nat>)
      requires Valid() && !closed && StepsWeight(steps) <= n < TWO31 && Budget(native.slots, n)
      requires (forall k :: 0 <= k < |ids| ==> ids[k] in lent) && Transients(outer) && Owners(own0)
      requires Placed(outer, outerAt) && Placed(own0, ownAt0)
      modifies this`handles, this`lent, this`taken, native, own0, outer
      ensures Valid() && lent == old(lent) && old(handles) <= handles && Survive(old(OpenTransients()), outer)
      ensures Evolves(old(native.slots), native.slots) && Budget(native.slots, n - StepsWeight(steps))
      ensures |args| == |ids| && forall k :: 0 <= k < |ids| ==> args[k].id == ids[k] && args[k].closed && fresh(args[k])
      ensures Owners(own) && forall k :: 0 <= k < |own| ==> own[k] in own0 || fresh(own[k])
      ensures Placed(own, ownAt)
      ensures CallDone(ids, steps, outerAt, ownAt0, old(Views()), ownAt, Views(), Full(native.slots))
      ensures old(taken) == multiset{} && !ClosesArgs(steps) ==> taken == multiset{}
      decreases steps, 1
    {
      hide Refs, SlotGet, FreeList, SmallTable, Owed, AccountsOf, ViewsOf, Evolves, Valid, Budget, OpenTransients,
        Members, StepsDone, ClosedAll, Full, Numbers, Opened;
      ghost var w := Views();
      args := DecodeArgs(ids);
      ghost var during, numbers := OpenTransients(), Numbers(|w|, |ids|);
      PlacedJoin(outer, outerAt, args, numbers);
      own, ownAt := HostRuns(steps, outer + args, own0, n, outerAt + numbers, ownAt0);
      ghost var after, v := OpenTransients(), Views();
      MembersJoin(outer, args);
      InvalidateArgs(args, numbers);
      SurviveCall(old(OpenTransients()), during, after, OpenTransients(), Members(outer), Members(args));
      assert CallDoneBy(ids, steps, outerAt, ownAt0, w, ownAt, Views(), Full(native.slots), v);
    }

    lemma PlacedJoin(hs: seq<JsRef>, ps: seq<nat>, hs': seq<JsRef>, ps': seq<nat>)
      requires Placed(hs, ps) && Placed(hs', ps')
      ensures Placed(hs + hs', ps + ps')
    {
    }

    /** A call takes its own arguments along and nothing else. */
    lemma SurviveCall(before: set<JsRef>, during: set<JsRef>, after: set<JsRef>, now: set<JsRef>,
                      outer: set<JsRef>, args: set<JsRef>)
      requires during == before + args && args !! before && now == after - args
      requires after <= during && during - (outer + args) <= after
      ensures now <= before && before - outer <= now
    {
    }

    lemma MembersJoin(outer: seq<JsRef>, args: seq<JsRef>)
      ensures Members(outer + args) == Members(outer) + Members(args)
    {
      assert forall k :: 0 <= k < |outer| ==> (outer + args)[k] == outer[k];
      assert forall k :: 0 <= k < |args| ==> (outer + args)[|outer| + k] == args[k];
    }

    /** One handle for each argument. */
    method DecodeArgs(ids: seq<int>) returns (args: seq<JsRef>)
      requires Valid() && !closed && forall k :: 0 <= k < |ids| ==> ids[k] in lent
      modifies this`handles
      ensures Valid() && old(handles) <= handles && OpenTransients() == old(OpenTransients()) + Members(args)
      ensures Members(args) !! old(OpenTransients())
      ensures |args| == |ids| && Transients(args)
      ensures forall k :: 0 <= k < |ids| ==> fresh(args[k]) && args[k].id == ids[k]
      ensures Views() == old(Views()) + Opened(ids) && Placed(args, Numbers(|old(handles)|, |ids|))
    {
      hide Refs, SlotGet, FreeList, SmallTable, Owed, AccountsOf, ViewsOf, Valid, OpenTransients;
      args := [];
      for i := 0 to |ids|
        invariant Valid() && old(handles) <= handles && |args| == i
        invariant OpenTransients() == old(OpenTransients()) + Members(args) && Members(args) !! old(OpenTransients())
        invariant Transients(args) && forall k :: 0 <= k < i ==> fresh(args[k]) && args[k].id == ids[k]
        invariant Views() == old(Views()) + Opened(ids[..i]) && Placed(args, Numbers(|old(handles)|, i))
      {
        var h := DecodeArg(ids[i]);
        MembersSnoc(args, h);
        OpenedSnoc(old(Views()), ids, i);
        args := args + [h];
      }
      assert ids[..|ids|] == ids;
    }

    /** The host function itself. */
    method HostRuns(steps: seq<HostStep>, args: seq<JsRef>, own0: seq<JsRef>, ghost n: nat, ghost argsAt: seq<nat>,
                    ghost ownAt0: seq<nat>)
      returns (own: seq<JsRef>, ghost ownAt: seq<nat>)
      requires Valid() && !closed && StepsWeight(steps) <= n < TWO31 && Budget(native.slots, n)
      requires Transients(args) && Owners(own0) && Placed(args, argsAt) && Placed(own0, ownAt0)
      modifies this`handles, this`lent, this`taken, native, own0, args
      ensures Valid() && lent == old(lent) && old(handles) <= handles && Survive(old(OpenTransients()), args)
      ensures Evolves(old(native.slots), native.slots) && Budget(native.slots, n - StepsWeight(steps))
      ensures Owners(own) && forall k :: 0 <= k < |own| ==> own[k] in own0 || fresh(own[k])
      ensures Placed(own, ownAt)
      ensures StepsDone(steps, argsAt, ownAt0, old(Views()), ownAt, Views(), Full(native.slots))
      ensures old(taken) == multiset{} && !ClosesArgs(steps) ==> taken == multiset{}
      decreases steps, 0
    {
      hide Refs, SlotGet, FreeList, SmallTable, Owed, AccountsOf, ViewsOf, Evolves, Valid, Budget, OpenTransients,
        Members, StepsDone, StepDone, Full;
      own, ownAt := own0, ownAt0;
      EvolvesReflexive(native.slots);
      ghost var w := Views();
      assert steps[0..] == steps;
      NoSteps(steps, argsAt, ownAt0, w, Full(native.slots));
      for i := 0 to |steps|
        invariant Valid() && lent == old(lent) && old(handles) <= handles
        invariant StepsWeight(steps[i..]) <= StepsWeight(steps)
        invariant Budget(native.slots, n - (StepsWeight(steps) - StepsWeight(steps[i..])))
        invariant Evolves(old(native.slots), native.slots)
        invariant Survive(old(OpenTransients()), args)
        invariant Owners(own) && forall k :: 0 <= k < |own| ==> own[k] in own0 || fresh(own[k])
        invariant Placed(own, ownAt) && StepsDone(steps[..i], argsAt, ownAt0, w, ownAt, Views(), Full(native.slots))
        invariant old(taken) == multiset{} && !ClosesArgs(steps) ==> taken == multiset{} && !ClosesArgs(steps[i..])
      {
        ghost var before, mid, v := native.slots, ownAt, Views();
        SuffixWeight(steps, i);
        if old(taken) == multiset{} && !ClosesArgs(steps) {
          SuffixCloses(steps, i);
        }
        own, ownAt :=
          HostDoes(steps[i], args, own, n - (StepsWeight(steps) - StepsWeight(steps[i..])), argsAt, mid);
        EvolvesTransitive(old(native.slots), before, native.slots);
        NativeFull(before);
        StepsFuller(steps[..i], argsAt, ownAt0, w, mid, v, Full(before), Full(native.slots));
        StepsSnoc(steps, i, argsAt, ownAt0, w, mid, v, ownAt, Views(), Full(native.slots));
      }
      assert steps[..|steps|] == steps;
    }

    /** The handles of the arguments die. */
    method InvalidateArgs(args: seq<JsRef>, ghost ps: seq<nat>)
      requires Valid() && !closed && Transients(args) && Placed(args, ps)
      modifies args
      ensures Valid() && OpenTransients() == old(OpenTransients()) - Members(args)
      ensures Views() == ClosedAll(old(Views()), ps)
      ensures forall k :: 0 <= k < |args| ==> args[k].closed
    {
      hide Refs, FreeList, SmallTable, Owed, AccountsOf, ViewsOf, Valid, OpenTransients, ClosedAt;
      for i := 0 to |args|
        invariant Valid() && forall k :: 0 <= k < i ==> args[k].closed
        invariant OpenTransients() == old(OpenTransients()) - Members(args[..i])
        invariant Views() == ClosedAll(old(Views()), ps[..i])
      {
        MembersSnoc(args[..i], args[i]);
        ClosedSnoc(old(Views()), ps, i);
        assert args[..i + 1] == args[..i] + [args[i]];
        Invalidate(args[i], ps[i]);
      }
      assert args[..|args|] == args && ps[..|ps|] == ps;
    }

    ghost predicate Transients(args: seq<JsRef>)
      reads this`handles
    {
      forall k :: 0 <= k < |args| ==> args[k] in handles && args[k].transient
    }

    lemma MemberAt(args: seq<JsRef>, k: nat)
      requires k < |args|
      ensures args[k] in Members(args)
    {
    }

    lemma MembersSnoc(args: seq<JsRef>, h: JsRef)
      ensures Members(args + [h]) == Members(args) + {h}
    {
      assert forall k :: 0 <= k < |args| ==> (args + [h])[k] == args[k];
      assert (args + [h])[|args|] == h;
    }

    ghost function Members(args: seq<JsRef>): set<JsRef> {
      set k | 0 <= k < |args| :: args[k]
    }
  }
}
