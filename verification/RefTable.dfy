/** The ref table of mquickjs_kmp.c: generation-tagged, ref-counted slots with a
    free list.  JavaScript values are opaque. */
module RefTable {
  import opened MachineWords

  const INT32_MAX: nat := 0x7fff_ffff

  /** A JavaScript value. */
  datatype Value = Undefined | Object(id: nat)

  datatype Slot = Slot(refcount: nat, gen: nat, nextFree: int, value: Value)

  // ----- handles -----

  /** slot_handle: a signed 64-bit number. */
  function Handle(idx: nat, gen: nat): (h: int) {
    var u := gen * TWO32 + (idx + 1) % TWO32;
    if u >= TWO63 then u - TWO64 else u
  }

  /** slot_index, before the bounds check of slot_get. */
  function HandleIndex(ref: int): int {
    var low := ref % TWO32;
    (if low >= TWO31 then low - TWO32 else low) - 1
  }

  function HandleGen(ref: int): nat {
    (ref % TWO64) / TWO32
  }

  /** slot_get: the index of the live slot that ref names, or -1. */
  function SlotGet(slots: seq<Slot>, ref: int): (idx: int)
    ensures idx == -1 || 0 <= idx < |slots|
  {
    var idx := HandleIndex(ref);
    if ref <= 0 || idx < 0 || idx >= |slots| then -1
    else if slots[idx].refcount > 0 && slots[idx].gen == HandleGen(ref) then idx
    else -1
  }

  lemma HandleParts(idx: nat, gen: nat)
    requires idx < INT32_MAX && gen < TWO32
    ensures HandleIndex(Handle(idx, gen)) == idx && HandleGen(Handle(idx, gen)) == gen
    ensures Handle(idx, gen) > 0 <==> gen < TWO31
  {
    var u := gen * TWO32 + (idx + 1);
    var h := Handle(idx, gen);
    assert h == u || h == u - TWO64;
    assert h % TWO64 == u;
    assert u / TWO32 == gen && u % TWO32 == idx + 1;
    assert h % TWO32 == idx + 1;
  }

  /** A handle resolves only to the slot and generation it was made from. */
  lemma HandleOfResolved(slots: seq<Slot>, ref: int)
    requires SlotGet(slots, ref) >= 0 && |slots| <= INT32_MAX && 0 - TWO63 <= ref < TWO63
    ensures var i := SlotGet(slots, ref); ref == Handle(i, slots[i].gen) && slots[i].gen < TWO31
  {
    var i := SlotGet(slots, ref);
    assert ref == HandleGen(ref) * TWO32 + ref % TWO32;
  }

  /** Exactly when a live slot can be reached through its own handle. */
  lemma LiveHandleResolves(slots: seq<Slot>, i: nat)
    requires i < |slots| <= INT32_MAX && slots[i].refcount > 0 && slots[i].gen < TWO32
    ensures SlotGet(slots, Handle(i, slots[i].gen)) == i <==> slots[i].gen < TWO31
  {
    HandleParts(i, slots[i].gen);
  }

  /** With generation 2^31 the handle is negative, and slot_get refuses it. */
  lemma NegativeHandleExample()
    ensures var slots := [Slot(1, TWO31, -1, Object(7))];
            Handle(0, TWO31) < 0 && SlotGet(slots, Handle(0, TWO31)) == -1
  {
  }

  // ----- outstanding references -----

  /** The handle of slot i, as often as it has outstanding releases. */
  ghost function SlotRefs(i: nat, s: Slot): multiset<int> {
    multiset{}[Handle(i, s.gen) := s.refcount]
  }

  /** Every handle, as often as its slot has outstanding releases. */
  ghost function Refs(slots: seq<Slot>): multiset<int> {
    if |slots| == 0 then multiset{}
    else Refs(slots[..|slots| - 1]) + SlotRefs(|slots| - 1, slots[|slots| - 1])
  }

  ghost predicate SmallTable(slots: seq<Slot>) {
    |slots| <= INT32_MAX && forall i :: 0 <= i < |slots| ==> slots[i].gen < TWO32
  }

  lemma HandlesDiffer(i: nat, g: nat, j: nat, k: nat)
    requires i < INT32_MAX && j < INT32_MAX && g < TWO32 && k < TWO32 && Handle(i, g) == Handle(j, k)
    ensures i == j && g == k
  {
    HandleParts(i, g);
    HandleParts(j, k);
  }

  /** The multiplicity of a handle is the refcount of the slot it names. */
  lemma {:induction false} RefsOf(slots: seq<Slot>, i: nat, gen: nat)
    requires SmallTable(slots) && i < INT32_MAX && gen < TWO32
    ensures Refs(slots)[Handle(i, gen)] == if i < |slots| && slots[i].gen == gen then slots[i].refcount else 0
  {
    if |slots| > 0 {
      var n := |slots| - 1;
      RefsOf(slots[..n], i, gen);
      hide Handle, Refs;
      RefsSnoc(slots);
      if Handle(n, slots[n].gen) == Handle(i, gen) {
        HandlesDiffer(n, slots[n].gen, i, gen);
      }
    }
  }

  lemma RefsSnoc(slots: seq<Slot>)
    requires |slots| > 0
    ensures Refs(slots) == Refs(slots[..|slots| - 1]) + SlotRefs(|slots| - 1, slots[|slots| - 1])
  {
  }

  /** What resolves is outstanding. */
  lemma ResolvedIsOutstanding(slots: seq<Slot>, ref: int)
    requires SmallTable(slots) && 0 - TWO63 <= ref < TWO63
    ensures SlotGet(slots, ref) >= 0 ==> ref in Refs(slots)
  {
    if SlotGet(slots, ref) >= 0 {
      var i := SlotGet(slots, ref);
      HandleOfResolved(slots, ref);
      RefsOf(slots, i, slots[i].gen);
    }
  }

  /** Replacing one slot replaces its contribution. */
  lemma {:induction false} RefsUpdate(slots: seq<Slot>, i: nat, s: Slot)
    requires i < |slots|
    ensures Refs(slots[i := s]) + SlotRefs(i, slots[i]) == Refs(slots) + SlotRefs(i, s)
    decreases |slots|
  {
    hide *;
    var n := |slots| - 1;
    RefsSnoc(slots);
    RefsSnoc(slots[i := s]);
    if i < n {
      RefsUpdate(slots[..n], i, s);
      assert slots[i := s][..n] == slots[..n][i := s];
      SwapSums(Refs(slots[..n][i := s]), Refs(slots[..n]), SlotRefs(i, slots[i]), SlotRefs(i, s),
               SlotRefs(n, slots[n]));
    } else {
      assert slots[i := s][..n] == slots[..n];
    }
  }

  lemma SwapSums(a': multiset<int>, a: multiset<int>, x: multiset<int>, y: multiset<int>, c: multiset<int>)
    requires a' + x == a + y
    ensures (a' + c) + x == (a + c) + y
  {
    assert (a' + c) + x == (a' + x) + c;
    assert (a + c) + y == (a + y) + c;
  }

  lemma CancelSum(a: multiset<int>, c: multiset<int>, x: multiset<int>)
    requires a + x == c + x
    ensures a == c
  {
    assert a == (a + x) - x;
    assert c == (c + x) - x;
  }

  /** One more reference to a slot, or one less. */
  lemma RefsChange(slots: seq<Slot>, i: nat, s: Slot)
    requires i < |slots| && s.gen == slots[i].gen
    ensures s.refcount == slots[i].refcount + 1 ==> Refs(slots[i := s]) == Refs(slots) + multiset{Handle(i, s.gen)}
    ensures s.refcount + 1 == slots[i].refcount ==> Refs(slots[i := s]) + multiset{Handle(i, s.gen)} == Refs(slots)
  {
    var x, y, h := SlotRefs(i, slots[i]), SlotRefs(i, s), multiset{Handle(i, s.gen)};
    if s.refcount == slots[i].refcount + 1 {
      MoreRefs(i, slots[i], s);
    }
    if s.refcount + 1 == slots[i].refcount {
      MoreRefs(i, s, slots[i]);
    }
    hide *;
    RefsUpdate(slots, i, s);
    if s.refcount == slots[i].refcount + 1 {
      assert Refs(slots) + y == (Refs(slots) + h) + x;
      CancelSum(Refs(slots[i := s]), Refs(slots) + h, x);
    }
    if s.refcount + 1 == slots[i].refcount {
      assert Refs(slots[i := s]) + x == (Refs(slots[i := s]) + h) + y;
      CancelSum(Refs(slots[i := s]) + h, Refs(slots), y);
    }
  }

  lemma MoreRefs(i: nat, s: Slot, t: Slot)
    requires s.gen == t.gen && t.refcount == s.refcount + 1
    ensures SlotRefs(i, t) == SlotRefs(i, s) + multiset{Handle(i, s.gen)}
  {
    hide Handle;
  }

  /** A free slot contributes nothing, whatever its generation. */
  lemma RefsFree(slots: seq<Slot>, i: nat, s: Slot)
    requires i < |slots| && s.refcount == 0 && slots[i].refcount == 0
    ensures Refs(slots[i := s]) == Refs(slots)
  {
    NoRefs(i, s);
    NoRefs(i, slots[i]);
    hide *;
    RefsUpdate(slots, i, s);
    CancelSum(Refs(slots[i := s]), Refs(slots), multiset{});
  }

  lemma NoRefs(i: nat, s: Slot)
    requires s.refcount == 0
    ensures SlotRefs(i, s) == multiset{}
  {
  }

  // ----- the free list -----

  /** The slots on the list from head, in order. */
  ghost predicate ListFrom(slots: seq<Slot>, head: int, list: seq<nat>)
    decreases |list|
  {
    if |list| == 0 then head == -1
    else head == list[0] && list[0] < |slots| && ListFrom(slots, slots[list[0]].nextFree, list[1..])
  }

  ghost predicate Distinct(list: seq<nat>) {
    forall i, j :: 0 <= i < j < |list| ==> list[i] != list[j]
  }

  /** The list is acyclic and holds exactly the free slots. */
  ghost predicate FreeList(slots: seq<Slot>, head: int, list: seq<nat>) {
    && ListFrom(slots, head, list) && Distinct(list)
    && forall i: nat :: i in list <==> i < |slots| && slots[i].refcount == 0
  }

  /** The list only depends on the links of its own slots. */
  lemma {:induction false} ListFrame(slots: seq<Slot>, slots': seq<Slot>, head: int, list: seq<nat>)
    requires ListFrom(slots, head, list) && |slots| <= |slots'|
    requires forall i: nat :: i in list && i < |slots| ==> slots'[i].nextFree == slots[i].nextFree
    ensures ListFrom(slots', head, list)
    decreases |list|
  {
    if |list| > 0 {
      assert list[0] in list;
      ListFrame(slots, slots', slots[list[0]].nextFree, list[1..]);
    }
  }

  /** Generations that can still grow n times without reaching 2^31. */
  ghost predicate Budget(slots: seq<Slot>, n: nat) {
    forall i :: 0 <= i < |slots| ==> slots[i].gen + n < TWO31
  }

  // ----- generations -----

  /** How a table may change: generations never go back, and a live slot that
      keeps its generation stays live with its object. */
  ghost predicate Evolves(slots: seq<Slot>, slots': seq<Slot>) {
    && |slots| <= |slots'|
    && (forall i :: 0 <= i < |slots| ==> slots[i].gen <= slots'[i].gen)
    && (forall i :: 0 <= i < |slots| && slots[i].refcount > 0 && slots'[i].gen == slots[i].gen ==>
          slots'[i].refcount > 0 && slots'[i].value == slots[i].value)
  }

  lemma EvolvesTransitive(a: seq<Slot>, b: seq<Slot>, c: seq<Slot>)
    requires Evolves(a, b) && Evolves(b, c)
    ensures Evolves(a, c)
  {
  }

  /** Over any run, a handle resolves to the object it was issued for or to
      nothing; once its slot was freed it never resolves again. */
  lemma StaleHandles(issued: seq<Slot>, now: seq<Slot>, later: seq<Slot>, ref: int)
    requires SmallTable(issued) && SmallTable(now) && SmallTable(later) && Evolves(issued, now) && Evolves(now, later)
    requires 0 - TWO63 <= ref < TWO63 && SlotGet(issued, ref) >= 0
    ensures var i := SlotGet(issued, ref);
            && ((SlotGet(now, ref) == i && now[i].value == issued[i].value) || SlotGet(now, ref) == -1)
            && (SlotGet(now, ref) == -1 ==> SlotGet(later, ref) == -1)
  {
    var i := SlotGet(issued, ref);
    HandleOfResolved(issued, ref);
    ResolvedLive(issued, ref);
    HandleParts(i, issued[i].gen);
  }

  lemma ResolvedLive(slots: seq<Slot>, ref: int)
    requires SlotGet(slots, ref) >= 0
    ensures slots[SlotGet(slots, ref)].refcount > 0
  {
  }

  /** The number of outstanding releases is the sum of the refcounts. */
  lemma RefsSize(slots: seq<Slot>)
    requires |slots| > 0
    ensures |Refs(slots)| == |Refs(slots[..|slots| - 1])| + slots[|slots| - 1].refcount
  {
    RefsSnoc(slots);
    var i := |slots| - 1;
    var x := SlotRefs(i, slots[i]);
    hide Refs, Handle;
    SingleSize(Handle(i, slots[i].gen), slots[i].refcount);
  }

  lemma {:induction false} SingleSize(h: int, n: nat)
    ensures |multiset{}[h := n]| == n
  {
    if n == 0 {
      assert multiset{}[h := n] == multiset{};
    } else {
      SingleSize(h, n - 1);
      assert multiset{}[h := n] == multiset{}[h := n - 1] + multiset{h};
    }
  }

  /** What is outstanding resolves, while generations stay below 2^31. */
  lemma {:induction false} OutstandingResolves(slots: seq<Slot>, ref: int)
    requires SmallTable(slots) && Budget(slots, 0) && ref in Refs(slots)
    ensures SlotGet(slots, ref) >= 0 && 0 < ref < TWO63
  {
    var i := OutstandingSlot(slots, ref);
    LiveHandleResolves(slots, i);
    HandleParts(i, slots[i].gen);
  }

  lemma {:induction false} OutstandingSlot(slots: seq<Slot>, ref: int) returns (i: nat)
    requires ref in Refs(slots)
    ensures i < |slots| && slots[i].refcount > 0 && ref == Handle(i, slots[i].gen)
  {
    var n := |slots| - 1;
    RefsSnoc(slots);
    if ref in SlotRefs(n, slots[n]) {
      i := n;
    } else {
      i := OutstandingSlot(slots[..n], ref);
    }
  }

  class RefTable {
    var slots: seq<Slot>
    var freeHead: int
    ghost var free: seq<nat>

    ghost predicate Valid()
      reads this
    {
      SmallTable(slots) && FreeList(slots, freeHead, free)
    }

    /** Outstanding releases, by handle. */
    ghost function Outstanding(): multiset<int>
      reads this
    {
      Refs(slots)
    }

    constructor ()
      ensures Valid() && slots == [] && Outstanding() == multiset{}
    {
      slots, freeHead, free := [], -1, [];
    }

    /** The live slots are those of the old table, with one more. */
    twostate predicate AddsOne(ref: int, v: Value)
      reads this
    {
      && ref !in old(Outstanding()) && Outstanding() == old(Outstanding()) + multiset{ref}
      && |slots| >= |old(slots)|
      && (forall i :: 0 <= i < |old(slots)| ==> slots[i].gen == old(slots)[i].gen)
      && (forall i :: 0 <= i < |old(slots)| && old(slots)[i].refcount > 0 ==> slots[i] == old(slots)[i])
      && exists i :: 0 <= i < |slots| && ref == Handle(i, slots[i].gen) && slots[i].refcount == 1 && slots[i].value == v
    }

    /** A new reference in the first free slot. */
    method TakeFree(v: Value) returns (ref: int)
      requires Valid() && freeHead >= 0
      modifies this
      ensures Valid() && ref != 0 && AddsOne(ref, v)
      ensures |slots| == |old(slots)|
    {
      hide Handle, Refs, SlotRefs, ListFrom;
      FreeHead(slots, freeHead, free);
      var idx: nat := freeHead;
      var s := slots[idx].(refcount := 1, nextFree := -1, value := v);
      RefsChange(slots, idx, s);
      RefsOf(slots, idx, s.gen);
      TakeFirst(slots, freeHead, free, s);
      freeHead := slots[idx].nextFree;
      free := free[1..];
      slots := slots[idx := s];
      HandleNonzero(idx, s.gen);
      ref := Handle(idx, s.gen);
    }

    /** A new reference in a new slot. */
    method Append(v: Value) returns (ref: int)
      requires Valid() && |slots| < INT32_MAX
      modifies this
      ensures Valid() && ref != 0 && AddsOne(ref, v)
      ensures freeHead == old(freeHead) && |slots| == |old(slots)| + 1 && slots[|old(slots)|].gen == 0
    {
      hide Handle, Refs, ListFrom;
      var s := Slot(1, 0, -1, v);
      ghost var t := slots + [s];
      RefsSnoc(t);
      assert t[..|slots|] == slots;
      OneRef(|slots|, s);
      RefsOf(slots, |slots|, 0);
      Appended(slots, freeHead, free, s);
      HandleNonzero(|slots|, 0);
      ref := Handle(|slots|, 0);
      slots := slots + [s];
    }

    /** slot_new: `grown` says whether growing the table would succeed.  Zero
        means failure; otherwise the handle is new and outstanding once. */
    method New(v: Value, grown: bool) returns (ref: int)
      requires Valid()
      modifies this
      ensures Valid()
      ensures ref == 0 <==> old(freeHead) < 0 && (!grown || |old(slots)| == INT32_MAX)
      ensures ref == 0 ==> slots == old(slots)
      ensures ref != 0 ==> AddsOne(ref, v)
      ensures Evolves(old(slots), slots)
      ensures forall n :: 0 <= n < TWO31 && old(Budget(slots, n)) ==> Budget(slots, n)
    {
      if freeHead >= 0 {
        ref := TakeFree(v);
      } else {
        if |slots| == INT32_MAX || !grown {
          FreeHead(slots, freeHead, free);
          return 0;
        }
        ref := Append(v);
      }
    }

    /** slot_reserve: after success the next slot_new cannot fail. */
    method Reserve(grown: bool) returns (ok: bool)
      requires Valid()
      modifies this
      ensures Valid() && Outstanding() == old(Outstanding())
      ensures ok <==> freeHead >= 0
      ensures ok <==> old(freeHead) >= 0 || (grown && |old(slots)| < INT32_MAX)
      ensures Evolves(old(slots), slots)
      ensures !ok ==> slots == old(slots)
      ensures forall ref :: SlotGet(slots, ref) == SlotGet(old(slots), ref)
    {
      hide Handle, Refs, ListFrom;
      if freeHead >= 0 {
        return true;
      }
      if |slots| == INT32_MAX || !grown {
        return false;
      }
      var s := Slot(0, 0, -1, Undefined);
      ghost var t := slots + [s];
      RefsSnoc(t);
      assert t[..|slots|] == slots;
      assert SlotRefs(|slots|, s) == multiset{};
      FreeHead(slots, freeHead, free);
      ReservedSlot(slots, s);
      free := [|slots|];
      freeHead := |slots|;
      slots := slots + [s];
      ok := true;
    }

    /** kmpjs_ref_retain: one more outstanding release, if the handle is live. */
    method Retain(ref: int)
      requires Valid() && 0 - TWO63 <= ref < TWO63
      modifies this
      ensures Valid() && Evolves(old(slots), slots) && freeHead == old(freeHead)
      ensures SlotGet(old(slots), ref) < 0 ==> slots == old(slots)
      ensures SlotGet(old(slots), ref) >= 0 ==> Outstanding() == old(Outstanding()) + multiset{ref}
      ensures forall n :: 0 <= n < TWO31 && old(Budget(slots, n)) ==> Budget(slots, n)
    {
      SameSlots(slots);
      var i := SlotGet(slots, ref);
      if i >= 0 {
        HandleOfResolved(slots, ref);
        ResolvedLive(slots, ref);
        hide Handle, Refs, FreeList, SlotGet, Evolves, Budget, SmallTable;
        var s := slots[i].(refcount := slots[i].refcount + 1);
        RefsChange(slots, i, s);
        OneRefMore(slots, i, s, freeHead, free);
        slots := slots[i := s];
      }
    }

    /** slot_free: the slot's generation changes, so that its handle dies. */
    method Free(i: nat)
      requires SmallTable(slots) && i < |slots| && slots[i].refcount == 0 && slots[i].gen + 1 < TWO32
      requires ListFrom(slots, freeHead, free) && Distinct(free) && i !in free
      requires forall j: nat :: j in free <==> j < |slots| && slots[j].refcount == 0 && j != i
      modifies this
      ensures Valid() && Outstanding() == old(Outstanding())
      ensures slots == old(slots)[i := Slot(0, old(slots)[i].gen + 1, old(freeHead), Undefined)]
      ensures freeHead == i && free == [i] + old(free)
    {
      hide Handle, Refs;
      var s := Slot(0, slots[i].gen + 1, freeHead, Undefined);
      RefsFree(slots, i, s);
      ListFrame(slots, slots[i := s], freeHead, free);
      slots := slots[i := s];
      free := [i] + free;
      assert free[1..] == old(free);
      freeHead := i;
    }

    /** kmpjs_ref_release: one outstanding release less, if the handle is live;
        the last one frees the slot. */
    method Release(ref: int)
      requires Valid() && 0 - TWO63 <= ref < TWO63
      modifies this
      ensures Valid() && Evolves(old(slots), slots)
      ensures SlotGet(old(slots), ref) < 0 ==> slots == old(slots)
      ensures SlotGet(old(slots), ref) >= 0 ==> Outstanding() + multiset{ref} == old(Outstanding())
      ensures ref !in Outstanding() ==> SlotGet(slots, ref) < 0
      ensures forall n :: 0 < n < TWO31 && old(Budget(slots, n)) ==> Budget(slots, n - 1)
    {
      hide Handle, Refs, ListFrom, SlotGet;
      var i := SlotGet(slots, ref);
      ghost var before := slots;
      if i >= 0 {
        HandleOfResolved(slots, ref);
        ResolvedLive(slots, ref);
        var s := slots[i].(refcount := slots[i].refcount - 1);
        RefsChange(slots, i, s);
        ListFrame(slots, slots[i := s], freeHead, free);
        slots := slots[i := s];
        if slots[i].refcount == 0 {
          Free(i);
        }
      }
      ResolvedIsOutstanding(slots, ref);
    }
  }

  /** kmpjs_get_stats: live_refs counts outstanding releases. */
  method GetStats(t: RefTable) returns (liveRefs: nat, refSlots: nat)
    ensures liveRefs == |t.Outstanding()| && refSlots == |t.slots|
  {
    hide Refs;
    EmptyRefs();
    var i := 0;
    liveRefs := 0;
    while i < |t.slots|
      invariant 0 <= i <= |t.slots| && liveRefs == |Refs(t.slots[..i])|
    {
      RefsSize(t.slots[..i + 1]);
      assert t.slots[..i + 1][..i] == t.slots[..i];
      liveRefs := liveRefs + t.slots[i].refcount;
      i := i + 1;
    }
    assert t.slots[..i] == t.slots;
    refSlots := |t.slots|;
  }

  /** The end of kmpjs_load_bytecode: the slot is reserved before the steps that
      cannot be undone, and the ref is made without any allocation. */
  method LoadBytecode(t: RefTable, grown: bool, relocated: bool, loaded: bool, program: Value) returns (ref: int)
    requires t.Valid()
    modifies t
    ensures t.Valid() && Evolves(old(t.slots), t.slots)
    ensures ref != 0 <==> (old(t.freeHead) >= 0 || (grown && |old(t.slots)| < INT32_MAX)) && relocated && loaded
    ensures t.Outstanding() == if ref == 0 then old(t.Outstanding()) else old(t.Outstanding()) + multiset{ref}
    ensures ref != 0 ==> exists i ::
              0 <= i < |t.slots| && ref == Handle(i, t.slots[i].gen) && t.slots[i].value == program
  {
    hide Refs, SlotGet, SmallTable, FreeList, Evolves;
    ref := 0;
    var reserved := t.Reserve(grown);
    if reserved && relocated && loaded {
      ghost var before := t.slots;
      ref := t.New(program, false);
      EvolvesTransitive(old(t.slots), before, t.slots);
    }
  }

  lemma EmptyRefs()
    ensures Refs([]) == multiset{}
  {
  }

  lemma HandleNonzero(i: nat, gen: nat)
    requires i < INT32_MAX && gen < TWO32
    ensures Handle(i, gen) != 0
  {
    HandleParts(i, gen);
  }

  lemma OneRef(i: nat, s: Slot)
    requires s.refcount == 1
    ensures SlotRefs(i, s) == multiset{Handle(i, s.gen)}
  {
  }

  lemma SameSlots(slots: seq<Slot>)
    ensures Evolves(slots, slots)
  {
  }

  lemma OneRefMore(slots: seq<Slot>, i: nat, s: Slot, head: int, list: seq<nat>)
    requires SmallTable(slots) && FreeList(slots, head, list) && i < |slots| && slots[i].refcount > 0
    requires s == slots[i].(refcount := slots[i].refcount + 1)
    ensures SmallTable(slots[i := s]) && FreeList(slots[i := s], head, list) && Evolves(slots, slots[i := s])
    ensures forall n :: 0 <= n < TWO31 && Budget(slots, n) ==> Budget(slots[i := s], n)
  {
    ListFrame(slots, slots[i := s], head, list);
    hide ListFrom;
  }

  lemma ReservedSlot(slots: seq<Slot>, s: Slot)
    requires s.refcount == 0 && |slots| < INT32_MAX
    requires forall i :: 0 <= i < |slots| ==> slots[i].refcount > 0
    requires s.nextFree == -1
    ensures FreeList(slots + [s], |slots|, [|slots|])
    ensures forall ref :: SlotGet(slots + [s], ref) == SlotGet(slots, ref)
  {
    assert [|slots|][1..] == [];
  }

  lemma FreeHead(slots: seq<Slot>, head: int, list: seq<nat>)
    requires FreeList(slots, head, list)
    ensures head >= 0 <==> |list| > 0
    ensures head >= 0 ==> list[0] == head < |slots| && slots[head].refcount == 0
  {
    if |list| > 0 {
      assert list[0] in list;
    }
  }

  lemma TakeFirst(slots: seq<Slot>, head: int, list: seq<nat>, s: Slot)
    requires FreeList(slots, head, list) && 0 <= head < |slots| && s.refcount > 0
    ensures |list| > 0 && FreeList(slots[head := s], slots[head].nextFree, list[1..])
  {
    FreeHead(slots, head, list);
    var slots' := slots[head := s];
    ListFrame(slots, slots', slots[head].nextFree, list[1..]);
    forall i: nat
      ensures i in list[1..] <==> i < |slots'| && slots'[i].refcount == 0
    {
      if i in list[1..] {
        var k :| 0 <= k < |list[1..]| && list[1..][k] == i;
        assert list[k + 1] == i && list[0] != list[k + 1];
        assert i in list;
      }
      if i < |slots'| && slots'[i].refcount == 0 {
        assert i in list && i != list[0];
        var k :| 0 <= k < |list| && list[k] == i;
        assert list[1..][k - 1] == i;
      }
    }
  }

  lemma Appended(slots: seq<Slot>, head: int, list: seq<nat>, s: Slot)
    requires FreeList(slots, head, list) && s.refcount > 0
    ensures FreeList(slots + [s], head, list)
  {
    ListFrame(slots, slots + [s], head, list);
  }
}
