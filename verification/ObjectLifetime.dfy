/** Runs of handle and lifetime operations over any objects: which handles answer, what the counters hold,
    and when an object is destroyed. */
module ObjectLifetime {
  import opened Bytes
  import opened KernelObjects
  import opened HandleTable

  const MAX_ISSUED := 0xFFFF

  /** A state of a run. `issued` lists every handle ever returned, with its `owners`; `freed` holds the positions
      in it whose count was passed to `Free`; `others` counts the lifetimes taken outside the table. */
  datatype World<T> = World(table: Table<T>, issued: seq<nat>, owners: seq<T>, freed: set<nat>,
                            store: Store<T>, others: map<T, nat>)

  /** `Free` takes any handle, whether the table returned it or not. */
  datatype Op<T> =
    Allocate(who: T) | Free(handle: nat) | Increase(who: T) | Decrease(who: T) | Register(who: T, key: nat)

  ghost predicate Allowed<T>(w: World<T>, op: Op<T>) {
    match op
    case Allocate(_) => w.table.free != [] && |w.issued| < MAX_ISSUED
    case Free(handle) => handle / INDEX_RANGE != 0
    case Increase(who) => Count(w.others, who) + 1 + SIZE < U32_LIMIT
    case Decrease(who) => Count(w.others, who) > 0
    case Register(_, _) => true
  }

  function Raised<T>(s: Store<T>, who: T): Store<T> {
    s.(counters := s.counters[who := Up(Count(s.counters, who))])
  }

  function Step<T>(w: World<T>, op: Op<T>): World<T> {
    match op
    case Allocate(who) =>
      if w.table.free == [] || w.table.free[|w.table.free| - 1] >= |w.table.items| then w else
      var r := AllocateStep(w.table, who);
      w.(table := r.0, issued := w.issued + [r.1], owners := w.owners + [who], store := Raised(w.store, who))
    case Free(handle) =>
      var r, count := FreeStep(w.table, handle), handle / INDEX_RANGE;
      w.(table := r.0, store := if r.1.Some? then Drop(w.store, r.1.value) else w.store,
         freed := if 0 < count <= |w.issued| then w.freed + {count - 1} else w.freed)
    case Increase(who) =>
      w.(store := Raised(w.store, who), others := w.others[who := Count(w.others, who) + 1])
    case Decrease(who) =>
      if Count(w.others, who) == 0 then w else
      w.(store := Drop(w.store, who), others := w.others[who := Count(w.others, who) - 1])
    case Register(who, key) => w.(store := w.store.(refs := Added(w.store.refs, key, who)))
  }

  // ---- the handles --------------------------------------------------------------------------------

  /** Handle `k` of the history carries count k + 1, and answers unless it was freed. */
  ghost predicate HandleKept<T>(w: World<T>, k: nat)
    requires k < |w.issued| && |w.owners| == |w.issued| && |w.table.items| == SIZE
  {
    var h := w.issued[k];
    && h / INDEX_RANGE == k + 1 && h % INDEX_RANGE < SIZE
    && (IsLive(w.table, h) <==> k !in w.freed)
    && (k !in w.freed ==> w.table.items[h % INDEX_RANGE].who == Some(w.owners[k]))
  }

  ghost predicate HandlesInv<T>(w: World<T>) {
    && Valid(w.table) && |w.issued| <= MAX_ISSUED && |w.owners| == |w.issued|
    && w.table.counter == (|w.issued| + 1) % COUNTER_LIMIT && CountsBelow(w.table, |w.issued| + 1)
    && (forall k :: 0 <= k < |w.issued| ==> HandleKept(w, k))
    && (forall h :: IsLive(w.table, h) ==> h in w.issued)
    && (forall k :: k in w.freed ==> k < |w.issued|)
  }

  lemma AllocateElsewhere<T>(t: Table<T>, who: T, h: nat)
    requires Valid(t) && t.free != [] && h % INDEX_RANGE < SIZE && IsLive(t, h)
    ensures t.free[|t.free| - 1] < SIZE
    ensures AllocateStep(t, who).0.items[h % INDEX_RANGE] == t.items[h % INDEX_RANGE]
  {
  }

  lemma AllocateKeepsHandles<T>(w: World<T>, who: T)
    requires HandlesInv(w) && Allowed(w, Allocate(who))
    ensures HandlesInv(Step(w, Allocate(who)))
  {
    assert w.table.free[|w.table.free| - 1] < SIZE;
    AllocateKeepsValid(w.table, who);
    var v, r := Step(w, Allocate(who)), AllocateStep(w.table, who);
    var n := |w.issued|;
    assert r.1 % INDEX_RANGE < SIZE;
    hide CountsBelow, AllocateStep;
    forall k | 0 <= k < n + 1 ensures HandleKept(v, k) {
      if k < n {
        assert HandleKept(w, k);
        if k !in w.freed {
          AllocateElsewhere(w.table, who, w.issued[k]);
        }
      } else {
        assert forall j :: j in w.freed ==> j < n;
      }
    }
  }

  /** `Free` looks at the count alone: it does what it would do for the handle issued under that count. */
  lemma FreeGoesByCount<T>(w: World<T>, handle: nat)
    requires HandlesInv(w) && 0 < handle / INDEX_RANGE <= |w.issued|
    ensures FreeStep(w.table, handle) == FreeStep(w.table, w.issued[handle / INDEX_RANGE - 1])
  {
    assert HandleKept(w, handle / INDEX_RANGE - 1);
  }

  /** A count that was never issued, or was freed, is not in use. */
  lemma DeadCountUnused<T>(w: World<T>, handle: nat)
    requires HandlesInv(w) && handle / INDEX_RANGE != 0
    requires handle / INDEX_RANGE > |w.issued| || handle / INDEX_RANGE - 1 in w.freed
    ensures FreeStep(w.table, handle) == (w.table, None)
  {
    var count := handle / INDEX_RANGE;
    var i := FindHandle(w.table.items, count);
    if i < SIZE && count <= |w.issued| {
      assert HandleKept(w, count - 1);
      PackRoundTrip(count, i);
      LiveHandleIsIssued(w, Pack(count, i));
      assert false;
    }
  }

  lemma LiveHandleIsIssued<T>(w: World<T>, h: nat)
    requires HandlesInv(w) && IsLive(w.table, h)
    ensures h / INDEX_RANGE - 1 < |w.issued| && w.issued[h / INDEX_RANGE - 1] == h
  {
    var k :| 0 <= k < |w.issued| && w.issued[k] == h;
    assert HandleKept(w, k);
  }

  lemma FreeElsewhere<T>(t: Table<T>, h: nat, other: nat)
    requires Valid(t) && IsLive(t, h) && IsLive(t, other) && h != other
    ensures FreeStep(t, h).0.items[other % INDEX_RANGE] == t.items[other % INDEX_RANGE]
  {
  }

  lemma FreeKeepsHandles<T>(w: World<T>, handle: nat)
    requires HandlesInv(w) && Allowed(w, Free(handle))
    ensures HandlesInv(Step(w, Free(handle)))
  {
    var count := handle / INDEX_RANGE;
    if count > |w.issued| || count - 1 in w.freed {
      hide HandleKept, Valid, CountsBelow, FreeStep, IsLive;
      DeadCountUnused(w, handle);
      SameHandles(w, Step(w, Free(handle)));
    } else {
      FreeGoesByCount(w, handle);
      FreeLiveKeepsHandles(w, count - 1, Step(w, Free(handle)));
    }
  }

  lemma SameHandles<T>(w: World<T>, v: World<T>)
    requires HandlesInv(w) && v.table == w.table && v.issued == w.issued && v.owners == w.owners && v.freed == w.freed
    ensures HandlesInv(v)
  {
    forall k | 0 <= k < |v.issued| ensures HandleKept(v, k) {
      assert HandleKept(w, k);
    }
  }

  lemma FreeLiveKeepsHandles<T>(w: World<T>, position: nat, v: World<T>)
    requires HandlesInv(w) && position < |w.issued| && position !in w.freed
    requires v.table == FreeStep(w.table, w.issued[position]).0 && v.freed == w.freed + {position}
    requires v.issued == w.issued && v.owners == w.owners
    ensures HandlesInv(v)
  {
    assert |w.table.items| == SIZE;
    hide Valid, CountsBelow, FreeStep, IsLive;
    var h := w.issued[position];
    assert HandleKept(w, position);
    FreeKeepsValid(w.table, h);
    FreeCounts(w.table, h, |w.issued| + 1);
    FreeKeepsSize(w.table, h);
    forall k | 0 <= k < |w.issued| ensures HandleKept(v, k) {
      assert HandleKept(w, k);
      if k !in w.freed && k != position {
        FreeElsewhere(w.table, h, w.issued[k]);
      }
    }
  }

  lemma FreeKeepsSize<T>(t: Table<T>, h: nat)
    ensures |FreeStep(t, h).0.items| == |t.items| && FreeStep(t, h).0.counter == t.counter
  {
  }

  lemma FreeCounts<T>(t: Table<T>, h: nat, bound: nat)
    requires CountsBelow(t, bound) && bound > 0
    ensures CountsBelow(FreeStep(t, h).0, bound)
  {
  }

  // ---- the counters -------------------------------------------------------------------------------

  /** An object's counter is its live handles plus the other lifetimes still out. */
  ghost predicate Conserved<T>(w: World<T>, who: T) {
    && Count(w.store.counters, who) == LiveOf(w.table.items, who) + Count(w.others, who)
    && Count(w.others, who) + SIZE < U32_LIMIT
  }

  ghost predicate Inv<T(!new)>(w: World<T>) {
    HandlesInv(w) && Ordered(w.store.refs) && forall who: T :: Conserved(w, who)
  }

  lemma {:induction false} LiveOfBound<T>(items: seq<Slot<T>>, who: T)
    ensures LiveOf(items, who) <= |items|
  {
    if items != [] {
      LiveOfBound(items[1..], who);
    }
  }

  lemma ErasedOrdered<T>(refs: seq<Ref<T>>, key: nat)
    requires Ordered(refs)
    ensures Ordered(Erased(refs, key))
  {
  }

  lemma AddedOrdered<T>(refs: seq<Ref<T>>, key: nat, who: T)
    requires Ordered(refs)
    ensures Ordered(Added(refs, key, who))
  {
    var i, r := Position(refs, key), Added(refs, key, who);
    if r != refs {
      forall j, k | 0 <= j < k < |r| ensures r[j].key < r[k].key {
        assert r[j] == if j < i then refs[j] else if j == i then Ref(key, who) else refs[j - 1];
        assert r[k] == if k < i then refs[k] else if k == i then Ref(key, who) else refs[k - 1];
      }
    }
  }

  ghost predicate Takes<T>(op: Op<T>, who: T) {
    (op.Allocate? || op.Increase?) && op.who == who
  }

  /** What a step does to the live handles and the other lifetimes of `who`. */
  lemma HoldersAfter<T>(w: World<T>, op: Op<T>, who: T)
    requires HandlesInv(w) && Allowed(w, op)
    ensures var v := Step(w, op);
      LiveOf(v.table.items, who) + Count(v.others, who) == LiveOf(w.table.items, who) + Count(w.others, who)
        + (if Takes(op, who) then 1 else 0) - (if Releases(w, op, who) then 1 else 0)
  {
    match op
    case Allocate(a) =>
      var index := w.table.free[|w.table.free| - 1];
      assert !Used(w.table, index);
      LiveOfUpdate(w.table.items, index, Slot(w.table.counter, Some(a)), who);
    case Free(handle) =>
      var i := FindHandle(w.table.items, handle / INDEX_RANGE);
      if i < SIZE {
        LiveOfUpdate(w.table.items, i, Slot(0, w.table.items[i].who), who);
      }
    case Increase(_) =>
    case Decrease(_) =>
    case Register(_, _) =>
  }

  /** The step gives up one holder of `who`. */
  ghost predicate Releases<T>(w: World<T>, op: Op<T>, who: T)
    requires Allowed(w, op)
  {
    match op
    case Free(handle) => FreeStep(w.table, handle).1 == Some(who)
    case Decrease(a) => a == who
    case _ => false
  }

  lemma ReleasedIsHeld<T>(w: World<T>, op: Op<T>, who: T)
    requires HandlesInv(w) && Allowed(w, op) && Conserved(w, who)
    ensures Releases(w, op, who) ==> 0 < Count(w.store.counters, who)
    ensures Takes(op, who) ==> Count(w.store.counters, who) + 1 < U32_LIMIT
    ensures Count(w.store.counters, who) < U32_LIMIT && Count(Step(w, op).others, who) + SIZE < U32_LIMIT
    ensures op.Allocate? ==> w.table.free[|w.table.free| - 1] < |w.table.items|
  {
    HoldersAfter(w, op, who);
    LiveOfBound(w.table.items, who);
    LiveOfBound(Step(w, op).table.items, who);
    hide LiveOf, Valid, Removed;
  }

  /** No step wraps a counter: it goes up with every holder and down with every release. */
  lemma CounterAfter<T>(w: World<T>, op: Op<T>, who: T)
    requires HandlesInv(w) && Allowed(w, op) && Conserved(w, who)
    ensures Count(Step(w, op).store.counters, who)
         == Count(w.store.counters, who) + (if Takes(op, who) then 1 else 0) - (if Releases(w, op, who) then 1 else 0)
  {
    hide HandlesInv, FreeStep, AllocateStep, Removed, LiveOf, Conserved;
    ReleasedIsHeld(w, op, who);
  }

  lemma StepKeepsInv<T(!new)>(w: World<T>, op: Op<T>)
    requires Inv(w) && Allowed(w, op)
    ensures Inv(Step(w, op))
  {
    var v := Step(w, op);
    hide HandlesInv;
    match op {
      case Allocate(a) => AllocateKeepsHandles(w, a);
      case Free(handle) => FreeKeepsHandles(w, handle);
      case _ => SameHandles(w, v);
    }
    RefsStayOrdered(w, op);
    forall who: T ensures Conserved(v, who) {
      assert Conserved(w, who);
      HoldersAfter(w, op, who);
      CounterAfter(w, op, who);
      ReleasedIsHeld(w, op, who);
      hide Step, Releases, Takes, LiveOf;
    }
  }

  lemma RefsStayOrdered<T>(w: World<T>, op: Op<T>)
    requires Ordered(w.store.refs)
    ensures Ordered(Step(w, op).store.refs)
  {
    forall who: T ensures Ordered(Removed(w.store.refs, who)) {
      ErasedOrdered(w.store.refs, KeyOf(w.store.refs, who));
    }
    if op.Register? {
      AddedOrdered(w.store.refs, op.key, op.who);
    }
  }

  // ---- runs ---------------------------------------------------------------------------------------

  function RunAll<T>(w: World<T>, ops: seq<Op<T>>): World<T>
    decreases |ops|
  {
    if ops == [] then w else RunAll(Step(w, ops[0]), ops[1..])
  }

  /** Every step of the run is allowed where it happens. */
  ghost predicate CanRun<T>(w: World<T>, ops: seq<Op<T>>)
    decreases |ops|
  {
    ops == [] || (Allowed(w, ops[0]) && CanRun(Step(w, ops[0]), ops[1..]))
  }

  /** A run is extended by a step that is allowed in the world it leads to, and goes on from there. */
  lemma {:induction false} RunMore<T>(w: World<T>, ops: seq<Op<T>>, op: Op<T>)
    ensures RunAll(w, []) == w && CanRun(w, [])
    ensures RunAll(w, ops + [op]) == Step(RunAll(w, ops), op)
    ensures CanRun(w, ops + [op]) <==> CanRun(w, ops) && Allowed(RunAll(w, ops), op)
    decreases |ops|
  {
    hide Step, Allowed;
    if ops == [] {
      assert [op][1..] == [] && [] + [op] == [op];
      assert RunAll(Step(w, op), []) == Step(w, op) && CanRun(Step(w, op), []);
    } else {
      assert (ops + [op])[1..] == ops[1..] + [op];
      RunMore(Step(w, ops[0]), ops[1..], op);
    }
  }

  function EmptyWorld<T>(): World<T> {
    World(EmptyTable(), [], [], {}, Store(map[], map[], []), map[])
  }

  lemma EmptyWorldInv<T(!new)>()
    ensures Inv(EmptyWorld<T>())
  {
    EmptyIsValid<T>();
    forall who: T ensures Conserved(EmptyWorld<T>(), who) {
      LiveOfNone(EmptyTable<T>().items, who);
    }
  }

  lemma {:induction false} AnyRunKeepsInv<T(!new)>(w: World<T>, ops: seq<Op<T>>)
    requires Inv(w) && CanRun(w, ops)
    ensures Inv(RunAll(w, ops)) && w.freed <= RunAll(w, ops).freed && w.issued <= RunAll(w, ops).issued
    decreases |ops|
  {
    if ops != [] {
      StepKeepsInv(w, ops[0]);
      hide Inv;
      AnyRunKeepsInv(Step(w, ops[0]), ops[1..]);
    }
  }

  /** After any run of at most 65535 allocations: slots are partitioned, every handle ever returned is
      distinct, it answers with its object until its count is freed, and with nothing ever after. */
  lemma HandlesAfterAnyRun<T(!new)>(ops: seq<Op<T>>, i: nat, j: nat)
    requires CanRun(EmptyWorld<T>(), ops)
    ensures var w := RunAll(EmptyWorld<T>(), ops);
      && Valid(w.table) && |w.owners| == |w.issued|
      && (i < |w.issued| ==>
           (w.issued[i] % INDEX_RANGE < SIZE
            && Lookup(w.table, w.issued[i]) == if i in w.freed then None else Some(w.owners[i])))
      && (i < j < |w.issued| ==> w.issued[i] != w.issued[j])
  {
    EmptyWorldInv<T>();
    AnyRunKeepsInv(EmptyWorld<T>(), ops);
    var w := RunAll(EmptyWorld<T>(), ops);
    assert i < |w.issued| ==> HandleKept(w, i);
    assert j < |w.issued| ==> HandleKept(w, j);
  }

  /** After any run each counter is the live handles of its object plus its other lifetimes. */
  lemma CountersAfterAnyRun<T(!new)>(ops: seq<Op<T>>, who: T)
    requires CanRun(EmptyWorld<T>(), ops)
    ensures var w := RunAll(EmptyWorld<T>(), ops);
      Count(w.store.counters, who) == LiveOf(w.table.items, who) + Count(w.others, who)
  {
    EmptyWorldInv<T>();
    AnyRunKeepsInv(EmptyWorld<T>(), ops);
    assert Conserved(RunAll(EmptyWorld<T>(), ops), who);
  }

  /** `Destroyed` runs exactly when the last holder lets go, and then leaves no registry entry exactly when
      the object had at most one. */
  lemma DestroyedWithLastHolder<T(!new)>(w: World<T>, op: Op<T>, who: T)
    requires Inv(w) && Allowed(w, op)
    ensures var v := Step(w, op);
      var last := Releases(w, op, who) && LiveOf(v.table.items, who) + Count(v.others, who) == 0;
      && Count(v.store.destroyed, who) == Count(w.store.destroyed, who) + (if last then 1 else 0)
      && (last ==> (Registrations(v.store.refs, who) == 0 <==> Registrations(w.store.refs, who) <= 1))
  {
    assert Conserved(w, who);
    StepKeepsInv(w, op);
    assert Conserved(Step(w, op), who);
    CounterAfter(w, op, who);
    RemovedCleanIff(w.store.refs, who);
    hide Inv, HandlesInv, Removed, Registrations, LiveOf, FreeStep, AllocateStep, Added;
  }

  // ---- closing the table --------------------------------------------------------------------------

  lemma SlotAt<T>(t: Table<T>, i: nat, who: T)
    requires Valid(t) && i < SIZE
    ensures i in t.free <==> !Used(t, i)
    ensures i !in t.free ==> t.items[i].who.Some?
    ensures LiveOf(t.items[i..], who)
         == (if Used(t, i) && t.items[i].who == Some(who) then 1 else 0) + LiveOf(t.items[i + 1..], who)
  {
    assert t.items[i..][1..] == t.items[i + 1..];
  }

  lemma DropCounts<T>(s: Store<T>, a: T, who: T)
    ensures Count(Drop(s, a).counters, who) == if a == who then Down(Count(s.counters, who)) else Count(s.counters, who)
  {
  }

  lemma {:induction false} CloseReleases<T>(t: Table<T>, i: nat, store: Store<T>, who: T)
    requires Valid(t) && i <= SIZE && |t.items| == SIZE
    requires LiveOf(t.items[i..], who) <= Count(store.counters, who) < U32_LIMIT
    ensures Count(CloseFrom(t, i, store).counters, who) == Count(store.counters, who) - LiveOf(t.items[i..], who)
    decreases SIZE - i
  {
    if i < SIZE {
      hide Valid, LiveOf, Drop, Count, Used;
      SlotAt(t, i, who);
      if i in t.free {
        CloseReleases(t, i + 1, store, who);
      } else {
        var a := t.items[i].who.value;
        DropCounts(store, a, who);
        CloseReleases(t, i + 1, Drop(store, a), who);
      }
    }
  }

  lemma DropDestroys<T>(s: Store<T>, a: T, who: T)
    ensures Count(Drop(s, a).destroyed, who)
         == Count(s.destroyed, who) + if a == who && Down(Count(s.counters, who)) == 0 then 1 else 0
  {
  }

  /** Closing destroys an object when it held live handles and nothing else. */
  lemma {:induction false} CloseDestroys<T>(t: Table<T>, i: nat, store: Store<T>, who: T)
    requires Valid(t) && i <= SIZE && |t.items| == SIZE
    requires LiveOf(t.items[i..], who) <= Count(store.counters, who) < U32_LIMIT
    ensures Count(CloseFrom(t, i, store).destroyed, who) == Count(store.destroyed, who)
         + if 0 < LiveOf(t.items[i..], who) == Count(store.counters, who) then 1 else 0
    decreases SIZE - i
  {
    hide Valid, LiveOf, Drop, Count, Used, Down;
    if i < SIZE {
      SlotAt(t, i, who);
      if i in t.free {
        CloseDestroys(t, i + 1, store, who);
      } else {
        var a := t.items[i].who.value;
        DropCounts(store, a, who);
        DropDestroys(store, a, who);
        OneDown(Count(store.counters, who), LiveOf(t.items[i + 1..], who));
        CloseDestroys(t, i + 1, Drop(store, a), who);
      }
    } else {
      NoneLeft(t, who);
    }
  }

  /** Releasing one of `live + 1` handles: the counter comes to zero now, or with the last of the others. */
  lemma OneDown(counter: nat, live: nat)
    requires counter < U32_LIMIT
    ensures live < counter ==>
      && live <= Down(counter) < U32_LIMIT
      && (if Down(counter) == 0 then 1 else 0) + (if 0 < live == Down(counter) then 1 else 0)
         == if live + 1 == counter then 1 else 0
  {
  }

  lemma NoneLeft<T>(t: Table<T>, who: T)
    requires |t.items| == SIZE
    ensures LiveOf(t.items[SIZE..], who) == 0
  {
  }

  /** `CloseAll` after any run: each live handle is released exactly once, so only the other lifetimes
      remain, an object is destroyed exactly when it had a live handle and no other lifetime, and no slot is
      active. */
  lemma CloseAllReleasesOnce<T(!new)>(w: World<T>, who: T)
    requires Inv(w)
    ensures Count(CloseFrom(w.table, 0, w.store).counters, who) == Count(w.others, who)
    ensures var r := CloseStep(w.table); |r.items| - |r.free| == 0 && Distinct(r.free)
    ensures UsesOf(w.table, SIZE, who) == LiveOf(w.table.items, who)
    ensures Count(CloseFrom(w.table, 0, w.store).destroyed, who) == Count(w.store.destroyed, who)
         + if LiveOf(w.table.items, who) > 0 && Count(w.others, who) == 0 then 1 else 0
  {
    assert Conserved(w, who);
    LiveOfBound(w.table.items, who);
    CloseFreesAll(w.table);
    assert w.table.items[0..] == w.table.items && w.table.items[..SIZE] == w.table.items;
    CloseReleases(w.table, 0, w.store, who);
    CloseDestroys(w.table, 0, w.store, who);
    UsesAreLive(w.table, SIZE, who);
  }
}
