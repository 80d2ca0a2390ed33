/** The handle table: 1024 slots, a free list, a 16-bit counter, and handles that pack both. */
module HandleTable {
  import opened Bytes
  import opened KernelObjects

  const SIZE := 1024
  const INDEX_RANGE := 0x8000
  const COUNTER_LIMIT := 0x1_0000

  datatype Option<+T> = None | Some(value: T)

  /** A slot; its object stays behind when the handle is freed. */
  datatype Slot<T> = Slot(handle: nat, who: Option<T>)

  datatype Table<T> = Table(items: seq<Slot<T>>, free: seq<nat>, counter: nat)

  function EmptyTable<T>(): Table<T> {
    Table(seq(SIZE, _ => Slot(0, None)), seq(SIZE, i => i), 1)
  }

  // ---- packing ----------------------------------------------------------------------------------

  function Pack(count: nat, index: nat): nat {
    count * INDEX_RANGE + index
  }

  lemma PackRoundTrip(count: nat, index: nat)
    requires index < INDEX_RANGE
    ensures Pack(count, index) / INDEX_RANGE == count && Pack(count, index) % INDEX_RANGE == index
  {
  }

  // ---- the operations -----------------------------------------------------------------------------

  function AllocateStep<T>(t: Table<T>, who: T): (r: (Table<T>, nat))
    requires t.free != [] && t.free[|t.free| - 1] < |t.items|
  {
    var index := t.free[|t.free| - 1];
    (Table(t.items[index := Slot(t.counter, Some(who))], t.free[..|t.free| - 1], (t.counter + 1) % COUNTER_LIMIT),
     Pack(t.counter, index))
  }

  /** The first slot with a given handle count, from the front. */
  function FindHandle<T>(items: seq<Slot<T>>, count: nat): (i: nat)
    ensures i <= |items|
    ensures forall j :: 0 <= j < i ==> items[j].handle != count
    ensures i < |items| ==> items[i].handle == count
  {
    if items == [] || items[0].handle == count then 0 else
      var i := FindHandle(items[1..], count);
      assert forall j :: 0 < j < |items| ==> items[j] == items[1..][j - 1];
      1 + i
  }

  /** Only the count half of the handle is looked at. */
  function FreeStep<T>(t: Table<T>, handle: nat): (r: (Table<T>, Option<T>)) {
    var i := FindHandle(t.items, handle / INDEX_RANGE);
    if i == |t.items| then (t, None)
    else (t.(items := t.items[i := Slot(0, t.items[i].who)], free := t.free + [i]), t.items[i].who)
  }

  function Lookup<T>(t: Table<T>, handle: nat): Option<T>
    requires handle % INDEX_RANGE < |t.items|
  {
    var slot := t.items[handle % INDEX_RANGE];
    if slot.handle != handle / INDEX_RANGE then None else slot.who
  }

  // ---- the invariant ------------------------------------------------------------------------------

  predicate Used<T>(t: Table<T>, i: nat)
    requires i < |t.items|
  {
    t.items[i].handle != 0
  }

  ghost predicate Distinct(s: seq<nat>) {
    forall i, j :: 0 <= i < j < |s| ==> s[i] != s[j]
  }

  /** Free slots and used slots partition the table, without duplicates; used slots carry distinct counts
      that were handed out before. */
  ghost predicate Valid<T>(t: Table<T>) {
    && |t.items| == SIZE && Distinct(t.free)
    && (forall k :: 0 <= k < |t.free| ==> t.free[k] < SIZE && !Used(t, t.free[k]))
    && (forall i :: 0 <= i < SIZE && !Used(t, i) ==> i in t.free)
    && (forall i :: 0 <= i < SIZE && Used(t, i) ==> t.items[i].who.Some?)
    && (forall i, j :: 0 <= i < j < SIZE && Used(t, i) ==> t.items[i].handle != t.items[j].handle)
  }

  /** Every used count is below `bound`. */
  ghost predicate CountsBelow<T>(t: Table<T>, bound: nat) {
    forall i :: 0 <= i < |t.items| ==> t.items[i].handle < bound
  }

  ghost predicate IsLive<T>(t: Table<T>, handle: nat) {
    handle % INDEX_RANGE < |t.items| && handle / INDEX_RANGE != 0
    && t.items[handle % INDEX_RANGE].handle == handle / INDEX_RANGE
  }

  lemma EmptyIsValid<T>()
    ensures Valid(EmptyTable<T>()) && CountsBelow(EmptyTable<T>(), 1)
    ensures forall handle :: !IsLive(EmptyTable<T>(), handle)
  {
    var t := EmptyTable<T>();
    forall i | 0 <= i < SIZE ensures i in t.free {
      assert t.free[i] == i;
    }
  }

  /** For handles with a non-zero count, a lookup succeeds exactly on the live ones. */
  lemma LookupFindsLive<T>(t: Table<T>, handle: nat)
    requires Valid(t) && handle / INDEX_RANGE != 0 && handle % INDEX_RANGE < SIZE
    ensures Lookup(t, handle).Some? <==> IsLive(t, handle)
    ensures IsLive(t, handle) ==> Lookup(t, handle) == t.items[handle % INDEX_RANGE].who
  {
  }

  /** With a zero count the table answers with whatever object the free slot was left with. */
  lemma LookupOfZeroCount<T>(t: Table<T>, index: nat)
    requires Valid(t) && index < SIZE
    ensures Lookup(t, index) == if Used(t, index) then None else t.items[index].who
  {
  }

  lemma AllocateKeepsValid<T>(t: Table<T>, who: T)
    requires Valid(t) && t.free != [] && 0 < t.counter < COUNTER_LIMIT && CountsBelow(t, t.counter)
    ensures var r := AllocateStep(t, who);
      && Valid(r.0) && CountsBelow(r.0, t.counter + 1)
      && IsLive(r.0, r.1) && r.0.items[r.1 % INDEX_RANGE].who == Some(who) && r.1 / INDEX_RANGE == t.counter
      && (forall handle :: IsLive(r.0, handle) <==> IsLive(t, handle) || handle == r.1)
  {
    AllocateKeepsSlots(t, who);
    AllocateAddsLive(t, who);
    hide Valid, CountsBelow, IsLive, AllocateStep;
  }

  lemma AllocateKeepsSlots<T>(t: Table<T>, who: T)
    requires Valid(t) && t.free != [] && 0 < t.counter < COUNTER_LIMIT && CountsBelow(t, t.counter)
    ensures var r := AllocateStep(t, who); Valid(r.0) && CountsBelow(r.0, t.counter + 1)
  {
  }

  lemma AllocateAddsLive<T>(t: Table<T>, who: T)
    requires Valid(t) && t.free != [] && t.counter > 0
    ensures var r := AllocateStep(t, who);
      && IsLive(r.0, r.1) && r.0.items[r.1 % INDEX_RANGE].who == Some(who) && r.1 / INDEX_RANGE == t.counter
      && (forall handle :: IsLive(r.0, handle) <==> IsLive(t, handle) || handle == r.1)
  {
    PackRoundTrip(t.counter, t.free[|t.free| - 1]);
    assert !Used(t, t.free[|t.free| - 1]);
    hide Valid;
  }

  lemma FreeKeepsSlots<T>(t: Table<T>, handle: nat)
    requires Valid(t) && handle / INDEX_RANGE != 0
    ensures Valid(FreeStep(t, handle).0)
  {
  }

  /** A free removes exactly the live handle that carries its count. */
  lemma FreeRemovesIff<T>(t: Table<T>, handle: nat, h: nat)
    requires Valid(t) && handle / INDEX_RANGE != 0
    ensures IsLive(FreeStep(t, handle).0, h) <==> IsLive(t, h) && h / INDEX_RANGE != handle / INDEX_RANGE
  {
  }

  lemma LiveWithCount<T>(t: Table<T>, handle: nat, h: nat)
    requires Valid(t) && IsLive(t, handle) && IsLive(t, h)
    ensures h / INDEX_RANGE == handle / INDEX_RANGE <==> h == handle
    ensures FindHandle(t.items, handle / INDEX_RANGE) == handle % INDEX_RANGE
  {
  }

  /** Freeing a live handle frees its slot. */
  lemma FreeKeepsValid<T>(t: Table<T>, handle: nat)
    requires Valid(t) && handle / INDEX_RANGE != 0
    ensures var r := FreeStep(t, handle); Valid(r.0)
    ensures IsLive(t, handle) ==> var r := FreeStep(t, handle);
      && r.1 == t.items[handle % INDEX_RANGE].who && r.1.Some?
      && (forall h :: IsLive(r.0, h) <==> IsLive(t, h) && h != handle)
  {
    FreeKeepsSlots(t, handle);
    if IsLive(t, handle) {
      LiveWithCount(t, handle, handle);
      LookupFindsLive(t, handle);
      hide Valid;
      forall h ensures IsLive(FreeStep(t, handle).0, h) <==> IsLive(t, h) && h != handle {
        FreeRemovesIff(t, handle, h);
        if IsLive(t, h) {
          LiveWithCount(t, handle, h);
        }
      }
    }
  }

  /** Freeing again, or freeing any handle whose count is not in use, does nothing. */
  lemma FreeTwiceIsNoOp<T>(t: Table<T>, handle: nat)
    requires Valid(t) && handle / INDEX_RANGE != 0 && IsLive(t, handle)
    ensures var once := FreeStep(t, handle).0; FreeStep(once, handle) == (once, None)
  {
  }

  /** A free removes a live handle other than its argument exactly when its count sits in another slot than the one
      its index names. */
  lemma FreeHitsAnotherIff<T>(t: Table<T>, handle: nat)
    requires Valid(t) && handle / INDEX_RANGE != 0
    ensures (exists h: nat :: IsLive(t, h) && h != handle && !IsLive(FreeStep(t, handle).0, h))
       <==> (exists i :: 0 <= i < SIZE && i != handle % INDEX_RANGE && t.items[i].handle == handle / INDEX_RANGE)
  {
    hide FreeStep;
    var count := handle / INDEX_RANGE;
    if h: nat :| IsLive(t, h) && h != handle && !IsLive(FreeStep(t, handle).0, h) {
      FreeRemovesIff(t, handle, h);
      assert t.items[h % INDEX_RANGE].handle == count;
    }
    if i :| 0 <= i < SIZE && i != handle % INDEX_RANGE && t.items[i].handle == count {
      PackRoundTrip(count, i);
      FreeRemovesIff(t, handle, Pack(count, i));
    }
  }

  /** A handle that the table never returned frees the first one that it did return. */
  lemma ForgedHandleFrees<T>(who: T)
    ensures var r := AllocateStep(EmptyTable(), who);
      && r.1 == Pack(1, 1023) != Pack(1, 0)
      && Lookup(r.0, r.1) == Some(who) && Lookup(FreeStep(r.0, Pack(1, 0)).0, r.1) == None
  {
    EmptyIsValid<T>();
    AllocateKeepsValid(EmptyTable(), who);
    var r := AllocateStep(EmptyTable(), who);
    FreeRemovesIff(r.0, Pack(1, 0), r.1);
  }

  // ---- which slot comes next --------------------------------------------------------------------

  /** A freed slot is the next one to be handed out. */
  lemma FreedSlotIsNext<T>(t: Table<T>, handle: nat, who: T)
    requires Valid(t) && IsLive(t, handle)
    ensures var u := FreeStep(t, handle).0;
      && u.free != [] && u.free[|u.free| - 1] < |u.items|
      && AllocateStep(u, who).1 % 0x8000 == handle % 0x8000 && AllocateStep(u, who).1 / 0x8000 == t.counter
  {
    FreeKeepsSlots(t, handle);
    LiveWithCount(t, handle, handle);
    PackRoundTrip(t.counter, handle % INDEX_RANGE);
    hide Valid;
  }

  datatype Use<T> = Take(who: T) | Give(handle: nat)

  /** An allocation needs a free slot above the `depth` lowest ones. */
  predicate Usable<T>(t: Table<T>, use: Use<T>, depth: nat) {
    use.Take? ==> |t.free| > depth && t.free[|t.free| - 1] < |t.items|
  }

  function UseStep<T>(t: Table<T>, use: Use<T>): Table<T>
    requires Usable(t, use, 0)
  {
    match use
    case Take(who) => AllocateStep(t, who).0
    case Give(handle) => FreeStep(t, handle).0
  }

  /** The run never takes one of the `depth` lowest free slots. */
  ghost predicate StaysAbove<T>(t: Table<T>, uses: seq<Use<T>>, depth: nat)
    decreases |uses|
  {
    uses == [] || (Usable(t, uses[0], depth) && StaysAbove(UseStep(t, uses[0]), uses[1..], depth))
  }

  ghost function UseAll<T>(t: Table<T>, uses: seq<Use<T>>, depth: nat): Table<T>
    requires StaysAbove(t, uses, depth)
    decreases |uses|
  {
    if uses == [] then t else UseAll(UseStep(t, uses[0]), uses[1..], depth)
  }

  /** A run is extended by a use for which the table it leads to has a slot, and goes on from there. */
  lemma {:induction false} UseMore<T>(t: Table<T>, uses: seq<Use<T>>, use: Use<T>, depth: nat)
    requires StaysAbove(t, uses, depth) && Usable(UseAll(t, uses, depth), use, depth)
    ensures StaysAbove(t, uses + [use], depth)
    ensures UseAll(t, uses + [use], depth) == UseStep(UseAll(t, uses, depth), use)
    decreases |uses|
  {
    hide UseStep;
    if uses == [] {
      var u := UseStep(t, use);
      assert [use][1..] == [] && [] + [use] == [use];
      assert StaysAbove(u, [], depth) && UseAll(u, [], depth) == u;
    } else {
      assert (uses + [use])[1..] == uses[1..] + [use];
      UseMore(UseStep(t, uses[0]), uses[1..], use, depth);
    }
  }

  /** ... so those slots stay where they were. */
  lemma {:induction false} BottomStays<T>(t: Table<T>, uses: seq<Use<T>>, bottom: seq<nat>)
    requires bottom <= t.free && StaysAbove(t, uses, |bottom|)
    ensures bottom <= UseAll(t, uses, |bottom|).free && |UseAll(t, uses, |bottom|).items| == |t.items|
    decreases |uses|
  {
    if uses != [] {
      var u := UseStep(t, uses[0]);
      assert bottom <= u.free && |u.items| == |t.items| by { StepKeepsBottom(t, uses[0], bottom); }
      BottomStays(u, uses[1..], bottom);
    }
  }

  lemma StepKeepsBottom<T>(t: Table<T>, use: Use<T>, bottom: seq<nat>)
    requires bottom <= t.free && Usable(t, use, |bottom|)
    ensures bottom <= UseStep(t, use).free && |UseStep(t, use).items| == |t.items|
  {
    hide FindHandle;
  }

  /** Last freed, first reused: after a handle was freed and any later run has taken as many slots as it gave back,
      without touching the slots below, the next allocation gets the slot of that handle. */
  lemma LastFreedFirst<T>(t: Table<T>, handle: nat, uses: seq<Use<T>>, who: T)
    requires Valid(t) && IsLive(t, handle)
    requires var u := FreeStep(t, handle).0; StaysAbove(u, uses, |t.free| + 1)
    requires |UseAll(FreeStep(t, handle).0, uses, |t.free| + 1).free| == |t.free| + 1
    ensures var v := UseAll(FreeStep(t, handle).0, uses, |t.free| + 1);
      && v.free[|v.free| - 1] < |v.items| && AllocateStep(v, who).1 % 0x8000 == handle % 0x8000
  {
    var u := FreeStep(t, handle).0;
    LiveWithCount(t, handle, handle);
    assert u.free == t.free + [handle % INDEX_RANGE] && |u.items| == SIZE;
    hide Valid, IsLive, FreeStep, StaysAbove, UseAll;
    BottomStays(u, uses, u.free);
    var v := UseAll(u, uses, |u.free|);
    assert v.free == u.free;
    PackRoundTrip(v.counter, handle % INDEX_RANGE);
  }

  /** An allocation whose handle is freed again is such a run. */
  lemma TakeAndGive<T>(t: Table<T>, depth: nat, who: T)
    requires Valid(t) && |t.free| > depth && 0 < t.counter && CountsBelow(t, t.counter)
    ensures t.free[|t.free| - 1] < |t.items|
    ensures var uses := [Take(who), Give(AllocateStep(t, who).1)];
      StaysAbove(t, uses, depth) && UseAll(t, uses, depth).free == t.free
  {
    NewestFound(t, who);
    hide Valid, CountsBelow, FindHandle;
    var u := AllocateStep(t, who).0;
    var give := Give(AllocateStep(t, who).1);
    var v := UseStep(u, give);
    assert v.free == t.free[..|t.free| - 1] + [t.free[|t.free| - 1]] == t.free;
    var uses := [Take(who), give];
    assert uses[1..] == [give] && uses[1..][1..] == [];
    assert StaysAbove(v, [], depth) && UseAll(v, [], depth) == v;
    assert StaysAbove(u, uses[1..], depth) && UseAll(u, uses[1..], depth) == v;
  }

  lemma NewestFound<T>(t: Table<T>, who: T)
    requires Valid(t) && t.free != [] && CountsBelow(t, t.counter)
    ensures var r := AllocateStep(t, who); FindHandle(r.0.items, r.1 / INDEX_RANGE) == t.free[|t.free| - 1]
  {
    var r, index := AllocateStep(t, who), t.free[|t.free| - 1];
    PackRoundTrip(t.counter, index);
    var i := FindHandle(r.0.items, t.counter);
    assert r.0.items[index].handle == t.counter;
    assert forall j :: 0 <= j < |t.items| && j != index ==> r.0.items[j] == t.items[j];
  }

  /** The handles freed one after the other. */
  function FreeAll<T>(t: Table<T>, handles: seq<nat>): Table<T> {
    if handles == [] then t
    else FreeStep(FreeAll(t, handles[..|handles| - 1]), handles[|handles| - 1]).0
  }

  function SlotsOf(handles: seq<nat>): (r: seq<nat>) {
    seq(|handles|, i requires 0 <= i < |handles| => handles[i] % 0x8000)
  }

  /** `u` is `t` with the handles freed: their slots lie on the free list in this order, and no others are gone. */
  ghost predicate Freed<T>(t: Table<T>, handles: seq<nat>, u: Table<T>) {
    && Valid(u) && u.free == t.free + SlotsOf(handles)
    && forall h :: IsLive(u, h) <==> IsLive(t, h) && h !in handles
  }

  lemma FreedMore<T>(t: Table<T>, handles: seq<nat>, u: Table<T>, h: nat)
    requires Freed(t, handles, u) && IsLive(t, h) && h !in handles
    ensures Freed(t, handles + [h], FreeStep(u, h).0)
  {
    hide Valid, IsLive, FreeStep;
    FreedOneMore(u, h);
    assert SlotsOf(handles + [h]) == SlotsOf(handles) + [h % 0x8000];
  }

  lemma {:induction false} FreedInOrder<T>(t: Table<T>, handles: seq<nat>)
    requires Valid(t) && Distinct(handles) && forall h :: h in handles ==> IsLive(t, h)
    ensures Freed(t, handles, FreeAll(t, handles))
  {
    hide Valid, IsLive, Distinct, FreeStep;
    if handles == [] {
      assert t.free + SlotsOf([]) == t.free;
    } else {
      hide Freed;
      var h, front := handles[|handles| - 1], handles[..|handles| - 1];
      FrontDistinct(handles);
      FreedInOrder(t, front);
      FreedMore(t, front, FreeAll(t, front), h);
      assert handles == front + [h];
    }
  }

  lemma FrontDistinct(s: seq<nat>)
    requires s != [] && Distinct(s)
    ensures Distinct(s[..|s| - 1]) && s[|s| - 1] !in s[..|s| - 1]
  {
  }

  lemma FreedOneMore<T>(t: Table<T>, handle: nat)
    requires Valid(t) && IsLive(t, handle)
    ensures var u := FreeStep(t, handle).0;
      && Valid(u) && u.free == t.free + [handle % 0x8000]
      && forall h :: IsLive(u, h) <==> IsLive(t, h) && h != handle
  {
    LiveCounts(t, handle);
    FreeKeepsSlots(t, handle);
    LiveWithCount(t, handle, handle);
    forall h ensures IsLive(FreeStep(t, handle).0, h) <==> IsLive(t, h) && h != handle {
      FreeRemovesIff(t, handle, h);
      if IsLive(t, h) {
        LiveWithCount(t, handle, h);
      }
    }
    hide Valid, IsLive;
  }

  lemma LiveCounts<T>(t: Table<T>, handle: nat)
    requires IsLive(t, handle)
    ensures handle / INDEX_RANGE != 0 && handle % INDEX_RANGE < |t.items|
  {
  }

  /** There are `n` slots to hand out. */
  predicate Grantable<T>(t: Table<T>, n: nat) {
    n <= |t.free| && forall k :: 0 <= k < |t.free| ==> t.free[k] < |t.items| <= SIZE
  }

  /** The handles that allocations in a row return. */
  function Granted<T>(t: Table<T>, whos: seq<T>): (r: seq<nat>)
    requires Grantable(t, |whos|)
    ensures |r| == |whos|
    decreases |whos|
  {
    if whos == [] then [] else
      var r := AllocateStep(t, whos[0]);
      [r.1] + Granted(r.0, whos[1..])
  }

  lemma {:induction false} GrantedSlots<T>(t: Table<T>, whos: seq<T>, i: nat)
    requires Grantable(t, |whos|) && i < |whos|
    ensures Granted(t, whos)[i] % 0x8000 == t.free[|t.free| - 1 - i]
    decreases |whos|
  {
    var r := AllocateStep(t, whos[0]);
    if i == 0 {
      PackRoundTrip(t.counter, t.free[|t.free| - 1]);
    } else {
      GrantedSlots(r.0, whos[1..], i - 1);
    }
  }

  /** Slots freed one after the other are handed out again in the opposite order. */
  lemma ReusedInReverse<T>(t: Table<T>, handles: seq<nat>, whos: seq<T>, i: nat)
    requires Valid(t) && Distinct(handles) && forall h :: h in handles ==> IsLive(t, h)
    requires i < |whos| == |handles|
    ensures var u := FreeAll(t, handles);
      && |u.free| == |t.free| + |whos| && Grantable(u, |whos|)
      && Granted(u, whos)[i] % 0x8000 == handles[|handles| - 1 - i] % 0x8000
  {
    hide *;
    FreedSlots(t, handles, i);
    GrantedSlots(FreeAll(t, handles), whos, i);
  }

  lemma FreedSlots<T>(t: Table<T>, handles: seq<nat>, i: nat)
    requires Valid(t) && Distinct(handles) && forall h :: h in handles ==> IsLive(t, h)
    requires i < |handles|
    ensures var u := FreeAll(t, handles);
      && |u.free| == |t.free| + |handles| && Grantable(u, |handles|)
      && u.free[|u.free| - 1 - i] == handles[|handles| - 1 - i] % 0x8000
  {
    hide IsLive, FreeAll, Distinct, Valid, Grantable;
    FreedInOrder(t, handles);
    FreeFits(FreeAll(t, handles), |handles|);
  }

  lemma FreeFits<T>(t: Table<T>, n: nat)
    requires Valid(t) && n <= |t.free|
    ensures Grantable(t, n)
  {
  }

  /** `n` allocations in a row from a new table. */
  function Fresh<T>(whos: seq<T>): (t: Table<T>)
    requires |whos| <= 1024
    ensures |t.items| == 1024 && t.free == seq(1024 - |whos|, i => i) && t.counter == 1 + |whos|
  {
    if whos == [] then EmptyTable()
    else
      var t := Fresh(whos[..|whos| - 1]);
      assert t.free[..|t.free| - 1] == seq(1024 - |whos|, i => i);
      AllocateStep(t, whos[|whos| - 1]).0
  }

  /** The next one gets the next lower slot: 1023 first, then 1022, and so on; and the next count. */
  lemma FreshCountsDown<T>(whos: seq<T>, who: T)
    requires |whos| < 1024
    ensures var t := Fresh(whos);
      AllocateStep(t, who).1 == (1 + |whos|) * 0x8000 + (1023 - |whos|) && AllocateStep(t, who).0 == Fresh(whos + [who])
  {
    hide Fresh;
    var t := Fresh(whos);
    assert t.free[|t.free| - 1] == 1023 - |whos|;
    FreshMore(whos, who);
  }

  lemma FreshMore<T>(whos: seq<T>, who: T)
    requires |whos| < 1024
    ensures Fresh(whos + [who]) == AllocateStep(Fresh(whos), who).0
  {
    var more := whos + [who];
    assert more[..|more| - 1] == whos && more[|more| - 1] == who;
  }

  // ---- how many live handles an object has ------------------------------------------------------

  function LiveOf<T(==)>(items: seq<Slot<T>>, who: T): nat {
    if items == [] then 0
    else (if items[0].handle != 0 && items[0].who == Some(who) then 1 else 0) + LiveOf(items[1..], who)
  }

  lemma {:induction false} LiveOfUpdate<T>(items: seq<Slot<T>>, i: nat, slot: Slot<T>, who: T)
    requires i < |items|
    ensures LiveOf(items[i := slot], who) + (if items[i].handle != 0 && items[i].who == Some(who) then 1 else 0)
         == LiveOf(items, who) + (if slot.handle != 0 && slot.who == Some(who) then 1 else 0)
  {
    var after := items[i := slot];
    if i == 0 {
      assert after[1..] == items[1..];
    } else {
      assert after[1..] == items[1..][i - 1 := slot];
      LiveOfUpdate(items[1..], i - 1, slot, who);
    }
  }

  lemma {:induction false} LiveOfNone<T>(items: seq<Slot<T>>, who: T)
    requires forall i :: 0 <= i < |items| ==> items[i].handle == 0
    ensures LiveOf(items, who) == 0
  {
    if items != [] {
      LiveOfNone(items[1..], who);
    }
  }

  // ---- closing ------------------------------------------------------------------------------------

  /** The slots from `i` on that were not free, in order. */
  function UsedFrom<T>(t: Table<T>, i: nat): (r: seq<nat>)
    requires i <= |t.items|
    decreases |t.items| - i
  {
    if i == |t.items| then [] else (if i in t.free then [] else [i]) + UsedFrom(t, i + 1)
  }

  /** `CloseAll` puts every other slot on the free list; handles and objects stay in the slots. */
  function CloseStep<T>(t: Table<T>): Table<T> {
    t.(free := t.free + UsedFrom(t, 0))
  }

  lemma {:induction false} UsedFromMembers<T>(t: Table<T>, i: nat)
    requires Valid(t) && i <= SIZE
    ensures forall k :: k in UsedFrom(t, i) <==> i <= k < SIZE && Used(t, k)
    ensures Distinct(UsedFrom(t, i))
    decreases SIZE - i
  {
    if i < SIZE {
      UsedFromMembers(t, i + 1);
      var rest := UsedFrom(t, i + 1);
      assert forall k :: 0 <= k < |rest| ==> rest[k] in rest;
    }
  }

  function Below(n: nat): (r: set<nat>)
    ensures |r| == n && forall k: nat :: k in r <==> k < n
  {
    if n == 0 then {} else Below(n - 1) + {n - 1}
  }

  function Elements(s: seq<nat>): (r: set<nat>)
    ensures forall k :: k in r <==> k in s
  {
    if s == [] then {} else Elements(s[1..]) + {s[0]}
  }

  lemma {:induction false} DistinctCard(s: seq<nat>)
    requires Distinct(s)
    ensures |Elements(s)| == |s|
  {
    if s != [] {
      DistinctCard(s[1..]);
      assert s[0] !in s[1..];
    }
  }

  lemma DistinctRange(s: seq<nat>, n: nat)
    requires Distinct(s) && forall k: nat :: k in s <==> k < n
    ensures |s| == n
  {
    assert Elements(s) == Below(n);
    DistinctCard(s);
  }

  /** After `CloseAll` every slot is on the free list exactly once, so no slot is active. */
  lemma CloseFreesAll<T>(t: Table<T>)
    requires Valid(t)
    ensures var r := CloseStep(t); Distinct(r.free) && |r.free| == SIZE
  {
    UsedFromMembers(t, 0);
    var r := CloseStep(t);
    assert forall k :: 0 <= k < |t.free| ==> t.free[k] in t.free;
    assert forall k :: 0 <= k < |UsedFrom(t, 0)| ==> UsedFrom(t, 0)[k] in UsedFrom(t, 0);
    forall k: nat ensures k in r.free <==> k < SIZE {
      if k < SIZE && !Used(t, k) {
        assert k in t.free;
      }
    }
    DistinctRange(r.free, SIZE);
  }

  // ---- counting the slots in use ------------------------------------------------------------------

  ghost function UsedSlots<T>(t: Table<T>): set<nat> {
    set i: nat | i < |t.items| && Used(t, i)
  }

  lemma Parted(a: set<nat>, b: set<nat>, n: nat)
    requires forall k :: k in a ==> k < n
    requires forall k: nat :: k in b <==> k < n && k !in a
    ensures |a| + |b| == n
  {
    assert a !! b && a + b == Below(n);
  }

  /** The slots in use are the ones that are not on the free list. */
  lemma ActiveSlotsAreUsed<T>(t: Table<T>)
    requires Valid(t)
    ensures |t.items| - |t.free| == |UsedSlots(t)|
  {
    SizeOfValid(t);
    hide Valid, Elements, Used;
    DistinctCard(t.free);
    forall k: nat ensures k in t.free <==> k < SIZE && !Used(t, k) {
      FreeOrUsed(t, k);
    }
    Parted(Elements(t.free), UsedSlots(t), SIZE);
  }

  lemma FreeOrUsed<T>(t: Table<T>, k: nat)
    requires Valid(t)
    ensures |t.items| == SIZE && (k in t.free <==> k < SIZE && !Used(t, k))
  {
  }

  lemma SizeOfValid<T>(t: Table<T>)
    requires Valid(t)
    ensures |t.items| == SIZE && Distinct(t.free)
  {
  }

  // ---- the object ---------------------------------------------------------------------------------

  function DownBy(counter: nat, n: nat): nat {
    if n == 0 then counter else Down(DownBy(counter, n - 1))
  }

  /** How many of the first `i` slots are in use for `who`. */
  function UsesOf<T(==)>(t: Table<T>, i: nat, who: T): nat
    requires i <= |t.items|
  {
    if i == 0 then 0
    else UsesOf(t, i - 1, who) + if i - 1 !in t.free && t.items[i - 1].who == Some(who) then 1 else 0
  }

  lemma {:induction false} LiveOfConcat<T>(a: seq<Slot<T>>, b: seq<Slot<T>>, who: T)
    ensures LiveOf(a + b, who) == LiveOf(a, who) + LiveOf(b, who)
  {
    if a == [] {
      assert a + b == b;
    } else {
      assert (a + b)[1..] == a[1..] + b;
      LiveOfConcat(a[1..], b, who);
    }
  }

  /** The slots that closing releases are the live handles of the object. */
  lemma {:induction false} UsesAreLive<T>(t: Table<T>, i: nat, who: T)
    requires Valid(t) && i <= SIZE
    ensures UsesOf(t, i, who) == LiveOf(t.items[..i], who)
  {
    if i > 0 {
      UsesAreLive(t, i - 1, who);
      assert t.items[..i] == t.items[..i - 1] + [t.items[i - 1]] && [t.items[i - 1]][1..] == [];
      LiveOfConcat(t.items[..i - 1], [t.items[i - 1]], who);
      assert i - 1 in t.free <==> !Used(t, i - 1);
    }
  }

  /** What closing does to counters and registry, from slot `i` on. */
  function CloseFrom<T>(t: Table<T>, i: nat, store: Store<T>): Store<T>
    requires i <= |t.items|
    decreases |t.items| - i
  {
    if i == |t.items| then store
    else if i in t.free || t.items[i].who.None? then CloseFrom(t, i + 1, store)
    else CloseFrom(t, i + 1, Drop(store, t.items[i].who.value))
  }

  lemma UsedFromStep<T>(s: seq<nat>, t: Table<T>, i: nat)
    requires i < |t.items|
    ensures s + UsedFrom(t, i) == s + (if i in t.free then [] else [i]) + UsedFrom(t, i + 1)
  {
  }

  lemma UsesStep<T>(t: Table<T>, i: nat, who: T, counter: nat)
    requires i < |t.items|
    ensures DownBy(counter, UsesOf(t, i + 1, who))
         == if i !in t.free && t.items[i].who == Some(who) then Down(DownBy(counter, UsesOf(t, i, who)))
            else DownBy(counter, UsesOf(t, i, who))
  {
  }

  lemma CloseFromStep<T>(t: Table<T>, i: nat, store: Store<T>)
    requires i < |t.items|
    ensures CloseFrom(t, i, store)
         == CloseFrom(t, i + 1,
              if i in t.free || t.items[i].who.None? then store else Drop(store, t.items[i].who.value))
  {
  }

  lemma UsesNone<T>(t: Table<T>, who: T, counter: nat)
    ensures DownBy(counter, UsesOf(t, 0, who)) == counter
  {
  }

  lemma CloseFromEnd<T>(t: Table<T>, s: seq<nat>, store: Store<T>)
    ensures CloseFrom(t, |t.items|, store) == store && s + UsedFrom(t, |t.items|) == s
  {
  }

  class KHandleTable {
    var itemstable: seq<Slot<KAutoObject>>
    var freelist: seq<nat>
    var counter: nat

    ghost function Abs(): Table<KAutoObject>
      reads this
    {
      Table(itemstable, freelist, counter)
    }

    ghost function Objects(): set<KAutoObject>
      reads this
    {
      set slot | slot in itemstable && slot.who.Some? :: slot.who.value
    }

    constructor ()
      ensures Abs() == EmptyTable()
    {
      itemstable, counter := seq(SIZE, _ => Slot(0, None)), 1;
      freelist := [];
      new;
      for i := 0 to SIZE
        invariant itemstable == seq(SIZE, _ => Slot(0, None)) && counter == 1
        invariant |freelist| == i && forall k :: 0 <= k < i ==> freelist[k] == k
      {
        freelist := freelist + [i];
      }
    }

    method Allocate(who: KAutoObject?) returns (handle: nat)
      requires freelist != [] && freelist[|freelist| - 1] < |itemstable|
      modifies this, if who == null then {} else {who}
      ensures who == null ==> handle == 0 && Abs() == old(Abs())
      ensures who != null ==> (Abs(), handle) == AllocateStep(old(Abs()), who)
      ensures who != null ==> who.counter == Up(old(who.counter)) && who.destroyed == old(who.destroyed)
    {
      if who == null {
        return 0;
      }
      var validcnt := counter;
      counter := (counter + 1) % COUNTER_LIMIT;
      who.IncreaseLifetime();
      var listhead := freelist[|freelist| - 1];
      itemstable := itemstable[listhead := Slot(validcnt, Some(who))];
      freelist := freelist[..|freelist| - 1];
      handle := Pack(validcnt, listhead);
    }

    method Free(handle: nat)
      requires FreeStep(Abs(), handle).0 == Abs() || FreeStep(Abs(), handle).1.Some?
      modifies this, Objects(), set o | o in Objects() :: o.kernel
      ensures Abs() == FreeStep(old(Abs()), handle).0
      ensures forall o :: o in old(Objects()) ==>
        o.counter == if FreeStep(old(Abs()), handle).1 == Some(o) then Down(old(o.counter)) else old(o.counter)
      ensures forall o :: o in old(Objects()) ==>
        o.destroyed == old(o.destroyed) + if FreeStep(old(Abs()), handle).1 == Some(o) && o.counter == 0 then 1 else 0
      ensures forall o :: o in old(Objects()) && FreeStep(old(Abs()), handle).1 == Some(o) ==>
        o.kernel.autorefs == if o.counter == 0 then Removed(old(o.kernel.autorefs), o) else old(o.kernel.autorefs)
    {
      var table := 0;
      while table < |itemstable| && itemstable[table].handle != handle / INDEX_RANGE
        invariant table <= |itemstable| && forall j :: 0 <= j < table ==> itemstable[j].handle != handle / INDEX_RANGE
      {
        table := table + 1;
      }
      assert table == FindHandle(itemstable, handle / INDEX_RANGE);
      if table == |itemstable| {
        return;
      }
      var slot := itemstable[table];
      assert slot in itemstable;
      slot.who.value.DeteriorateLifetime();
      itemstable := itemstable[table := Slot(0, slot.who)];
      freelist := freelist + [table];
    }

    method GetObject(handle: nat) returns (found: KAutoObject?)
      requires handle % INDEX_RANGE < |itemstable|
      ensures found == match Lookup(Abs(), handle) case None => null case Some(o) => o
    {
      var entry := |itemstable|;
      while entry > 0 && entry - 1 != handle % INDEX_RANGE
        invariant handle % INDEX_RANGE < entry <= |itemstable|
      {
        entry := entry - 1;
      }
      var slot := itemstable[entry - 1];
      if slot.handle != handle / INDEX_RANGE || slot.who.None? {
        return null;
      }
      found := slot.who.value;
    }

    method GetActiveSlots() returns (n: int)
      ensures n == |itemstable| - |freelist|
      ensures Valid(Abs()) ==> n == |UsedSlots(Abs())|
    {
      if Valid(Abs()) {
        ActiveSlotsAreUsed(Abs());
      }
      n := |itemstable| - |freelist|;
    }

    method InUse(i: nat) returns (inuse: bool)
      ensures inuse <==> i !in freelist
    {
      inuse := true;
      for j := 0 to |freelist|
        invariant inuse <==> i !in freelist[..j]
      {
        if i == freelist[j] {
          inuse := false;
        }
      }
      assert freelist[..|freelist|] == freelist;
    }

    /** A slot that is not on the free list gives up its object and joins the list. */
    method CloseSlot(i: nat, ghost kernel: Kernel)
      requires i < |itemstable|
      modifies `freelist, Objects(), set o | o in Objects() :: o.kernel
      ensures (forall o :: o in Objects() ==> o.kernel == kernel) ==>
        StoreOf(Objects(), kernel)
        == (if i in old(freelist) || itemstable[i].who.None? then old(StoreOf(Objects(), kernel))
            else Drop(old(StoreOf(Objects(), kernel)), itemstable[i].who.value))
      ensures freelist == old(freelist) + if i in old(freelist) then [] else [i]
      ensures forall o :: o in Objects() ==>
        o.counter
        == if i !in old(freelist) && itemstable[i].who == Some(o) then Down(old(o.counter)) else old(o.counter)
    {
      hide Drop, Down, Removed;
      ghost var before := StoreOf(Objects(), kernel);
      var inuse := InUse(i);
      if inuse {
        var slot := itemstable[i];
        assert slot in itemstable;
        if slot.who.Some? {
          slot.who.value.DeteriorateLifetime();
          if slot.who.value.kernel == kernel {
            DropIs(Objects(), kernel, slot.who.value, before);
          }
        }
        freelist := freelist + [i];
      }
    }

    /** Every slot that is not on the free list gives up its object once and joins the list. */
    method CloseAll(ghost kernel: Kernel)
      modifies this, Objects(), set o | o in Objects() :: o.kernel
      ensures Objects() == old(Objects())
      ensures (forall o :: o in Objects() ==> o.kernel == kernel) ==>
        StoreOf(Objects(), kernel) == CloseFrom(old(Abs()), 0, old(StoreOf(Objects(), kernel)))
      ensures Abs() == CloseStep(old(Abs()))
      ensures forall o :: o in old(Objects()) ==>
        o.counter == DownBy(old(o.counter), UsesOf(old(Abs()), |old(itemstable)|, o))
    {
      hide StoreOf, CloseFrom, Drop, UsedFrom, UsesOf, DownBy, Down;
      ghost var t := Abs();
      forall o | o in Objects() ensures o.counter == DownBy(o.counter, UsesOf(t, 0, o)) {
        UsesNone(t, o, o.counter);
      }
      for i := 0 to |itemstable|
        invariant itemstable == t.items && counter == t.counter && Objects() == old(Objects())
        invariant freelist + UsedFrom(t, i) == t.free + UsedFrom(t, 0)
        invariant forall k :: i <= k < |itemstable| ==> (k in freelist <==> k in t.free)
        invariant forall o :: o in old(Objects()) ==> o.counter == DownBy(old(o.counter), UsesOf(t, i, o))
        invariant (forall o :: o in Objects() ==> o.kernel == kernel) ==>
          CloseFrom(t, i, StoreOf(Objects(), kernel)) == CloseFrom(t, 0, old(StoreOf(Objects(), kernel)))
      {
        UsedFromStep(freelist, t, i);
        forall o | o in old(Objects())
          ensures DownBy(old(o.counter), UsesOf(t, i + 1, o))
               == if i !in t.free && t.items[i].who == Some(o) then Down(DownBy(old(o.counter), UsesOf(t, i, o)))
                  else DownBy(old(o.counter), UsesOf(t, i, o))
        {
          UsesStep(t, i, o, old(o.counter));
        }
        CloseFromStep(t, i, StoreOf(Objects(), kernel));
        CloseSlot(i, kernel);
      }
      CloseFromEnd(t, freelist, StoreOf(Objects(), kernel));
    }
  }
}
