/** Thread-local regions: pages of eight slots, listed as free or full, each mapped through the block map. */
module TlsRegions {
  import opened Bytes
  import opened BlockManager
  import K = KMemory
  import M = BlockMap
  import Mem = ThreadMemory
  import Slab = SlabHeap

  const ENTRY := 0x200
  const SLOTS := 8

  datatype Page = Page(base: nat, slots: seq<bool>)

  /** A process's pages, the slab of offsets they come from, the start of the thread-local segment, the memory they
      are mapped in, the pages mapped so far, and the regions handed out. */
  datatype State = State(free: seq<Page>, full: seq<Page>, slab: seq<nat>, origin: nat, space: Space,
                         mapped: seq<nat>, returned: seq<nat>)

  /** The first free slot, or the number of slots. */
  function FirstFree(slots: seq<bool>): (i: nat)
    ensures i <= |slots|
    ensures forall j :: 0 <= j < i ==> !slots[j]
    ensures i < |slots| ==> slots[i]
  {
    if slots == [] || slots[0] then 0 else
      var i := FirstFree(slots[1..]);
      assert forall j :: 0 < j < |slots| ==> slots[j] == slots[1..][j - 1];
      1 + i
  }

  predicate HasRoom(slots: seq<bool>) {
    FirstFree(slots) < |slots|
  }

  /** Takes a slot of the first page with room. */
  function Take(s: State): State
    requires s.free != []
  {
    var page := s.free[0];
    var i := FirstFree(page.slots);
    if i == |page.slots| then s else
    var used := page.(slots := page.slots[i := false]);
    var after := s.(returned := s.returned + [page.base + i * ENTRY]);
    if HasRoom(used.slots) then after.(free := [used] + s.free[1..])
    else after.(free := s.free[1..], full := [used] + s.full)
  }

  /** The address of the next page; an exhausted slab answers null, which is offset 0. */
  function NextPage(s: State): nat {
    s.origin + (if s.slab == [] then 0 else s.slab[0])
  }

  /** A slab after `Allocate`; a null front stays. */
  function Popped(slab: seq<nat>): seq<nat> {
    if slab == [] || slab[0] == 0 then slab else slab[1..]
  }

  /** Maps the next page and lists it as free. */
  ghost function AddPage(s: State): State
    requires Requestable(s.space, NextPage(s), Mem.TLS_PAGE) && Maps(s.space, NextPage(s), Mem.TLS_PAGE)
  {
    s.(free := s.free + [Page(NextPage(s), seq(SLOTS, _ => true))], slab := Popped(s.slab),
       space := MapStep(s.space, NextPage(s), Mem.TLS_PAGE), mapped := s.mapped + [NextPage(s)])
  }

  /** An allocation that needs a page puts a request that the block map answers ... */
  ghost predicate Asks(s: State) {
    s.free == [] ==> Requestable(s.space, NextPage(s), Mem.TLS_PAGE)
  }

  /** ... and that it carries out; otherwise the allocation throws. */
  ghost predicate Grants(s: State)
    requires Asks(s)
  {
    s.free == [] ==> Maps(s.space, NextPage(s), Mem.TLS_PAGE)
  }

  ghost function Step(s: State): State
    requires Asks(s) && Grants(s)
  {
    if s.free == [] then Take(AddPage(s)) else Take(s)
  }

  // ---- the invariant of the lists -------------------------------------------------------------------

  ghost predicate Apart(a: nat, b: nat, n: nat) {
    a + n <= b || b + n <= a
  }

  /** Each page lies below the one mapped before it. */
  ghost predicate Descends(mapped: seq<nat>) {
    forall i, j :: 0 <= i < j < |mapped| ==> mapped[j] + PAGE_SIZE <= mapped[i]
  }

  function Pages(s: State): seq<Page> {
    s.free + s.full
  }

  /** The slot of page `p` at `region` is taken. */
  ghost predicate Holds(p: Page, region: nat) {
    exists i :: 0 <= i < |p.slots| && !p.slots[i] && region == p.base + i * ENTRY
  }

  ghost predicate Held(s: State, region: nat) {
    exists k :: 0 <= k < |Pages(s)| && Holds(Pages(s)[k], region)
  }

  ghost predicate AllWithRoom(pages: seq<Page>) {
    forall k :: 0 <= k < |pages| ==> |pages[k].slots| == SLOTS && HasRoom(pages[k].slots)
  }

  ghost predicate AllFull(pages: seq<Page>) {
    forall k :: 0 <= k < |pages| ==> |pages[k].slots| == SLOTS && !HasRoom(pages[k].slots)
  }

  /** Different pages, all of them mapped. */
  ghost predicate Placed(pages: seq<Page>, mapped: seq<nat>) {
    && (forall k :: 0 <= k < |pages| ==> pages[k].base in mapped)
    && (forall k, l :: 0 <= k < l < |pages| ==> pages[k].base != pages[l].base)
  }

  ghost predicate Listed(s: State) {
    AllWithRoom(s.free) && AllFull(s.full) && Placed(Pages(s), s.mapped)
  }

  /** Every page has eight slots, taken or free, and at most one page has free ones. */
  ghost predicate Counted(s: State) {
    SLOTS * |s.mapped| == |s.returned| + FreeSlotsOf(s.free) && |s.free| <= 1
  }

  ghost predicate ListInv(s: State) {
    && Descends(s.mapped) && Listed(s) && Counted(s)
    && (forall k :: 0 <= k < |s.returned| ==> Held(s, s.returned[k]))
    && (forall k, l :: 0 <= k < l < |s.returned| ==> Apart(s.returned[k], s.returned[l], ENTRY))
  }

  lemma PlacedAdded(pages: seq<Page>, page: Page, mapped: seq<nat>)
    requires Placed(pages, mapped) && page.base !in mapped
    ensures Placed([page] + pages, mapped + [page.base])
  {
    var more := [page] + pages;
    forall k, l | 0 <= k < l < |more| ensures more[k].base != more[l].base {
      assert more[l] == pages[l - 1];
      assert k > 0 ==> more[k] == pages[k - 1];
    }
  }

  /** The lists after a page at `page` was mapped and listed. */
  ghost predicate PageAdded(s: State, v: State, page: nat) {
    && s.free == [] && v.free == [Page(page, seq(SLOTS, _ => true))] && v.full == s.full && v.returned == s.returned
    && v.mapped == s.mapped + [page] && (s.mapped != [] ==> page + PAGE_SIZE <= s.mapped[|s.mapped| - 1])
  }

  lemma PageAddedDescends(mapped: seq<nat>, page: nat)
    requires Descends(mapped) && (mapped != [] ==> page + PAGE_SIZE <= mapped[|mapped| - 1])
    ensures Descends(mapped + [page]) && page !in mapped
  {
  }

  lemma PageAddedListed(s: State, v: State, page: nat)
    requires Listed(s) && Descends(s.mapped) && PageAdded(s, v, page)
    ensures Listed(v)
  {
    hide Placed, Descends;
    PageAddedDescends(s.mapped, page);
    assert Pages(v) == [v.free[0]] + s.full && Pages(s) == s.full;
    PlacedAdded(s.full, v.free[0], s.mapped);
  }

  lemma PageAddedKeepsInv(s: State, v: State, page: nat)
    requires ListInv(s) && PageAdded(s, v, page)
    ensures ListInv(v)
  {
    hide Descends, Listed, Counted, Holds;
    PageAddedListed(s, v, page);
    PageAddedCounted(s, v, page);
    PageAddedDescends(s.mapped, page);
    forall k | 0 <= k < |s.returned| ensures Held(v, s.returned[k]) {
      assert Held(s, s.returned[k]);
      var l :| 0 <= l < |Pages(s)| && Holds(Pages(s)[l], s.returned[k]);
      assert Pages(v)[l + 1] == Pages(s)[l];
    }
  }

  lemma PageAddedCounted(s: State, v: State, page: nat)
    requires Counted(s) && PageAdded(s, v, page)
    ensures Counted(v) && FreeSlotsOf(v.free) == SLOTS
  {
    AllFree(SLOTS);
    assert v.free[1..] == [];
  }

  // ---- taking a slot --------------------------------------------------------------------------------

  function UsedPage(p: Page): Page
    requires FirstFree(p.slots) < |p.slots|
  {
    p.(slots := p.slots[FirstFree(p.slots) := false])
  }

  lemma UsedPageHolds(p: Page, region: nat)
    requires FirstFree(p.slots) < |p.slots|
    ensures Holds(UsedPage(p), region) <==> Holds(p, region) || region == p.base + FirstFree(p.slots) * ENTRY
  {
    var i, q := FirstFree(p.slots), UsedPage(p);
    if Holds(p, region) {
      var j :| 0 <= j < |p.slots| && !p.slots[j] && region == p.base + j * ENTRY;
      assert !q.slots[j];
    }
    assert !q.slots[i];
  }

  /** `after` is `pages` with its first page marked and moved to position `at`. */
  ghost predicate Moved(pages: seq<Page>, after: seq<Page>, at: nat) {
    && at < |pages| == |after| && FirstFree(pages[0].slots) < |pages[0].slots| && after[at] == UsedPage(pages[0])
    && (forall k :: 0 < k <= at ==> after[k - 1] == pages[k])
    && (forall k :: at < k < |pages| ==> after[k] == pages[k])
  }

  function Origin(at: nat, k: nat): nat {
    if k == at then 0 else if k < at then k + 1 else k
  }

  lemma MovedBase(pages: seq<Page>, after: seq<Page>, at: nat, k: nat)
    requires Moved(pages, after, at) && k < |after|
    ensures Origin(at, k) < |pages| && after[k].base == pages[Origin(at, k)].base
    ensures k != at ==> after[k] == pages[Origin(at, k)]
  {
    if k < at {
      assert after[k + 1 - 1] == pages[k + 1];
    }
  }

  lemma PlacedDiffers(pages: seq<Page>, mapped: seq<nat>, i: nat, j: nat)
    requires Placed(pages, mapped) && i < |pages| && j < |pages| && i != j
    ensures pages[i].base != pages[j].base
  {
  }

  lemma MovedPlaced(pages: seq<Page>, after: seq<Page>, at: nat, mapped: seq<nat>)
    requires Moved(pages, after, at) && Placed(pages, mapped)
    ensures Placed(after, mapped)
  {
    hide Moved;
    assert |after| == |pages| by { MovedLength(pages, after, at); }
    forall k | 0 <= k < |after| ensures after[k].base in mapped {
      MovedBase(pages, after, at, k);
      assert pages[Origin(at, k)].base in mapped;
    }
    forall k, l | 0 <= k < l < |after| ensures after[k].base != after[l].base {
      MovedBase(pages, after, at, k);
      MovedBase(pages, after, at, l);
      PlacedDiffers(pages, mapped, Origin(at, k), Origin(at, l));
    }
  }

  lemma MovedLength(pages: seq<Page>, after: seq<Page>, at: nat)
    requires Moved(pages, after, at)
    ensures |after| == |pages| && at < |pages|
  {
  }

  /** Where the marked page ends up: in front of its own list, or in front of the full pages. */
  lemma TakeMoves(s: State) returns (at: nat)
    requires AllWithRoom(s.free) && s.free != []
    ensures Moved(Pages(s), Pages(Take(s)), at) && Take(s).mapped == s.mapped
    ensures Take(s).returned == s.returned + [s.free[0].base + FirstFree(s.free[0].slots) * ENTRY]
  {
    var used := UsedPage(s.free[0]);
    at := if HasRoom(used.slots) then 0 else |s.free| - 1;
  }

  /** Pages in front of the free list have room, those of the full list have none. */
  lemma TakeKeepsRoom(s: State)
    requires AllWithRoom(s.free) && s.free != [] && AllFull(s.full)
    ensures AllWithRoom(Take(s).free) && AllFull(Take(s).full)
  {
    hide FirstFree;
    assert HasRoom(s.free[0].slots);
    TakeIs(s);
    hide Take;
  }

  lemma TakeListed(s: State)
    requires Listed(s) && s.free != []
    ensures Listed(Take(s))
  {
    hide Moved, Placed, Take, AllWithRoom, AllFull, Pages;
    TakeKeepsRoom(s);
    var at := TakeMoves(s);
    MovedPlaced(Pages(s), Pages(Take(s)), at, s.mapped);
  }

  /** A region held before is held after, and the new one is held too. */
  lemma MovedHolds(pages: seq<Page>, after: seq<Page>, at: nat, k: nat, region: nat)
    requires Moved(pages, after, at) && k < |pages| && Holds(pages[k], region)
    ensures exists l :: 0 <= l < |after| && Holds(after[l], region)
  {
    if k == 0 {
      UsedPageHolds(pages[0], region);
      assert Holds(after[at], region);
    } else {
      var l := if k <= at then k - 1 else k;
      assert after[l] == pages[k];
    }
  }

  lemma HeldAfterTake(s: State, region: nat)
    requires Listed(s) && s.free != []
    requires (Held(s, region) || region == s.free[0].base + FirstFree(s.free[0].slots) * ENTRY)
    ensures Held(Take(s), region)
  {
    hide Holds;
    var at := TakeMoves(s);
    if Held(s, region) {
      var k :| 0 <= k < |Pages(s)| && Holds(Pages(s)[k], region);
      MovedHolds(Pages(s), Pages(Take(s)), at, k, region);
    } else {
      UsedPageHolds(s.free[0], region);
      assert Holds(Pages(Take(s))[at], region);
    }
  }

  /** The new region lies apart from every region held before. */
  lemma NewRegionApart(s: State, region: nat)
    requires Listed(s) && Descends(s.mapped) && s.free != [] && Held(s, region)
    ensures Apart(region, s.free[0].base + FirstFree(s.free[0].slots) * ENTRY, ENTRY)
  {
    var k :| 0 <= k < |Pages(s)| && Holds(Pages(s)[k], region);
    var p, q := Pages(s)[k], s.free[0];
    assert Pages(s)[0] == q && HasRoom(q.slots) && |q.slots| == SLOTS;
    var i :| 0 <= i < |p.slots| && !p.slots[i] && region == p.base + i * ENTRY;
    if k != 0 {
      PlacedDiffers(Pages(s), s.mapped, k, 0);
      PagesApart(s, p.base, q.base);
      assert |p.slots| == SLOTS;
    }
  }

  lemma PagesApart(s: State, a: nat, b: nat)
    requires Descends(s.mapped) && a in s.mapped && b in s.mapped && a != b
    ensures Apart(a, b, PAGE_SIZE)
  {
  }

  lemma TakeKeepsInv(s: State)
    requires ListInv(s) && s.free != []
    ensures ListInv(Take(s)) && |Take(s).returned| == |s.returned| + 1
  {
    hide Descends, Listed, Held, Counted, Take;
    TakeListed(s);
    TakeCounted(s);
    var v := Take(s);
    TakeReturns(s);
    forall k | 0 <= k < |v.returned| ensures Held(v, v.returned[k]) {
      HeldAfterTake(s, v.returned[k]);
    }
    forall k | 0 <= k < |s.returned|
      ensures Apart(s.returned[k], v.returned[|s.returned|], ENTRY)
    {
      NewRegionApart(s, s.returned[k]);
    }
  }

  lemma TakeReturns(s: State)
    requires Listed(s) && s.free != []
    ensures Take(s).returned == s.returned + [s.free[0].base + FirstFree(s.free[0].slots) * ENTRY]
    ensures Take(s).mapped == s.mapped && Take(s).slab == s.slab && Take(s).origin == s.origin
    ensures Take(s).space == s.space
  {
    var at := TakeMoves(s);
  }

  lemma TakeCounted(s: State)
    requires Counted(s) && Listed(s) && s.free != []
    ensures Counted(Take(s)) && FreeSlotsOf(Take(s).free) == FreeSlotsOf(s.free) - 1
  {
    FirstHasRoom(s);
    TakeUsesOne(s);
    TakeIs(s);
    hide FirstFree, FreeSlots, FreeSlotsOf, Take;
  }

  lemma FirstHasRoom(s: State)
    requires Listed(s) && s.free != []
    ensures HasRoom(s.free[0].slots)
  {
  }

  // ---- counting slots -------------------------------------------------------------------------------

  function FreeSlots(slots: seq<bool>): nat {
    if slots == [] then 0 else (if slots[0] then 1 else 0) + FreeSlots(slots[1..])
  }

  function FreeSlotsOf(pages: seq<Page>): nat {
    if pages == [] then 0 else FreeSlots(pages[0].slots) + FreeSlotsOf(pages[1..])
  }

  lemma {:induction false} SlotTaken(slots: seq<bool>, i: nat)
    requires i < |slots| && slots[i]
    ensures FreeSlots(slots[i := false]) == FreeSlots(slots) - 1
  {
    var after := slots[i := false];
    if i == 0 {
      assert after[1..] == slots[1..];
    } else {
      assert after[1..] == slots[1..][i - 1 := false];
      SlotTaken(slots[1..], i - 1);
    }
  }

  lemma {:induction false} RoomMeansFreeSlots(slots: seq<bool>)
    ensures HasRoom(slots) <==> FreeSlots(slots) > 0
  {
    if slots != [] {
      RoomMeansFreeSlots(slots[1..]);
    }
  }

  lemma TakeUsesOne(s: State)
    requires s.free != [] && HasRoom(s.free[0].slots)
    ensures FreeSlotsOf(Take(s).free) == FreeSlotsOf(s.free) - 1
  {
    hide FirstFree, FreeSlots;
    TakeIs(s);
    var used := UsedPage(s.free[0]);
    SlotIsFree(s.free[0].slots);
    SlotTaken(s.free[0].slots, FirstFree(s.free[0].slots));
    RoomMeansFreeSlots(used.slots);
    assert ([used] + s.free[1..])[1..] == s.free[1..];
  }

  lemma SlotIsFree(slots: seq<bool>)
    requires HasRoom(slots)
    ensures slots[FirstFree(slots)]
  {
  }

  lemma {:induction false} AllFree(n: nat)
    ensures FreeSlots(seq(n, _ => true)) == n
  {
    if n > 0 {
      assert seq(n, _ => true)[1..] == seq(n - 1, _ => true);
      AllFree(n - 1);
    }
  }

  lemma TakeIs(s: State)
    requires s.free != [] && HasRoom(s.free[0].slots)
    ensures var i, p := FirstFree(s.free[0].slots), s.free[0];
      var used := UsedPage(p);
      && i < |p.slots| && used == Page(p.base, p.slots[i := false])
      && Take(s) == (if HasRoom(used.slots)
           then s.(free := [used] + s.free[1..], returned := s.returned + [p.base + i * ENTRY])
           else s.(free := s.free[1..], full := [used] + s.full, returned := s.returned + [p.base + i * ENTRY]))
  {
  }

  // ---- the invariant of the memory ------------------------------------------------------------------

  /** The slab descends, and its pages, and the one at offset 0, lie below `top`, the last page mapped. */
  ghost predicate Supplies(slab: seq<nat>, origin: nat, top: nat) {
    && (forall i, j :: 0 <= i < j < |slab| ==> slab[j] + PAGE_SIZE <= slab[i])
    && (forall i :: 0 <= i < |slab| ==> slab[i] >= PAGE_SIZE && origin + slab[i] + PAGE_SIZE <= top)
    && (top == origin || origin + PAGE_SIZE <= top)
  }

  /** The addresses still to be had: those of the slab and then, once, offset 0. */
  function AddressesLeft(slab: seq<nat>, origin: nat, top: nat): nat {
    |slab| + if top == origin then 0 else 1
  }

  ghost predicate AllMapped(space: Space, mapped: seq<nat>) {
    forall page: nat :: page in mapped ==> Mem.IsMapped(space, page)
  }

  /** Block `g`, the stack, lies below the last page; the pages are mapped, and there are frames for those to come. */
  ghost predicate MemoryInv(slab: seq<nat>, origin: nat, space: Space, mapped: seq<nat>, g: nat) {
    && mapped != [] && Descends(mapped) && Supplies(slab, origin, mapped[|mapped| - 1])
    && Mem.ThreadSpace(space, g, origin, mapped[|mapped| - 1]) && AllMapped(space, mapped)
    && |space.frames| >= AddressesLeft(slab, origin, mapped[|mapped| - 1]) + 2
  }

  ghost predicate Inv(s: State, g: nat) {
    ListInv(s) && MemoryInv(s.slab, s.origin, s.space, s.mapped, g)
  }

  function Min(a: nat, b: nat): nat {
    if a <= b then a else b
  }

  /** Pages still to be had: each needs an address, and a page of the stack's block. */
  ghost function PagesLeft(s: State, g: nat): nat
    requires s.mapped != [] && g < |s.space.blocks|
  {
    Min(AddressesLeft(s.slab, s.origin, s.mapped[|s.mapped| - 1]), s.space.blocks[g].block.pages)
  }

  lemma InvFacts(s: State, g: nat)
    requires Inv(s, g)
    ensures ListInv(s) && s.mapped != [] && g < |s.space.blocks| && MemoryInv(s.slab, s.origin, s.space, s.mapped, g)
  {
  }

  lemma NextAddress(slab: seq<nat>, origin: nat, top: nat, a: nat)
    requires Supplies(slab, origin, top) && a == origin + if slab == [] then 0 else slab[0]
    ensures a <= top && (a == top <==> top == origin) && (top != origin ==> origin <= a && a + PAGE_SIZE <= top)
    ensures top != origin ==>
      && Supplies(Popped(slab), origin, a)
      && AddressesLeft(Popped(slab), origin, a) == AddressesLeft(slab, origin, top) - 1
  {
  }

  lemma MappedAbove(mapped: seq<nat>, page: nat)
    requires Descends(mapped) && page in mapped
    ensures mapped[|mapped| - 1] <= page
  {
  }

  /** The next page is always asked for, and granted exactly when there is one left. */
  lemma NextIsAnswered(s: State, g: nat)
    requires Inv(s, g)
    ensures Requestable(s.space, NextPage(s), Mem.TLS_PAGE)
    ensures Maps(s.space, NextPage(s), Mem.TLS_PAGE) <==> PagesLeft(s, g) > 0
  {
    hide ListInv, Descends, Supplies, AllMapped, AddressesLeft, Mem.ThreadSpace, Requestable, Maps, MapStep, Mem.Placed,
      Mem.IsMapped;
    SpaceFacts(s.space, g, s.origin, s.mapped[|s.mapped| - 1]);
    var top := s.mapped[|s.mapped| - 1];
    NextAddress(s.slab, s.origin, top, NextPage(s));
    EmptySlabAtOrigin(s.slab, s.origin, top);
    if top == s.origin {
      Mem.SamePage(s.space, g, s.origin, top);
    } else {
      Mem.NextPage(s.space, g, s.origin, top, NextPage(s));
    }
  }

  lemma EmptySlabAtOrigin(slab: seq<nat>, origin: nat, top: nat)
    requires Supplies(slab, origin, top)
    ensures AddressesLeft(slab, origin, top) == 0 <==> top == origin
  {
    if slab != [] {
      assert slab[0] >= PAGE_SIZE;
    }
  }

  lemma SpaceFacts(space: Space, g: nat, low: nat, top: nat)
    requires Mem.ThreadSpace(space, g, low, top)
    ensures g < |space.blocks| && space.blocks[g].key < low <= top
  {
  }

  /** What an added page leaves of the memory. */
  lemma AddPageMemory(s: State, g: nat)
    requires Inv(s, g) && PagesLeft(s, g) > 0
    ensures Requestable(s.space, NextPage(s), Mem.TLS_PAGE) && Maps(s.space, NextPage(s), Mem.TLS_PAGE)
    ensures var t := MapStep(s.space, NextPage(s), Mem.TLS_PAGE);
      && Mem.Placed(s.space, t, g, NextPage(s), Mem.TLS_PAGE)
      && MemoryInv(Popped(s.slab), s.origin, t, s.mapped + [NextPage(s)], g)
    ensures NextPage(s) + PAGE_SIZE <= s.mapped[|s.mapped| - 1]
  {
    hide ListInv, Descends, Supplies, Mem.ThreadSpace, Requestable, Maps, MapStep, Mem.IsMapped, Mem.Placed;
    NextIsAnswered(s, g);
    var top, a := s.mapped[|s.mapped| - 1], NextPage(s);
    SpaceFacts(s.space, g, s.origin, top);
    NextAddress(s.slab, s.origin, top, a);
    EmptySlabAtOrigin(s.slab, s.origin, top);
    Mem.NextPage(s.space, g, s.origin, top, a);
    PageAddedDescends(s.mapped, a);
    var t := MapStep(s.space, a, Mem.TLS_PAGE);
    PlacedFrames(s.space, t, g, a);
    forall page | page in s.mapped + [a] ensures Mem.IsMapped(t, page) {
      if page in s.mapped {
        MappedAbove(s.mapped, page);
        Mem.StaysMapped(s.space, t, g, a, Mem.TLS_PAGE, page);
      }
    }
  }

  lemma PlacedFrames(s: Space, t: Space, g: nat, a: nat)
    requires Mem.Placed(s, t, g, a, Mem.TLS_PAGE)
    ensures |t.frames| == |s.frames| - 1 && |t.blocks| == |s.blocks| + 1 && g < |s.blocks|
    ensures s.blocks[g].block.pages > 0
    ensures t.blocks[g] == M.Entry(s.blocks[g].key, s.blocks[g].block.(pages := s.blocks[g].block.pages - 1))
    ensures M.TotalPages(t.blocks) == M.TotalPages(s.blocks)
  {
    hide M.Sorted, M.TotalPages;
  }

  lemma AddPageKeepsInv(s: State, g: nat)
    requires Inv(s, g) && s.free == [] && PagesLeft(s, g) > 0
    ensures Requestable(s.space, NextPage(s), Mem.TLS_PAGE) && Maps(s.space, NextPage(s), Mem.TLS_PAGE)
    ensures Inv(AddPage(s), g) && Capacity(AddPage(s), g) == Capacity(s, g) && Since(s, AddPage(s), g)
    ensures FreeSlotsOf(AddPage(s).free) == SLOTS
  {
    hide ListInv, MemoryInv, AddPage, Requestable, Maps, MapStep, Mem.Placed, Supplies, M.TotalPages, FreeSlotsOf,
      AddressesLeft, Popped;
    AddPageMemory(s, g);
    NextAddressOf(s, g);
    var v, a := AddPage(s), NextPage(s);
    AddPageFields(s, v);
    PlacedFrames(s.space, v.space, g, a);
    AddPageAdds(s, v, a);
    PageAddedKeepsInv(s, v, a);
    PageAddedCounts(s, v, a);
  }

  lemma AddPageFields(s: State, v: State)
    requires Requestable(s.space, NextPage(s), Mem.TLS_PAGE) && Maps(s.space, NextPage(s), Mem.TLS_PAGE)
    requires v == AddPage(s)
    ensures v.slab == Popped(s.slab) && v.origin == s.origin && v.mapped == s.mapped + [NextPage(s)]
    ensures v.space == MapStep(s.space, NextPage(s), Mem.TLS_PAGE)
  {
  }

  lemma AddPageAdds(s: State, v: State, a: nat)
    requires a == NextPage(s) && Requestable(s.space, a, Mem.TLS_PAGE) && Maps(s.space, a, Mem.TLS_PAGE)
    requires v == AddPage(s)
    requires s.free == [] && (s.mapped != [] ==> a + PAGE_SIZE <= s.mapped[|s.mapped| - 1])
    ensures PageAdded(s, v, a)
  {
    assert v.free == [Page(a, seq(SLOTS, _ => true))];
  }

  lemma PageAddedCounts(s: State, v: State, page: nat)
    requires ListInv(s) && PageAdded(s, v, page)
    ensures FreeSlotsOf(s.free) == 0 && FreeSlotsOf(v.free) == SLOTS
  {
    PageAddedCounted(s, v, page);
  }

  lemma NextAddressOf(s: State, g: nat)
    requires Inv(s, g) && PagesLeft(s, g) > 0
    ensures AddressesLeft(Popped(s.slab), s.origin, NextPage(s))
         == AddressesLeft(s.slab, s.origin, s.mapped[|s.mapped| - 1]) - 1
  {
    hide ListInv, Descends, Supplies, AllMapped, Mem.ThreadSpace;
    var top := s.mapped[|s.mapped| - 1];
    NextAddress(s.slab, s.origin, top, NextPage(s));
    EmptySlabAtOrigin(s.slab, s.origin, top);
  }

  // ---- steps and runs -------------------------------------------------------------------------------

  /** The regions that are still to be had: free slots of listed pages, and eight for every page left. */
  ghost function Capacity(s: State, g: nat): nat
    requires s.mapped != [] && g < |s.space.blocks|
  {
    FreeSlotsOf(s.free) + SLOTS * PagesLeft(s, g)
  }

  /** From `s` to `t` the total is kept, and block `g` lost a page for every page that was mapped. */
  ghost predicate Since(s: State, t: State, g: nat) {
    && M.TotalPages(t.space.blocks) == M.TotalPages(s.space.blocks) && g < |s.space.blocks| && g < |t.space.blocks|
    && var before, after := s.space.blocks[g], t.space.blocks[g];
       && after.key == before.key && after.block == before.block.(pages := after.block.pages)
       && after.block.pages + |t.mapped| == before.block.pages + |s.mapped|
  }

  lemma TakeStep(s: State, g: nat)
    requires Inv(s, g) && s.free != []
    ensures Inv(Take(s), g) && |Take(s).returned| == |s.returned| + 1
    ensures Capacity(Take(s), g) == Capacity(s, g) - 1 && Since(s, Take(s), g)
    ensures FreeSlotsOf(Take(s).free) == FreeSlotsOf(s.free) - 1
  {
    InvFacts(s, g);
    TakeKeepsInv(s);
    ListInvFacts(s);
    TakeReturns(s);
    TakeCounted(s);
    hide ListInv, MemoryInv, Take, Listed, Counted;
  }

  lemma ListInvFacts(s: State)
    requires ListInv(s)
    ensures Listed(s) && Counted(s)
  {
  }

  /** One allocation: possible exactly when something is left, and then it hands out one region more. */
  lemma StepKeepsInv(s: State, g: nat)
    requires Inv(s, g)
    ensures s.mapped != [] && g < |s.space.blocks|
    ensures Asks(s) && (Grants(s) <==> Capacity(s, g) > 0)
    ensures Grants(s) ==>
      && Inv(Step(s), g) && |Step(s).returned| == |s.returned| + 1 && Since(s, Step(s), g)
      && Capacity(Step(s), g) == Capacity(s, g) - 1
      && (FreeSlotsOf(s.free) < SLOTS ==> FreeSlotsOf(Step(s).free) < SLOTS)
  {
    InvFacts(s, g);
    hide Inv, Take, Requestable, Maps, AddPage, Since, ListInv, MemoryInv, PagesLeft;
    if s.free == [] {
      NextIsAnswered(s, g);
      if PagesLeft(s, g) > 0 {
        AddPageKeepsInv(s, g);
        AddPageLists(s);
        TakeStep(AddPage(s), g);
        SinceJoins(s, AddPage(s), Step(s), g);
      }
    } else {
      RoomLeft(s);
      TakeStep(s, g);
    }
  }

  lemma AddPageLists(s: State)
    requires Requestable(s.space, NextPage(s), Mem.TLS_PAGE) && Maps(s.space, NextPage(s), Mem.TLS_PAGE)
    ensures AddPage(s).free != [] && AddPage(s).returned == s.returned
  {
  }

  lemma RoomLeft(s: State)
    requires ListInv(s) && s.free != []
    ensures FreeSlotsOf(s.free) > 0
  {
    RoomMeansFreeSlots(s.free[0].slots);
    FirstHasRoom(s);
    hide HasRoom, FreeSlots, Listed, Counted, ListInv;
  }

  lemma SinceStart(s: State, g: nat)
    requires g < |s.space.blocks|
    ensures Since(s, s, g)
  {
  }

  lemma SinceJoins(s: State, u: State, t: State, g: nat)
    requires Since(s, u, g) && Since(u, t, g)
    ensures Since(s, t, g)
  {
  }

  /** `n` allocations, none of which throws. */
  ghost predicate CanRun(s: State, n: nat)
    decreases n
  {
    n == 0 || (Asks(s) && Grants(s) && CanRun(Step(s), n - 1))
  }

  ghost function Run(s: State, n: nat): State
    requires CanRun(s, n)
    decreases n
  {
    if n == 0 then s else Run(Step(s), n - 1)
  }

  lemma {:induction false} AnyRunKeepsInv(s: State, n: nat, g: nat)
    requires Inv(s, g) && CanRun(s, n)
    ensures Inv(Run(s, n), g) && |Run(s, n).returned| == |s.returned| + n && Since(s, Run(s, n), g)
    ensures FreeSlotsOf(s.free) < SLOTS ==> FreeSlotsOf(Run(s, n).free) < SLOTS
    decreases n
  {
    hide Inv, Asks, Grants, Step, Capacity, Since, FreeSlotsOf;
    StepKeepsInv(s, g);
    SinceStart(s, g);
    if n > 0 {
      AnyRunKeepsInv(Step(s), n - 1, g);
      SinceJoins(s, Step(s), Run(s, n), g);
    }
  }

  /** A run is possible exactly up to the capacity. */
  lemma {:induction false} CanRunIff(s: State, n: nat, g: nat)
    requires Inv(s, g)
    ensures s.mapped != [] && g < |s.space.blocks|
    ensures CanRun(s, n) <==> n <= Capacity(s, g)
    decreases n
  {
    hide Inv, Asks, Grants, Step, Capacity, Since, FreeSlotsOf;
    StepKeepsInv(s, g);
    if n > 0 && Grants(s) {
      CanRunIff(Step(s), n - 1, g);
    }
  }

  // ---- the start of a process -----------------------------------------------------------------------

  function Unused(slab: seq<nat>, origin: nat, space: Space): State {
    State([], [], slab, origin, space, [], [])
  }

  /** A loaded process: a page slab whose pages lie above offset 0 and inside the address space, a stack that fits
      below the thread-local segment, and frames for the stack and for every page. */
  ghost predicate Bootable(slab: seq<nat>, base: nat, origin: nat, space: Space, stack: nat, stackpages: nat) {
    && Slab.Descending(slab, base, PAGE_SIZE) && base >= PAGE_SIZE
    && Mem.Unthreaded(space, stack) && stackpages > 0 && stack + stackpages * PAGE_SIZE <= origin
    && NextPage(Unused(slab, origin, space)) + PAGE_SIZE <= space.blocks[|space.blocks| - 1].key
    && |space.frames| >= stackpages + |slab| + 3
  }

  /** `Initialize` throws neither for its first region nor for the stack. */
  ghost predicate Starts(s: State, stack: nat, stackpages: nat) {
    && Asks(s) && Grants(s) && Requestable(Step(s).space, stack, Mem.Pile(stackpages))
    && Maps(Step(s).space, stack, Mem.Pile(stackpages))
  }

  /** A region for the process itself, and then the stack. */
  ghost function Started(s: State, stack: nat, stackpages: nat): State
    requires Starts(s, stack, stackpages)
  {
    Step(s).(space := MapStep(Step(s).space, stack, Mem.Pile(stackpages)))
  }

  lemma SuppliesRest(slab: seq<nat>, origin: nat)
    requires slab != [] && (forall i, j :: 0 <= i < j < |slab| ==> slab[j] + PAGE_SIZE <= slab[i])
    requires forall i :: 0 <= i < |slab| ==> slab[i] >= PAGE_SIZE
    ensures Supplies(slab[1..], origin, origin + slab[0])
  {
  }

  lemma SlabSupplies(slab: seq<nat>, base: nat, origin: nat)
    requires Slab.Descending(slab, base, PAGE_SIZE) && base >= PAGE_SIZE
    ensures var top := origin + if slab == [] then 0 else slab[0];
      Supplies(Popped(slab), origin, top) && AddressesLeft(Popped(slab), origin, top) == |slab|
  {
    forall i, j | 0 <= i <= j < |slab| ensures slab[i] == slab[j] + (j - i) * PAGE_SIZE {
      Slab.DescendingDistance(slab, base, i, j);
    }
    assert forall i, j :: 0 <= i < j < |slab| ==> slab[j] + PAGE_SIZE <= slab[i];
    forall i | 0 <= i < |slab| ensures slab[i] >= PAGE_SIZE {
      Slab.DescendingDistance(slab, base, i, |slab| - 1);
    }
    if slab != [] {
      assert slab[0] >= PAGE_SIZE;
      assert Popped(slab) == slab[1..];
      SuppliesRest(slab, origin);
    }
  }

  lemma FirstStep(slab: seq<nat>, base: nat, origin: nat, space: Space, stack: nat, stackpages: nat)
    requires Bootable(slab, base, origin, space, stack, stackpages)
    ensures var s := Unused(slab, origin, space);
      && Asks(s) && Grants(s)
      && var v, f := Step(s), |space.blocks| - 2;
         && ListInv(v) && v.mapped == [NextPage(s)] && |v.returned| == 1 && FreeSlotsOf(v.free) == SLOTS - 1
         && v.slab == Popped(slab) && v.origin == origin
         && Mem.OnePage(v.space, f, stack, NextPage(s), stackpages) && Mem.IsMapped(v.space, NextPage(s))
         && v.space.frames == space.frames[1..] && M.TotalPages(v.space.blocks) == M.TotalPages(space.blocks)
  {
    hide Slab.Descending, Mem.Unthreaded, Requestable, Maps, MapStep, ListInv, M.TotalPages, Mem.OnePage,
      Mem.IsMapped, Take;
    var s := Unused(slab, origin, space);
    Mem.FirstPage(space, stack, stackpages, NextPage(s));
    NoListInv(slab, origin, space);
    var u := AddPage(s);
    assert PageAdded(s, u, NextPage(s));
    PageAddedKeepsInv(s, u, NextPage(s));
    PageAddedCounts(s, u, NextPage(s));
    TakeKeepsInv(u);
    ListInvFacts(u);
    TakeReturns(u);
    TakeCounted(u);
  }

  lemma NoListInv(slab: seq<nat>, origin: nat, space: Space)
    ensures ListInv(Unused(slab, origin, space))
  {
  }

  /** The stack's block: behind the loaded code and the free rest. */
  function StackIndex(space: Space): nat {
    if space.blocks == [] then 0 else |space.blocks| - 1
  }

  ghost predicate StackHolds(space: Space, g: nat, stack: nat, pages: int) {
    g < |space.blocks| && pages >= 0 && space.blocks[g] == M.Entry(stack, Mem.Pile(pages))
  }

  /** A loaded process starts: its first page and its stack are mapped, and the invariant holds from there on. */
  lemma StartKeepsInv(slab: seq<nat>, base: nat, origin: nat, space: Space, stack: nat, stackpages: nat)
    requires Bootable(slab, base, origin, space, stack, stackpages)
    ensures var s, g := Unused(slab, origin, space), StackIndex(space);
      && Starts(s, stack, stackpages)
      && var t := Started(s, stack, stackpages);
         && Inv(t, g) && StackHolds(t.space, g, stack, stackpages) && |t.mapped| == |t.returned| == 1
         && M.TotalPages(t.space.blocks) == M.TotalPages(space.blocks)
         && FreeSlotsOf(t.free) == SLOTS - 1 && Capacity(t, g) == SLOTS - 1 + SLOTS * Min(|slab|, stackpages)
  {
    hide *;
    var s, g := Unused(slab, origin, space), StackIndex(space);
    FirstStep(slab, base, origin, space, stack, stackpages);
    BootFacts(slab, base, origin, space, stack, stackpages);
    var v := Step(s);
    StackMemory(slab, base, origin, v.space, g, stack, stackpages, NextPage(s));
    StartsFacts(s, stack, stackpages);
    SameLists(v, Started(s, stack, stackpages));
    StartedInv(slab, s, v, Started(s, stack, stackpages), g, stack, stackpages);
  }

  lemma StartsFacts(s: State, stack: nat, stackpages: nat)
    requires Asks(s) && Grants(s) && Requestable(Step(s).space, stack, Mem.Pile(stackpages))
    requires Maps(Step(s).space, stack, Mem.Pile(stackpages))
    ensures Starts(s, stack, stackpages)
    ensures Started(s, stack, stackpages) == Step(s).(space := MapStep(Step(s).space, stack, Mem.Pile(stackpages)))
  {
  }

  /** The stack below the first page at `top`. */
  lemma StackMemory(slab: seq<nat>, base: nat, origin: nat, space: Space, g: nat, stack: nat, stackpages: nat, top: nat)
    requires Slab.Descending(slab, base, PAGE_SIZE) && base >= PAGE_SIZE
    requires top == origin + if slab == [] then 0 else slab[0]
    requires g > 0 && Mem.OnePage(space, g - 1, stack, top, stackpages) && Mem.IsMapped(space, top)
    requires stackpages > 0 && stack + stackpages * PAGE_SIZE <= origin && |space.frames| >= stackpages + |slab| + 2
    ensures Requestable(space, stack, Mem.Pile(stackpages)) && Maps(space, stack, Mem.Pile(stackpages))
    ensures var t := MapStep(space, stack, Mem.Pile(stackpages));
      && MemoryInv(Popped(slab), origin, t, [top], g) && StackHolds(t, g, stack, stackpages)
      && AddressesLeft(Popped(slab), origin, top) == |slab| && M.TotalPages(t.blocks) == M.TotalPages(space.blocks)
  {
    hide Slab.Descending, Requestable, Maps, MapStep, M.TotalPages, Mem.OnePage, Mem.IsMapped, Mem.ThreadSpace,
      Supplies, AddressesLeft, Popped;
    SlabSupplies(slab, base, origin);
    Mem.StackBelowPage(space, g - 1, stack, stackpages, origin, top);
    SpaceFacts(MapStep(space, stack, Mem.Pile(stackpages)), g, origin, top);
  }

  lemma StartedInv(slab: seq<nat>, s: State, v: State, t: State, g: nat, stack: nat, stackpages: nat)
    requires ListInv(t) && t == v.(space := t.space) && v.slab == Popped(slab) && v.mapped == [NextPage(s)]
    requires |v.returned| == 1 && FreeSlotsOf(v.free) == SLOTS - 1
    requires MemoryInv(Popped(slab), v.origin, t.space, [NextPage(s)], g) && StackHolds(t.space, g, stack, stackpages)
    requires AddressesLeft(Popped(slab), v.origin, NextPage(s)) == |slab|
    ensures Inv(t, g) && |t.mapped| == |t.returned| == 1 && FreeSlotsOf(t.free) == SLOTS - 1
    ensures g < |t.space.blocks| && Capacity(t, g) == SLOTS - 1 + SLOTS * Min(|slab|, stackpages)
  {
    hide ListInv, MemoryInv, FreeSlotsOf, AddressesLeft, Popped;
  }

  lemma BootFacts(slab: seq<nat>, base: nat, origin: nat, space: Space, stack: nat, stackpages: nat)
    requires Bootable(slab, base, origin, space, stack, stackpages)
    ensures StackIndex(space) == |space.blocks| - 1 > 0 && stackpages > 0
    ensures stack + stackpages * PAGE_SIZE <= origin <= NextPage(Unused(slab, origin, space))
    ensures NextPage(Unused(slab, origin, space)) == origin + if slab == [] then 0 else slab[0]
    ensures |space.frames| >= stackpages + |slab| + 3 && Slab.Descending(slab, base, PAGE_SIZE) && base >= PAGE_SIZE
  {
  }

  lemma SameLists(s: State, t: State)
    requires ListInv(s) && t == s.(space := t.space)
    ensures ListInv(t)
  {
    hide Descends, AllWithRoom, AllFull, Placed, FreeSlotsOf;
    assert Pages(t) == Pages(s);
  }

  /** From a loaded process exactly eight allocations are possible for its first page, and for every further page that
      the slab has an address for and the stack's block a page. */
  lemma RunsFromStart(slab: seq<nat>, base: nat, origin: nat, space: Space, stack: nat, stackpages: nat, n: nat)
    requires Bootable(slab, base, origin, space, stack, stackpages)
    ensures Starts(Unused(slab, origin, space), stack, stackpages)
    ensures CanRun(Started(Unused(slab, origin, space), stack, stackpages), n)
       <==> n + 1 <= SLOTS * (1 + Min(|slab|, stackpages))
  {
    hide Bootable, Inv, CanRun, Starts, Started, Capacity, M.TotalPages;
    StartKeepsInv(slab, base, origin, space, stack, stackpages);
    CanRunIff(Started(Unused(slab, origin, space), stack, stackpages), n, StackIndex(space));
  }

  /** Pages for `n` regions. */
  function PagesFor(n: nat): nat {
    (n + SLOTS - 1) / SLOTS
  }

  lemma PagesCounted(s: State)
    requires ListInv(s) && FreeSlotsOf(s.free) < SLOTS
    ensures |s.mapped| == PagesFor(|s.returned|)
  {
    ListInvFacts(s);
    hide ListInv, Listed, FreeSlotsOf;
  }

  /** After any run of `n` allocations: `n + 1` regions with the first one, pairwise apart, each inside a page that is
      in the block map and backed; pages listed as free have room, pages listed as full have none; the stack's block
      lost a page for every page after the first, and no page was lost from the total. */
  lemma RegionsAfterAnyRun(slab: seq<nat>, base: nat, origin: nat, space: Space, stack: nat, stackpages: nat,
      n: nat, i: nat, j: nat)
    requires Bootable(slab, base, origin, space, stack, stackpages)
    requires Starts(Unused(slab, origin, space), stack, stackpages)
    requires CanRun(Started(Unused(slab, origin, space), stack, stackpages), n)
    ensures var s, g := Run(Started(Unused(slab, origin, space), stack, stackpages), n), StackIndex(space);
      && |s.returned| == n + 1 && AllWithRoom(s.free) && AllFull(s.full)
      && (i < j <= n ==> Apart(s.returned[i], s.returned[j], ENTRY))
      && (i <= n ==> InMappedPage(s.space, s.returned[i]))
      && StackHolds(s.space, g, stack, stackpages + 1 - PagesFor(n + 1))
      && M.TotalPages(s.space.blocks) == M.TotalPages(space.blocks)
  {
    hide Bootable, Starts, Started, Capacity, M.TotalPages, CanRun, Run, Inv, PagesFor, AllWithRoom, AllFull;
    var start, g := Started(Unused(slab, origin, space), stack, stackpages), StackIndex(space);
    StartKeepsInv(slab, base, origin, space, stack, stackpages);
    AnyRunKeepsInv(start, n, g);
    var s := Run(start, n);
    InvFacts(s, g);
    PagesCounted(s);
    ListsFacts(s, i, j);
    if i <= n {
      RegionIsMapped(s, g, i);
    }
  }

  // ---- which regions they are -----------------------------------------------------------------------

  /** Page `k` of a process: the offsets of the slab in order, and then offset 0. */
  function Address(origin: nat, slab: seq<nat>, k: nat): nat {
    origin + if k < |slab| then slab[k] else 0
  }

  /** A page whose first `c` slots are taken. */
  function SlotsFrom(c: nat): seq<bool> {
    seq(8, j => j >= c)
  }

  /** The last page is being filled from its first slot on, after all pages before it. */
  ghost predicate Filling(s: State, slab: seq<nat>) {
    var n, m := |s.returned|, |s.mapped|;
    && m > 0 && 8 * (m - 1) <= n < 8 * m && s.free == [Page(s.mapped[m - 1], SlotsFrom(n - 8 * (m - 1)))]
  }

  /** The pages and regions so far, in order. */
  ghost predicate Placement(s: State, slab: seq<nat>) {
    && s.slab == (if |s.mapped| <= |slab| then slab[|s.mapped|..] else [])
    && (forall k :: 0 <= k < |s.mapped| ==> s.mapped[k] == Address(s.origin, slab, k))
    && (forall i :: 0 <= i < |s.returned| ==> s.returned[i] == Address(s.origin, slab, i / 8) + i % 8 * 0x200)
  }

  ghost predicate InOrder(s: State, slab: seq<nat>) {
    Placement(s, slab) && (Filling(s, slab) || (s.free == [] && |s.returned| == 8 * |s.mapped|))
  }

  lemma SlotsFromStep(c: nat)
    requires c < 8
    ensures FirstFree(SlotsFrom(c)) == c < |SlotsFrom(c)| && SlotsFrom(c)[c := false] == SlotsFrom(c + 1)
    ensures HasRoom(SlotsFrom(c + 1)) <==> c < 7
  {
    var i := FirstFree(SlotsFrom(c));
    assert SlotsFrom(c)[c];
    assert SlotsFrom(c)[i] <==> i >= c;
    assert c < 7 ==> SlotsFrom(c + 1)[c + 1];
  }

  /** What taking a slot of the page being filled comes to. */
  lemma TakeFilling(s: State, slab: seq<nat>)
    requires Filling(s, slab)
    ensures var v, base, c := Take(s), s.mapped[|s.mapped| - 1], |s.returned| - 8 * (|s.mapped| - 1);
      && v == s.(free := v.free, full := v.full, returned := s.returned + [base + c * 0x200])
      && v.free == if c < 7 then [Page(base, SlotsFrom(c + 1))] else []
  {
    var c := |s.returned| - 8 * (|s.mapped| - 1);
    SlotsFromStep(c);
    assert HasRoom(s.free[0].slots);
    hide SlotsFrom, FirstFree, HasRoom;
    TakeIs(s);
    hide Take, UsedPage;
    assert s.free[1..] == [];
  }

  lemma PlacedMore(s: State, v: State, slab: seq<nat>)
    requires Placement(s, slab) && Filling(s, slab)
    requires v.mapped == s.mapped && v.slab == s.slab && v.origin == s.origin
    requires var n, m := |s.returned|, |s.mapped|;
      v.returned == s.returned + [s.mapped[m - 1] + (n - 8 * (m - 1)) * 0x200]
    ensures Placement(v, slab)
  {
    hide SlotsFrom, Address;
    var n, m := |s.returned|, |s.mapped|;
    assert n / 8 == m - 1 && n % 8 == n - 8 * (m - 1);
  }

  lemma TakeInOrder(s: State, slab: seq<nat>)
    requires Placement(s, slab) && Filling(s, slab)
    ensures InOrder(Take(s), slab)
  {
    TakeFilling(s, slab);
    PlacedMore(s, Take(s), slab);
    hide Take, SlotsFrom, Placement;
  }

  lemma AddInOrder(s: State, slab: seq<nat>)
    requires InOrder(s, slab) && s.free == [] && forall x :: x in slab ==> x > 0
    requires Requestable(s.space, NextPage(s), Mem.TLS_PAGE) && Maps(s.space, NextPage(s), Mem.TLS_PAGE)
    ensures Placement(AddPage(s), slab) && Filling(AddPage(s), slab)
  {
    var v := AddPage(s);
    AddPageFields(s, v);
    assert v.returned == s.returned && v.free == [Page(NextPage(s), SlotsFrom(0))] by {
      assert SlotsFrom(0) == seq(SLOTS, _ => true);
      assert s.free == [];
    }
    hide Requestable, Maps, AddPage, SlotsFrom, Address, Placement;
    PageInOrder(s, v, slab);
  }

  lemma PageInOrder(s: State, v: State, slab: seq<nat>)
    requires Placement(s, slab) && forall x :: x in slab ==> x > 0
    requires v.mapped == s.mapped + [NextPage(s)] && v.slab == Popped(s.slab)
    requires v.origin == s.origin && v.returned == s.returned
    ensures Placement(v, slab)
  {
    NextInOrder(s, slab);
    hide NextPage, Popped, Address;
  }

  /** The next page is the one that the slab has for that place, and the rest of the slab follows. */
  lemma NextInOrder(s: State, slab: seq<nat>)
    requires Placement(s, slab) && forall x :: x in slab ==> x > 0
    ensures NextPage(s) == Address(s.origin, slab, |s.mapped|)
    ensures Popped(s.slab) == if |s.mapped| + 1 <= |slab| then slab[|s.mapped| + 1..] else []
  {
    if |s.mapped| < |slab| {
      assert slab[|s.mapped|] in slab && s.slab[1..] == slab[|s.mapped| + 1..];
    }
  }

  lemma StepInOrder(s: State, slab: seq<nat>)
    requires InOrder(s, slab) && Asks(s) && Grants(s) && forall x :: x in slab ==> x > 0
    ensures InOrder(Step(s), slab) && Step(s).origin == s.origin
  {
    hide Requestable, Maps, Placement, Take, AddPage;
    if s.free == [] {
      AddInOrder(s, slab);
      TakeInOrder(AddPage(s), slab);
      AddPageFields(s, AddPage(s));
      TakeOrigin(AddPage(s));
    } else {
      TakeInOrder(s, slab);
      TakeOrigin(s);
    }
  }

  lemma TakeOrigin(s: State)
    requires s.free != []
    ensures Take(s).origin == s.origin
  {
  }

  lemma {:induction false} RunInOrder(s: State, n: nat, slab: seq<nat>)
    requires InOrder(s, slab) && CanRun(s, n) && forall x :: x in slab ==> x > 0
    ensures InOrder(Run(s, n), slab) && Run(s, n).origin == s.origin
    decreases n
  {
    hide InOrder, Asks, Grants, Step;
    if n > 0 {
      StepInOrder(s, slab);
      RunInOrder(Step(s), n - 1, slab);
    }
  }

  /** Region `i` of a process, the first one included, is slot `i % 8` of page `i / 8`; the pages come off the slab in
      order, and after an exhausted slab from offset 0. */
  lemma RegionsInOrder(slab: seq<nat>, base: nat, origin: nat, space: Space, stack: nat, stackpages: nat,
      n: nat, i: nat)
    requires Bootable(slab, base, origin, space, stack, stackpages)
    requires Starts(Unused(slab, origin, space), stack, stackpages)
    requires CanRun(Started(Unused(slab, origin, space), stack, stackpages), n) && i <= n
    ensures var r := Run(Started(Unused(slab, origin, space), stack, stackpages), n).returned;
      |r| == n + 1 && r[i] == origin + (if i / 8 < |slab| then slab[i / 8] else 0) + i % 8 * 0x200
  {
    hide *;
    var s := Unused(slab, origin, space);
    var start := Started(s, stack, stackpages);
    StartKeepsInv(slab, base, origin, space, stack, stackpages);
    AnyRunKeepsInv(start, n, StackIndex(space));
    SlabIsPositive(slab, base, origin, space, stack, stackpages);
    NothingInOrder(slab, origin, space);
    StartsStep(s, stack, stackpages);
    StepInOrder(s, slab);
    OtherSpace(Step(s), start, slab);
    RunInOrder(start, n, slab);
    RegionPlaced(Run(start, n), slab, i);
  }

  lemma SlabIsPositive(slab: seq<nat>, base: nat, origin: nat, space: Space, stack: nat, stackpages: nat)
    requires Bootable(slab, base, origin, space, stack, stackpages)
    ensures forall x :: x in slab ==> x > 0
  {
    forall i | 0 <= i < |slab| ensures slab[i] > 0 {
      Slab.DescendingDistance(slab, base, i, |slab| - 1);
    }
  }

  lemma NothingInOrder(slab: seq<nat>, origin: nat, space: Space)
    ensures InOrder(Unused(slab, origin, space), slab) && Unused(slab, origin, space).origin == origin
  {
    assert slab[0..] == slab;
  }

  lemma StartsStep(s: State, stack: nat, stackpages: nat)
    requires Starts(s, stack, stackpages)
    ensures Asks(s) && Grants(s)
    ensures Started(s, stack, stackpages) == Step(s).(space := Started(s, stack, stackpages).space)
  {
    hide Requestable, Maps, MapStep, Step;
  }

  lemma OtherSpace(s: State, t: State, slab: seq<nat>)
    requires InOrder(s, slab) && t == s.(space := t.space)
    ensures InOrder(t, slab)
  {
  }

  lemma RegionPlaced(s: State, slab: seq<nat>, i: nat)
    requires InOrder(s, slab) && i < |s.returned|
    ensures s.returned[i] == s.origin + (if i / 8 < |slab| then slab[i / 8] else 0) + i % 8 * 0x200
  {
  }

  lemma ListsFacts(s: State, i: nat, j: nat)
    requires ListInv(s)
    ensures AllWithRoom(s.free) && AllFull(s.full)
    ensures i < j < |s.returned| ==> Apart(s.returned[i], s.returned[j], ENTRY)
  {
  }

  /** The region lies in a thread-local page of the block map. */
  ghost predicate InMappedPage(space: Space, region: nat) {
    exists page: nat :: Mem.IsMapped(space, page) && page <= region && region + ENTRY <= page + PAGE_SIZE
  }

  lemma RegionIsMapped(s: State, g: nat, i: nat)
    requires Inv(s, g) && i < |s.returned|
    ensures InMappedPage(s.space, s.returned[i])
  {
    hide Mem.IsMapped;
    var region := s.returned[i];
    assert Held(s, region);
    var k :| 0 <= k < |Pages(s)| && Holds(Pages(s)[k], region);
    assert Pages(s)[k].base in s.mapped && |Pages(s)[k].slots| == SLOTS;
  }

  // ---- the objects ----------------------------------------------------------------------------------

  class KTlsPageManager {
    const tlsbase: nat
    var freeslots: seq<bool>

    ghost function Abs(): Page
      reads this
    {
      Page(tlsbase, freeslots)
    }

    constructor (tlsr: nat)
      ensures Abs() == Page(tlsr, seq(SLOTS, _ => true))
    {
      tlsbase, freeslots := tlsr, seq(SLOTS, _ => true);
    }

    /** The first free slot, which is then taken; or null when there is none. */
    method Allocate() returns (region: Slab.Reservation)
      modifies this
      ensures var i := FirstFree(old(freeslots));
        if i == |old(freeslots)| then region == Slab.Fail && freeslots == old(freeslots)
        else region == Slab.Reserved(tlsbase + i * ENTRY) && freeslots == old(freeslots)[i := false]
    {
      var begin, slot := tlsbase, 0;
      while slot < |freeslots| && !freeslots[slot]
        invariant slot <= |freeslots| && begin == tlsbase + slot * ENTRY && freeslots == old(freeslots)
        invariant forall j :: 0 <= j < slot ==> !freeslots[j]
      {
        begin := begin + ENTRY;
        slot := slot + 1;
      }
      assert slot == FirstFree(freeslots);
      if slot < |freeslots| {
        freeslots := freeslots[slot := false];
      }
      if begin == tlsbase + |freeslots| * ENTRY {
        return Slab.Fail;
      }
      region := Slab.Reserved(begin);
    }

    method Allocatable() returns (r: bool)
      ensures r == HasRoom(freeslots)
    {
      for i := 0 to |freeslots|
        invariant forall j :: 0 <= j < i ==> !freeslots[j]
      {
        if freeslots[i] {
          return true;
        }
      }
      r := false;
    }
  }

  function AbsAll(pages: seq<KTlsPageManager>): (r: seq<Page>)
    reads pages
    ensures |r| == |pages| && forall k :: 0 <= k < |pages| ==> r[k] == Page(pages[k].tlsbase, pages[k].freeslots)
  {
    if pages == [] then [] else [Page(pages[0].tlsbase, pages[0].freeslots)] + AbsAll(pages[1..])
  }

  ghost predicate FirstHasSlot(s: State) {
    s.free != [] && HasRoom(s.free[0].slots)
  }

  /** A slot of the first page is taken ... */
  function Marked(s: State): State
    requires s.free != [] && HasRoom(s.free[0].slots)
  {
    var page := s.free[0];
    s.(free := [UsedPage(page)] + s.free[1..], returned := s.returned + [page.base + FirstFree(page.slots) * ENTRY])
  }

  /** ... and the page moves to the full list when it has no other. */
  function Settled(s: State): State
    requires s.free != []
  {
    if HasRoom(s.free[0].slots) then s else s.(free := s.free[1..], full := [s.free[0]] + s.full)
  }

  lemma TakeIsMarkAndSettle(s: State)
    requires FirstHasSlot(s)
    ensures Marked(s).free != [] && Take(s) == Settled(Marked(s))
  {
    TakeIs(s);
    hide Take, FirstFree, UsedPage;
    assert Marked(s).free[1..] == s.free[1..];
  }

  /** One page's slots changed. */
  lemma FirstChanged(before: seq<Page>, after: seq<Page>, page: Page)
    requires |after| == |before| > 0 && after[0] == page && forall k :: 0 < k < |before| ==> after[k] == before[k]
    ensures after == [page] + before[1..]
  {
  }

  /** The part of a process that hands out thread-local regions. `mapped` records the pages that were mapped, `returned`
      the regions handed out. */
  class KProcess {
    const userslabs: Slab.KSlabHeap
    const memory: K.KMemory
    var freetlslist: seq<KTlsPageManager>
    var fulltlslist: seq<KTlsPageManager>
    ghost var mapped: seq<nat>
    ghost var returned: seq<nat>

    ghost function Abs(): State
      reads this, userslabs, memory.blockslist, memory.blockslist.hostslab, memory.blockslist.allocator,
        freetlslist, fulltlslist
    {
      State(AbsAll(freetlslist), AbsAll(fulltlslist), userslabs.objects, memory.TlsIo(), memory.blockslist.Abs(),
        mapped, returned)
    }

    /** The page objects are different from each other, and so are the two slabs. */
    ghost predicate Valid()
      reads `freetlslist, `fulltlslist
    {
      && (forall k, l :: 0 <= k < l < |freetlslist| ==> freetlslist[k] != freetlslist[l])
      && (forall k, l :: 0 <= k < |freetlslist| && 0 <= l < |fulltlslist| ==> freetlslist[k] != fulltlslist[l])
      && userslabs != memory.blockslist.hostslab
    }

    /** The next page can be asked for: its bytes exist, and the block map answers the request. */
    ghost predicate CanAsk()
      reads this, userslabs, memory, memory.blockslist, memory.blockslist.hostslab, memory.blockslist.allocator,
        memory.blockslist.allocator.pagetable
    {
      var offset := if userslabs.objects == [] then 0 else userslabs.objects[0];
      memory.CanRequest(memory.TlsIo() + offset, PAGE_SIZE, Mem.TLS_PAGE)
    }

    constructor (slab: Slab.KSlabHeap, memory: K.KMemory)
      requires slab != memory.blockslist.hostslab
      ensures Valid() && userslabs == slab && this.memory == memory
      ensures Abs() == Unused(slab.objects, memory.TlsIo(), memory.blockslist.Abs())
    {
      userslabs, this.memory := slab, memory;
      freetlslist, fulltlslist, mapped, returned := [], [], [], [];
    }

    /** Takes a slot of the first page object. */
    method MarkFirst() returns (region: Slab.Reservation)
      requires Valid() && freetlslist != [] && HasRoom(freetlslist[0].freeslots)
      modifies freetlslist[0]
      ensures var page := Page(freetlslist[0].tlsbase, old(freetlslist[0].freeslots));
        && region == Slab.Reserved(page.base + FirstFree(page.slots) * ENTRY) && FirstFree(page.slots) < |page.slots|
        && AbsAll(freetlslist) == [UsedPage(page)] + old(AbsAll(freetlslist))[1..]
      ensures AbsAll(fulltlslist) == old(AbsAll(fulltlslist)) && userslabs.objects == old(userslabs.objects)
      ensures memory.blockslist.Abs() == old(memory.blockslist.Abs())
    {
      hide HasRoom, FirstFree, AbsAll;
      ghost var before := AbsAll(freetlslist);
      HasRoomFacts(freetlslist[0].freeslots);
      region := freetlslist[0].Allocate();
      FirstChanged(before, AbsAll(freetlslist), UsedPage(before[0]));
    }

    method MarkSlot() returns (region: Slab.Reservation)
      requires Valid() && freetlslist != [] && HasRoom(freetlslist[0].freeslots)
      modifies freetlslist[0], `returned
      ensures FirstHasSlot(old(Abs())) && Abs() == Marked(old(Abs()))
      ensures |returned| > 0 && region == Slab.Reserved(returned[|returned| - 1])
    {
      hide HasRoom, FirstFree, AbsAll, UsedPage, Valid;
      region := MarkFirst();
      returned := returned + [region.pointer];
    }

    /** A page left without room moves to the full list. */
    method SettleFirst()
      requires Valid() && freetlslist != []
      modifies `freetlslist, `fulltlslist
      ensures Valid() && old(Abs()).free != [] && Abs() == Settled(old(Abs()))
    {
      hide HasRoom, FirstFree, AbsAll, Valid;
      var more := freetlslist[0].Allocatable();
      if !more {
        MoveToFull();
      }
    }

    /** Takes a slot of the first page; a page left without room moves to the full list. */
    method TakeSlot() returns (region: Slab.Reservation)
      requires Valid() && freetlslist != [] && HasRoom(freetlslist[0].freeslots)
      modifies this, freetlslist
      ensures Valid() && Abs() == Take(old(Abs()))
      ensures |returned| > 0 && region == Slab.Reserved(returned[|returned| - 1])
    {
      hide *;
      ghost var s := Abs();
      region := MarkSlot();
      SettleFirst();
      TakeIsMarkAndSettle(s);
    }

    method MoveToFull()
      requires Valid() && freetlslist != []
      modifies `freetlslist, `fulltlslist
      ensures Valid() && AbsAll(freetlslist) == old(AbsAll(freetlslist))[1..]
      ensures AbsAll(fulltlslist) == [old(AbsAll(freetlslist))[0]] + old(AbsAll(fulltlslist))
    {
      hide AbsAll;
      ghost var free, full := AbsAll(freetlslist), AbsAll(fulltlslist);
      fulltlslist := [freetlslist[0]] + fulltlslist;
      freetlslist := freetlslist[1..];
      assert AbsAll(freetlslist) == free[1..];
      assert AbsAll(fulltlslist) == [free[0]] + full;
    }

    /** Takes the next offset off the slab and maps its page; the offset is gone even when `Map` throws. */
    method AskPage() returns (address: nat, r: MapResult)
      requires Valid() && CanAsk()
      modifies userslabs, memory, memory.blockslist, memory.blockslist.hostslab, memory.blockslist.allocator,
        memory.blockslist.allocator.pagetable
      ensures address == NextPage(old(Abs())) && AbsAll(freetlslist) == old(AbsAll(freetlslist))
      ensures userslabs.objects == Popped(old(userslabs.objects)) && AbsAll(fulltlslist) == old(AbsAll(fulltlslist))
      ensures Answers(r, old(memory.blockslist.Abs()), memory.blockslist.Abs(), address, Mem.TLS_PAGE)
      ensures memory.codebase <= address && address - memory.codebase + PAGE_SIZE <= |old(memory.memory)|
      ensures memory.memory == if r.Mapped? then Splice(old(memory.memory), address - memory.codebase, Zeros(PAGE_SIZE))
                               else old(memory.memory)
      ensures r.Mapped? && |memory.blockslist.hostslab.objects| >= 2 ==> memory.blockslist.Ready(0)
    {
      hide Requestable, Answers, Splice, Zeros, AbsAll;
      var tlsaddr := userslabs.Allocate();
      var offset := if tlsaddr.Reserved? then tlsaddr.pointer else 0;
      address := memory.TlsIo() + offset;
      r := memory.MapTlsMemory(offset, PAGE_SIZE);
    }

    method ListPage(address: nat)
      requires Valid() && freetlslist == []
      modifies `freetlslist, `mapped
      ensures Valid() && |freetlslist| == 1 && fresh(freetlslist[0]) && HasRoom(freetlslist[0].freeslots)
      ensures Abs() == old(Abs()).(free := [Page(address, seq(SLOTS, _ => true))], mapped := old(mapped) + [address])
    {
      hide FirstFree, HasRoom;
      NewPageHasRoom();
      mapped := mapped + [address];
      var page := new KTlsPageManager(address);
      freetlslist := freetlslist + [page];
      assert freetlslist == [page];
      assert AbsAll(freetlslist) == [page.Abs()];
    }

    /** Maps the next page and lists it, unless `Map` throws. */
    method MapTlsPage() returns (r: MapResult)
      requires Valid() && freetlslist == [] && CanAsk()
      modifies this, userslabs, memory, memory.blockslist, memory.blockslist.hostslab, memory.blockslist.allocator,
        memory.blockslist.allocator.pagetable
      ensures Asks(old(Abs())) && old(Abs()).free == [] && Valid() && (r.Mapped? <==> Grants(old(Abs())))
      ensures Abs() == if r.Mapped? then AddPage(old(Abs())) else old(Abs()).(slab := Popped(old(Abs()).slab))
      ensures r.Mapped? ==> |freetlslist| == 1 && fresh(freetlslist[0]) && HasRoom(freetlslist[0].freeslots)
      ensures r.Mapped? && |memory.blockslist.hostslab.objects| >= 2 ==> memory.blockslist.Ready(0)
      ensures |memory.memory| == |old(memory.memory)|
    {
      hide Requestable, Maps, MapStep, Answers, Splice, Zeros, AbsAll, Valid, AddPage, HasRoom, Popped;
      ghost var s := Abs();
      var address;
      address, r := AskPage();
      AnswerAdds(s, memory.blockslist.Abs(), r);
      assert Abs() == s.(slab := Popped(s.slab), space := memory.blockslist.Abs());
      if r.Mapped? {
        ListPage(address);
      }
    }

    /** Calls itself at most once, after adding a page; an exception of `Map` leaves the lists as they were. */
    method AllocateTls() returns (thrown: bool, region: Slab.Reservation)
      requires Valid()
      requires freetlslist == [] ==> CanAsk()
      requires freetlslist != [] ==> HasRoom(freetlslist[0].freeslots)
      modifies this, userslabs, memory, memory.blockslist, memory.blockslist.hostslab, memory.blockslist.allocator,
        memory.blockslist.allocator.pagetable, freetlslist
      ensures Asks(old(Abs())) && Valid() && (thrown <==> !Grants(old(Abs())))
      ensures Abs() == if thrown then old(Abs()).(slab := Popped(old(Abs()).slab)) else Step(old(Abs()))
      ensures !thrown ==> |returned| > 0 && region == Slab.Reserved(returned[|returned| - 1])
      ensures |memory.memory| == |old(memory.memory)|
      ensures old(freetlslist) == [] && !thrown && |memory.blockslist.hostslab.objects| >= 2 ==>
        memory.blockslist.Ready(0)
      ensures old(freetlslist) != [] ==>
        && (old(memory.blockslist.Ready(0)) ==> memory.blockslist.Ready(0))
        && memory.blockslist.hostslab.objects == old(memory.blockslist.hostslab.objects)
      decreases if freetlslist == [] then 1 else 0
    {
      hide Take, AddPage, HasRoom, FirstFree, AbsAll, Valid, CanAsk, Requestable, Maps, Popped;
      thrown, region := false, Slab.Fail;
      if freetlslist != [] {
        region := TakeSlot();
      } else {
        var r := MapTlsPage();
        if r.Mapped? {
          thrown, region := AllocateTls();
        } else {
          thrown := true;
        }
      }
    }

    /** The first region and then the stack; either request may throw. */
    method Initialize(stack: nat) returns (thrown: bool, region: Slab.Reservation)
      requires Valid() && freetlslist == [] && CanAsk() && Asks(Abs())
      requires memory.Stack() - memory.codebase + stack <= |memory.memory|
      requires Grants(Abs()) ==> StackAsked(Step(Abs()).space, memory.Stack(), stack / PAGE_SIZE)
      modifies this, userslabs, memory, memory.blockslist, memory.blockslist.hostslab, memory.blockslist.allocator,
        memory.blockslist.allocator.pagetable
      ensures Valid() && Asks(old(Abs())) && (thrown <==> !Starts(old(Abs()), memory.Stack(), stack / PAGE_SIZE))
      ensures !thrown ==> Abs() == Started(old(Abs()), memory.Stack(), stack / PAGE_SIZE)
      ensures !thrown ==> |returned| > 0 && region == Slab.Reserved(returned[|returned| - 1])
    {
      hide AbsAll, Valid, CanAsk, Asks, Grants, Step, Starts, Started, Requestable, Maps, Popped, Answers, Splice,
        StackAsked,
        Slab.Descending;
      ghost var s := Abs();
      thrown, region := AllocateTls();
      if thrown {
        NoStart(s, memory.Stack(), stack / PAGE_SIZE);
        return;
      }
      ghost var t := Abs();
      StackAskedFacts(t.space, memory.Stack(), stack / PAGE_SIZE);
      CanMapStack(stack);
      var r := MapStack(stack);
      StackAnswers(s, memory.Stack(), stack / PAGE_SIZE, r, memory.blockslist.Abs());
      thrown := !r.Mapped?;
    }

    lemma CanMapStack(stack: nat)
      requires Requestable(memory.blockslist.Abs(), memory.Stack(), Mem.Pile(stack / PAGE_SIZE))
      requires memory.blockslist.Ready(0) && stack / PAGE_SIZE < |memory.blockslist.hostslab.objects|
      requires memory.Stack() - memory.codebase + stack <= |memory.memory|
      ensures memory.CanRequest(memory.Stack(), stack, Mem.Pile(stack / PAGE_SIZE))
    {
      hide Requestable;
    }

    /** Maps the stack; the lists stay as they were. */
    method MapStack(stack: nat) returns (r: MapResult)
      requires Valid() && memory.CanRequest(memory.Stack(), stack, Mem.Pile(stack / PAGE_SIZE))
      modifies memory, memory.blockslist, memory.blockslist.hostslab, memory.blockslist.allocator,
        memory.blockslist.allocator.pagetable
      ensures Answers(r, old(memory.blockslist.Abs()), memory.blockslist.Abs(), memory.Stack(),
                      Mem.Pile(stack / PAGE_SIZE))
      ensures Abs() == old(Abs()).(space := memory.blockslist.Abs())
    {
      hide AbsAll, K.KMemory.CanRequest, Requestable, Answers, Splice, K.Labelled;
      r := memory.MapStackMemory(0, stack);
      assert AbsAll(freetlslist) == old(AbsAll(freetlslist)) && AbsAll(fulltlslist) == old(AbsAll(fulltlslist));
    }
  }

  /** The block map answers the request for the stack, and frames are left behind it. */
  ghost predicate StackAsked(space: Space, stack: nat, stackpages: nat) {
    Requestable(space, stack, Mem.Pile(stackpages)) && |space.frames| >= 2
  }

  /** A loaded process asks for its first page and its stack, and both requests are answered. */
  lemma StartIsAsked(slab: seq<nat>, base: nat, origin: nat, space: Space, stack: nat, stackpages: nat)
    requires Bootable(slab, base, origin, space, stack, stackpages)
    ensures var s := Unused(slab, origin, space);
      Asks(s) && Grants(s) && StackAsked(Step(s).space, stack, stackpages)
  {
    hide Bootable, Asks, Grants, Step, Requestable, Maps, ListInv, M.TotalPages, Mem.OnePage, Mem.IsMapped,
      Slab.Descending,
      FreeSlotsOf, Popped;
    FirstStep(slab, base, origin, space, stack, stackpages);
    BootFacts(slab, base, origin, space, stack, stackpages);
    var s := Unused(slab, origin, space);
    Mem.StackBelowPage(Step(s).space, |space.blocks| - 2, stack, stackpages, origin, NextPage(s));
  }

  lemma StackAskedFacts(space: Space, stack: nat, stackpages: nat)
    requires StackAsked(space, stack, stackpages)
    ensures Requestable(space, stack, Mem.Pile(stackpages)) && |space.frames| >= 2 && stackpages < |space.frames|
  {
    hide M.Reaches;
  }

  lemma NoStart(s: State, stack: nat, stackpages: nat)
    requires Asks(s) && !Grants(s)
    ensures !Starts(s, stack, stackpages)
  {
  }

  lemma StackAnswers(s: State, stack: nat, stackpages: nat, r: MapResult, t: Space)
    requires Asks(s) && Grants(s) && Requestable(Step(s).space, stack, Mem.Pile(stackpages))
    requires Answers(r, Step(s).space, t, stack, Mem.Pile(stackpages))
    ensures r.Mapped? <==> Starts(s, stack, stackpages)
    ensures r.Mapped? ==> Started(s, stack, stackpages) == Step(s).(space := t)
  {
    hide Requestable, Maps, MapStep, Step, Asks, Grants;
  }

  /** What the answer to the request for the next page means for the lists. */
  lemma AnswerAdds(s: State, t: Space, r: MapResult)
    requires Requestable(s.space, NextPage(s), Mem.TLS_PAGE) && Answers(r, s.space, t, NextPage(s), Mem.TLS_PAGE)
    requires s.free == []
    ensures Asks(s) && (r.Mapped? <==> Grants(s))
    ensures r.Mapped? ==>
      AddPage(s) == s.(free := [Page(NextPage(s), seq(SLOTS, _ => true))], slab := Popped(s.slab), space := t,
                       mapped := s.mapped + [NextPage(s)])
    ensures !r.Mapped? ==> t == s.space
  {
    hide Requestable, Maps, MapStep;
  }

  lemma HasRoomFacts(slots: seq<bool>)
    requires HasRoom(slots)
    ensures FirstFree(slots) < |slots|
  {
  }

  lemma NewPageHasRoom()
    ensures HasRoom(seq(SLOTS, _ => true))
  {
  }
}
