/** The block manager object: lookups, range walks, and `Map`, which takes pages from a block, frames from the host
    slab, and records the mapping; and the state machine of its requests, each of which goes through or throws. */
module BlockManager {
  import opened Bytes
  import opened BlockMap
  import opened BlockWalk
  import Slab = SlabHeap
  import Sys = SysAllocator
  import Table = PageTable

  datatype MapResult = Mapped(host: nat) | CannotAllocate | PreviousNotFree

  /** `isallocated` of the source: recorded as backed, and not free. */
  ghost predicate Taken(allocs: map<Sys.AllocKey, nat>, e: Entry) {
    e.block.pages > 0 && Sys.Covered(allocs, e.key) && e.block.state != FREE
  }

  function WithPermission(m: Blocks, i: nat, permission: nat): Blocks
    requires i < |m|
  {
    m[i := m[i].(block := m[i].block.(permission := permission))]
  }

  /** What `Map` works on: the block map, the record of host mappings, and the free frames. */
  datatype Space = Space(blocks: Blocks, allocs: map<Sys.AllocKey, nat>, frames: seq<nat>)

  /** The first entry that `Map` looks at is taken. */
  ghost predicate TakenAt(s: Space, a: nat)
    requires |s.blocks| >= 2 && a <= s.blocks[|s.blocks| - 1].key
  {
    Taken(s.allocs, s.blocks[FirstOf(s.blocks, a)])
  }

  /** A request at a recorded address, or one that reaches one of the first two branches. */
  ghost predicate Requestable(s: Space, a: nat, block: Block) {
    && |s.blocks| >= 2 && a <= s.blocks[|s.blocks| - 1].key && 0 < block.pages < |s.frames|
    && (Sys.Covered(s.allocs, a) || Reaches(s.blocks, a, block, TakenAt(s, a)))
  }

  /** The request is carried out; otherwise `Map` throws. */
  ghost predicate Maps(s: Space, a: nat, block: Block)
    requires Requestable(s, a, block)
  {
    !Sys.Covered(s.allocs, a) && Admissible(s.blocks, a, block, TakenAt(s, a))
  }

  ghost function MapStep(s: Space, a: nat, block: Block): Space
    requires Requestable(s, a, block) && Maps(s, a, block)
  {
    Space(BlocksAfter(s.blocks, a, block, TakenAt(s, a)), s.allocs[(a, s.frames[block.pages]) := SizeOf(block)],
      s.frames[block.pages..])
  }

  /** `r` is the answer to the request, and `t` the space it leaves. */
  ghost predicate Answers(r: MapResult, s: Space, t: Space, a: nat, block: Block)
    requires Requestable(s, a, block)
  {
    && (r.CannotAllocate? <==> Sys.Covered(s.allocs, a))
    && (r.Mapped? <==> Maps(s, a, block))
    && t == if Maps(s, a, block) then MapStep(s, a, block) else s
  }

  class KMemoryBlockManager {
    const hostslab: Slab.KSlabHeap
    const allocator: Sys.SysAllocator
    ghost const slabbase: nat
    var blocks: Blocks

    constructor (hostslab: Slab.KSlabHeap, allocator: Sys.SysAllocator, ghost slabbase: nat)
      ensures this.hostslab == hostslab && this.allocator == allocator && this.slabbase == slabbase && blocks == []
    {
      this.hostslab, this.allocator, this.slabbase := hostslab, allocator, slabbase;
      blocks := [];
    }

    ghost function Abs(): Space
      reads this, hostslab, allocator
    {
      Space(blocks, allocator.alloclists, hostslab.objects)
    }

    /** One free block over the whole address space, and the sentinel behind it. */
    method Initialize(base: nat, size: nat)
      requires blocks == [] && size >= PAGE_SIZE
      modifies `blocks
      ensures Tiled(blocks) && blocks[0].key == base && blocks[1].key == base + size / PAGE_SIZE * PAGE_SIZE
      ensures |blocks| == 2 && blocks[0].block == Block(size / PAGE_SIZE, FREE, 0)
      ensures TotalPages(blocks) == size / PAGE_SIZE
    {
      var count := size / PAGE_SIZE;
      blocks := Assign(blocks, base, Block(count, FREE, 0));
      blocks := Assign(blocks, base + count * PAGE_SIZE, Block(0, INACCESSIBLE, 0));
      assert blocks == [Entry(base, Block(count, FREE, 0)), Entry(base + count * PAGE_SIZE, Block(0, INACCESSIBLE, 0))];
      assert TotalPages(blocks[1..]) == 0;
    }

    /** The block an address falls in, from the first key to the last. */
    method FindBlock(guest: nat) returns (r: nat)
      requires Sorted(blocks) && blocks != [] && blocks[0].key <= guest <= blocks[|blocks| - 1].key
      ensures r == BlockOf(blocks, guest) && BlockAt(blocks, guest, r)
    {
      var first := LowerBound(blocks, guest);
      if first < |blocks| && blocks[first].key <= guest {
        return first;
      }
      r := first - 1;
    }

    /** Walks block by block from `begin` to the block of `end`. */
    method IsMappedInRange(begin: nat, end: nat) returns (r: bool)
      requires Tiled(blocks) && Sorted(blocks)
      requires blocks[0].key <= begin <= blocks[|blocks| - 1].key && blocks[0].key <= end <= blocks[|blocks| - 1].key
      requires Walk(blocks, begin, BlockOf(blocks, end)) != Lost
      ensures r <==> Walk(blocks, begin, BlockOf(blocks, end)) == NoneFree
    {
      hide Sorted, Tiled, BlockOf, SizeOf, Walk;
      TwoEntries(blocks);
      var at := begin;
      var first := FindBlock(at);
      var last := FindBlock(end);
      WalkStep(blocks, at, first, last);
      while first != last
        invariant blocks[0].key <= at <= blocks[|blocks| - 1].key && first == BlockOf(blocks, at)
        invariant Walk(blocks, at, last) == Walk(blocks, begin, last)
        decreases blocks[|blocks| - 1].key - at
      {
        WalkStep(blocks, at, first, last);
        if blocks[first].block.state == FREE {
          return false;
        }
        WalkGoesOn(blocks, at, first, last);
        at := at + SizeOf(blocks[first].block);
        first := FindBlock(at);
      }
      WalkStep(blocks, at, first, last);
      r := true;
    }

    // ---- mapping --------------------------------------------------------------------------

    /** The slab still holds more pages than `pages`, all of them frames of the backing store, and the
        allocation record has no empty entry. */
    ghost predicate Ready(pages: nat)
      reads this, hostslab, allocator, allocator.pagetable
    {
      && Slab.Descending(hostslab.objects, slabbase, PAGE_SIZE) && slabbase % PAGE_SIZE == 0
      && |hostslab.objects| >= 2 && pages < |hostslab.objects|
      && allocator.pagetable.table != []
      && hostslab.objects[0] <= |allocator.pagetable.backing| * PAGE_SIZE
      && forall key :: key in allocator.alloclists ==> allocator.alloclists[key] > 0
    }

    method IsAllocated(e: Entry) returns (r: bool)
      ensures r <==> Taken(allocator.alloclists, e)
    {
      var can := allocator.CanAllocate(e.key, SizeOf(e.block));
      r := !can && e.block.state != FREE;
    }

    /** Takes frames for [a, a + pages) off the slab and records the mapping. */
    method MapHost(a: nat, pages: nat) returns (host: nat)
      requires pages > 0 && Ready(pages) && !Sys.Covered(allocator.alloclists, a)
      modifies hostslab, allocator, allocator.pagetable
      ensures host == old(hostslab.objects)[pages] && hostslab.objects == old(hostslab.objects)[pages..]
      ensures host / PAGE_SIZE + pages <= |old(allocator.pagetable.backing)|
      ensures allocator.alloclists == old(allocator.alloclists)[(a, host) := pages * PAGE_SIZE]
      ensures allocator.pagetable.table == Table.TableAfter(old(allocator.pagetable.table), a, pages)
      ensures allocator.pagetable.backing
           == Table.BackingAfter(old(allocator.pagetable.backing), allocator.hostptr, host, pages)
      ensures allocator.pagetable.tableinfo
           == old(allocator.pagetable.tableinfo) + [Table.TableInfo(Table.Allocated, a, a + pages * PAGE_SIZE)]
      ensures |hostslab.objects| >= 2 ==> Ready(0)
    {
      hide Table.TableAfter, Table.BackingAfter, Slab.Taken, Slab.Steps, Slab.Descending, Slab.ReserveOnce,
        Slab.PagesOf;
      var size := pages * PAGE_SIZE;
      ReservedFrames(hostslab.objects, slabbase, |allocator.pagetable.backing|, pages);
      var available := hostslab.Reserve(0, size, false);
      host := available.pointer;
      UncoveredIsNew(allocator.alloclists, a, host);
      allocator.Map(a, host, size);
    }

    /** Nothing lies between the request and the lower bound of its end: the donor is that block, or the one
        before it when that one is taken. */
    method MapOwnKey(a: nat, block: Block, lower: nat, busy: bool, ghost taken: bool) returns (done: bool, first: nat)
      requires |blocks| >= 2 && a <= blocks[|blocks| - 1].key && !Sys.Covered(allocator.alloclists, a)
      requires taken == Taken(allocator.alloclists, blocks[FirstOf(blocks, a)]) && Reaches(blocks, a, block, taken)
      requires busy == taken && lower == FirstOf(blocks, a) == LowerBound(blocks, a + SizeOf(block))
      modifies `blocks
      ensures done <==> Admissible(old(blocks), a, block, taken)
      ensures done ==> blocks == BlocksAfter(old(blocks), a, block, taken)
      ensures done ==> first < |blocks| && !Taken(allocator.alloclists, blocks[first])
      ensures !done ==> blocks == old(blocks)
    {
      hide *;
      ghost var m := blocks;
      ReachesFacts(m, a, block, taken);
      UncoveredIsNotTaken(allocator.alloclists, Entry(a, block));
      first := lower;
      if busy {
        first := first - 1;
      }
      if blocks[first].block.pages < block.pages {
        return false, first;
      }
      OwnKeyBranch(m, a, block, taken);
      blocks := Shrunk(blocks, first, block.pages);
      blocks := Assign(blocks, a, block);
      first := LowerBound(blocks, a);
      done := true;
    }

    /** The request starts in block `first` and ends before the next one. */
    method MapSplit(a: nat, block: Block, first: nat, ghost taken: bool)
      requires |blocks| >= 2 && a <= blocks[|blocks| - 1].key && !Sys.Covered(allocator.alloclists, a)
      requires taken == Taken(allocator.alloclists, blocks[FirstOf(blocks, a)]) && Reaches(blocks, a, block, taken)
      requires first == FirstOf(blocks, a) != LowerBound(blocks, a + SizeOf(block))
      modifies `blocks
      ensures Admissible(old(blocks), a, block, taken)
      ensures blocks == BlocksAfter(old(blocks), a, block, taken)
      ensures first < |blocks| && !Taken(allocator.alloclists, blocks[first])
    {
      hide *;
      ghost var m, allocs := blocks, allocator.alloclists;
      ReachesFacts(m, a, block, taken);
      UncoveredIsNotTaken(allocs, Entry(a, block));
      var splited := blocks[first].block.(pages := blocks[first].block.pages - block.pages);
      SplitBranch(m, a, block, taken, splited);
      StillNotTaken(allocs, m[first], splited);
      if a > blocks[first].key {
        blocks := Assign(blocks, blocks[first].key, splited);
        blocks := Assign(blocks, a, block);
      } else {
        blocks := Assign(blocks, blocks[first].key, block);
        blocks := Assign(blocks, a + SizeOf(block), splited);
      }
    }

    /** The first two branches on the block map; `first` is the entry that `Map` goes on with. */
    method MapBlocks(a: nat, block: Block, ghost taken: bool) returns (done: bool, first: nat)
      requires |blocks| >= 2 && a <= blocks[|blocks| - 1].key && !Sys.Covered(allocator.alloclists, a)
      requires taken == Taken(allocator.alloclists, blocks[FirstOf(blocks, a)]) && Reaches(blocks, a, block, taken)
      modifies `blocks
      ensures done <==> Admissible(old(blocks), a, block, taken)
      ensures done ==> blocks == BlocksAfter(old(blocks), a, block, taken)
      ensures done ==> first < |blocks| && !Taken(allocator.alloclists, blocks[first])
      ensures !done ==> blocks == old(blocks)
    {
      hide *;
      ReachesFacts(blocks, a, block, taken);
      first := LowerBound(blocks, a);
      if first == |blocks| - 1 {
        first := first - 1;
      }
      var last := LowerBound(blocks, a + SizeOf(block));
      var busy := IsAllocated(blocks[first]);
      if first == last {
        done, first := MapOwnKey(a, block, first, busy, taken);
      } else {
        MapSplit(a, block, first, taken);
        done := true;
      }
    }

    /** Maps `block` at `a`: pages from its donor, frames from the slab. */
    method Map(a: nat, block: Block) returns (r: MapResult)
      requires Requestable(Abs(), a, block) && Ready(block.pages)
      modifies `blocks, hostslab, allocator, allocator.pagetable
      ensures Answers(r, old(Abs()), Abs(), a, block)
      ensures !r.Mapped? ==>
        && allocator.pagetable.table == old(allocator.pagetable.table)
        && allocator.pagetable.backing == old(allocator.pagetable.backing)
        && allocator.pagetable.tableinfo == old(allocator.pagetable.tableinfo)
      ensures r.Mapped? ==>
        && r.host == old(hostslab.objects)[block.pages]
        && r.host / PAGE_SIZE + block.pages <= |old(allocator.pagetable.backing)|
        && allocator.pagetable.table == Table.TableAfter(old(allocator.pagetable.table), a, block.pages)
        && allocator.pagetable.backing
           == Table.BackingAfter(old(allocator.pagetable.backing), allocator.hostptr, r.host, block.pages)
        && allocator.pagetable.tableinfo
           == old(allocator.pagetable.tableinfo) + [Table.TableInfo(Table.Allocated, a, a + SizeOf(block))]
      ensures r.Mapped? && |hostslab.objects| >= 2 ==> Ready(0)
    {
      hide Requestable, Maps, MapStep, TakenAt, Reaches, Admissible, BlocksAfter, FirstOf, SizeOf, Sys.Covered, Taken,
        Slab.Descending, Table.TableAfter, Table.BackingAfter;
      ghost var s := Abs();
      ghost var taken := RequestFacts(s, a, block);
      var can := allocator.CanAllocate(a, SizeOf(block));
      if !can {
        return CannotAllocate;
      }
      var done, first := MapBlocks(a, block, taken);
      if !done {
        return PreviousNotFree;
      }
      r := Mapped(0);
      var busy := IsAllocated(blocks[first]);
      assert !busy;
      if !busy {
        var host := MapHost(a, block.pages);
        r := Mapped(host);
      }
    }

    method Reprotect(guest: nat, pages: nat, permission: nat)
      requires Sorted(blocks) && blocks != [] && blocks[0].key <= guest <= blocks[|blocks| - 1].key
      modifies `blocks
      ensures pages == 0 ==> blocks == old(blocks)
      ensures pages > 0 ==>
        (exists i: nat :: i < |old(blocks)| && BlockAt(old(blocks), guest, i)
          && blocks == WithPermission(old(blocks), i, permission))
    {
      var i := FindBlock(guest);
      if pages == 0 {
        return;
      }
      blocks := WithPermission(blocks, i, permission);
    }
  }

  // ---- what the branches of `Map` do to the sequence ------------------------------------------

  lemma ReachesFacts(m: Blocks, a: nat, block: Block, taken: bool)
    requires |m| >= 2 && a <= m[|m| - 1].key && Reaches(m, a, block, taken)
    ensures Sorted(m) && m[0].key <= a && block.pages > 0
    ensures FirstOf(m, a) == if LowerBound(m, a) == |m| - 1 then LowerBound(m, a) - 1 else LowerBound(m, a)
    ensures LowerBound(m, a + SizeOf(block)) < |m|
    ensures FirstOf(m, a) == LowerBound(m, a + SizeOf(block)) && taken ==> FirstOf(m, a) > 0
    ensures DonorOf(m, a, block, taken)
         == if FirstOf(m, a) == LowerBound(m, a + SizeOf(block)) && taken then FirstOf(m, a) - 1 else FirstOf(m, a)
    ensures Admissible(m, a, block, taken) <==> m[DonorOf(m, a, block, taken)].block.pages >= block.pages
    ensures FirstOf(m, a) != LowerBound(m, a + SizeOf(block)) ==>
      Admissible(m, a, block, taken) && m[FirstOf(m, a)].block.pages >= block.pages && !taken
  {
    LowerBoundIs(m, a, LowerBound(m, a));
  }

  /** What a request means for the parts of the space. */
  lemma RequestFacts(s: Space, a: nat, block: Block) returns (taken: bool)
    requires Requestable(s, a, block)
    ensures |s.blocks| >= 2 && a <= s.blocks[|s.blocks| - 1].key && 0 < block.pages < |s.frames| && SizeOf(block) > 0
    ensures taken == Taken(s.allocs, s.blocks[FirstOf(s.blocks, a)])
    ensures !Sys.Covered(s.allocs, a) ==> Reaches(s.blocks, a, block, taken)
    ensures Maps(s, a, block) <==> !Sys.Covered(s.allocs, a) && Admissible(s.blocks, a, block, taken)
    ensures Maps(s, a, block) ==>
      MapStep(s, a, block) == Space(BlocksAfter(s.blocks, a, block, taken),
        s.allocs[(a, s.frames[block.pages]) := block.pages * PAGE_SIZE], s.frames[block.pages..])
    ensures SizeOf(block) == block.pages * PAGE_SIZE
  {
    hide Reaches, Admissible, BlocksAfter, FirstOf, Sys.Covered, Taken;
    taken := TakenAt(s, a);
  }

  lemma AssignExisting(m: Blocks, i: nat, block: Block)
    requires Sorted(m) && i < |m|
    ensures Assign(m, m[i].key, block) == m[i := Entry(m[i].key, block)]
    ensures Sorted(Assign(m, m[i].key, block))
  {
    LowerBoundIs(m, m[i].key, i);
  }

  /** Assigning above entry `f` leaves it alone. */
  lemma AssignAbove(m: Blocks, f: nat, key: nat, block: Block)
    requires Sorted(m) && f < |m| && m[f].key < key
    ensures var r := Assign(m, key, block); f < |r| && r[f] == m[f]
  {
  }

  lemma AssignFinds(m: Blocks, key: nat, block: Block)
    requires Sorted(m) && !HasKey(m, key)
    ensures var r := Assign(m, key, block); LowerBound(r, key) < |r| && r[LowerBound(r, key)] == Entry(key, block)
  {
    var i, r := LowerBound(m, key), Assign(m, key, block);
    AssignNew(m, key, block);
    LowerBoundIs(r, key, i);
  }

  /** The request gets a key of its own, and the donor below or above it shrinks. */
  lemma OwnKeyBranch(m: Blocks, a: nat, block: Block, taken: bool)
    requires |m| >= 2 && a <= m[|m| - 1].key && Admissible(m, a, block, taken)
    requires FirstOf(m, a) == LowerBound(m, a + SizeOf(block))
    ensures var r := Assign(Shrunk(m, DonorOf(m, a, block, taken), block.pages), a, block);
      && r == BlocksAfter(m, a, block, taken)
      && LowerBound(r, a) < |r| && r[LowerBound(r, a)] == Entry(a, block)
  {
    NewKeyIsNew(m, a, block, taken);
    var d := DonorOf(m, a, block, taken);
    hide LowerBound, FirstOf, DonorOf, Sorted, HasKey, Assign, NoKeyInside, SizeOf;
    ShrunkFacts(m, d, block.pages);
    SameKeysFacts(m, Shrunk(m, d, block.pages));
    hide Shrunk, SameKeys;
    AssignFinds(Shrunk(m, d, block.pages), a, block);
  }

  /** The block that the request starts in is split. */
  lemma SplitBranch(m: Blocks, a: nat, block: Block, taken: bool, splited: Block)
    requires |m| >= 2 && a <= m[|m| - 1].key && Admissible(m, a, block, taken)
    requires FirstOf(m, a) != LowerBound(m, a + SizeOf(block))
    requires var e := m[FirstOf(m, a)];
      e.block.pages >= block.pages && splited == e.block.(pages := e.block.pages - block.pages)
    ensures var f := FirstOf(m, a);
      if a > m[f].key then
        var r := Assign(Assign(m, m[f].key, splited), a, block);
        r == BlocksAfter(m, a, block, taken) && f < |r| && r[f] == Entry(m[f].key, splited)
      else
        var r := Assign(Assign(m, m[f].key, block), a + SizeOf(block), splited);
        a == m[f].key && r == BlocksAfter(m, a, block, taken) && f < |r| && r[f] == Entry(a, block)
  {
    hide LowerBound, FirstOf, NoKeyInside, SizeOf, Assign, BlocksAfter, Admissible, Sorted;
    var f := FirstOf(m, a);
    StartsInFirst(m, a, block, taken);
    SplitBlocksAfter(m, a, block, taken, splited);
    if a > m[f].key {
      AssignExisting(m, f, splited);
      AssignAbove(m[f := Entry(m[f].key, splited)], f, a, block);
    } else {
      AssignExisting(m, f, block);
      AssignAbove(m[f := Entry(m[f].key, block)], f, a + SizeOf(block), splited);
    }
  }

  lemma StartsInFirst(m: Blocks, a: nat, block: Block, taken: bool)
    requires |m| >= 2 && a <= m[|m| - 1].key && Admissible(m, a, block, taken)
    requires FirstOf(m, a) != LowerBound(m, a + SizeOf(block))
    ensures m[FirstOf(m, a)].key <= a && Sorted(m) && SizeOf(block) > 0
    ensures DonorOf(m, a, block, taken) == FirstOf(m, a)
  {
  }

  lemma SplitBlocksAfter(m: Blocks, a: nat, block: Block, taken: bool, splited: Block)
    requires |m| >= 2 && a <= m[|m| - 1].key && Admissible(m, a, block, taken)
    requires FirstOf(m, a) != LowerBound(m, a + SizeOf(block))
    requires var e := m[FirstOf(m, a)];
      e.block.pages >= block.pages && splited == e.block.(pages := e.block.pages - block.pages)
    ensures BlocksAfter(m, a, block, taken)
         == if m[FirstOf(m, a)].key == a then Assign(m[FirstOf(m, a) := Entry(a, block)], a + SizeOf(block), splited)
            else Assign(m[FirstOf(m, a) := Entry(m[FirstOf(m, a)].key, splited)], a, block)
  {
    hide LowerBound, FirstOf, NoKeyInside, SizeOf, Assign, Admissible, Sorted, DonorOf;
    StartsInFirst(m, a, block, taken);
  }

  lemma UncoveredIsNotTaken(allocs: map<Sys.AllocKey, nat>, e: Entry)
    requires !Sys.Covered(allocs, e.key)
    ensures !Taken(allocs, e)
  {
  }

  /** An entry that was not taken is not taken after losing pages. */
  lemma StillNotTaken(allocs: map<Sys.AllocKey, nat>, e: Entry, splited: Block)
    requires !Taken(allocs, e) && splited.state == e.block.state && splited.pages <= e.block.pages
    ensures !Taken(allocs, Entry(e.key, splited))
  {
  }

  lemma UncoveredIsNew(allocs: map<Sys.AllocKey, nat>, a: nat, host: nat)
    requires !Sys.Covered(allocs, a) && forall key :: key in allocs ==> allocs[key] > 0
    ensures (a, host) !in allocs
  {
    assert forall key: Sys.AllocKey :: key in allocs ==> !(key.0 <= a < key.0 + allocs[key]);
  }

  /** The frames that a reservation of whole pages hands on. */
  lemma ReservedFrames(free: seq<nat>, base: nat, frames: nat, pages: nat)
    requires Slab.Descending(free, base, PAGE_SIZE) && base % PAGE_SIZE == 0
    requires |free| >= 2 && 0 < pages < |free| && free[0] <= frames * PAGE_SIZE
    ensures free[0] - free[1] == PAGE_SIZE && Slab.Steps(0, pages * PAGE_SIZE, PAGE_SIZE) == pages
    ensures Slab.Taken(free, free[0], pages) == (free[pages..], free[pages])
    ensures Slab.Descending(free[pages..], base, PAGE_SIZE) && free[pages] <= free[0]
    ensures free[pages] / PAGE_SIZE + pages <= frames && pages * PAGE_SIZE / PAGE_SIZE == pages
    ensures pages * PAGE_SIZE % PAGE_SIZE == 0
    ensures Slab.PagesOf(pages * PAGE_SIZE) == pages
    ensures Slab.ReserveOnce(free, pages * PAGE_SIZE) == (free[pages..], Slab.Range(free[pages], pages * PAGE_SIZE))
  {
    assert Slab.PagesOf(pages * PAGE_SIZE) == pages;
    Slab.ReserveRefines(free, base, pages * PAGE_SIZE);
    Slab.TakenFromFront(free, pages);
    Slab.DescendingDistance(free, base, 0, pages);
  }
}
