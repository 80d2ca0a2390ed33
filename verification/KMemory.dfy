/** The process memory object: mapping a code segment at the front of the free space, a thread-local page or a stack in
    its own segment, setting the permission of a code segment, and filling memory, as the .bss is cleared. */
module KMemory {
  import opened Bytes
  import opened BlockMap
  import opened BlockManager
  import opened BlockWalk
  import Slab = SlabHeap
  import Sys = SysAllocator
  import Table = PageTable

  /** Every recorded mapping ends at or below `limit`. */
  ghost predicate AllBelow(allocs: map<Sys.AllocKey, nat>, limit: nat) {
    forall key: Sys.AllocKey :: key in allocs ==> key.0 + allocs[key] <= limit
  }

  lemma BelowIsUncovered(allocs: map<Sys.AllocKey, nat>, limit: nat)
    requires AllBelow(allocs, limit)
    ensures !Sys.Covered(allocs, limit)
  {
  }

  /** The block before the sentinel is free, starts at `at` and is longer than `pages`. */
  ghost predicate FreeFrom(m: Blocks, at: nat, pages: nat) {
    Tiled(m) && var e := m[|m| - 2]; e.key == at && e.block.state == FREE && e.block.pages > pages
  }

  /** The block map after a segment took the front of the free space. */
  ghost function Grown(m: Blocks, pages: nat, permission: nat): Blocks
    requires |m| >= 2 && pages <= m[|m| - 2].block.pages
  {
    SplitFront(m, |m| - 2, Block(pages, CODE, permission))
  }

  lemma GrownByMap(m: Blocks, at: nat, pages: nat, taken: bool, allocs: map<Sys.AllocKey, nat>)
    requires FreeFrom(m, at, pages) && pages > 0
    ensures |m| >= 2 && at <= m[|m| - 1].key && FirstOf(m, at) == |m| - 2
    ensures !Taken(allocs, m[|m| - 2])
    ensures Admissible(m, at, Block(pages, CODE, 0), false) && Reaches(m, at, Block(pages, CODE, 0), false)
    ensures BlocksAfter(m, at, Block(pages, CODE, 0), false) == Grown(m, pages, 0)
  {
    FrontIsAdmissible(m, |m| - 2, Block(pages, CODE, 0));
    FrontKeys(m, |m| - 2, Block(pages, CODE, 0));
    hide Admissible, BlocksAfter, FirstOf, LowerBound, SplitFront, NoKeyInside, TakesOver, DonorOf, Tiled, Sorted;
    FrontOfFreeBlock(m, |m| - 2, Block(pages, CODE, 0));
  }

  lemma GrownFacts(m: Blocks, at: nat, pages: nat, permission: nat)
    requires FreeFrom(m, at, pages) && pages > 0
    ensures var r := Grown(m, pages, permission);
      && |r| == |m| + 1 && Tiled(r) && Sorted(r) && r[|r| - 3] == Entry(at, Block(pages, CODE, permission))
      && FreeFrom(r, at + pages * PAGE_SIZE, 0)
      && r[|r| - 2].block == m[|m| - 2].block.(pages := m[|m| - 2].block.pages - pages)
      && r == m[..|m| - 2] + [Entry(at, Block(pages, CODE, permission)), r[|r| - 2], m[|m| - 1]]
      && r[0].key <= at && at < r[|r| - 1].key
  {
    var f, block := |m| - 2, Block(pages, CODE, permission);
    SplitIsTiled(m, f, block);
    TiledIsSorted(SplitFront(m, f, block));
    hide Tiled, Sorted;
    SplitEntry(m, f, block, |m|);
    SplitEntry(m, f, block, f);
    SplitEntry(m, f, block, f + 1);
    assert m[f + 1..] == [m[|m| - 1]];
  }

  /** The first page of a fill, and the end of its last one. */
  function FillFrom(base: nat, begin: nat): nat {
    base + begin - begin % PAGE_SIZE
  }

  function FillTo(base: nat, begin: nat, size: nat): nat {
    base + PageUp(begin + size)
  }

  lemma PagesAround(base: nat, begin: nat, size: nat)
    requires base % PAGE_SIZE == 0
    ensures base + begin - (base + begin) % PAGE_SIZE == FillFrom(base, begin)
    ensures PageUp(base + begin + size) == FillTo(base, begin, size)
  {
    var k := base / PAGE_SIZE;
    assert base == k * PAGE_SIZE;
  }

  /** The segment grows the code: free space from `at` on, and nothing recorded there. */
  ghost predicate GrowsAt(s: Space, at: nat, pages: nat) {
    FreeFrom(s.blocks, at, pages) && pages > 0 && AllBelow(s.allocs, at) && pages < |s.frames|
  }

  lemma GrownAnswer(r: MapResult, s: Space, t: Space, at: nat, pages: nat)
    requires GrowsAt(s, at, pages) && Requestable(s, at, Block(pages, CODE, 0))
    requires Answers(r, s, t, at, Block(pages, CODE, 0))
    ensures r.Mapped? && t.blocks == Grown(s.blocks, pages, 0) && t.frames == s.frames[pages..]
    ensures AllBelow(t.allocs, at + pages * PAGE_SIZE)
  {
    GrownByMap(s.blocks, at, pages, false, s.allocs);
    BelowIsUncovered(s.allocs, at);
    hide Reaches, Admissible, BlocksAfter, FirstOf, Taken, Grown, Sys.Covered, FreeFrom;
  }

  lemma RequestPages(s: Space, at: nat, block: Block)
    requires Requestable(s, at, block)
    ensures block.pages > 0
  {
  }

  lemma AnswerFrames(r: MapResult, s: Space, t: Space, at: nat, block: Block)
    requires Requestable(s, at, block) && Answers(r, s, t, at, block)
    ensures r.Mapped? ==> block.pages < |s.frames| && t.frames == s.frames[block.pages..]
  {
    hide Reaches, Admissible, BlocksAfter, FirstOf, Taken, Sys.Covered;
  }

  function NewRange(r: MapResult, at: nat, size: nat): seq<Table.TableInfo> {
    if r.Mapped? then [Table.TableInfo(Table.Allocated, at, at + size)] else []
  }

  /** A new range was recorded and then labelled. */
  function Labelled(infos: seq<Table.TableInfo>, kind: Table.TableType, at: nat, size: nat): seq<Table.TableInfo> {
    Table.Relabelled(infos + [Table.TableInfo(Table.Allocated, at, at + size)], kind, at, size)
  }

  function Filled(size: nat, constant: byte): (r: seq<byte>)
    ensures |r| == size && forall i :: 0 <= i < size ==> r[i] == constant
  {
    seq(size, _ => constant)
  }

  lemma BlockStart(m: Blocks, f: nat)
    requires Sorted(m) && f < |m|
    ensures m[0].key <= m[f].key <= m[|m| - 1].key && BlockAt(m, m[f].key, f)
  {
  }

  ghost predicate InMap(m: Blocks, a: nat) {
    m != [] && m[0].key <= a <= m[|m| - 1].key
  }

  /** The walk over the pages of [base + begin, base + begin + size). */
  ghost function FillWalk(m: Blocks, base: nat, begin: nat, size: nat): Verdict
    requires Tiled(m) && Sorted(m) && InMap(m, FillFrom(base, begin)) && InMap(m, FillTo(base, begin, size))
  {
    Walk(m, FillFrom(base, begin), BlockOf(m, FillTo(base, begin, size)))
  }

  /** Since the earlier state, `pages` pages at `at` were entered in the page table, backed by the next frames of
      the slab. */
  twostate predicate TookFrames(blockslist: KMemoryBlockManager, at: nat, pages: nat)
    reads blockslist, blockslist.hostslab, blockslist.allocator, blockslist.allocator.pagetable`table,
      blockslist.allocator.pagetable`backing
  {
    var n, table := old(blockslist.hostslab.objects), blockslist.allocator.pagetable;
    && pages < |n| && blockslist.hostslab.objects == n[pages..]
    && old(table.table) != [] && n[pages] / PAGE_SIZE + pages <= |old(table.backing)|
    && table.table == Table.TableAfter(old(table.table), at, pages)
    && table.backing == Table.BackingAfter(old(table.backing), blockslist.allocator.hostptr, n[pages], pages)
  }

  const GBYTES := 0x4000_0000
  /** Behind the code lie the alias, heap, stack and thread-local segments. */
  const ALIAS_SIZE := 64 * GBYTES
  const HEAP_SIZE := 8 * GBYTES
  const STACK_SIZE := 2 * GBYTES
  const TLSIO_SIZE := 64 * GBYTES
  const TOTAL_SIZE := ALIAS_SIZE + HEAP_SIZE + STACK_SIZE + TLSIO_SIZE

  class KMemory {
    const blockslist: KMemoryBlockManager
    const codebase: nat
    const codesize: nat
    /** Guest memory from `codebase` on. */
    var memory: seq<byte>

    constructor (blockslist: KMemoryBlockManager, codebase: nat, codesize: nat, memory: seq<byte>)
      ensures this.blockslist == blockslist && this.codebase == codebase && this.codesize == codesize
      ensures this.memory == memory
    {
      this.blockslist, this.codebase, this.codesize, this.memory := blockslist, codebase, codesize, memory;
    }

    function Stack(): nat {
      codebase + codesize + ALIAS_SIZE + HEAP_SIZE
    }

    function TlsIo(): nat {
      Stack() + STACK_SIZE
    }

    /** Alias and heap lie behind the code, 64 and 8 GBytes; then the stack, 2 GBytes, and the thread-local segment. */
    lemma SegmentsByPosition()
      ensures Stack() == codebase + codesize + 72 * 0x4000_0000 && TlsIo() == codebase + codesize + 74 * 0x4000_0000
      ensures TOTAL_SIZE == 138 * 0x4000_0000
    {
    }

    /** The request can be put: the bytes exist, and the block map answers it. */
    ghost predicate CanRequest(at: nat, size: nat, block: Block)
      reads this, blockslist, blockslist.hostslab, blockslist.allocator, blockslist.allocator.pagetable
    {
      && codebase <= at && at - codebase + size <= |memory|
      && Requestable(blockslist.Abs(), at, block) && blockslist.Ready(block.pages)
    }

    lemma RequestSize(at: nat, size: nat, state: nat)
      requires CanRequest(at, size, Block(size / PAGE_SIZE, state, 0))
      ensures size > 0
      ensures size % PAGE_SIZE == 0 ==> SizeOf(Block(size / PAGE_SIZE, state, 0)) == size
    {
      hide Requestable;
      RequestPages(blockslist.Abs(), at, Block(size / PAGE_SIZE, state, 0));
    }

    /** Maps `block` at `begin` of a segment and, when asked to, clears `size` bytes there. */
    method MapSegmentMemory(segment: nat, begin: nat, size: nat, fill: bool, block: Block) returns (r: MapResult)
      requires CanRequest(segment + begin, size, block) && size > 0
      modifies this, blockslist, blockslist.hostslab, blockslist.allocator, blockslist.allocator.pagetable
      ensures Answers(r, old(blockslist.Abs()), blockslist.Abs(), segment + begin, block)
      ensures memory == if r.Mapped? && fill then Splice(old(memory), segment + begin - codebase, Zeros(size))
                        else old(memory)
      ensures r.Mapped? ==> TookFrames(blockslist, segment + begin, block.pages)
      ensures blockslist.allocator.pagetable.tableinfo
           == old(blockslist.allocator.pagetable.tableinfo) + NewRange(r, segment + begin, SizeOf(block))
      ensures r.Mapped? && |blockslist.hostslab.objects| >= 2 ==> blockslist.Ready(0)
    {
      hide Answers, Requestable, Table.TableAfter, Table.BackingAfter, Slab.Descending, Splice, SizeOf;
      RequestPages(blockslist.Abs(), segment + begin, block);
      ghost var s := blockslist.Abs();
      r := blockslist.Map(segment + begin, block);
      AnswerFrames(r, s, blockslist.Abs(), segment + begin, block);
      if r.Mapped? && fill {
        memory := Splice(memory, segment + begin - codebase, Zeros(size));
      }
    }

    method MapCodeMemory(begin: nat, size: nat, content: seq<byte>)
      requires CanMap(begin, PageUp(size)) && PageUp(size) > |content|
      modifies this, blockslist, blockslist.hostslab, blockslist.allocator, blockslist.allocator.pagetable
      ensures blockslist.blocks == Grown(old(blockslist.blocks), PageUp(size) / PAGE_SIZE, 0)
      ensures memory == Splice(old(memory), begin, content + Zeros(PageUp(size) - |content|))
      ensures AllBelow(blockslist.allocator.alloclists, codebase + begin + PageUp(size))
      ensures TookFrames(blockslist, codebase + begin, PageUp(size) / PAGE_SIZE)
      ensures blockslist.allocator.pagetable.tableinfo
           == Labelled(old(blockslist.allocator.pagetable.tableinfo), Table.Code, codebase + begin, PageUp(size))
      ensures blockslist.Ready(0)
      ensures |blockslist.hostslab.objects| == |old(blockslist.hostslab.objects)| - PageUp(size) / PAGE_SIZE
    {
      hide CanMap, CanRequest, Requestable, Answers, Grown, AllBelow, Splice, Slab.Descending, Table.TableAfter,
        Table.BackingAfter, Table.Relabelled, TookFrames, PageUp;
      var length := PageUp(size);
      var pages := length / PAGE_SIZE;
      CanMapRequests(begin, length);
      ghost var s := blockslist.Abs();
      var r := MapSegmentMemory(codebase, begin, length, false, Block(pages, CODE, 0));
      GrownAnswer(r, s, blockslist.Abs(), codebase + begin, pages);
      CopyAndClear(begin, content, length);
      blockslist.allocator.pagetable.DelimitTable(Table.Code, codebase + begin, length);
    }

    /** A page of a thread: mapped and cleared, unless `Map` throws. */
    method MapTlsMemory(begin: nat, size: nat) returns (r: MapResult)
      requires CanRequest(TlsIo() + begin, size, Block(size / PAGE_SIZE, THREAD_LOCAL, 0))
      modifies this, blockslist, blockslist.hostslab, blockslist.allocator, blockslist.allocator.pagetable
      ensures Answers(r, old(blockslist.Abs()), blockslist.Abs(), TlsIo() + begin,
                      Block(size / PAGE_SIZE, THREAD_LOCAL, 0))
      ensures memory == if r.Mapped? then Splice(old(memory), TlsIo() + begin - codebase, Zeros(size)) else old(memory)
      ensures r.Mapped? ==> TookFrames(blockslist, TlsIo() + begin, size / PAGE_SIZE)
      ensures r.Mapped? && |blockslist.hostslab.objects| >= 2 ==> blockslist.Ready(0)
    {
      hide CanRequest, Answers, Splice, Slab.Descending, Table.TableAfter, Table.BackingAfter, TookFrames;
      RequestSize(TlsIo() + begin, size, THREAD_LOCAL);
      r := MapSegmentMemory(TlsIo(), begin, size, true, Block(size / PAGE_SIZE, THREAD_LOCAL, 0));
    }

    /** The stack of the first thread: mapped, cleared and labelled, unless `Map` throws. */
    method MapStackMemory(begin: nat, size: nat) returns (r: MapResult)
      requires CanRequest(Stack() + begin, size, Block(size / PAGE_SIZE, STACK, 0))
      modifies this, blockslist, blockslist.hostslab, blockslist.allocator, blockslist.allocator.pagetable
      ensures Answers(r, old(blockslist.Abs()), blockslist.Abs(), Stack() + begin, Block(size / PAGE_SIZE, STACK, 0))
      ensures memory == if r.Mapped? then Splice(old(memory), Stack() + begin - codebase, Zeros(size)) else old(memory)
      ensures r.Mapped? ==> TookFrames(blockslist, Stack() + begin, size / PAGE_SIZE)
      ensures r.Mapped? && size % PAGE_SIZE == 0 ==>
        blockslist.allocator.pagetable.tableinfo
        == Labelled(old(blockslist.allocator.pagetable.tableinfo), Table.Stack, Stack() + begin, size)
      ensures r.Mapped? && |blockslist.hostslab.objects| >= 2 ==> blockslist.Ready(0)
    {
      hide CanRequest, Answers, Splice, Slab.Descending, Table.TableAfter, Table.BackingAfter, TookFrames,
        Table.Relabelled;
      RequestSize(Stack() + begin, size, STACK);
      r := MapSegmentMemory(Stack(), begin, size, true, Block(size / PAGE_SIZE, STACK, 0));
      if r.Mapped? {
        blockslist.allocator.pagetable.DelimitTable(Table.Stack, Stack() + begin, size);
      }
    }

    /** The next segment fits: free space from `begin` on, frames in the slab, nothing mapped above. */
    ghost predicate CanMap(begin: nat, size: nat)
      reads this, blockslist, blockslist.hostslab, blockslist.allocator, blockslist.allocator.pagetable
    {
      && size > 0 && size % PAGE_SIZE == 0 && begin + size <= |memory|
      && FreeFrom(blockslist.blocks, codebase + begin, size / PAGE_SIZE)
      && AllBelow(blockslist.allocator.alloclists, codebase + begin)
      && blockslist.Ready(0) && |blockslist.hostslab.objects| >= size / PAGE_SIZE + 2
    }

    lemma CanMapRequests(begin: nat, size: nat)
      requires CanMap(begin, size)
      ensures CanRequest(codebase + begin, size, Block(size / PAGE_SIZE, CODE, 0)) && size > 0
      ensures begin + size <= |memory|
      ensures Requestable(blockslist.Abs(), codebase + begin, Block(size / PAGE_SIZE, CODE, 0))
      ensures GrowsAt(blockslist.Abs(), codebase + begin, size / PAGE_SIZE) && size == size / PAGE_SIZE * PAGE_SIZE
      ensures |blockslist.hostslab.objects| >= size / PAGE_SIZE + 2
    {
      hide Reaches, Admissible, BlocksAfter, Taken, FirstOf, Sys.Covered;
      GrownByMap(blockslist.blocks, codebase + begin, size / PAGE_SIZE, false, blockslist.allocator.alloclists);
      BelowIsUncovered(blockslist.allocator.alloclists, codebase + begin);
    }

    /** The content, and zeros in the rest of its last page. */
    method CopyAndClear(begin: nat, content: seq<byte>, length: nat)
      requires |content| <= length && begin + length <= |memory|
      modifies `memory
      ensures memory == Splice(old(memory), begin, content + Zeros(length - |content|))
    {
      ghost var piece := content + Zeros(length - |content|);
      assert piece[..|content|] == content && piece[|content|..|piece|] == Zeros(length - |content|);
      SpliceRest(memory, begin, piece, |content|);
      memory := Splice(memory, begin, content);
      memory := Splice(memory, begin + |content|, Zeros(length - |content|));
    }

    /** On one whole block: a code block whose permission differs is reprotected. */
    method SetMemoryPermission(begin: nat, size: nat, permission: nat, ghost f: nat)
      requires Sorted(blockslist.blocks) && f < |blockslist.blocks|
      requires blockslist.blocks[f].key == codebase + begin
      requires blockslist.blocks[f].block.pages == PageUp(size) / PAGE_SIZE > 0
      modifies blockslist`blocks
      ensures blockslist.blocks
           == if old(blockslist.blocks[f].block.state) == CODE
              then WithPermission(old(blockslist.blocks), f, permission) else old(blockslist.blocks)
    {
      hide Sorted, BlockAt, PageUp;
      BlockStart(blockslist.blocks, f);
      var i := blockslist.FindBlock(codebase + begin);
      BlockAtSame(blockslist.blocks, codebase + begin, i, f);
      if blockslist.blocks[i].block.state == CODE {
        if blockslist.blocks[i].block.permission != permission {
          ghost var m := blockslist.blocks;
          blockslist.Reprotect(codebase + begin, PageUp(size) / PAGE_SIZE, permission);
          ghost var j: nat :|
            j < |m| && BlockAt(m, codebase + begin, j) && blockslist.blocks == WithPermission(m, j, permission);
          BlockAtSame(m, codebase + begin, j, f);
        } else {
          assert WithPermission(blockslist.blocks, f, permission) == blockslist.blocks;
        }
      }
    }

    /** Fills the range when the walk from its first page to its end page meets no free block. */
    method FillMemory(begin: nat, constant: byte, size: nat)
      requires Tiled(blockslist.blocks) && Sorted(blockslist.blocks) && codebase % PAGE_SIZE == 0
      requires begin + size <= |memory|
      requires InMap(blockslist.blocks, FillFrom(codebase, begin))
      requires InMap(blockslist.blocks, FillTo(codebase, begin, size))
      requires FillWalk(blockslist.blocks, codebase, begin, size) != Lost
      modifies `memory
      ensures memory == if FillWalk(blockslist.blocks, codebase, begin, size) == NoneFree
                        then Splice(old(memory), begin, Filled(size, constant)) else old(memory)
    {
      hide Splice, Tiled, Sorted, Walk, BlockOf, PageUp, FillFrom, FillTo;
      PagesAround(codebase, begin, size);
      var address := codebase + begin;
      var beginpage := address - address % PAGE_SIZE;
      var endpage := PageUp(address + size);
      var mapped := blockslist.IsMappedInRange(beginpage, endpage);
      if mapped {
        memory := Splice(memory, begin, Filled(size, constant));
      }
    }
  }
}
