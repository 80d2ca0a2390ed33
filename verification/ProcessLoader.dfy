/** Loading a list of modules, one section after the other: the block map, the guest memory, the page table and the host
    frames that a load leaves behind, and the same from the start of the kernel on. */
module ProcessLoader {
  import opened Bytes
  import opened BlockMap
  import opened BlockManager
  import opened BlockWalk
  import opened CodeLayout
  import opened KMemory
  import Slab = SlabHeap
  import Sys = SysAllocator
  import Table = PageTable

  // ---- what a load leaves behind ------------------------------------------------------------

  function EntryOf(segment: Segment, base: nat): Entry {
    Entry(base + segment.offset, Block(segment.size / PAGE_SIZE, CODE, segment.permission))
  }

  /** One code block per segment, in order. */
  function CodeBlocks(segments: seq<Segment>, base: nat): (r: Blocks)
    ensures |r| == |segments|
  {
    seq(|segments|, i requires 0 <= i < |segments| => EntryOf(segments[i], base))
  }

  function PieceOf(segment: Segment): seq<byte>
    requires |segment.content| <= segment.size
  {
    segment.content + Zeros(segment.size - |segment.content|)
  }

  ghost predicate Fits(segment: Segment) {
    segment.size > 0 && segment.size % PAGE_SIZE == 0 && |segment.content| < segment.size
    && segment.size == PageUp(|segment.content| + segment.bss)
  }

  /** The contents, each padded with zeros to its extent. */
  ghost function Image(segments: seq<Segment>): seq<byte>
    requires forall s :: s in segments ==> Fits(s)
  {
    if segments == [] then [] else
      assert Fits(segments[|segments| - 1]);
      Image(segments[..|segments| - 1]) + PieceOf(segments[|segments| - 1])
  }

  lemma {:induction false} ImageFront(segment: Segment, rest: seq<Segment>)
    requires Fits(segment) && forall s :: s in rest ==> Fits(s)
    ensures Image([segment] + rest) == PieceOf(segment) + Image(rest)
    decreases |rest|
  {
    hide PieceOf, Fits, PageUp;
    var all := [segment] + rest;
    assert |segment.content| <= segment.size by { PieceFills(segment); }
    if rest == [] {
      assert all[..0] == [] && all == [segment];
      assert Image(all) == Image([]) + PieceOf(segment);
    } else {
      var last := |rest| - 1;
      assert all[..last + 1] == [segment] + rest[..last] && all[last + 1] == rest[last];
      ImageFront(segment, rest[..last]);
    }
  }

  /** The image by position: at every offset of a segment, that byte of its content, or zero behind it. */
  lemma {:induction false} ImageByPosition(segments: seq<Segment>, from: nat, k: nat, j: nat)
    requires Adjacent(segments, from) && k < |segments| && j < segments[k].size
    ensures forall s :: s in segments ==> Fits(s)
    ensures from <= segments[k].offset && segments[k].offset - from + j < |Image(segments)|
    ensures Image(segments)[segments[k].offset - from + j]
         == if j < |segments[k].content| then segments[k].content[j] else 0
    decreases |segments|
  {
    hide Image, Fits;
    var s, rest := segments[0], segments[1..];
    AdjacentFits(segments, from);
    assert segments == [s] + rest;
    ImageFront(s, rest);
    PieceFills(s);
    if k == 0 {
      PieceByte(s, j);
    } else {
      ImageByPosition(rest, from + s.size, k - 1, j);
    }
  }

  lemma PieceFills(segment: Segment)
    requires Fits(segment)
    ensures |segment.content| <= segment.size == |PieceOf(segment)|
  {
  }

  lemma PieceByte(segment: Segment, j: nat)
    requires Fits(segment) && j < segment.size
    ensures PieceOf(segment)[j] == if j < |segment.content| then segment.content[j] else 0
  {
  }

  lemma {:induction false} AdjacentFits(segments: seq<Segment>, from: nat)
    requires Adjacent(segments, from)
    ensures forall s :: s in segments ==> Fits(s)
    ensures segments != [] ==> segments[0].offset == from && Adjacent(segments[1..], from + segments[0].size)
    decreases |segments|
  {
    hide Fits;
    if segments != [] {
      AdjacentFits(segments[1..], from + segments[0].size);
      assert segments == [segments[0]] + segments[1..];
    }
  }

  function PageSum(segments: seq<Segment>): nat {
    if segments == [] then 0 else segments[0].size / PAGE_SIZE + PageSum(segments[1..])
  }

  /** The segments follow each other from `from` on. */
  ghost predicate Adjacent(segments: seq<Segment>, from: nat) {
    || segments == []
    || (segments[0].offset == from && Fits(segments[0]) && Adjacent(segments[1..], from + segments[0].size))
  }

  /** The map while loading: the code blocks so far, one free block, and the sentinel. */
  ghost predicate LoadedTo(m: Blocks, segments: seq<Segment>, base: nat, offset: nat, free: nat, sentinel: Entry) {
    Tiled(m) && m == CodeBlocks(segments, base) + [Entry(base + offset, Block(free, FREE, 0)), sentinel]
  }

  // ---- one segment ------------------------------------------------------------------------------

  /** Room for one more segment, and a free block behind it longer than the segment's content. */
  ghost predicate Roomy(memory: KMemory, segment: Segment)
    reads memory, memory.blockslist, memory.blockslist.hostslab,
      memory.blockslist.allocator, memory.blockslist.allocator.pagetable
  {
    && memory.codebase % PAGE_SIZE == 0 && segment.offset % PAGE_SIZE == 0 && Fits(segment)
    && memory.CanMap(segment.offset, segment.size)
    && var blocks := memory.blockslist.blocks;
       |blocks| >= 2 && blocks[|blocks| - 2].block.pages * PAGE_SIZE > segment.size + |segment.content|
  }

  lemma PermissionAfterMap(m: Blocks, pages: nat, permission: nat)
    requires |m| >= 2 && pages <= m[|m| - 2].block.pages
    ensures |Grown(m, pages, 0)| == |m| + 1
    ensures WithPermission(Grown(m, pages, 0), |m| - 2, permission) == Grown(m, pages, permission)
  {
    SplitEntry(m, |m| - 2, Block(pages, CODE, 0), |m| - 2);
    SplitEntry(m, |m| - 2, Block(pages, CODE, permission), |m| - 2);
    var a, b := Grown(m, pages, 0), Grown(m, pages, permission);
    forall i | 0 <= i < |a| && i != |m| - 2 ensures a[i] == b[i] {
      SplitEntry(m, |m| - 2, Block(pages, CODE, 0), i);
      SplitEntry(m, |m| - 2, Block(pages, CODE, permission), i);
    }
  }

  /** Clearing the .bss again changes nothing: its pages were cleared when they were mapped. */
  lemma BssAlreadyClear(s: seq<byte>, at: nat, content: seq<byte>, zeros: nat, bss: nat)
    requires at + |content| + zeros <= |s| && bss <= zeros
    ensures var piece := content + Zeros(zeros);
      Splice(Splice(s, at, piece), at + |content|, Filled(bss, 0)) == Splice(s, at, piece)
  {
  }

  /** Where clearing the .bss walks: from the page it starts in to the free block behind the segment. */
  lemma BssWalk(m: Blocks, base: nat, segment: Segment)
    requires base % PAGE_SIZE == 0 && segment.offset % PAGE_SIZE == 0 && Fits(segment)
    requires Tiled(m) && Sorted(m) && |m| >= 3 && m[|m| - 3] == EntryOf(segment, base)
    requires m[|m| - 2].block.pages * PAGE_SIZE > |segment.content|
    ensures var begin := segment.offset + |segment.content|;
      && InMap(m, FillFrom(base, begin)) && InMap(m, FillTo(base, begin, segment.bss))
      && FillWalk(m, base, begin, segment.bss) == NoneFree
  {
    hide Sorted, Tiled, Walk, BlockOf, FillFrom, FillTo, BlockAt, VisitsEveryBlock, Fits;
    var begin := segment.offset + |segment.content|;
    BssBlocks(m, base, segment);
    BlockAtSame(m, FillTo(base, begin, segment.bss), BlockOf(m, FillTo(base, begin, segment.bss)), |m| - 2);
    VisitsIsRight(m, FillFrom(base, begin), |m| - 3, |m| - 2);
  }

  lemma BssBlocks(m: Blocks, base: nat, segment: Segment)
    requires base % PAGE_SIZE == 0 && segment.offset % PAGE_SIZE == 0 && Fits(segment)
    requires Tiled(m) && Sorted(m) && |m| >= 3 && m[|m| - 3] == EntryOf(segment, base)
    requires m[|m| - 2].block.pages * PAGE_SIZE > |segment.content|
    ensures var begin := segment.offset + |segment.content|;
      var from, to := FillFrom(base, begin), FillTo(base, begin, segment.bss);
      && m[0].key <= from <= m[|m| - 1].key && m[0].key <= to <= m[|m| - 1].key
      && BlockAt(m, from, |m| - 3) && BlockAt(m, to, |m| - 2) && VisitsEveryBlock(m, from, |m| - 3, |m| - 2)
      && m[|m| - 3].block.state != FREE
  {
    hide Sorted;
    var n, at := |segment.content|, base + segment.offset;
    PagesInside(segment.offset, n, segment.bss);
    assert m[|m| - 2].key == at + segment.size && m[|m| - 1].key > at + segment.size;
    if |m| > 3 {
      TiledIsMonotonic(m, 0, |m| - 3);
    }
  }

  lemma PagesInside(offset: nat, n: nat, bss: nat)
    requires offset % PAGE_SIZE == 0
    ensures offset + n - (offset + n) % PAGE_SIZE == offset + n - n % PAGE_SIZE
    ensures PageUp(offset + n + bss) == offset + PageUp(n + bss)
  {
    var k := offset / PAGE_SIZE;
    assert offset == k * PAGE_SIZE;
  }

  lemma RoomyFacts(m: Blocks, segment: Segment, base: nat)
    requires Fits(segment) && segment.permission != 0
    requires FreeFrom(m, base + segment.offset, segment.size / PAGE_SIZE)
    ensures PageUp(segment.size) == segment.size && segment.size / PAGE_SIZE > 0 && |m| >= 2
    ensures segment.size / PAGE_SIZE * PAGE_SIZE == segment.size
    ensures segment.size / PAGE_SIZE <= m[|m| - 2].block.pages
    ensures forall permission :: var r := Grown(m, segment.size / PAGE_SIZE, permission);
      && |r| == |m| + 1 && Tiled(r) && Sorted(r)
      && r[|m| - 2] == Entry(base + segment.offset, Block(segment.size / PAGE_SIZE, CODE, permission))
    ensures WithPermission(Grown(m, segment.size / PAGE_SIZE, 0), |m| - 2, segment.permission)
         == Grown(m, segment.size / PAGE_SIZE, segment.permission)
  {
    var pages, at := segment.size / PAGE_SIZE, base + segment.offset;
    PermissionAfterMap(m, pages, segment.permission);
    forall permission ensures
      var r := Grown(m, pages, permission);
      && |r| == |m| + 1 && Tiled(r) && Sorted(r) && r[|m| - 2] == Entry(at, Block(pages, CODE, permission))
    {
      GrownFacts(m, at, pages, permission);
    }
  }

  method MapAndProtect(memory: KMemory, segment: Segment)
    requires Roomy(memory, segment) && segment.permission != 0
    modifies memory, memory.blockslist, memory.blockslist.hostslab,
      memory.blockslist.allocator, memory.blockslist.allocator.pagetable
    ensures memory.blockslist.blocks
         == Grown(old(memory.blockslist.blocks), segment.size / PAGE_SIZE, segment.permission)
    ensures memory.memory == Splice(old(memory.memory), segment.offset, PieceOf(segment))
    ensures AllBelow(memory.blockslist.allocator.alloclists, memory.codebase + segment.offset + segment.size)
    ensures memory.blockslist.Ready(0)
    ensures TookFrames(memory.blockslist, memory.codebase + segment.offset, segment.size / PAGE_SIZE)
    ensures |memory.blockslist.hostslab.objects| == |old(memory.blockslist.hostslab.objects)| - segment.size / PAGE_SIZE
  {
    hide Grown, Splice, Tiled, Sorted, AllBelow, FreeFrom, PageUp, WithPermission;
    ghost var m := memory.blockslist.blocks;
    RoomyFacts(m, segment, memory.codebase);
    memory.MapCodeMemory(segment.offset, segment.size, segment.content);
    memory.SetMemoryPermission(segment.offset, segment.size, segment.permission, |m| - 2);
  }

  /** Maps, protects and clears one segment. */
  method LoadSegment(memory: KMemory, segment: Segment)
    requires Roomy(memory, segment) && segment.permission != 0
    modifies memory, memory.blockslist, memory.blockslist.hostslab,
      memory.blockslist.allocator, memory.blockslist.allocator.pagetable
    ensures memory.blockslist.blocks
         == Grown(old(memory.blockslist.blocks), segment.size / PAGE_SIZE, segment.permission)
    ensures memory.memory == Splice(old(memory.memory), segment.offset, PieceOf(segment))
    ensures AllBelow(memory.blockslist.allocator.alloclists, memory.codebase + segment.offset + segment.size)
    ensures memory.blockslist.Ready(0)
    ensures TookFrames(memory.blockslist, memory.codebase + segment.offset, segment.size / PAGE_SIZE)
    ensures |memory.blockslist.hostslab.objects| == |old(memory.blockslist.hostslab.objects)| - segment.size / PAGE_SIZE
  {
    hide Grown, Splice, Tiled, Sorted, AllBelow, FreeFrom, PageUp;
    ghost var m, bytes := memory.blockslist.blocks, memory.memory;
    GrownFacts(m, memory.codebase + segment.offset, segment.size / PAGE_SIZE, segment.permission);
    BssAlreadyClear(bytes, segment.offset, segment.content, segment.size - |segment.content|, segment.bss);
    MapAndProtect(memory, segment);
    if segment.bss != 0 {
      ClearBss(memory, segment);
    }
  }

  method ClearBss(memory: KMemory, segment: Segment)
    requires memory.codebase % PAGE_SIZE == 0 && segment.offset % PAGE_SIZE == 0 && Fits(segment)
    requires var m := memory.blockslist.blocks;
      && Tiled(m) && Sorted(m) && |m| >= 3 && m[|m| - 3] == EntryOf(segment, memory.codebase)
      && m[|m| - 2].block.pages * PAGE_SIZE > |segment.content|
    requires segment.offset + segment.size <= |memory.memory|
    modifies memory`memory
    ensures segment.offset + |segment.content| + segment.bss <= |old(memory.memory)|
    ensures memory.memory
         == Splice(old(memory.memory), segment.offset + |segment.content|, Filled(segment.bss, 0))
  {
    hide Tiled, Sorted, Splice, FillWalk, InMap, PageUp, FillFrom, FillTo, Fits, Filled, EntryOf;
    BssInside(segment);
    ghost var m := memory.blockslist.blocks;
    BssWalk(m, memory.codebase, segment);
    memory.FillMemory(segment.offset + |segment.content|, 0, segment.bss);
  }

  lemma BssInside(segment: Segment)
    requires Fits(segment)
    ensures |segment.content| + segment.bss <= segment.size
  {
  }

  // ---- the whole list -------------------------------------------------------------------------

  /** One more segment on the block map. */
  lemma BlocksStep(m: Blocks, done: seq<Segment>, segment: Segment, base: nat, offset: nat, free: nat, sentinel: Entry)
    requires LoadedTo(m, done, base, offset, free, sentinel) && segment.offset == offset && Fits(segment)
    requires segment.size / PAGE_SIZE < free
    ensures FreeFrom(m, base + offset, segment.size / PAGE_SIZE)
    ensures LoadedTo(Grown(m, segment.size / PAGE_SIZE, segment.permission), done + [segment], base,
                     offset + segment.size, free - segment.size / PAGE_SIZE, sentinel)
  {
    var pages := segment.size / PAGE_SIZE;
    assert m[|m| - 2] == Entry(base + offset, Block(free, FREE, 0)) && m[|m| - 1] == sentinel;
    GrownFacts(m, base + offset, pages, segment.permission);
    assert m[..|m| - 2] == CodeBlocks(done, base);
    assert CodeBlocks(done + [segment], base) == CodeBlocks(done, base) + [EntryOf(segment, base)];
    assert pages * PAGE_SIZE == segment.size;
    hide Tiled, Sorted, FreeFrom, Grown;
  }

  /** One more piece in memory; `bytes` is the memory before the load. */
  ghost predicate ImageTo(memory: seq<byte>, bytes: seq<byte>, segments: seq<Segment>, offset: nat) {
    && (forall s :: s in segments ==> Fits(s))
    && |memory| == |bytes| && |Image(segments)| == offset <= |bytes|
    && memory == Image(segments) + bytes[offset..]
  }

  lemma ImageStep(memory: seq<byte>, bytes: seq<byte>, done: seq<Segment>, segment: Segment, offset: nat)
    requires ImageTo(memory, bytes, done, offset) && Fits(segment) && offset + segment.size <= |bytes|
    ensures ImageTo(Splice(memory, offset, PieceOf(segment)), bytes, done + [segment], offset + segment.size)
  {
    var more := done + [segment];
    assert more[..|more| - 1] == done && more[|more| - 1] == segment;
    var piece := PieceOf(segment);
    assert Image(more) == Image(done) + piece;
    SpliceOnto(Image(done), bytes, piece);
  }

  lemma SpliceOnto(front: seq<byte>, bytes: seq<byte>, piece: seq<byte>)
    requires |front| + |piece| <= |bytes|
    ensures Splice(front + bytes[|front|..], |front|, piece) == front + piece + bytes[|front| + |piece|..]
  {
  }

  /** What still has to be loaded fits: pages, frames and memory for all of it, and a free block left that
      is longer than any content. */
  ghost predicate Ample(left: seq<Segment>, offset: nat, free: nat, frames: nat, bytes: nat) {
    && Adjacent(left, offset) && offset % PAGE_SIZE == 0
    && PageSum(left) + 2 <= frames && offset + PageSum(left) * PAGE_SIZE <= bytes
    && PageSum(left) < free
    && forall s :: s in left ==> |s.content| < (free - PageSum(left)) * PAGE_SIZE && s.permission != 0
  }

  lemma AmpleStep(left: seq<Segment>, offset: nat, free: nat, frames: nat, bytes: nat)
    requires Ample(left, offset, free, frames, bytes) && left != []
    ensures var s := left[0]; var pages := s.size / PAGE_SIZE;
      && Fits(s) && s.offset == offset && s.permission != 0 && pages < free && pages + 2 <= frames
      && offset + s.size <= bytes && free * PAGE_SIZE > s.size + |s.content| && pages * PAGE_SIZE == s.size
      && Ample(left[1..], offset + s.size, free - pages, frames - pages, bytes)
  {
    assert left[0] in left;
    assert forall s :: s in left[1..] ==> s in left;
  }

  /** The load has come to segment `i`: everything before it is in place, everything from it on fits. */
  ghost predicate At(memory: KMemory, bytes: seq<byte>, segments: seq<Segment>, i: nat, offset: nat, free: nat,
      sentinel: Entry)
    reads memory, memory.blockslist, memory.blockslist.hostslab,
      memory.blockslist.allocator, memory.blockslist.allocator.pagetable
  {
    && i <= |segments| && memory.codebase % PAGE_SIZE == 0 && |memory.memory| == |bytes|
    && LoadedTo(memory.blockslist.blocks, segments[..i], memory.codebase, offset, free, sentinel)
    && ImageTo(memory.memory, bytes, segments[..i], offset)
    && AllBelow(memory.blockslist.allocator.alloclists, memory.codebase + offset) && memory.blockslist.Ready(0)
    && Ample(segments[i..], offset, free, |memory.blockslist.hostslab.objects|, |memory.memory|)
  }

  // ---- pages and frames -------------------------------------------------------------------------

  /** The page table, its backing and the slab, before a load. */
  datatype Frames = Frames(table: seq<nat>, backing: seq<nat>, free: seq<nat>)

  function SizesOf(segments: seq<Segment>): (r: seq<nat>)
    ensures |r| == |segments|
  {
    seq(|segments|, i requires 0 <= i < |segments| => segments[i].size)
  }

  function RequestsOf(segments: seq<Segment>, base: nat): (r: seq<Table.Request>)
    ensures |r| == |segments|
  {
    seq(|segments|, i requires 0 <= i < |segments| =>
      Table.Request(base + segments[i].offset, segments[i].size / PAGE_SIZE))
  }

  ghost predicate InBacking(ranges: seq<Slab.Range>, frames: nat) {
    forall i :: 0 <= i < |ranges| ==> ranges[i].start / PAGE_SIZE + ranges[i].size / PAGE_SIZE <= frames
  }

  /** The segments took their pages and frames one after the other. */
  ghost predicate BackedTo(before: Frames, host: nat, base: nat, segments: seq<Segment>,
      table: seq<nat>, backing: seq<nat>, free: seq<nat>)
  {
    && before.table != [] && Slab.TotalPages(SizesOf(segments)) < |before.free|
    && table == Table.TableAfterAll(before.table, RequestsOf(segments, base))
    && var taken := Slab.ReserveAll(before.free, SizesOf(segments));
       free == taken.0 && InBacking(taken.1, |before.backing|)
       && backing == Sys.BackingAfterAll(before.backing, host, taken.1)
  }

  ghost predicate Backed(memory: KMemory, before: Frames, segments: seq<Segment>)
    reads memory, memory.blockslist, memory.blockslist.hostslab, memory.blockslist.allocator,
      memory.blockslist.allocator.pagetable
  {
    BackedTo(before, memory.blockslist.allocator.hostptr, memory.codebase, segments,
      memory.blockslist.allocator.pagetable.table, memory.blockslist.allocator.pagetable.backing,
      memory.blockslist.hostslab.objects)
  }

  lemma WholePages(size: nat)
    requires size % PAGE_SIZE == 0
    ensures Slab.PagesOf(size) == size / PAGE_SIZE
  {
  }

  lemma BackedStep(before: Frames, host: nat, base: nat, done: seq<Segment>, segment: Segment,
      table: seq<nat>, backing: seq<nat>, free: seq<nat>)
    requires BackedTo(before, host, base, done, table, backing, free) && segment.size % PAGE_SIZE == 0
    requires var pages := segment.size / PAGE_SIZE;
      pages < |free| && free[pages] / PAGE_SIZE + pages <= |backing|
    ensures table != []
    ensures var pages := segment.size / PAGE_SIZE;
      BackedTo(before, host, base, done + [segment], Table.TableAfter(table, base + segment.offset, pages),
        Table.BackingAfter(backing, host, free[pages], pages), free[pages..])
  {
    hide Table.TableAfter, Table.BackingAfter, Slab.PagesOf, Slab.ReserveAll, Slab.TotalPages, Table.TableAfterAll,
      Sys.BackingAfterAll;
    var pages, sizes := segment.size / PAGE_SIZE, SizesOf(done);
    var ranges, next := Slab.ReserveAll(before.free, sizes).1, Slab.Range(free[pages], segment.size);
    assert SizesOf(done + [segment]) == sizes + [segment.size];
    assert RequestsOf(done + [segment], base)
        == RequestsOf(done, base) + [Table.Request(base + segment.offset, pages)];
    WholePages(segment.size);
    Slab.ReserveAllLeaves(before.free, sizes);
    Slab.OneMoreReservation(before.free, sizes, segment.size);
    Table.OneMoreTable(before.table, RequestsOf(done, base), Table.Request(base + segment.offset, pages));
    Sys.OneMoreBacking(before.backing, host, ranges, next);
  }

  method LoadNext(memory: KMemory, segment: Segment, ghost bytes: seq<byte>, ghost segments: seq<Segment>,
                  ghost i: nat, ghost offset: nat, ghost free: nat, ghost sentinel: Entry, ghost before: Frames)
    requires At(memory, bytes, segments, i, offset, free, sentinel) && i < |segments| && segment == segments[i]
    requires Backed(memory, before, segments[..i])
    modifies memory, memory.blockslist, memory.blockslist.hostslab,
      memory.blockslist.allocator, memory.blockslist.allocator.pagetable
    ensures segment.size / PAGE_SIZE <= free && segment.size % PAGE_SIZE == 0
    ensures At(memory, bytes, segments, i + 1, offset + segment.size, free - segment.size / PAGE_SIZE, sentinel)
    ensures Backed(memory, before, segments[..i + 1])
  {
    hide LoadedTo, ImageTo, AllBelow, Ample, Grown, Splice, FreeFrom, Fits, BackedTo, Table.TableAfter,
      Table.BackingAfter;
    assert segments[i..][1..] == segments[i + 1..] && segments[..i] + [segment] == segments[..i + 1];
    AmpleStep(segments[i..], offset, free, |memory.blockslist.hostslab.objects|, |memory.memory|);
    BlocksStep(memory.blockslist.blocks, segments[..i], segment, memory.codebase, offset, free, sentinel);
    ImageStep(memory.memory, bytes, segments[..i], segment, offset);
    SegmentIsRoomy(memory, segment, segments[..i], free, sentinel);
    ghost var table, frames, slab := memory.blockslist.allocator.pagetable.table,
      memory.blockslist.allocator.pagetable.backing, memory.blockslist.hostslab.objects;
    LoadSegment(memory, segment);
    BackedStep(before, memory.blockslist.allocator.hostptr, memory.codebase, segments[..i], segment, table, frames,
      slab);
  }

  lemma SegmentIsRoomy(memory: KMemory, segment: Segment, done: seq<Segment>, free: nat, sentinel: Entry)
    requires memory.codebase % PAGE_SIZE == 0 && Fits(segment) && segment.offset % PAGE_SIZE == 0
    requires LoadedTo(memory.blockslist.blocks, done, memory.codebase, segment.offset, free, sentinel)
    requires FreeFrom(memory.blockslist.blocks, memory.codebase + segment.offset, segment.size / PAGE_SIZE)
    requires AllBelow(memory.blockslist.allocator.alloclists, memory.codebase + segment.offset)
    requires memory.blockslist.Ready(0)
    requires segment.size / PAGE_SIZE + 2 <= |memory.blockslist.hostslab.objects|
    requires segment.offset + segment.size <= |memory.memory| && free * PAGE_SIZE > segment.size + |segment.content|
    ensures Roomy(memory, segment)
  {
  }

  /** Maps every image of the code set, with the permission its position calls for. */
  method SetProcessMemory(memory: KMemory, codeset: ProcessCodeLayout, ghost free: nat, ghost sentinel: Entry,
                          ghost before: Frames)
    returns (ghost end: nat, ghost rest: nat)
    requires codeset.start == 0 && Backed(memory, before, [])
    requires At(memory, memory.memory, Segments(codeset.procimage, codeset.bsslayoutsize, 0), 0, 0, free, sentinel)
    modifies codeset, memory, memory.blockslist, memory.blockslist.hostslab,
      memory.blockslist.allocator, memory.blockslist.allocator.pagetable
    ensures var segments := old(Segments(codeset.procimage, codeset.bsslayoutsize, 0));
      && At(memory, old(memory.memory), segments, |segments|, end, rest, sentinel)
      && end == PageSum(segments) * PAGE_SIZE && rest + PageSum(segments) == free
      && Backed(memory, before, segments)
  {
    hide At, Segments, NextSegment, PageSum, BackedTo;
    var startoffset, bintype, images := codeset.start, 0, codeset.procimage;
    ghost var bytes, segments := memory.memory, Segments(images, codeset.bsslayoutsize, 0);
    end, rest := 0, free;
    SegmentsCount(images, codeset.bsslayoutsize, 0);
    assert images[0..] == images && segments[0..] == segments && segments[..0] == [];
    var i := 0;
    while i < |images|
      invariant i <= |images| == |segments| && At(memory, bytes, segments, i, end, rest, sentinel)
      invariant Backed(memory, before, segments[..i])
      invariant Segments(images[i..], codeset.bsslayoutsize, bintype) == segments[i..]
      invariant end + PageSum(segments[i..]) * PAGE_SIZE == PageSum(segments) * PAGE_SIZE
      invariant rest + PageSum(segments) == free + PageSum(segments[i..])
    {
      PageSumAt(segments, i);
      SegmentAt(images, i, codeset.bsslayoutsize, bintype, segments);
      var content, size := images[i].content, PageUp(|images[i].content|);
      var permission := PermissionOf(bintype);
      bintype := bintype + 1;
      var bsssize := 0;
      if permission == DATA && codeset.bsslayoutsize != [] {
        bsssize := codeset.bsslayoutsize[0];
        size := PageUp(|content| + bsssize);
      }
      var segment := Segment(startoffset + images[i].offset, size, permission, content, bsssize);
      LoadNext(memory, segment, bytes, segments, i, end, rest, sentinel, before);
      end, rest := end + size, rest - size / PAGE_SIZE;
      if bsssize != 0 {
        codeset.bsslayoutsize := codeset.bsslayoutsize[1..];
        bintype := 0;
      }
      i := i + 1;
    }
    assert segments[i..] == [] && segments[..i] == segments;
    PageSumOfNone();
  }

  lemma PageSumAt(segments: seq<Segment>, i: nat)
    requires i < |segments|
    ensures PageSum(segments[i..]) == segments[i].size / PAGE_SIZE + PageSum(segments[i + 1..])
  {
    assert segments[i..][1..] == segments[i + 1..];
  }

  lemma PageSumOfNone()
    ensures PageSum([]) == 0
  {
  }

  /** The next image is mapped as the next segment. */
  lemma SegmentAt(images: seq<Placed>, i: nat, bss: seq<nat>, bintype: nat, segments: seq<Segment>)
    requires i < |images| == |segments| && Segments(images[i..], bss, bintype) == segments[i..]
    ensures var permission := PermissionOf(bintype);
      var bsssize := if permission == DATA && bss != [] then bss[0] else 0;
      && segments[i]
         == Segment(images[i].offset, PageUp(|images[i].content| + bsssize), permission, images[i].content, bsssize)
      && segments[i + 1..] == (if bsssize == 0 then Segments(images[i + 1..], bss, bintype + 1)
                               else Segments(images[i + 1..], bss[1..], 0))
  {
    hide Segments, PageUp;
    FirstSegment(images[i], images[i + 1..], bss, bintype);
    assert images[i..] == [images[i]] + images[i + 1..];
    assert segments[i..] == [segments[i]] + segments[i + 1..];
  }

  lemma {:induction false} SegmentsCount(images: seq<Placed>, bss: seq<nat>, bintype: nat)
    ensures |Segments(images, bss, bintype)| == |images|
    decreases |images|
  {
    if images != [] {
      var segment := NextSegment(images[0], bss, bintype);
      if segment.bss == 0 {
        SegmentsCount(images[1..], bss, bintype + 1);
      } else {
        SegmentsCount(images[1..], bss[1..], 0);
      }
    }
  }

  // ---- modules ----------------------------------------------------------------------------------

  /** Every section leaves slack in its last page, as the assertion in `MapCodeMemory` demands. */
  ghost predicate HasSlack(nso: Nso) {
    && |nso.text| < PageUp(|nso.text|) && |nso.ro| < PageUp(|nso.ro|)
    && |nso.data| < PageUp(|nso.data| + nso.bss)
  }

  lemma OneMoreAhead(s: Segment, rest: seq<Segment>, from: nat)
    requires s.offset == from && Fits(s) && Adjacent(rest, from + s.size)
    ensures Adjacent([s] + rest, from)
    ensures PageSum([s] + rest) * PAGE_SIZE == s.size + PageSum(rest) * PAGE_SIZE
  {
    assert ([s] + rest)[1..] == rest;
    assert s.size / PAGE_SIZE * PAGE_SIZE == s.size;
  }

  lemma WantedFits(nso: Nso, base: nat)
    requires HasSlack(nso)
    ensures var w := Wanted(nso, base);
      && w == [w[0], w[1], w[2]] && Fits(w[0]) && Fits(w[1]) && Fits(w[2])
      && w[0].offset == base && w[1].offset == base + w[0].size && w[2].offset == w[1].offset + w[1].size
      && EndOf(nso, base) == w[2].offset + w[2].size
      && (forall s :: s in w ==> s.permission != 0)
  {
  }

  /** The wanted segments are adjacent, and end where the code set ends. */
  lemma {:induction false} WantedFollowEachOther(modules: seq<Nso>, base: nat)
    requires forall n :: n in modules ==> HasSlack(n)
    ensures Adjacent(WantedAll(modules, base), base)
    ensures base + PageSum(WantedAll(modules, base)) * PAGE_SIZE == EndOfAll(modules, base)
    ensures forall s :: s in WantedAll(modules, base) ==> s.permission != 0
    decreases |modules|
  {
    hide Wanted, EndOf, Adjacent, PageSum, Fits, HasSlack, PageUp;
    if modules == [] {
      NoneAdjacent(base);
    } else {
      var first, end := modules[0], EndOf(modules[0], base);
      WantedFollowEachOther(modules[1..], end);
      WantedFits(first, base);
      var w, tail := Wanted(first, base), WantedAll(modules[1..], end);
      OneMoreAhead(w[2], tail, w[2].offset);
      OneMoreAhead(w[1], [w[2]] + tail, w[1].offset);
      OneMoreAhead(w[0], [w[1]] + ([w[2]] + tail), base);
      Triple(w[0], w[1], w[2], tail);
    }
  }

  lemma NoneAdjacent(base: nat)
    ensures Adjacent([], base) && PageSum([]) == 0
  {
  }

  /** Loading a list of modules, each but the last with a .bss, tiles the space: one code block per section
      in order, with its own permission, then the free rest and the sentinel; memory holds every section
      at its extent, padded with zeros. */
  method LoadModules(memory: KMemory, modules: seq<Nso>, ghost pages: nat, ghost sentinel: Entry)
    requires memory.codebase % PAGE_SIZE == 0
    requires forall i :: 0 <= i < |modules| - 1 ==> modules[i].bss > 0
    requires forall n :: n in modules ==> HasSlack(n)
    requires LoadedTo(memory.blockslist.blocks, [], memory.codebase, 0, pages, sentinel)
    requires AllBelow(memory.blockslist.allocator.alloclists, memory.codebase) && memory.blockslist.Ready(0)
    requires Ample(WantedAll(modules, 0), 0, pages, |memory.blockslist.hostslab.objects|, |memory.memory|)
    modifies memory, memory.blockslist, memory.blockslist.hostslab,
      memory.blockslist.allocator, memory.blockslist.allocator.pagetable
    ensures var segments, end, used := WantedAll(modules, 0), EndOfAll(modules, 0), PageSum(WantedAll(modules, 0));
      && end == used * PAGE_SIZE && used < pages
      && LoadedTo(memory.blockslist.blocks, segments, memory.codebase, end, pages - used, sentinel)
      && ImageTo(memory.memory, old(memory.memory), segments, end)
      && Backed(memory, old(FramesOf(memory)), segments)
      && AllBelow(memory.blockslist.allocator.alloclists, memory.codebase + end) && memory.blockslist.Ready(0)
  {
    hide *;
    ghost var segments := WantedAll(modules, 0);
    SegmentsAgreeIff(modules, 0);
    WantedFollowEachOther(modules, 0);
    var codeset := CollectAll(modules);
    LoadStarts(memory, segments, pages, sentinel);
    ghost var before := FramesOf(memory);
    NothingTaken(memory, before);
    ghost var end, rest := SetProcessMemory(memory, codeset, pages, sentinel, before);
    LoadEnds(memory, old(memory.memory), segments, end, rest, sentinel);
  }

  ghost function FramesOf(memory: KMemory): Frames
    reads memory, memory.blockslist, memory.blockslist.hostslab, memory.blockslist.allocator,
      memory.blockslist.allocator.pagetable
  {
    Frames(memory.blockslist.allocator.pagetable.table, memory.blockslist.allocator.pagetable.backing,
      memory.blockslist.hostslab.objects)
  }

  lemma NothingTaken(memory: KMemory, before: Frames)
    requires before == FramesOf(memory) && memory.blockslist.Ready(0)
    ensures Backed(memory, before, [])
  {
  }

  lemma LoadStarts(memory: KMemory, segments: seq<Segment>, pages: nat, sentinel: Entry)
    requires memory.codebase % PAGE_SIZE == 0 && memory.blockslist.Ready(0)
    requires LoadedTo(memory.blockslist.blocks, [], memory.codebase, 0, pages, sentinel)
    requires AllBelow(memory.blockslist.allocator.alloclists, memory.codebase)
    requires Ample(segments, 0, pages, |memory.blockslist.hostslab.objects|, |memory.memory|)
    ensures At(memory, memory.memory, segments, 0, 0, pages, sentinel)
  {
    assert segments[..0] == [] && segments[0..] == segments;
    assert Image([]) + memory.memory[0..] == memory.memory;
  }

  lemma LoadEnds(memory: KMemory, bytes: seq<byte>, segments: seq<Segment>, end: nat, rest: nat, sentinel: Entry)
    requires At(memory, bytes, segments, |segments|, end, rest, sentinel)
    ensures LoadedTo(memory.blockslist.blocks, segments, memory.codebase, end, rest, sentinel)
    ensures ImageTo(memory.memory, bytes, segments, end) && rest > 0
    ensures AllBelow(memory.blockslist.allocator.alloclists, memory.codebase + end) && memory.blockslist.Ready(0)
  {
    assert segments[..|segments|] == segments && segments[|segments|..] == [];
  }

  // ---- the total, and the space the kernel reserves ---------------------------------------------

  lemma {:induction false} TotalOfCodeBlocks(segments: seq<Segment>, base: nat)
    ensures TotalPages(CodeBlocks(segments, base)) == PageSum(segments)
    decreases |segments|
  {
    if segments != [] {
      TotalOfCodeBlocks(segments[1..], base);
      assert CodeBlocks(segments, base)[1..] == CodeBlocks(segments[1..], base);
    }
  }

  /** Loading keeps the total that `Initialize` set. */
  lemma LoadKeepsTotal(m: Blocks, segments: seq<Segment>, base: nat, offset: nat, free: nat, sentinel: Entry)
    requires LoadedTo(m, segments, base, offset, free, sentinel)
    ensures TotalPages(m) == PageSum(segments) + free
  {
    var tail := [Entry(base + offset, Block(free, FREE, 0)), sentinel];
    LoadedTail(m, segments, base, offset, free, sentinel);
    hide Tiled, TotalPages, CodeBlocks, PageSum, LoadedTo;
    TotalOfConcat(CodeBlocks(segments, base), tail);
    TotalOfTwo(tail[0], sentinel);
    TotalOfCodeBlocks(segments, base);
  }

  lemma LoadedTail(m: Blocks, segments: seq<Segment>, base: nat, offset: nat, free: nat, sentinel: Entry)
    requires LoadedTo(m, segments, base, offset, free, sentinel)
    ensures m == CodeBlocks(segments, base) + [Entry(base + offset, Block(free, FREE, 0)), sentinel]
    ensures sentinel.block.pages == 0
  {
    assert m[|m| - 1] == sentinel;
  }

  lemma TotalOfTwo(a: Entry, b: Entry)
    ensures TotalPages([a, b]) == a.block.pages + b.block.pages
  {
    assert [b][1..] == [];
    assert TotalPages([b]) == b.block.pages;
    assert [a, b][1..] == [b];
  }

  const SLAB_PAGES := 4 * GBYTES / PAGE_SIZE

  /** The space of `InitializeForProcess` and the slab of the kernel leave room for any modules whose
      section sizes are 32-bit numbers and whose code fits the slab. */
  lemma KernelSpaceIsAmple(modules: seq<Nso>, codesize: nat)
    requires forall n :: n in modules ==> HasSlack(n)
    requires forall s :: s in WantedAll(modules, 0) ==> |s.content| < U32_LIMIT
    requires EndOfAll(modules, 0) <= codesize && codesize % PAGE_SIZE == 0
    requires PageSum(WantedAll(modules, 0)) + 2 <= SLAB_PAGES
    ensures Ample(WantedAll(modules, 0), 0, (TOTAL_SIZE + codesize) / PAGE_SIZE, SLAB_PAGES, TOTAL_SIZE + codesize)
  {
    hide WantedAll, EndOfAll, Adjacent, PageSum, HasSlack;
    WantedFollowEachOther(modules, 0);
    assert (TOTAL_SIZE + codesize) / PAGE_SIZE == TOTAL_SIZE / PAGE_SIZE + codesize / PAGE_SIZE;
  }

  // ---- what a load mapped -----------------------------------------------------------------------

  /** The requests of adjacent segments are one run of pages. */
  lemma {:induction false} PagesOfSegments(segments: seq<Segment>, base: nat, from: nat)
    requires Adjacent(segments, from)
    ensures Table.PagesOfAll(RequestsOf(segments, base)) == Table.PagesFrom(base + from, PageSum(segments))
    decreases |segments|
  {
    hide Table.PagesFrom, PieceOf, PageUp;
    if segments == [] {
      NoPages(base + from);
    } else {
      var first, rest := segments[0], segments[1..];
      PagesOfSegments(rest, base, from + first.size);
      assert RequestsOf(segments, base)[1..] == RequestsOf(rest, base);
      Table.PagesFromSplit(base + from, first.size / PAGE_SIZE, PageSum(rest));
      assert first.size / PAGE_SIZE * PAGE_SIZE == first.size;
    }
  }

  lemma NoPages(begin: nat)
    ensures Table.PagesFrom(begin, 0) == {}
  {
  }

  lemma {:induction false} AdjacentAreWhole(segments: seq<Segment>, from: nat, i: nat)
    requires Adjacent(segments, from) && i < |segments|
    ensures segments[i].size % PAGE_SIZE == 0
    decreases |segments|
  {
    if i > 0 {
      AdjacentAreWhole(segments[1..], from + segments[0].size, i - 1);
    }
  }

  /** On a page table that held nothing, a load leaves exactly the pages of its segments mapped. */
  lemma LoadedPages(before: Frames, host: nat, base: nat, segments: seq<Segment>,
      table: seq<nat>, backing: seq<nat>, free: seq<nat>)
    requires BackedTo(before, host, base, segments, table, backing, free) && Adjacent(segments, 0)
    requires Table.Holds(before.table, {}) && Table.OnePerSlot(Table.PagesFrom(base, PageSum(segments)), |before.table|)
    ensures Table.Holds(table, Table.PagesFrom(base, PageSum(segments)))
  {
    hide Table.Holds, Table.TableAfterAll, Table.PagesFrom, Adjacent;
    var requests, pages := RequestsOf(segments, base), Table.PagesFrom(base, PageSum(segments));
    PagesOfSegments(segments, base, 0);
    assert {} + pages == pages;
    Table.AnyRunHolds(before.table, {}, requests);
  }

  /** No two segments share a frame, and every frame that one uses holds its own host address. */
  lemma LoadedFrames(before: Frames, host: nat, base: nat, segments: seq<Segment>,
      table: seq<nat>, backing: seq<nat>, free: seq<nat>, slabbase: nat, k: nat)
    requires BackedTo(before, host, base, segments, table, backing, free) && Adjacent(segments, 0)
    requires Slab.Descending(before.free, slabbase, PAGE_SIZE) && slabbase % PAGE_SIZE == 0
    requires before.free[0] <= |before.backing| * PAGE_SIZE && k < |before.backing|
    ensures var ranges := Slab.ReserveAll(before.free, SizesOf(segments)).1;
      && |backing| == |before.backing|
      && (forall i, j :: 0 <= i < j < |ranges| ==> !(Sys.Uses(ranges[i], k) && Sys.Uses(ranges[j], k)))
      && backing[k] == if exists i :: 0 <= i < |ranges| && Sys.Uses(ranges[i], k)
                       then Table.Tagged(host + k * PAGE_SIZE) else before.backing[k]
  {
    hide Slab.ReserveAll, Slab.TotalPages, Sys.BackingAfterAll, Table.TableAfterAll, Table.Tagged, Adjacent,
      Slab.Descending;
    forall i | 0 <= i < |segments| ensures SizesOf(segments)[i] % PAGE_SIZE == 0 {
      AdjacentAreWhole(segments, 0, i);
    }
    Sys.FramesAreWrittenOnce(before.free, slabbase, SizesOf(segments), before.backing, host, k);
  }

  // ---- from the kernel's start to the loaded process --------------------------------------------

  /** Entries of the page table of a 39-bit space. */
  const SLOTS := 0x800_0000

  /** The pages of the address space. */
  function SpacePages(codesize: nat): nat {
    (TOTAL_SIZE + codesize) / PAGE_SIZE
  }

  lemma SlabIsReady(free: seq<nat>)
    requires Slab.Descending(free, 0, PAGE_SIZE) && |free| == Slab.Steps(0, 4 * GBYTES, PAGE_SIZE)
    ensures |free| == SLAB_PAGES && free[0] <= SLAB_PAGES * PAGE_SIZE
  {
    Slab.StepsArePages(0, 4 * GBYTES);
    Slab.DescendingDistance(free, 0, 0, |free| - 1);
  }

  /** No two pages of the code share a slot, wherever the space starts. */
  lemma CodePagesApart(base: nat, pages: nat)
    requires base > 0 && base % PAGE_SIZE == 0 && pages <= SLOTS
    ensures Table.OnePerSlot(Table.PagesFrom(base, pages), SLOTS)
  {
    hide Table.PagesFrom, Table.OnePerSlot;
    forall page | page in Table.PagesFrom(base, pages)
      ensures Table.IsPage(page) && base <= page < base + SLOTS * PAGE_SIZE
    {
      Table.PagesFromMembers(base, pages, page);
    }
    Table.SpanIsOnePerSlot(Table.PagesFrom(base, pages), SLOTS, base);
  }

  lemma FreshSpace(m: Blocks, base: nat, pages: nat)
    requires Tiled(m) && |m| == 2 && m[0] == Entry(base, Block(pages, FREE, 0)) && pages > 0
    ensures LoadedTo(m, [], base, 0, pages, m[1])
  {
    assert m == CodeBlocks([], base) + [Entry(base + 0, Block(pages, FREE, 0)), m[1]];
  }

  /** Each frame is used by at most one range, and then holds its own host address; the others are empty. */
  ghost predicate FramesHeld(backing: seq<nat>, host: nat, ranges: seq<Slab.Range>) {
    forall k :: 0 <= k < |backing| ==>
      && (forall i, j :: 0 <= i < j < |ranges| ==> !(Sys.Uses(ranges[i], k) && Sys.Uses(ranges[j], k)))
      && backing[k] == if exists i :: 0 <= i < |ranges| && Sys.Uses(ranges[i], k)
                       then Table.Tagged(host + k * PAGE_SIZE) else 0
  }

  lemma FramesOfLoad(before: Frames, host: nat, base: nat, segments: seq<Segment>,
      table: seq<nat>, backing: seq<nat>, free: seq<nat>)
    requires BackedTo(before, host, base, segments, table, backing, free) && Adjacent(segments, 0)
    requires Slab.Descending(before.free, 0, PAGE_SIZE) && before.free[0] <= |before.backing| * PAGE_SIZE
    requires before.backing == seq(SLAB_PAGES, _ => 0)
    ensures FramesHeld(backing, host, Slab.ReserveAll(before.free, SizesOf(segments)).1)
  {
    hide Slab.ReserveAll, Slab.TotalPages, Sys.BackingAfterAll, Table.TableAfterAll, Table.Tagged, Adjacent,
      Slab.Descending, Sys.Uses;
    assert |backing| == |before.backing|;
    forall k | 0 <= k < |backing|
      ensures var ranges := Slab.ReserveAll(before.free, SizesOf(segments)).1;
        && (forall i, j :: 0 <= i < j < |ranges| ==> !(Sys.Uses(ranges[i], k) && Sys.Uses(ranges[j], k)))
        && backing[k] == if exists i :: 0 <= i < |ranges| && Sys.Uses(ranges[i], k)
                         then Table.Tagged(host + k * PAGE_SIZE) else 0
    {
      LoadedFrames(before, host, base, segments, table, backing, free, 0, k);
    }
  }

  /** What the kernel accepts: modules as above, with 32-bit sections, whose code fits the space and the slab. */
  ghost predicate Loadable(modules: seq<Nso>, codesize: nat) {
    && (forall i :: 0 <= i < |modules| - 1 ==> modules[i].bss > 0)
    && (forall n :: n in modules ==> HasSlack(n))
    && (forall s :: s in WantedAll(modules, 0) ==> |s.content| < U32_LIMIT)
    && EndOfAll(modules, 0) <= codesize && codesize % PAGE_SIZE == 0
    && PageSum(WantedAll(modules, 0)) + 2 <= SLAB_PAGES
  }

  /** A new kernel: the slab of host pages, the page table, the allocation record, and one free block. */
  method NewSpace(base: nat, hostptr: nat, codesize: nat) returns (memory: KMemory)
    requires base % PAGE_SIZE == 0 && codesize % PAGE_SIZE == 0
    ensures fresh(memory) && fresh(memory.blockslist) && fresh(memory.blockslist.hostslab)
    ensures fresh(memory.blockslist.allocator) && fresh(memory.blockslist.allocator.pagetable)
    ensures memory.codebase == base && memory.codesize == codesize && memory.memory == Zeros(TOTAL_SIZE + codesize)
    ensures memory.blockslist.allocator.hostptr == hostptr && memory.blockslist.allocator.alloclists == map[]
    ensures memory.blockslist.Ready(0) && memory.blockslist.slabbase == 0
    ensures |memory.blockslist.hostslab.objects| == SLAB_PAGES
    ensures memory.blockslist.allocator.pagetable.table == seq(SLOTS, _ => 0)
    ensures memory.blockslist.allocator.pagetable.backing == seq(SLAB_PAGES, _ => 0)
    ensures |memory.blockslist.blocks| == 2
      && LoadedTo(memory.blockslist.blocks, [], base, 0, SpacePages(codesize), memory.blockslist.blocks[1])
  {
    hide Slab.Descending, Slab.Steps, Tiled, LoadedTo, Zeros, TotalPages;
    var slab := new Slab.KSlabHeap(0, 4 * GBYTES, PAGE_SIZE);
    SlabIsReady(slab.objects);
    var table := new Table.PageTable(SLOTS, SLAB_PAGES);
    var allocator := new Sys.SysAllocator(table, hostptr);
    var blocks := new KMemoryBlockManager(slab, allocator, 0);
    blocks.Initialize(base, TOTAL_SIZE + codesize);
    FreshSpace(blocks.blocks, base, SpacePages(codesize));
    memory := new KMemory(blocks, base, codesize, Zeros(TOTAL_SIZE + codesize));
  }

  lemma NothingRecorded(base: nat)
    ensures AllBelow(map[], base)
  {
  }

  lemma LoadableFits(modules: seq<Nso>, codesize: nat)
    requires Loadable(modules, codesize)
    ensures Ample(WantedAll(modules, 0), 0, SpacePages(codesize), SLAB_PAGES, TOTAL_SIZE + codesize)
    ensures Adjacent(WantedAll(modules, 0), 0) && PageSum(WantedAll(modules, 0)) <= SLAB_PAGES
    ensures codesize % PAGE_SIZE == 0 && forall i :: 0 <= i < |modules| - 1 ==> modules[i].bss > 0
    ensures forall n :: n in modules ==> HasSlack(n)
  {
    hide WantedAll, EndOfAll, Adjacent, PageSum, HasSlack, Ample;
    KernelSpaceIsAmple(modules, codesize);
    WantedFollowEachOther(modules, 0);
  }

  /** The frames of the segments, in order. */
  ghost predicate RangesOf(ranges: seq<Slab.Range>, segments: seq<Segment>) {
    |ranges| == |segments| && forall i :: 0 <= i < |ranges| ==> ranges[i].size == segments[i].size
  }

  lemma ReservedForSegments(free: seq<nat>, segments: seq<Segment>)
    requires Slab.Descending(free, 0, PAGE_SIZE) && Slab.TotalPages(SizesOf(segments)) < |free|
    ensures RangesOf(Slab.ReserveAll(free, SizesOf(segments)).1, segments)
  {
    hide Slab.ReserveAll, Slab.TotalPages, Slab.Descending;
    Slab.RunsNeverOverlap(free, 0, SizesOf(segments));
  }

  /** What a load on a new kernel comes to. */
  lemma LoadedOnNewKernel(memory: KMemory, before: Frames, base: nat, hostptr: nat, segments: seq<Segment>)
      returns (ranges: seq<Slab.Range>)
    requires Backed(memory, before, segments) && Adjacent(segments, 0) && PageSum(segments) <= SLAB_PAGES
    requires memory.codebase == base && memory.blockslist.allocator.hostptr == hostptr && base > 0
    requires base % PAGE_SIZE == 0
    requires before.table == seq(SLOTS, _ => 0) && before.backing == seq(SLAB_PAGES, _ => 0)
    requires Slab.Descending(before.free, 0, PAGE_SIZE) && before.free[0] <= SLAB_PAGES * PAGE_SIZE
    ensures Table.Holds(memory.blockslist.allocator.pagetable.table, Table.PagesFrom(base, PageSum(segments)))
    ensures FramesHeld(memory.blockslist.allocator.pagetable.backing, hostptr, ranges) && RangesOf(ranges, segments)
  {
    hide Table.Holds, Table.OnePerSlot, Table.PagesFrom, Table.TableAfterAll, Sys.BackingAfterAll,
      Slab.Descending, Slab.ReserveAll, Slab.TotalPages, Adjacent, PageSum, FramesHeld, RangesOf;
    var table := memory.blockslist.allocator.pagetable;
    CodePagesApart(base, PageSum(segments));
    Table.EmptyTableHolds(SLOTS);
    LoadedPages(before, hostptr, base, segments, table.table, table.backing, memory.blockslist.hostslab.objects);
    FramesOfLoad(before, hostptr, base, segments, table.table, table.backing, memory.blockslist.hostslab.objects);
    ReservedForSegments(before.free, segments);
    ranges := Slab.ReserveAll(before.free, SizesOf(segments)).1;
  }

  /** A process from the kernel's start: the block map is tiled by the sections, memory holds them, the page table
      maps exactly their pages, and no two of them share a frame. */
  method Boot(modules: seq<Nso>, base: nat, hostptr: nat, codesize: nat)
    returns (memory: KMemory, ghost sentinel: Entry, ghost ranges: seq<Slab.Range>)
    requires Loadable(modules, codesize) && base > 0 && base % PAGE_SIZE == 0
    ensures var segments, end, used := WantedAll(modules, 0), EndOfAll(modules, 0), PageSum(WantedAll(modules, 0));
      && end == used * PAGE_SIZE && used < SpacePages(codesize)
      && LoadedTo(memory.blockslist.blocks, segments, base, end, SpacePages(codesize) - used, sentinel)
      && ImageTo(memory.memory, Zeros(TOTAL_SIZE + codesize), segments, end)
      && Table.Holds(memory.blockslist.allocator.pagetable.table, Table.PagesFrom(base, used))
      && FramesHeld(memory.blockslist.allocator.pagetable.backing, hostptr, ranges) && RangesOf(ranges, segments)
      && AllBelow(memory.blockslist.allocator.alloclists, base + end)
      && used <= SLAB_PAGES && |memory.blockslist.hostslab.objects| == SLAB_PAGES - used
    ensures memory.codebase == base && memory.codesize == codesize && memory.blockslist.Ready(0)
    ensures fresh(memory) && fresh(memory.blockslist) && fresh(memory.blockslist.hostslab)
    ensures fresh(memory.blockslist.allocator) && fresh(memory.blockslist.allocator.pagetable)
  {
    hide *;
    LoadableFits(modules, codesize);
    NothingRecorded(base);
    memory := NewSpace(base, hostptr, codesize);
    sentinel := memory.blockslist.blocks[1];
    ghost var before := FramesOf(memory);
    NewFrames(memory, before);
    LoadModules(memory, modules, SpacePages(codesize), sentinel);
    ranges := LoadedOnNewKernel(memory, before, base, hostptr, WantedAll(modules, 0));
    FramesLeft(memory, before, WantedAll(modules, 0));
  }

  lemma FramesLeft(memory: KMemory, before: Frames, segments: seq<Segment>)
    requires Backed(memory, before, segments) && Adjacent(segments, 0)
    ensures PageSum(segments) <= |before.free|
    ensures |memory.blockslist.hostslab.objects| == |before.free| - PageSum(segments)
  {
    hide Slab.ReserveAll, Slab.TotalPages, Sys.BackingAfterAll, Table.TableAfterAll, Adjacent, PageSum;
    Slab.ReserveAllLeaves(before.free, SizesOf(segments));
    TotalOfSizes(segments, 0);
  }

  lemma {:induction false} TotalOfSizes(segments: seq<Segment>, from: nat)
    requires Adjacent(segments, from)
    ensures Slab.TotalPages(SizesOf(segments)) == PageSum(segments)
    decreases |segments|
  {
    hide PieceOf, PageUp, Slab.PagesOf;
    if segments != [] {
      TotalOfSizes(segments[1..], from + segments[0].size);
      assert SizesOf(segments)[1..] == SizesOf(segments[1..]);
      WholePages(segments[0].size);
    }
  }

  lemma NewFrames(memory: KMemory, before: Frames)
    requires before == FramesOf(memory) && memory.blockslist.Ready(0) && memory.blockslist.slabbase == 0
    requires memory.blockslist.allocator.pagetable.table == seq(SLOTS, _ => 0)
    requires memory.blockslist.allocator.pagetable.backing == seq(SLAB_PAGES, _ => 0)
    ensures before.table == seq(SLOTS, _ => 0) && before.backing == seq(SLAB_PAGES, _ => 0)
    ensures before.free == memory.blockslist.hostslab.objects
    ensures before.free != [] && Slab.Descending(before.free, 0, PAGE_SIZE) && before.free[0] <= SLAB_PAGES * PAGE_SIZE
  {
  }
}
