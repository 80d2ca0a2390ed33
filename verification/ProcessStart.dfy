/** From the kernel's start to a running process: what the recompiled code reads of the loaded modules, and how many
    thread-local regions the process can hand out. */
module ProcessStart {
  import opened Bytes
  import opened BlockMap
  import opened BlockManager
  import opened CodeLayout
  import opened KMemory
  import opened ProcessLoader
  import Guest = GuestAccess
  import Mem = ThreadMemory
  import Slab = SlabHeap
  import Sys = SysAllocator
  import Table = PageTable
  import Tls = TlsRegions

  // ---- reading the loaded modules -------------------------------------------------------------------

  /** The host bytes behind guest addresses: an address stands for itself. */
  ghost predicate Shows(callbacks: Guest.DynarmicCallbacks, memory: KMemory)
    reads callbacks, callbacks.ptable, memory
  {
    && callbacks.Valid()
    && forall a: nat :: memory.codebase <= a < memory.codebase + |memory.memory| ==>
         a in callbacks.memory && callbacks.memory[a] == memory.memory[a - memory.codebase]
  }

  function HostBytes(base: nat, bytes: seq<byte>): (r: map<nat, byte>)
    ensures forall a: nat :: base <= a < base + |bytes| ==> a in r && r[a] == bytes[a - base]
  {
    if bytes == [] then map[]
    else
      var last := |bytes| - 1;
      HostBytes(base, bytes[..last])[base + last := bytes[last]]
  }

  lemma PagesInMemory(base: nat, pages: nat, size: nat, a: nat)
    requires base % PAGE_SIZE == 0 && pages * PAGE_SIZE <= size
    ensures Table.PageBase(a) in Table.PagesFrom(base, pages) <==> base <= a < base + pages * PAGE_SIZE
  {
    hide Table.PagesFrom;
    Table.PagesFromMembers(base, pages, Table.PageBase(a));
    var k, m := base / PAGE_SIZE, a / PAGE_SIZE;
    assert base == k * PAGE_SIZE && Table.PageBase(a) == m * PAGE_SIZE;
  }

  /** The callbacks of the recompiler on a process whose code takes the first `pages` pages. */
  method Attach(memory: KMemory, ghost pages: nat) returns (callbacks: Guest.DynarmicCallbacks)
    requires memory.codebase % PAGE_SIZE == 0 && pages * PAGE_SIZE <= |memory.memory|
    requires Table.Holds(memory.blockslist.allocator.pagetable.table, Table.PagesFrom(memory.codebase, pages))
    ensures fresh(callbacks) && callbacks.ptable == memory.blockslist.allocator.pagetable
    ensures Shows(callbacks, memory) && callbacks.mapped == Table.PagesFrom(memory.codebase, pages)
  {
    hide Table.Holds, Table.PagesFrom, Table.PageBase, HostBytes;
    var bytes := HostBytes(memory.codebase, memory.memory);
    forall a: nat | Table.PageBase(a) in Table.PagesFrom(memory.codebase, pages) ensures a in bytes {
      PagesInMemory(memory.codebase, pages, |memory.memory|, a);
    }
    callbacks := new Guest.DynarmicCallbacks(memory.blockslist.allocator.pagetable, bytes,
      Table.PagesFrom(memory.codebase, pages));
  }

  /** An access inside the code shows the byte of the image. */
  lemma ImageIsShown(callbacks: Guest.DynarmicCallbacks, memory: KMemory, bytes: seq<byte>, segments: seq<Segment>,
      pages: nat, i: nat)
    requires Shows(callbacks, memory) && callbacks.mapped == Table.PagesFrom(memory.codebase, pages)
    requires memory.codebase % PAGE_SIZE == 0 && ImageTo(memory.memory, bytes, segments, pages * PAGE_SIZE)
    requires i < pages * PAGE_SIZE
    ensures callbacks.ByteAt(memory.codebase + i) == Image(segments)[i]
  {
    hide Table.Holds, Table.PagesFrom, Table.PageBase, Image, Guest.DynarmicCallbacks.ByteAt;
    PagesInMemory(memory.codebase, pages, |memory.memory|, memory.codebase + i);
    callbacks.ByteAtIsFlat(memory.codebase + i);
    assert memory.memory[i] == Image(segments)[i];
  }

  /** Loading modules on a new kernel and reading a byte of the code gives the byte of their images. */
  method BootAndRead(modules: seq<Nso>, base: nat, hostptr: nat, codesize: nat, i: nat) returns (b: byte)
    requires Loadable(modules, codesize) && base > 0 && base % PAGE_SIZE == 0 && i < EndOfAll(modules, 0)
    ensures (forall s :: s in WantedAll(modules, 0) ==> Fits(s)) && i < |Image(WantedAll(modules, 0))|
    ensures b == Image(WantedAll(modules, 0))[i]
  {
    hide *;
    ghost var segments, pages := WantedAll(modules, 0), PageSum(WantedAll(modules, 0));
    var memory;
    ghost var sentinel, ranges;
    memory, sentinel, ranges := Boot(modules, base, hostptr, codesize);
    ghost var bytes := Zeros(TOTAL_SIZE + codesize);
    ImageFacts(memory.memory, bytes, segments, EndOfAll(modules, 0));
    var callbacks := Attach(memory, pages);
    ImageIsShown(callbacks, memory, bytes, segments, pages, i);
    ShowsValid(callbacks, memory);
    b := callbacks.MemoryRead8(base + i);
  }

  lemma ShowsValid(callbacks: Guest.DynarmicCallbacks, memory: KMemory)
    requires Shows(callbacks, memory)
    ensures callbacks.Valid()
  {
  }

  lemma ImageFacts(memory: seq<byte>, bytes: seq<byte>, segments: seq<Segment>, end: nat)
    requires ImageTo(memory, bytes, segments, end)
    ensures (forall s :: s in segments ==> Fits(s)) && |Image(segments)| == end <= |memory| == |bytes|
  {
  }

  // ---- the first thread -----------------------------------------------------------------------------

  /** The slab of thread-local pages. */
  const SLAB_BASE := 0x800E_5000
  const SLAB_SIZE := 0xA2_1000
  const TLS_PAGES := SLAB_SIZE / PAGE_SIZE

  lemma ThreadSlab(slab: seq<nat>)
    requires Slab.Descending(slab, SLAB_BASE, PAGE_SIZE) && |slab| == Slab.Steps(0, SLAB_SIZE, PAGE_SIZE)
    ensures |slab| == TLS_PAGES && slab[0] + PAGE_SIZE == SLAB_BASE + SLAB_SIZE
  {
    Slab.StepsArePages(0, SLAB_SIZE);
    Slab.DescendingDistance(slab, SLAB_BASE, 0, |slab| - 1);
  }

  /** Behind the loaded code everything is free up to the end of the address space. */
  lemma LoadedIsUnthreaded(s: Space, segments: seq<Segment>, base: nat, end: nat, free: nat, sentinel: Entry,
      stack: nat)
    requires LoadedTo(s.blocks, segments, base, end, free, sentinel) && AllBelow(s.allocs, base + end)
    requires base + end < stack
    ensures Mem.Unthreaded(s, stack) && |s.blocks| == |segments| + 2
    ensures s.blocks[|s.blocks| - 1].key == base + end + free * PAGE_SIZE
    ensures TotalPages(s.blocks) == PageSum(segments) + free
  {
    LoadKeepsTotal(s.blocks, segments, base, end, free, sentinel);
    assert s.blocks[|s.blocks| - 2] == Entry(base + end, Block(free, FREE, 0));
  }

  /** The stack fits its segment, and the host pages suffice for the code, the stack and every thread-local page. */
  ghost predicate Startable(modules: seq<Nso>, codesize: nat, stack: nat) {
    && Loadable(modules, codesize) && 0 < stack <= STACK_SIZE && stack % PAGE_SIZE == 0
    && PageSum(WantedAll(modules, 0)) + stack / PAGE_SIZE + TLS_PAGES + 3 <= SLAB_PAGES
  }

  lemma StartableFacts(modules: seq<Nso>, codesize: nat, stack: nat)
    requires Startable(modules, codesize, stack)
    ensures Loadable(modules, codesize) && stack > 0 && stack / PAGE_SIZE > 0
    ensures stack / PAGE_SIZE * PAGE_SIZE == stack <= STACK_SIZE
    ensures EndOfAll(modules, 0) <= codesize && codesize % PAGE_SIZE == 0
    ensures PageSum(WantedAll(modules, 0)) + stack / PAGE_SIZE + TLS_PAGES + 3 <= SLAB_PAGES
  {
    hide PageSum, WantedAll, EndOfAll, HasSlack;
  }

  /** A loaded process can start. */
  lemma LoadedIsBootable(modules: seq<Nso>, s: Space, base: nat, codesize: nat, sentinel: Entry, slab: seq<nat>,
      stack: nat)
    requires Startable(modules, codesize, stack)
    requires var used := PageSum(WantedAll(modules, 0));
      && EndOfAll(modules, 0) == used * PAGE_SIZE && used < SpacePages(codesize)
      && LoadedTo(s.blocks, WantedAll(modules, 0), base, EndOfAll(modules, 0), SpacePages(codesize) - used, sentinel)
      && used <= SLAB_PAGES && |s.frames| == SLAB_PAGES - used
    requires AllBelow(s.allocs, base + EndOfAll(modules, 0))
    requires Slab.Descending(slab, SLAB_BASE, PAGE_SIZE) && |slab| == Slab.Steps(0, SLAB_SIZE, PAGE_SIZE)
    ensures var at := base + codesize + ALIAS_SIZE + HEAP_SIZE;
      Tls.Bootable(slab, SLAB_BASE, at + STACK_SIZE, s, at, stack / PAGE_SIZE)
    ensures |slab| == TLS_PAGES && Tls.StackIndex(s) == |WantedAll(modules, 0)| + 1
    ensures TotalPages(s.blocks) == SpacePages(codesize)
  {
    hide LoadedTo, WantedAll, EndOfAll, PageSum, Slab.Descending, Slab.Steps, Mem.Unthreaded, AllBelow, TotalPages;
    StartableFacts(modules, codesize, stack);
    ThreadSlab(slab);
    var used, at := PageSum(WantedAll(modules, 0)), base + codesize + ALIAS_SIZE + HEAP_SIZE;
    LoadedIsUnthreaded(s, WantedAll(modules, 0), base, EndOfAll(modules, 0), SpacePages(codesize) - used, sentinel, at);
    assert SpacePages(codesize) * PAGE_SIZE == TOTAL_SIZE + codesize;
  }

  lemma AskFacts(process: Tls.KProcess, base: nat, codesize: nat)
    requires process.freetlslist == [] && Tls.Asks(process.Abs()) && process.memory.blockslist.Ready(0)
    requires process.memory.codebase == base && process.memory.codesize == codesize
    requires |process.userslabs.objects| == TLS_PAGES
    requires process.userslabs.objects[0] + PAGE_SIZE == SLAB_BASE + SLAB_SIZE
    requires |process.memory.memory| == TOTAL_SIZE + codesize
    ensures process.CanAsk()
    ensures process.memory.Stack() - base + STACK_SIZE <= |process.memory.memory|
  {
    hide Requestable, Tls.AbsAll, Slab.Descending;
    var at := process.memory.TlsIo() + process.userslabs.objects[0];
    assert Requestable(process.memory.blockslist.Abs(), at, Mem.TLS_PAGE);
    assert at - base + PAGE_SIZE <= TOTAL_SIZE + codesize;
  }

  /** A process from the kernel's start to its first thread. It starts without an exception, and from there on exactly
      so many regions can be handed out as its stack has pages and the slab has addresses. */
  method StartProcess(modules: seq<Nso>, base: nat, hostptr: nat, codesize: nat, stack: nat)
    returns (process: Tls.KProcess)
    requires Startable(modules, codesize, stack) && base > 0 && base % PAGE_SIZE == 0
    ensures process.Valid() && Tls.Inv(process.Abs(), |WantedAll(modules, 0)| + 1)
    ensures TotalPages(process.Abs().space.blocks) == SpacePages(codesize)
    ensures forall n: nat ::
      Tls.CanRun(process.Abs(), n) <==> n + 1 <= Tls.SLOTS * (1 + Tls.Min(TLS_PAGES, stack / PAGE_SIZE))
  {
    hide Startable, Loadable, LoadedTo, ImageTo, AllBelow, WantedAll, EndOfAll, PageSum, SpacePages, Zeros, TotalPages,
      Table.Holds, Table.PagesFrom, FramesHeld, RangesOf, Image, Slab.Descending, Slab.Steps, Tls.Bootable, Tls.Starts,
      Tls.Started, Tls.Asks, Tls.Grants, Tls.StackAsked, Tls.Step, Tls.Inv, Tls.CanRun, Tls.AbsAll, Tls.StackHolds,
      Tls.KProcess.Valid, Tls.KProcess.CanAsk, KMemoryBlockManager.Ready, Tls.FreeSlotsOf, Tls.Capacity, Requestable,
      Maps;
    StartableFacts(modules, codesize, stack);
    var memory;
    ghost var sentinel, ranges;
    memory, sentinel, ranges := Boot(modules, base, hostptr, codesize);
    ImageFacts(memory.memory, Zeros(TOTAL_SIZE + codesize), WantedAll(modules, 0), EndOfAll(modules, 0));
    var userslabs := new Slab.KSlabHeap(SLAB_BASE, SLAB_SIZE, PAGE_SIZE);
    process := new Tls.KProcess(userslabs, memory);
    ghost var slab, space, at := userslabs.objects, memory.blockslist.Abs(), memory.Stack();
    LoadedIsBootable(modules, space, base, codesize, sentinel, slab, stack);
    ThreadSlab(slab);
    Tls.StartIsAsked(slab, SLAB_BASE, memory.TlsIo(), space, at, stack / PAGE_SIZE);
    AskFacts(process, base, codesize);
    Tls.StartKeepsInv(slab, SLAB_BASE, memory.TlsIo(), space, at, stack / PAGE_SIZE);
    var thrown, region := process.Initialize(stack);
    forall n: nat
      ensures Tls.CanRun(process.Abs(), n) <==> n + 1 <= Tls.SLOTS * (1 + Tls.Min(TLS_PAGES, stack / PAGE_SIZE))
    {
      Tls.RunsFromStart(slab, SLAB_BASE, memory.TlsIo(), space, at, stack / PAGE_SIZE, n);
    }
  }
}
