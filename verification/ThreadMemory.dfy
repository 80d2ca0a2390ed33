/** The block map of a process that starts: its first thread-local page goes into the free rest behind the code,
    the stack below that page, and every later page below the one before it. */
module ThreadMemory {
  import opened Bytes
  import opened BlockMap
  import opened BlockManager
  import K = KMemory
  import Sys = SysAllocator

  const TLS_PAGE := Block(1, THREAD_LOCAL, 0)

  function Pile(pages: nat): Block {
    Block(pages, STACK, 0)
  }

  /** No recorded mapping covers an address of [low, high). */
  ghost predicate Unrecorded(allocs: map<Sys.AllocKey, nat>, low: nat, high: nat) {
    forall x: nat :: low <= x < high ==> !Sys.Covered(allocs, x)
  }

  lemma CoveredMore(allocs: map<Sys.AllocKey, nat>, a: nat, host: nat, size: nat, x: nat)
    requires !Sys.Covered(allocs, a)
    ensures Sys.Covered(allocs[(a, host) := size], x) <==> Sys.Covered(allocs, x) || a <= x < a + size
  {
    var more := allocs[(a, host) := size];
    if Sys.Covered(allocs, x) {
      var key: Sys.AllocKey :| key in allocs && key.0 <= x < key.0 + allocs[key];
      assert key in more && key != (a, host);
    }
    if a <= x < a + size {
      assert (a, host) in more;
    }
  }

  // ---- one request between two blocks -----------------------------------------------------------

  /** The block that `Map` looks at first: the free rest before the sentinel, or else a taken block above. */
  ghost predicate Decided(s: Space, f: nat, block: Block)
    requires f + 1 < |s.blocks|
  {
    if f + 2 == |s.blocks| then s.blocks[f].block.state == FREE && s.blocks[f].block.pages >= block.pages
    else Taken(s.allocs, s.blocks[f + 1])
  }

  /** The request is answered, and carried out exactly when the block below it has the pages. */
  lemma StepBetween(s: Space, f: nat, a: nat, block: Block)
    requires Between(s.blocks, f, a, block) && Decided(s, f, block)
    requires !Sys.Covered(s.allocs, a) && block.pages < |s.frames|
    ensures Requestable(s, a, block) && (Maps(s, a, block) <==> s.blocks[f].block.pages >= block.pages)
    ensures Maps(s, a, block) ==>
      && s.blocks[f].block.pages >= block.pages
      && MapStep(s, a, block) == Space(GivenAway(s.blocks, f, a, block),
           s.allocs[(a, s.frames[block.pages]) := SizeOf(block)], s.frames[block.pages..])
  {
    var m := s.blocks;
    BetweenReaches(m, f, a, block);
    hide Between, Reaches, Admissible, FirstOf, BlocksAfter, GivenAway, SizeOf, Sys.Covered;
    BetweenPages(m, f, a, block);
    assert TakenAt(s, a) == (f + 2 < |m|);
    if m[f].block.pages >= block.pages {
      MapBetween(m, f, a, block);
    }
  }

  lemma BetweenPages(m: Blocks, f: nat, a: nat, block: Block)
    requires Between(m, f, a, block)
    ensures |m| >= 2 && block.pages > 0 && m[f].key < a
  {
  }

  /** `page` is a thread-local page of the block map, and backed. */
  ghost predicate IsMapped(s: Space, page: nat) {
    Sys.Covered(s.allocs, page) && Entry(page, TLS_PAGE) in s.blocks
  }

  /** The new space: sorted, with the same total, `block` behind block `f`, and mapped pages still mapped. */
  ghost predicate Placed(s: Space, t: Space, f: nat, a: nat, block: Block) {
    && Sorted(t.blocks) && TotalPages(t.blocks) == TotalPages(s.blocks) && GivenAwayAt(s.blocks, t.blocks, f, a, block)
    && block.pages < |s.frames| && t.frames == s.frames[block.pages..]
    && (forall x: nat :: Sys.Covered(t.allocs, x) <==> Sys.Covered(s.allocs, x) || a <= x < a + SizeOf(block))
  }

  lemma StepPlaces(s: Space, f: nat, a: nat, block: Block)
    requires Between(s.blocks, f, a, block) && Decided(s, f, block)
    requires !Sys.Covered(s.allocs, a) && s.blocks[f].block.pages >= block.pages && block.pages < |s.frames|
    ensures Requestable(s, a, block) && Maps(s, a, block) && Placed(s, MapStep(s, a, block), f, a, block)
  {
    hide Between, Decided, Requestable, Maps, MapStep, GivenAway, GivenAwayAt, SizeOf, Sys.Covered, Sorted, TotalPages;
    StepBetween(s, f, a, block);
    GivenAwayFacts(s.blocks, f, a, block);
    var t := MapStep(s, a, block);
    forall x: nat
      ensures Sys.Covered(t.allocs, x) <==> Sys.Covered(s.allocs, x) || a <= x < a + SizeOf(block)
    {
      CoveredMore(s.allocs, a, s.frames[block.pages], SizeOf(block), x);
    }
  }

  lemma StaysMapped(s: Space, t: Space, f: nat, a: nat, block: Block, page: nat)
    requires Placed(s, t, f, a, block) && IsMapped(s, page) && f < |s.blocks| && page != s.blocks[f].key
    ensures IsMapped(t, page)
  {
    hide Sorted, TotalPages, Sys.Covered, SizeOf;
    var i :| 0 <= i < |s.blocks| && s.blocks[i] == Entry(page, TLS_PAGE);
    assert t.blocks[if i < f then i else i + 1] == Entry(page, TLS_PAGE);
  }

  // ---- the start of a process ---------------------------------------------------------------------

  /** Behind the code: the last block is free and starts below `stack`, and nothing is recorded from there on. */
  ghost predicate Unthreaded(s: Space, stack: nat) {
    && Tiled(s.blocks) && s.blocks[|s.blocks| - 2].block.state == FREE && s.blocks[|s.blocks| - 2].key < stack
    && K.AllBelow(s.allocs, stack)
  }

  /** The first thread-local page at `top`, with the rest of the free block, which has `pages` pages, below it. */
  ghost predicate OnePage(s: Space, f: nat, stack: nat, top: nat, pages: nat) {
    && Sorted(s.blocks) && f + 2 < |s.blocks| && s.blocks[f].key < stack && s.blocks[f].block.pages >= pages
    && s.blocks[f + 1] == Entry(top, TLS_PAGE) && Sys.Covered(s.allocs, top) && Unrecorded(s.allocs, stack, top)
  }

  lemma FirstPage(s: Space, stack: nat, stackpages: nat, top: nat)
    requires Unthreaded(s, stack) && stack + stackpages * PAGE_SIZE <= top && |s.frames| > 1
    requires top + PAGE_SIZE <= s.blocks[|s.blocks| - 1].key
    ensures |s.blocks| >= 2 && Requestable(s, top, TLS_PAGE) && Maps(s, top, TLS_PAGE)
    ensures var t := MapStep(s, top, TLS_PAGE);
      && OnePage(t, |s.blocks| - 2, stack, top, stackpages) && IsMapped(t, top) && t.frames == s.frames[1..]
      && TotalPages(t.blocks) == TotalPages(s.blocks)
  {
    var f := |s.blocks| - 2;
    FreeRest(s, stack, stackpages, top);
    NothingFrom(s.allocs, stack, top + PAGE_SIZE);
    hide Unthreaded, Between, Decided, Requestable, Maps, MapStep, Sys.Covered, Sorted, TotalPages, Tiled;
    StepPlaces(s, f, top, TLS_PAGE);
    var t := MapStep(s, top, TLS_PAGE);
    assert Sys.Covered(t.allocs, top) && t.blocks[f + 1] == Entry(top, TLS_PAGE);
  }

  /** The free rest reaches the sentinel, so it has the pages for the stack and a page more. */
  lemma FreeRest(s: Space, stack: nat, stackpages: nat, top: nat)
    requires Unthreaded(s, stack) && stack + stackpages * PAGE_SIZE <= top
    requires top + PAGE_SIZE <= s.blocks[|s.blocks| - 1].key
    ensures var f := |s.blocks| - 2;
      && Between(s.blocks, f, top, TLS_PAGE) && Decided(s, f, TLS_PAGE)
      && s.blocks[f].key < stack && s.blocks[f].block.pages > stackpages
  {
    TiledIsSorted(s.blocks);
    hide Sorted;
  }

  lemma NothingFrom(allocs: map<Sys.AllocKey, nat>, low: nat, high: nat)
    requires K.AllBelow(allocs, low)
    ensures Unrecorded(allocs, low, high)
  {
  }

  /** Below the last thread-local page, at `top`, lies block `g`; nothing is recorded between `low` and that page. */
  ghost predicate ThreadSpace(s: Space, g: nat, low: nat, top: nat) {
    && Sorted(s.blocks) && g + 2 < |s.blocks| && s.blocks[g].key < low <= top
    && s.blocks[g + 1] == Entry(top, TLS_PAGE) && Sys.Covered(s.allocs, top) && Unrecorded(s.allocs, low, top)
  }

  /** The page above is taken, so the stack comes out of the free rest below it. */
  lemma StackBelowPage(s: Space, f: nat, stack: nat, stackpages: nat, low: nat, top: nat)
    requires OnePage(s, f, stack, top, stackpages) && 0 < stackpages < |s.frames|
    requires stack + stackpages * PAGE_SIZE <= low <= top
    ensures Requestable(s, stack, Pile(stackpages)) && Maps(s, stack, Pile(stackpages))
    ensures var t := MapStep(s, stack, Pile(stackpages));
      && ThreadSpace(t, f + 1, low, top) && t.blocks[f + 1] == Entry(stack, Pile(stackpages))
      && TotalPages(t.blocks) == TotalPages(s.blocks) && t.frames == s.frames[stackpages..]
      && (IsMapped(s, top) ==> IsMapped(t, top))
  {
    assert SizeOf(Pile(stackpages)) == stackpages * PAGE_SIZE;
    assert Between(s.blocks, f, stack, Pile(stackpages)) && Decided(s, f, Pile(stackpages));
    assert !Sys.Covered(s.allocs, stack);
    hide Between, Decided, Requestable, Maps, MapStep, Sys.Covered, Sorted, TotalPages, SizeOf, IsMapped;
    StepPlaces(s, f, stack, Pile(stackpages));
    var t := MapStep(s, stack, Pile(stackpages));
    assert t.blocks[f + 2] == s.blocks[f + 1];
    if IsMapped(s, top) {
      StaysMapped(s, t, f, stack, Pile(stackpages), top);
    }
  }

  // ---- later pages --------------------------------------------------------------------------------

  /** A later page takes its page from the block below, the stack: the request is always answered, and carried out
      exactly when that block has a page left. */
  lemma NextPage(s: Space, g: nat, low: nat, top: nat, a: nat)
    requires ThreadSpace(s, g, low, top) && low <= a && a + PAGE_SIZE <= top && |s.frames| > 1
    ensures Requestable(s, a, TLS_PAGE) && (Maps(s, a, TLS_PAGE) <==> s.blocks[g].block.pages > 0)
    ensures Maps(s, a, TLS_PAGE) ==> Placed(s, MapStep(s, a, TLS_PAGE), g, a, TLS_PAGE)
    ensures Maps(s, a, TLS_PAGE) ==>
      ThreadSpace(MapStep(s, a, TLS_PAGE), g, low, a) && IsMapped(MapStep(s, a, TLS_PAGE), a)
  {
    NextIsBetween(s, g, low, top, a);
    hide Between, Decided, Requestable, Maps, MapStep, Sys.Covered, Sorted, TotalPages, ThreadSpace, Placed, IsMapped;
    StepBetween(s, g, a, TLS_PAGE);
    if s.blocks[g].block.pages > 0 {
      StepPlaces(s, g, a, TLS_PAGE);
      NextSpace(s, MapStep(s, a, TLS_PAGE), g, low, top, a);
    }
  }

  lemma NextSpace(s: Space, t: Space, g: nat, low: nat, top: nat, a: nat)
    requires ThreadSpace(s, g, low, top) && low <= a && a + PAGE_SIZE <= top && Placed(s, t, g, a, TLS_PAGE)
    ensures ThreadSpace(t, g, low, a) && IsMapped(t, a)
  {
    hide Sys.Covered, Sorted, TotalPages;
    assert SizeOf(TLS_PAGE) == PAGE_SIZE;
    assert Sys.Covered(t.allocs, a) && t.blocks[g + 1] == Entry(a, TLS_PAGE);
  }

  lemma NextIsBetween(s: Space, g: nat, low: nat, top: nat, a: nat)
    requires ThreadSpace(s, g, low, top) && low <= a && a + PAGE_SIZE <= top
    ensures g + 1 < |s.blocks| && Between(s.blocks, g, a, TLS_PAGE) && Decided(s, g, TLS_PAGE)
    ensures !Sys.Covered(s.allocs, a)
  {
    assert SizeOf(TLS_PAGE) == PAGE_SIZE;
  }

  /** A second request for the last page throws. */
  lemma SamePage(s: Space, g: nat, low: nat, top: nat)
    requires ThreadSpace(s, g, low, top) && |s.frames| > 1
    ensures Requestable(s, top, TLS_PAGE) && !Maps(s, top, TLS_PAGE)
  {
    hide Sys.Covered, Unrecorded, Reaches;
    assert s.blocks[g + 1].key == top;
  }
}
