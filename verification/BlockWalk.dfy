/** The walk of `IsMappedInRange` over the block map, and when it visits every block of its range. */
module BlockWalk {
  import opened Bytes
  import opened BlockMap

  /** The walk came to its last block past none that is free; it met a free block; or it passed the last key, or stands
      at the sentinel for ever. */
  datatype Verdict = NoneFree | FreeFound | Lost

  /** The block that `FindBlock` answers with. */
  function BlockOf(m: Blocks, guest: nat): (i: nat)
    requires Sorted(m) && m != [] && m[0].key <= guest
    ensures BlockAt(m, guest, i)
  {
    var first := LowerBound(m, guest);
    if first < |m| && m[first].key <= guest then first else first - 1
  }

  /** Every step adds the size of the block at `at`, wherever in that block `at` lies. */
  ghost function Walk(m: Blocks, at: nat, last: nat): Verdict
    requires Tiled(m) && Sorted(m) && m[0].key <= at
    decreases if at <= m[|m| - 1].key then m[|m| - 1].key - at + 1 else 0
  {
    if at > m[|m| - 1].key then Lost
    else
      var i := BlockOf(m, at);
      if i == last then NoneFree
      else if m[i].block.state == FREE then FreeFound
      else if i == |m| - 1 then Lost
      else Walk(m, at + SizeOf(m[i].block), last)
  }

  /** What a walk from block `i0` to block `il` should answer. */
  ghost function Right(m: Blocks, i0: nat, il: nat): Verdict
    requires il < |m|
  {
    if forall j :: i0 <= j < il ==> m[j].block.state != FREE then NoneFree else FreeFound
  }

  /** The walk keeps its offset into the block: it must start at a block, or meet no shorter one. */
  ghost predicate VisitsEveryBlock(m: Blocks, begin: nat, i0: nat, il: nat)
    requires i0 < |m| && il < |m|
  {
    begin == m[i0].key || forall j :: i0 < j <= il ==> begin - m[i0].key < SizeOf(m[j].block)
  }

  lemma WalkStep(m: Blocks, at: nat, i: nat, last: nat)
    requires Tiled(m) && Sorted(m) && m[0].key <= at <= m[|m| - 1].key && BlockAt(m, at, i)
    ensures Walk(m, at, last)
         == if i == last then NoneFree else if m[i].block.state == FREE then FreeFound
            else if i == |m| - 1 then Lost else Walk(m, at + SizeOf(m[i].block), last)
  {
    hide Sorted, Tiled, SizeOf, LowerBound, BlockOf;
    assert |m| >= 2 by { TwoEntries(m); }
    BlockAtSame(m, at, BlockOf(m, at), i);
  }

  lemma TwoEntries(m: Blocks)
    requires Tiled(m)
    ensures |m| >= 2
  {
  }

  lemma BlockOfFacts(m: Blocks, at: nat, from: nat) returns (i: nat)
    requires Tiled(m) && Sorted(m) && from < |m| && m[0].key <= m[from].key <= at <= m[|m| - 1].key
    ensures from <= i < |m| && BlockAt(m, at, i) && (i < |m| - 1 ==> SizeOf(m[i].block) > 0)
  {
    hide LowerBound;
    i := BlockOf(m, at);
  }

  /** A walk that is not lost goes on inside the map. */
  lemma WalkGoesOn(m: Blocks, at: nat, i: nat, last: nat)
    requires Tiled(m) && Sorted(m) && m[0].key <= at <= m[|m| - 1].key && i == BlockOf(m, at)
    requires i != last && m[i].block.state != FREE && Walk(m, at, last) != Lost
    ensures at < at + SizeOf(m[i].block) <= m[|m| - 1].key
  {
  }

  /** An offset inside the block, or none. */
  ghost predicate Inside(m: Blocks, i: nat, d: nat)
    requires i < |m|
  {
    d == 0 || d < SizeOf(m[i].block)
  }

  lemma InsideIsAt(m: Blocks, i: nat, d: nat)
    requires Tiled(m) && i < |m| && Inside(m, i, d)
    ensures Sorted(m) && m[0].key <= m[i].key + d <= m[|m| - 1].key && BlockAt(m, m[i].key + d, i)
    ensures i + 1 < |m| ==> m[i].key + d + SizeOf(m[i].block) == m[i + 1].key + d
  {
    TiledIsSorted(m);
    assert i + 1 < |m| - 1 ==> m[i + 1].key < m[|m| - 1].key;
  }

  /** At an offset inside every block up to `il`, the walk visits them all. */
  lemma {:induction false} WalkVisits(m: Blocks, d: nat, i: nat, il: nat)
    requires Tiled(m) && i <= il < |m| && forall j :: i <= j <= il ==> Inside(m, j, d)
    ensures Sorted(m) && m[0].key <= m[i].key
    ensures Walk(m, m[i].key + d, il) == Right(m, i, il)
    decreases il - i
  {
    hide Tiled, Sorted, SizeOf, Walk, BlockAt, Inside;
    InsideIsAt(m, i, d);
    WalkStep(m, m[i].key + d, i, il);
    if i < il && m[i].block.state != FREE {
      WalkVisits(m, d, i + 1, il);
    }
    InsideIsAt(m, i, 0) by { assert Inside(m, i, 0) by { NoOffset(m, i); } }
  }

  lemma NoOffset(m: Blocks, i: nat)
    requires i < |m|
    ensures Inside(m, i, 0)
  {
  }

  // ---- a block that the walk skips ------------------------------------------------------------------

  /** The blocks of `m`, all in use but block `free`. */
  function InUse(m: Blocks, free: int): (r: Blocks)
    ensures |r| == |m|
    ensures forall i :: 0 <= i < |m| ==>
      r[i].key == m[i].key && r[i].block.pages == m[i].block.pages && (r[i].block.state == FREE <==> i == free)
  {
    seq(|m|, i requires 0 <= i < |m| => Entry(m[i].key, m[i].block.(state := if i == free then FREE else CODE)))
  }

  /** The same keys and sizes. */
  ghost predicate SameShape(m: Blocks, n: Blocks) {
    |m| == |n| && forall i :: 0 <= i < |m| ==> n[i].key == m[i].key && n[i].block.pages == m[i].block.pages
  }

  lemma SameShapeFacts(m: Blocks, n: Blocks)
    requires SameShape(m, n) && Tiled(m)
    ensures Tiled(n)
    ensures forall i, d :: 0 <= i < |m| && Inside(m, i, d) ==> Inside(n, i, d)
    ensures forall guest, i :: BlockAt(m, guest, i) ==> BlockAt(n, guest, i)
  {
  }

  lemma {:induction false} WalkComesTo(m: Blocks, d: nat, i: nat, k: nat, last: nat)
    requires Tiled(m) && i <= k < last < |m| && forall j :: i <= j <= k ==> Inside(m, j, d) && m[j].block.state != FREE
    ensures Sorted(m) && m[0].key <= m[i].key && m[0].key <= m[k].key
    ensures Walk(m, m[i].key + d, last) == Walk(m, m[k].key + d, last)
    decreases k - i
  {
    hide Tiled, Sorted, SizeOf, Walk, BlockAt, Inside;
    InsideIsAt(m, i, d);
    WalkStep(m, m[i].key + d, i, last);
    NoOffset(m, i);
    InsideIsAt(m, i, 0);
    if i < k {
      WalkComesTo(m, d, i + 1, k, last);
    }
  }

  lemma {:induction false} NeverFree(m: Blocks, at: nat, from: nat, last: nat)
    requires Tiled(m) && Sorted(m) && from < |m| && m[0].key <= m[from].key <= at
    requires forall k :: from <= k < |m| ==> m[k].block.state != FREE
    ensures Walk(m, at, last) != FreeFound
    decreases if at <= m[|m| - 1].key then m[|m| - 1].key - at + 1 else 0
  {
    hide Tiled, Sorted, SizeOf, BlockAt, LowerBound, BlockOf;
    if at <= m[|m| - 1].key {
      var i := BlockOfFacts(m, at, from);
      WalkStep(m, at, i, last);
      if i < |m| - 1 && i != last {
        NeverFree(m, at + SizeOf(m[i].block), from, last);
      }
    }
  }

  lemma {:induction false} NeverReached(m: Blocks, at: nat, from: nat, last: nat)
    requires Tiled(m) && Sorted(m) && last < from < |m| && m[0].key <= m[from].key <= at
    ensures Walk(m, at, last) != NoneFree
    decreases if at <= m[|m| - 1].key then m[|m| - 1].key - at + 1 else 0
  {
    hide Tiled, Sorted, SizeOf, BlockAt, LowerBound, BlockOf;
    if at <= m[|m| - 1].key {
      var i := BlockOfFacts(m, at, from);
      WalkStep(m, at, i, last);
      if i < |m| - 1 && m[i].block.state != FREE {
        NeverReached(m, at + SizeOf(m[i].block), from, last);
      }
    }
  }

  lemma PastTheEnd(m: Blocks, at: nat, last: nat)
    requires Tiled(m) && Sorted(m) && m[0].key <= m[|m| - 1].key < at
    ensures Walk(m, at, last) == Lost
  {
  }

  /** The first block whose size the offset exceeds. */
  lemma {:induction false} FirstSkipped(m: Blocks, d: nat, i: nat, il: nat) returns (j: nat)
    requires i < |m| && il < |m| && Inside(m, i, d) && exists k :: i < k <= il && !Inside(m, k, d)
    ensures i < j <= il && !Inside(m, j, d) && forall k :: i <= k < j ==> Inside(m, k, d)
    decreases il - i
  {
    hide Inside;
    if Inside(m, i + 1, d) {
      j := FirstSkipped(m, d, i + 1, il);
    } else {
      j := i + 1;
    }
  }

  /** Skipping block `j`: free, it goes unnoticed; as the last block, it is passed. */
  lemma SkippedIsWrong(m: Blocks, d: nat, i0: nat, j: nat, il: nat)
    requires Tiled(m) && i0 < j <= il < |m| && !Inside(m, j, d) && forall k :: i0 <= k < j ==> Inside(m, k, d)
    ensures var n := InUse(m, if j < il then j else -1);
      && SameShape(m, n) && Tiled(n) && Sorted(n) && n[0].key <= m[i0].key
      && Walk(n, m[i0].key + d, il) != Right(n, i0, il)
  {
    hide Tiled, Sorted, SizeOf, Walk, Inside, BlockAt, InUse;
    var n := InUse(m, if j < il then j else -1);
    SameShapeFacts(m, n);
    TiledIsSorted(n);
    assert forall k :: i0 <= k < j ==> Inside(m, k, d) ==> Inside(n, k, d);
    OutsideStays(m, n, j, d);
    SkipStep(n, d, j, il);
    WalkComesTo(n, d, i0, j - 1, il);
    AfterSkip(n, n[j].key + d, j, il);
    assert j < il ==> n[j].block.state == FREE;
  }

  /** Behind a skipped block no free one is met; and the last block, when skipped, is not reached any more. */
  lemma AfterSkip(m: Blocks, at: nat, j: nat, il: nat)
    requires Tiled(m) && Sorted(m) && j <= il < |m| && m[0].key <= m[|m| - 1].key && m[0].key <= at
    requires forall k :: j < k < |m| ==> m[k].block.state != FREE
    requires if j + 1 < |m| then m[0].key <= m[j + 1].key <= at else m[j].key < at
    ensures if j < il then Walk(m, at, il) != FreeFound else Walk(m, at, il) != NoneFree
  {
    hide Tiled, Sorted, Walk;
    if j + 1 == |m| {
      PastTheEnd(m, at, il);
    } else if j < il {
      NeverFree(m, at, j + 1, il);
    } else {
      NeverReached(m, at, j + 1, il);
    }
  }

  lemma OutsideStays(m: Blocks, n: Blocks, j: nat, d: nat)
    requires SameShape(m, n) && j < |m| && !Inside(m, j, d)
    ensures !Inside(n, j, d)
  {
  }

  lemma SkipStep(m: Blocks, d: nat, j: nat, il: nat)
    requires Tiled(m) && Sorted(m) && 0 < j <= il < |m| && Inside(m, j - 1, d) && !Inside(m, j, d)
    requires m[j - 1].block.state != FREE
    ensures m[0].key <= m[j].key && m[0].key <= m[j - 1].key && m[0].key <= m[|m| - 1].key
    ensures Walk(m, m[j - 1].key + d, il) == Walk(m, m[j].key + d, il)
    ensures if j + 1 < |m| then m[0].key <= m[j + 1].key <= m[j].key + d else m[j].key < m[j].key + d
  {
    hide Walk;
    InsideIsAt(m, j - 1, d);
    WalkStep(m, m[j - 1].key + d, j - 1, il);
  }

  /** Whatever blocks of the range are in use, the walk answers right: this holds if and only if the walk starts at a
      block, or at an offset that lies inside every block up to the last one. */
  lemma WalkIsRightIff(m: Blocks, begin: nat, i0: nat, il: nat)
    requires Tiled(m) && Sorted(m) && m[0].key <= begin && BlockAt(m, begin, i0) && begin <= m[|m| - 1].key
    requires i0 <= il < |m|
    ensures VisitsEveryBlock(m, begin, i0, il)
       <==> forall n :: SameShape(m, n) ==> AnswersRight(n, begin, i0, il)
  {
    hide Walk, Right, Tiled, Sorted, BlockAt, VisitsEveryBlock, SameShape, AnswersRight;
    if VisitsEveryBlock(m, begin, i0, il) {
      forall n | SameShape(m, n) ensures AnswersRight(n, begin, i0, il) {
        VisitsThere(m, n, begin, i0, il);
        VisitsIsRight(n, begin, i0, il);
      }
    } else {
      var n := SomeWalkIsWrong(m, begin, i0, il);
      assert SameShape(m, n) && !AnswersRight(n, begin, i0, il);
    }
  }

  lemma VisitsThere(m: Blocks, n: Blocks, begin: nat, i0: nat, il: nat)
    requires Tiled(m) && SameShape(m, n) && BlockAt(m, begin, i0) && m[0].key <= begin <= m[|m| - 1].key
    requires i0 <= il < |m|
    requires VisitsEveryBlock(m, begin, i0, il)
    ensures Tiled(n) && BlockAt(n, begin, i0) && n[0].key <= begin <= n[|n| - 1].key && |n| == |m|
    ensures VisitsEveryBlock(n, begin, i0, il)
  {
    SameShapeFacts(m, n);
    hide Tiled;
  }

  lemma SomeWalkIsWrong(m: Blocks, begin: nat, i0: nat, il: nat) returns (n: Blocks)
    requires Tiled(m) && m[0].key <= begin && BlockAt(m, begin, i0) && begin <= m[|m| - 1].key && i0 <= il < |m|
    requires !VisitsEveryBlock(m, begin, i0, il)
    ensures SameShape(m, n) && !AnswersRight(n, begin, i0, il)
  {
    hide Walk, Right, Sorted, InUse, SameShape;
    var d := begin - m[i0].key;
    assert Inside(m, i0, d);
    var k :| i0 < k <= il && d >= SizeOf(m[k].block);
    assert !Inside(m, k, d);
    var j := FirstSkipped(m, d, i0, il);
    SkippedIsWrong(m, d, i0, j, il);
    n := InUse(m, if j < il then j else -1);
  }

  ghost predicate AnswersRight(m: Blocks, begin: nat, i0: nat, il: nat) {
    && Tiled(m) && Sorted(m) && m[0].key <= begin && il < |m|
    && Walk(m, begin, il) == Right(m, i0, il)
  }

  lemma VisitsIsRight(m: Blocks, begin: nat, i0: nat, il: nat)
    requires Tiled(m) && m[0].key <= begin && BlockAt(m, begin, i0) && begin <= m[|m| - 1].key && i0 <= il < |m|
    requires VisitsEveryBlock(m, begin, i0, il)
    ensures AnswersRight(m, begin, i0, il)
  {
    hide Walk, Right, Sorted;
    var d := begin - m[i0].key;
    TiledIsSorted(m);
    assert forall j :: i0 <= j <= il ==> Inside(m, j, d);
    WalkVisits(m, d, i0, il);
  }

  /** A walk from the second page of a two-page block skips the one-page block behind it, although that one is free. */
  lemma WalkSkipsFreeBlock()
    ensures var m := [Entry(0, Block(2, CODE, 0)), Entry(2 * PAGE_SIZE, Block(1, FREE, 0)),
                      Entry(3 * PAGE_SIZE, Block(2, CODE, 0)), Entry(5 * PAGE_SIZE, Block(0, INACCESSIBLE, 0))];
      && Tiled(m) && Sorted(m) && BlockAt(m, PAGE_SIZE, 0) && BlockAt(m, 4 * PAGE_SIZE, 2) && m[1].block.state == FREE
      && Walk(m, PAGE_SIZE, 2) == NoneFree && Right(m, 0, 2) == FreeFound
  {
    var m := [Entry(0, Block(2, CODE, 0)), Entry(2 * PAGE_SIZE, Block(1, FREE, 0)),
              Entry(3 * PAGE_SIZE, Block(2, CODE, 0)), Entry(5 * PAGE_SIZE, Block(0, INACCESSIBLE, 0))];
    WalkStep(m, PAGE_SIZE, 0, 2);
    WalkStep(m, 3 * PAGE_SIZE, 2, 2);
    hide Walk;
    assert m[1].block.state == FREE;
  }
}
