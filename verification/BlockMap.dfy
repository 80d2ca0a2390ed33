/** The map of guest memory blocks, as a sequence sorted by address, with the last key as a sentinel. */
module BlockMap {
  import opened Bytes

  const FREE := 0
  const CODE := 0x00DC7E03
  const INACCESSIBLE := 0x00000010
  const THREAD_LOCAL := 0x0040200C
  const STACK := 0x005C3C0B

  datatype Block = Block(pages: nat, state: nat, permission: nat)
  datatype Entry = Entry(key: nat, block: Block)
  type Blocks = seq<Entry>

  ghost predicate Sorted(m: Blocks) {
    forall i, j :: 0 <= i < j < |m| ==> m[i].key < m[j].key
  }

  /** Index of the first key at or above `a`. */
  function LowerBound(m: Blocks, a: nat): (i: nat)
    ensures i <= |m|
    ensures forall j :: 0 <= j < i ==> m[j].key < a
    ensures i < |m| ==> a <= m[i].key
  {
    if m == [] || a <= m[0].key then 0 else
      var i := LowerBound(m[1..], a);
      assert forall j :: 0 < j < |m| ==> m[j] == m[1..][j - 1];
      1 + i
  }

  lemma LowerBoundIs(m: Blocks, a: nat, i: nat)
    requires Sorted(m) && i <= |m|
    requires i < |m| ==> a <= m[i].key
    requires i > 0 ==> m[i - 1].key < a
    ensures LowerBound(m, a) == i
  {
  }

  /** `insert_or_assign`. */
  function Assign(m: Blocks, key: nat, block: Block): (r: Blocks) {
    var i := LowerBound(m, key);
    if i < |m| && m[i].key == key then m[i := Entry(key, block)]
    else m[..i] + [Entry(key, block)] + m[i..]
  }

  // ---- page conservation --------------------------------------------------------------------

  function TotalPages(m: Blocks): nat {
    if m == [] then 0 else m[0].block.pages + TotalPages(m[1..])
  }

  lemma {:induction false} TotalOfConcat(a: Blocks, b: Blocks)
    ensures TotalPages(a + b) == TotalPages(a) + TotalPages(b)
  {
    if a == [] {
      assert a + b == b;
    } else {
      assert (a + b)[1..] == a[1..] + b;
      TotalOfConcat(a[1..], b);
    }
  }

  lemma TotalOfUpdate(m: Blocks, i: nat, e: Entry)
    requires i < |m|
    ensures TotalPages(m[i := e]) == TotalPages(m) - m[i].block.pages + e.block.pages
  {
    assert m == m[..i] + ([m[i]] + m[i + 1..]) && m[i := e] == m[..i] + ([e] + m[i + 1..]);
    TotalOfConcat(m[..i], [m[i]] + m[i + 1..]);
    TotalOfConcat(m[..i], [e] + m[i + 1..]);
    assert ([m[i]] + m[i + 1..])[1..] == m[i + 1..] == ([e] + m[i + 1..])[1..];
  }

  ghost predicate HasKey(m: Blocks, key: nat) {
    exists i :: 0 <= i < |m| && m[i].key == key
  }

  ghost predicate SameKeys(m: Blocks, n: Blocks) {
    |m| == |n| && forall i :: 0 <= i < |m| ==> m[i].key == n[i].key
  }

  lemma SortedInsertion(m: Blocks, i: nat, e: Entry)
    requires Sorted(m) && i <= |m|
    requires (i > 0 ==> m[i - 1].key < e.key) && (i < |m| ==> e.key < m[i].key)
    ensures Sorted(m[..i] + [e] + m[i..])
  {
    var r := m[..i] + [e] + m[i..];
    forall j, k | 0 <= j < k < |r| ensures r[j].key < r[k].key {
      assert r[j] == if j < i then m[j] else if j == i then e else m[j - 1];
      assert r[k] == if k < i then m[k] else if k == i then e else m[k - 1];
    }
  }

  /** Where a new key goes. */
  lemma AssignNew(m: Blocks, key: nat, block: Block)
    requires Sorted(m) && !HasKey(m, key)
    ensures var i := LowerBound(m, key); Assign(m, key, block) == m[..i] + [Entry(key, block)] + m[i..]
    ensures Sorted(Assign(m, key, block))
  {
    hide Sorted;
    SortedInsertion(m, LowerBound(m, key), Entry(key, block));
  }

  lemma TotalOfAssignNew(m: Blocks, key: nat, block: Block)
    requires Sorted(m) && !HasKey(m, key)
    ensures TotalPages(Assign(m, key, block)) == TotalPages(m) + block.pages
  {
    AssignNew(m, key, block);
    hide Assign, LowerBound, HasKey, Sorted;
    var i := LowerBound(m, key);
    TotalOfConcat(m[..i], [Entry(key, block)]);
    TotalOfConcat(m[..i] + [Entry(key, block)], m[i..]);
    TotalOfConcat(m[..i], m[i..]);
    assert m == m[..i] + m[i..];
  }

  lemma KeysOfInsertion(m: Blocks, i: nat, e: Entry, k: nat)
    requires i <= |m|
    ensures HasKey(m[..i] + [e] + m[i..], k) <==> HasKey(m, k) || k == e.key
  {
    var r := m[..i] + [e] + m[i..];
    if HasKey(m, k) {
      var j :| 0 <= j < |m| && m[j].key == k;
      assert r[if j < i then j else j + 1].key == k;
    }
    if k == e.key {
      assert r[i].key == k;
    }
    if HasKey(r, k) {
      var j :| 0 <= j < |r| && r[j].key == k;
      assert r[j] == if j < i then m[j] else if j == i then e else m[j - 1];
    }
  }

  lemma KeysOfAssignNew(m: Blocks, key: nat, block: Block)
    requires Sorted(m) && !HasKey(m, key) && m != [] && m[0].key <= key < m[|m| - 1].key
    ensures var r := Assign(m, key, block);
      && |r| == |m| + 1 && r[0].key == m[0].key && r[|r| - 1] == m[|m| - 1]
      && (forall k :: HasKey(r, k) <==> HasKey(m, k) || k == key)
  {
    AssignNew(m, key, block);
    var i := LowerBound(m, key);
    assert m[0].key != key;
    hide Assign, Sorted, HasKey;
    forall k ensures HasKey(Assign(m, key, block), k) <==> HasKey(m, k) || k == key {
      KeysOfInsertion(m, i, Entry(key, block), k);
    }
  }

  // ---- the two branches of `Map` --------------------------------------------------------------

  function SizeOf(block: Block): nat {
    block.pages * PAGE_SIZE
  }

  /** `first` of `Map`: the lower bound, stepped back off the sentinel. */
  function FirstOf(m: Blocks, a: nat): (f: nat)
    requires |m| >= 2 && a <= m[|m| - 1].key
    ensures f < |m|
  {
    var i := LowerBound(m, a);
    if i == |m| - 1 then i - 1 else i
  }

  ghost predicate NoKeyInside(m: Blocks, low: nat, high: nat) {
    forall i :: 0 <= i < |m| ==> !(low < m[i].key < high)
  }

  /** A request that reaches one of the first two branches, below the sentinel, with no key strictly
      inside it. `taken` tells whether the first entry is allocated and not free. */
  ghost predicate Reaches(m: Blocks, a: nat, block: Block, taken: bool) {
    && Sorted(m) && |m| >= 2 && block.pages > 0 && m[0].key <= a && a + SizeOf(block) <= m[|m| - 1].key
    && NoKeyInside(m, a, a + SizeOf(block))
    && var f, l := FirstOf(m, a), LowerBound(m, a + SizeOf(block));
       && l < |m|
       && (f != l ==> m[f].key + SizeOf(block) < m[l].key && !taken && m[f].block.pages >= block.pages)
  }

  /** ... and whose donor has the pages. */
  ghost predicate Admissible(m: Blocks, a: nat, block: Block, taken: bool) {
    Reaches(m, a, block, taken) && m[DonorOf(m, a, block, taken)].block.pages >= block.pages
  }

  /** The block that gives up its pages: `first`, or the one before it when `first` is taken. */
  ghost function DonorOf(m: Blocks, a: nat, block: Block, taken: bool): (d: nat)
    requires |m| >= 2 && a <= m[|m| - 1].key && m[0].key <= a && Sorted(m) && block.pages > 0
    ensures d < |m|
  {
    var f, l := FirstOf(m, a), LowerBound(m, a + SizeOf(block));
    if f == l && taken && f > 0 then f - 1 else f
  }

  function Shrunk(m: Blocks, d: nat, pages: nat): Blocks
    requires d < |m| && m[d].block.pages >= pages
  {
    m[d := Entry(m[d].key, m[d].block.(pages := m[d].block.pages - pages))]
  }

  /** The request takes over the key of the block it starts in. */
  ghost predicate TakesOver(m: Blocks, a: nat, block: Block)
    requires |m| >= 2 && a <= m[|m| - 1].key
  {
    FirstOf(m, a) != LowerBound(m, a + SizeOf(block)) && m[FirstOf(m, a)].key == a
  }

  /** The block map after an admissible `Map`: the donor shrinks, and either the request gets a key of
      its own or it takes over the donor's key and the donor moves up. */
  ghost function BlocksAfter(m: Blocks, a: nat, block: Block, taken: bool): Blocks
    requires Admissible(m, a, block, taken)
  {
    var d := DonorOf(m, a, block, taken);
    if TakesOver(m, a, block) then
      Assign(m[d := Entry(m[d].key, block)], a + SizeOf(block), Shrunk(m, d, block.pages)[d].block)
    else
      Assign(Shrunk(m, d, block.pages), a, block)
  }

  lemma ShrunkFacts(m: Blocks, d: nat, pages: nat)
    requires d < |m| && m[d].block.pages >= pages
    ensures SameKeys(m, Shrunk(m, d, pages))
    ensures TotalPages(Shrunk(m, d, pages)) == TotalPages(m) - pages
  {
    TotalOfUpdate(m, d, Shrunk(m, d, pages)[d]);
  }

  lemma SameKeysFacts(m: Blocks, n: Blocks)
    requires SameKeys(m, n)
    ensures Sorted(m) <==> Sorted(n)
    ensures forall k :: HasKey(m, k) <==> HasKey(n, k)
  {
    assert forall i :: 0 <= i < |m| ==> m[i].key == n[i].key;
    assert forall i :: 0 <= i < |n| ==> n[i].key == m[i].key;
  }

  /** Which key is new. */
  ghost function NewKey(m: Blocks, a: nat, block: Block): nat
    requires |m| >= 2 && a <= m[|m| - 1].key
  {
    if TakesOver(m, a, block) then a + SizeOf(block) else a
  }

  lemma NewKeyIsNew(m: Blocks, a: nat, block: Block, taken: bool)
    requires Admissible(m, a, block, taken)
    ensures !HasKey(m, NewKey(m, a, block))
    ensures m[0].key <= NewKey(m, a, block) < m[|m| - 1].key
  {
    hide HasKey, Shrunk, NoKeyInside, LowerBound;
    if HasKey(m, NewKey(m, a, block)) {
      var i := IndexOfKey(m, NewKey(m, a, block));
      LowerBoundIs(m, m[i].key, i);
    }
  }

  lemma IndexOfKey(m: Blocks, key: nat) returns (i: nat)
    requires HasKey(m, key)
    ensures i < |m| && m[i].key == key
  {
    i :| i < |m| && m[i].key == key;
  }

  /** `r` is sorted and has the keys of `m` and one more, between its ends. */
  ghost predicate GrewBy(m: Blocks, r: Blocks, key: nat) {
    && Sorted(r) && |r| == |m| + 1 && m != []
    && r[0].key == m[0].key && r[|r| - 1].key == m[|m| - 1].key
    && (forall k :: HasKey(r, k) <==> HasKey(m, k) || k == key)
  }

  /** Page conservation: an admissible `Map` keeps the total and adds exactly one key. */
  lemma MapConserves(m: Blocks, a: nat, block: Block, taken: bool)
    requires Admissible(m, a, block, taken)
    ensures var r := BlocksAfter(m, a, block, taken);
      TotalPages(r) == TotalPages(m) && GrewBy(m, r, NewKey(m, a, block))
  {
    hide Sorted, HasKey, LowerBound, FirstOf, Assign, DonorOf, GrewBy, TotalPages, Shrunk, SizeOf,
      NoKeyInside, TakesOver, Admissible, Reaches;
    DonorHasPages(m, a, block, taken);
    NewKeyIsNew(m, a, block, taken);
    if TakesOver(m, a, block) {
      TakeOver(m, DonorOf(m, a, block, taken), block, NewKey(m, a, block));
    } else {
      TakeFrom(m, DonorOf(m, a, block, taken), block, NewKey(m, a, block));
    }
  }

  lemma DonorHasPages(m: Blocks, a: nat, block: Block, taken: bool)
    requires Admissible(m, a, block, taken)
    ensures Sorted(m) && |m| >= 2 && m[0].key <= a <= m[|m| - 1].key && block.pages > 0
    ensures m[DonorOf(m, a, block, taken)].block.pages >= block.pages
    ensures TakesOver(m, a, block) ==> m[DonorOf(m, a, block, taken)].key == a
  {
    hide Sorted, LowerBound, FirstOf, SizeOf, NoKeyInside;
  }

  lemma TakeOver(m: Blocks, f: nat, block: Block, key: nat)
    requires Sorted(m) && f < |m| && m[f].block.pages >= block.pages
    requires !HasKey(m, key) && m[0].key <= key < m[|m| - 1].key
    ensures var r := Assign(m[f := Entry(m[f].key, block)], key, Shrunk(m, f, block.pages)[f].block);
      TotalPages(r) == TotalPages(m) && GrewBy(m, r, key)
  {
    hide Sorted, HasKey, Assign, GrewBy, TotalPages;
    SameKeysUpdate(m, f, block);
    TotalOfUpdate(m, f, Entry(m[f].key, block));
    OneMoreBlock(m, m[f := Entry(m[f].key, block)], key, Shrunk(m, f, block.pages)[f].block);
  }

  lemma TakeFrom(m: Blocks, d: nat, block: Block, key: nat)
    requires Sorted(m) && d < |m| && m[d].block.pages >= block.pages
    requires !HasKey(m, key) && m[0].key <= key < m[|m| - 1].key
    ensures var r := Assign(Shrunk(m, d, block.pages), key, block);
      TotalPages(r) == TotalPages(m) && GrewBy(m, r, key)
  {
    hide Sorted, HasKey, Assign, GrewBy, TotalPages;
    ShrunkFacts(m, d, block.pages);
    OneMoreBlock(m, Shrunk(m, d, block.pages), key, block);
  }

  lemma SameKeysUpdate(m: Blocks, i: nat, block: Block)
    requires i < |m|
    ensures SameKeys(m, m[i := Entry(m[i].key, block)])
  {
  }

  /** A new key in a map with the keys of `m`. */
  lemma OneMoreBlock(m: Blocks, n: Blocks, key: nat, block: Block)
    requires Sorted(m) && SameKeys(m, n) && !HasKey(m, key) && m != [] && m[0].key <= key < m[|m| - 1].key
    ensures var r := Assign(n, key, block);
      TotalPages(r) == TotalPages(n) + block.pages && GrewBy(m, r, key)
  {
    SameKeysFacts(m, n);
    hide Assign, Sorted, HasKey;
    AssignNew(n, key, block);
    TotalOfAssignNew(n, key, block);
    KeysOfAssignNew(n, key, block);
  }

  // ---- what the new map holds ---------------------------------------------------------------------

  lemma AssignEntries(m: Blocks, key: nat, block: Block, e: Entry)
    requires Sorted(m) && !HasKey(m, key)
    ensures e in Assign(m, key, block) <==> e in m || e == Entry(key, block)
  {
    AssignNew(m, key, block);
    hide Assign, Sorted, HasKey, LowerBound;
    var i := LowerBound(m, key);
    assert m == m[..i] + m[i..];
  }

  lemma UpdateEntries(m: Blocks, d: nat, x: Entry, e: Entry)
    requires Sorted(m) && d < |m| && x.key == m[d].key
    ensures e in m[d := x] <==> e == x || (e in m && e.key != m[d].key)
  {
    var n := m[d := x];
    assert n[d] == x;
    assert forall i :: 0 <= i < |m| && i != d ==> n[i] == m[i];
  }

  /** After an admissible request the map holds the new block at its address, the other blocks as they were, and what is
      left of the donor: behind the new block when that took over its key, and in place otherwise. */
  lemma MappedEntries(m: Blocks, a: nat, block: Block, taken: bool, e: Entry)
    requires Admissible(m, a, block, taken)
    ensures var d, r := m[DonorOf(m, a, block, taken)], BlocksAfter(m, a, block, taken);
      && d.block.pages >= block.pages
      && var rest := Block(d.block.pages - block.pages, d.block.state, d.block.permission);
         e in r
         <==> e == Entry(a, block) || (e in m && e.key != d.key)
              || e == Entry(if TakesOver(m, a, block) then a + block.pages * 0x1000 else d.key, rest)
  {
    hide Sorted, HasKey, LowerBound, FirstOf, Assign, DonorOf, NoKeyInside, TakesOver, Admissible, Reaches;
    DonorHasPages(m, a, block, taken);
    NewKeyIsNew(m, a, block, taken);
    var d := DonorOf(m, a, block, taken);
    var rest := Shrunk(m, d, block.pages)[d];
    var x := if TakesOver(m, a, block) then Entry(m[d].key, block) else rest;
    SameKeysUpdate(m, d, x.block);
    SameKeysFacts(m, m[d := x]);
    UpdateEntries(m, d, x, e);
    AssignEntries(m[d := x], NewKey(m, a, block), if TakesOver(m, a, block) then rest.block else block, e);
  }

  /** The donor by position, from the first key at or above the request: the block of that key when the request starts
      there; otherwise the block of that key too, or the one below when that one is taken or the sentinel. */
  lemma DonorByPosition(m: Blocks, a: nat, block: Block, taken: bool, i: nat)
    requires Admissible(m, a, block, taken)
    requires i < |m| && a <= m[i].key && forall j :: 0 <= j < i ==> m[j].key < a
    ensures TakesOver(m, a, block) <==> m[i].key == a
    ensures DonorOf(m, a, block, taken) + (if i == |m| - 1 || (m[i].key > a && taken && i > 0) then 1 else 0) == i
  {
    LowerBoundIs(m, a, i);
    hide NoKeyInside;
    LastKeyBelow(m, a, block, i);
  }

  lemma LastKeyBelow(m: Blocks, a: nat, block: Block, i: nat)
    requires Sorted(m) && NoKeyInside(m, a, a + SizeOf(block)) && block.pages > 0
    requires i < |m| && a <= m[i].key && (i > 0 ==> m[i - 1].key < a) && LowerBound(m, a + SizeOf(block)) < |m|
    ensures i == |m| - 1 ==> m[i].key > a
    ensures m[i].key > a ==> LowerBound(m, a + SizeOf(block)) == i
    ensures m[i].key == a ==> LowerBound(m, a + SizeOf(block)) == i + 1
  {
    hide LowerBound;
    assert !(a < m[i].key < a + SizeOf(block));
    if m[i].key > a {
      LowerBoundIs(m, a + SizeOf(block), i);
    } else if i == |m| - 1 {
      LowerBoundIs(m, a + SizeOf(block), i + 1);
    } else {
      assert a < m[i + 1].key && !(a < m[i + 1].key < a + SizeOf(block));
      LowerBoundIs(m, a + SizeOf(block), i + 1);
    }
  }

  // ---- tiling ---------------------------------------------------------------------------------

  /** Every block ends where the next one starts, up to a sentinel without pages. */
  ghost predicate Tiled(m: Blocks) {
    && |m| >= 2 && m[|m| - 1].block.pages == 0
    && forall i :: 0 <= i < |m| - 1 ==> m[i].block.pages > 0 && m[i].key + SizeOf(m[i].block) == m[i + 1].key
  }

  lemma {:induction false} TiledIsMonotonic(m: Blocks, i: nat, j: nat)
    requires Tiled(m) && i < j < |m|
    ensures m[i].key + SizeOf(m[i].block) <= m[j].key && m[i].key < m[j].key
    decreases j - i
  {
    if i + 1 < j {
      TiledIsMonotonic(m, i + 1, j);
    }
  }

  lemma TiledIsSorted(m: Blocks)
    requires Tiled(m)
    ensures Sorted(m)
  {
    forall i, j | 0 <= i < j < |m| ensures m[i].key < m[j].key {
      TiledIsMonotonic(m, i, j);
    }
  }

  /** `i` is the block that `guest` falls in. */
  ghost predicate BlockAt(m: Blocks, guest: nat, i: int) {
    0 <= i < |m| && m[i].key <= guest && (i + 1 < |m| ==> guest < m[i + 1].key)
  }

  /** On a tiled map it is the only block that contains the address. */
  lemma BlockAtIsUnique(m: Blocks, guest: nat, i: nat, j: nat)
    requires Tiled(m) && BlockAt(m, guest, i) && j < |m|
    requires guest < m[|m| - 1].key
    ensures m[j].key <= guest < m[j].key + SizeOf(m[j].block) <==> j == i
  {
    TiledIsSorted(m);
    assert i + 1 < |m|;
    if j < i {
      TiledIsMonotonic(m, j, i);
    }
  }

  lemma BlockAtSame(m: Blocks, guest: nat, i: nat, j: nat)
    requires Sorted(m) && BlockAt(m, guest, i) && BlockAt(m, guest, j)
    ensures i == j
  {
  }

  /** The keys around the front part of block `f`. */
  lemma FrontKeys(m: Blocks, f: nat, block: Block)
    requires Tiled(m) && f < |m| - 1 && 0 < block.pages < m[f].block.pages
    ensures LowerBound(m, m[f].key) == f && LowerBound(m, m[f].key + SizeOf(block)) == f + 1
    ensures m[0].key <= m[f].key && m[f].key + SizeOf(block) < m[f + 1].key <= m[|m| - 1].key
    ensures NoKeyInside(m, m[f].key, m[f].key + SizeOf(block))
  {
    TiledIsSorted(m);
    LowerBoundIs(m, m[f].key, f);
    LowerBoundIs(m, m[f].key + SizeOf(block), f + 1);
    forall i | 0 <= i < |m| ensures !(m[f].key < m[i].key < m[f].key + SizeOf(block)) {
      if f < i {
        TiledIsMonotonic(m, f, i);
      }
    }
  }

  lemma FrontIsAdmissible(m: Blocks, f: nat, block: Block)
    requires Tiled(m) && f < |m| - 1 && 0 < block.pages < m[f].block.pages
    ensures Sorted(m) && Admissible(m, m[f].key, block, false)
    ensures FirstOf(m, m[f].key) == DonorOf(m, m[f].key, block, false) == f && TakesOver(m, m[f].key, block)
  {
    TiledIsSorted(m);
    FrontKeys(m, f, block);
    hide Tiled, Sorted, LowerBound, NoKeyInside, SizeOf;
  }

  /** Mapping the front of a free block splits it in two and keeps the tiling. */
  lemma FrontOfFreeBlock(m: Blocks, f: nat, block: Block)
    requires Tiled(m) && f < |m| - 1 && 0 < block.pages < m[f].block.pages
    ensures Sorted(m) && Admissible(m, m[f].key, block, false)
    ensures var r := BlocksAfter(m, m[f].key, block, false); r == SplitFront(m, f, block) && Tiled(r)
  {
    hide Sorted, LowerBound, NoKeyInside, Assign, SplitFront, FirstOf, DonorOf, TakesOver, Admissible, Reaches,
      SizeOf, Shrunk;
    FrontIsAdmissible(m, f, block);
    SplitIsTiled(m, f, block);
    SplitIsAssign(m, f, block);
  }

  function RestOfBlock(e: Entry, block: Block): Entry
    requires block.pages <= e.block.pages
  {
    Entry(e.key + SizeOf(block), e.block.(pages := e.block.pages - block.pages))
  }

  function SplitFront(m: Blocks, f: nat, block: Block): Blocks
    requires f < |m| && block.pages <= m[f].block.pages
  {
    m[..f] + [Entry(m[f].key, block), RestOfBlock(m[f], block)] + m[f + 1..]
  }

  lemma SplitEntry(m: Blocks, f: nat, block: Block, i: nat)
    requires f < |m| && block.pages <= m[f].block.pages && i <= |m|
    ensures |SplitFront(m, f, block)| == |m| + 1
    ensures SplitFront(m, f, block)[i]
         == if i < f then m[i] else if i == f then Entry(m[f].key, block)
            else if i == f + 1 then RestOfBlock(m[f], block) else m[i - 1]
  {
  }

  lemma SplitIsTiled(m: Blocks, f: nat, block: Block)
    requires Tiled(m) && f < |m| - 1 && 0 < block.pages < m[f].block.pages
    ensures Tiled(SplitFront(m, f, block))
  {
    hide SplitFront;
    var r := SplitFront(m, f, block);
    SplitEntry(m, f, block, |m|);
    forall i | 0 <= i < |r| - 1
      ensures r[i].block.pages > 0 && r[i].key + SizeOf(r[i].block) == r[i + 1].key
    {
      SplitEntry(m, f, block, i);
      SplitEntry(m, f, block, i + 1);
    }
  }

  lemma ReplaceAndInsert(m: Blocks, f: nat, x: Entry, y: Entry)
    requires f < |m|
    ensures m[f := x][..f + 1] + [y] + m[f := x][f + 1..] == m[..f] + [x, y] + m[f + 1..]
  {
  }

  lemma SplitBound(m: Blocks, f: nat, block: Block)
    requires Tiled(m) && f < |m| - 1 && 0 < block.pages < m[f].block.pages
    ensures var n, split := m[f := Entry(m[f].key, block)], m[f].key + SizeOf(block);
      LowerBound(n, split) == f + 1 && n[f + 1].key != split
  {
    var n, split := m[f := Entry(m[f].key, block)], m[f].key + SizeOf(block);
    TiledIsSorted(m);
    SameKeysUpdate(m, f, block);
    SameKeysFacts(m, n);
    assert split < m[f + 1].key && n[f + 1].key == m[f + 1].key;
    hide Sorted, Tiled, SameKeys;
    LowerBoundIs(n, split, f + 1);
  }

  lemma SplitIsAssign(m: Blocks, f: nat, block: Block)
    requires Tiled(m) && f < |m| - 1 && 0 < block.pages < m[f].block.pages
    ensures Assign(m[f := Entry(m[f].key, block)], m[f].key + SizeOf(block), Shrunk(m, f, block.pages)[f].block)
         == SplitFront(m, f, block)
  {
    hide Tiled, LowerBound, SizeOf;
    SplitBound(m, f, block);
    ReplaceAndInsert(m, f, Entry(m[f].key, block), RestOfBlock(m[f], block));
  }

  // ---- requests between two blocks ---------------------------------------------------------------

  /** The map after block `f` gave `block.pages` pages to a new block at `a`, right behind it. */
  function GivenAway(m: Blocks, f: nat, a: nat, block: Block): Blocks
    requires f < |m| && m[f].block.pages >= block.pages
  {
    m[..f] + [Shrunk(m, f, block.pages)[f], Entry(a, block)] + m[f + 1..]
  }

  /** The request lies behind the key of block `f` and ends at or before the next one. */
  ghost predicate Between(m: Blocks, f: nat, a: nat, block: Block) {
    Sorted(m) && f + 1 < |m| && block.pages > 0 && m[f].key < a && a + SizeOf(block) <= m[f + 1].key
  }

  lemma BetweenBounds(m: Blocks, f: nat, a: nat, block: Block)
    requires Between(m, f, a, block)
    ensures LowerBound(m, a) == LowerBound(m, a + SizeOf(block)) == f + 1
    ensures a < m[f + 1].key && m[0].key <= a && m[f + 1].key <= m[|m| - 1].key && NoKeyInside(m, a, a + SizeOf(block))
  {
    LowerBoundIs(m, a, f + 1);
    LowerBoundIs(m, a + SizeOf(block), f + 1);
  }

  lemma BetweenShrunk(m: Blocks, f: nat, a: nat, block: Block)
    requires Between(m, f, a, block) && m[f].block.pages >= block.pages
    ensures LowerBound(Shrunk(m, f, block.pages), a) == f + 1
  {
    var n := Shrunk(m, f, block.pages);
    SameKeysUpdate(m, f, n[f].block);
    SameKeysFacts(m, n);
    LowerBoundIs(n, a, f + 1);
  }

  /** Before the sentinel the block below the request is looked at first, and must have the pages; elsewhere the
      block above it is, and when that one is taken the block below is the donor. */
  lemma BetweenReaches(m: Blocks, f: nat, a: nat, block: Block)
    requires Between(m, f, a, block) && (f + 2 == |m| ==> m[f].block.pages >= block.pages)
    ensures a <= m[|m| - 1].key && FirstOf(m, a) == (if f + 2 == |m| then f else f + 1)
    ensures Reaches(m, a, block, f + 2 < |m|) && DonorOf(m, a, block, f + 2 < |m|) == f && !TakesOver(m, a, block)
    ensures Admissible(m, a, block, f + 2 < |m|) <==> m[f].block.pages >= block.pages
  {
    hide Sorted, LowerBound, NoKeyInside;
    BetweenBounds(m, f, a, block);
  }

  lemma MapBetween(m: Blocks, f: nat, a: nat, block: Block)
    requires Between(m, f, a, block) && m[f].block.pages >= block.pages
    ensures Admissible(m, a, block, f + 2 < |m|)
    ensures BlocksAfter(m, a, block, f + 2 < |m|) == GivenAway(m, f, a, block)
  {
    hide Sorted, LowerBound, NoKeyInside, Admissible, DonorOf, TakesOver, SizeOf, FirstOf, Between;
    BetweenReaches(m, f, a, block);
    BetweenShrunk(m, f, a, block);
    assert f + 1 < |m| by { BetweenBounds(m, f, a, block); }
    assert Assign(Shrunk(m, f, block.pages), a, block) == GivenAway(m, f, a, block) by {
      BetweenKey(m, f, a, block);
      BehindBlock(m, f, block.pages, Entry(a, block));
    }
  }

  lemma BetweenKey(m: Blocks, f: nat, a: nat, block: Block)
    requires Between(m, f, a, block)
    ensures f + 1 < |m| && m[f + 1].key != a
  {
  }

  lemma BehindBlock(m: Blocks, f: nat, pages: nat, e: Entry)
    requires f < |m| && m[f].block.pages >= pages
    ensures var n := Shrunk(m, f, pages);
      && n[..f + 1] + [e] + n[f + 1..] == m[..f] + [n[f], e] + m[f + 1..]
      && (f + 1 < |m| ==> n[f + 1] == m[f + 1])
  {
  }

  /** What the new map holds where, and its total. */
  lemma GivenAwayFacts(m: Blocks, f: nat, a: nat, block: Block)
    requires Between(m, f, a, block) && m[f].block.pages >= block.pages
    ensures Sorted(GivenAway(m, f, a, block)) && TotalPages(GivenAway(m, f, a, block)) == TotalPages(m)
    ensures GivenAwayAt(m, GivenAway(m, f, a, block), f, a, block)
  {
    hide Sorted, TotalPages, Admissible, BlocksAfter, FirstOf, SizeOf, GivenAway, LowerBound, NoKeyInside, TakesOver,
      DonorOf;
    BetweenBounds(m, f, a, block);
    MapBetween(m, f, a, block);
    MapConserves(m, a, block, f + 2 < |m|);
    GrownIsSorted(m, GivenAway(m, f, a, block), NewKey(m, a, block));
    GivenAwayEntries(m, f, a, block);
  }

  /** `r` is `m` with fewer pages in block `f` and a new block behind it. */
  ghost predicate GivenAwayAt(m: Blocks, r: Blocks, f: nat, a: nat, block: Block) {
    && f < |m| && |r| == |m| + 1 && r[f + 1] == Entry(a, block)
    && m[f].block.pages >= block.pages
    && r[f] == Entry(m[f].key, m[f].block.(pages := m[f].block.pages - block.pages))
    && (forall i :: 0 <= i < f ==> r[i] == m[i])
    && (forall i :: f < i < |m| ==> r[i + 1] == m[i])
  }

  lemma GivenAwayEntries(m: Blocks, f: nat, a: nat, block: Block)
    requires f < |m| && m[f].block.pages >= block.pages
    ensures GivenAwayAt(m, GivenAway(m, f, a, block), f, a, block)
  {
  }

  lemma GrownIsSorted(m: Blocks, r: Blocks, key: nat)
    requires GrewBy(m, r, key)
    ensures Sorted(r)
  {
  }
}
