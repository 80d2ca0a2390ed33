/** The page slab: a list of page addresses, handed out from its front. */
module SlabHeap {
  import opened Bytes

  /** Consecutive pages in descending order, down to `base`. */
  ghost predicate Descending(free: seq<nat>, base: nat, item: nat) {
    && (free != [] ==> free[|free| - 1] == base)
    && (forall i :: 0 <= i < |free| - 1 ==> free[i] == free[i + 1] + item)
  }

  lemma {:induction false} DescendingDistance(free: seq<nat>, base: nat, i: nat, j: nat)
    requires Descending(free, base, PAGE_SIZE) && i <= j < |free|
    ensures free[i] == free[j] + (j - i) * PAGE_SIZE
    decreases j - i
  {
    if i < j {
      DescendingDistance(free, base, i + 1, j);
    }
  }

  /** How often the loop `for (offset = 0; offset < size; offset += item)` runs. */
  function Steps(offset: nat, size: nat, item: nat): (k: nat)
    requires item > 0
    decreases if offset < size then size - offset else 0
  {
    if offset < size then 1 + Steps(offset + item, size, item) else 0
  }

  lemma {:induction false} StepsArePages(offset: nat, size: nat)
    ensures offset < size ==> Steps(offset, size, PAGE_SIZE) == PageUp(size - offset) / PAGE_SIZE
    ensures offset >= size ==> Steps(offset, size, PAGE_SIZE) == 0
    ensures offset < size ==> offset + Steps(offset, size, PAGE_SIZE) * PAGE_SIZE >= size
    decreases if offset < size then size - offset else 0
  {
    if offset < size {
      StepsArePages(offset + PAGE_SIZE, size);
    }
  }

  /** Removes the first occurrence of `x`. */
  function Erase(s: seq<nat>, x: nat): (r: seq<nat>)
    requires x in s
    ensures |r| == |s| - 1
  {
    if s[0] == x then s[1..] else [s[0]] + Erase(s[1..], x)
  }

  lemma {:induction false} ErasedAt(s: seq<nat>, i: nat)
    requires i < |s| && s[i] !in s[..i]
    ensures Erase(s, s[i]) == s[..i] + s[i + 1..]
    decreases |s|
  {
    if i > 0 {
      var rest := s[1..];
      assert rest[..i - 1] == s[..i][1..] && rest[i - 1] == s[i] && rest[i..] == s[i + 1..];
      assert s[0] in s[..i] && s[..i] == [s[0]] + rest[..i - 1];
      ErasedAt(rest, i - 1);
    }
  }

  /** `k` rounds of "erase the page, go on with the new front". */
  function Taken(free: seq<nat>, pointer: nat, k: nat): (r: (seq<nat>, nat))
    requires k < |free| && (k > 0 ==> pointer in free)
    ensures |r.0| == |free| - k
    decreases k
  {
    if k == 0 then (free, pointer)
    else var rest := Erase(free, pointer); Taken(rest, rest[0], k - 1)
  }

  lemma {:induction false} TakenFromFront(free: seq<nat>, k: nat)
    requires k < |free|
    ensures Taken(free, free[0], k) == (free[k..], free[k])
    decreases k
  {
    if k > 0 {
      assert Erase(free, free[0]) == free[1..];
      TakenFromFront(free[1..], k - 1);
      assert free[1..][k - 1..] == free[k..];
    } else {
      assert free[0..] == free;
    }
  }

  datatype Reservation = Reserved(pointer: nat) | Fail

  class KSlabHeap {
    const base: nat
    const size: nat
    var objects: seq<nat>

    constructor (base: nat, size: nat, itemsize: nat)
      requires itemsize > 0
      ensures this.base == base && this.size == size
      ensures Descending(objects, base, itemsize)
      ensures |objects| == Steps(0, size, itemsize)
    {
      this.base, this.size := base, size;
      var list: seq<nat> := [];
      var offset := 0;
      while offset < size
        invariant |list| + Steps(offset, size, itemsize) == Steps(0, size, itemsize)
        invariant list == [] ==> offset == 0
        invariant list != [] ==> list[0] == base && list[|list| - 1] + itemsize == base + offset
        invariant forall i :: 0 < i < |list| ==> list[i] == list[i - 1] + itemsize
        decreases if offset < size then size - offset else 0
      {
        list := list + [base + offset];
        offset := offset + itemsize;
      }
      objects := seq(|list|, i requires 0 <= i < |list| => list[|list| - 1 - i]);
    }

    /** Pops the front; a null front is returned but stays. */
    method Allocate() returns (r: Reservation)
      modifies `objects
      ensures old(objects) == [] ==> r == Fail && objects == []
      ensures old(objects) != [] ==> r == Reserved(old(objects)[0])
      ensures old(objects) != [] ==> objects == if old(objects)[0] == 0 then old(objects) else old(objects)[1..]
    {
      if objects == [] {
        return Fail;
      }
      r := Reserved(objects[0]);
      if r.pointer != 0 {
        objects := objects[1..];
      }
    }

    method Reserve(wanted: nat, size: nat, fixed: bool) returns (r: Reservation)
      requires |objects| >= 2 && objects[0] >= objects[1]
      requires objects[0] > objects[1] ==> Steps(0, size, objects[0] - objects[1]) < |objects|
      modifies `objects
      ensures (fixed && wanted !in old(objects)) || old(objects[0] == objects[1]) ==>
        r == Fail && objects == old(objects)
      ensures (fixed ==> wanted in old(objects)) && old(objects[0] > objects[1]) ==>
        var item, from := old(objects[0] - objects[1]), if fixed then wanted else old(objects[0]);
        var taken := Taken(old(objects), from, Steps(0, size, item));
        r == Reserved(taken.1) && objects == taken.0
    {
      var pointer := wanted;
      if !fixed && objects != [] {
        pointer := objects[0];
      } else if fixed && wanted !in objects {
        return Fail;
      }
      var itemsize := objects[0] - objects[1];
      if itemsize == 0 {
        return Fail;
      }
      ghost var goal := Taken(objects, pointer, Steps(0, size, itemsize));
      var offset := 0;
      while offset < size
        invariant Steps(offset, size, itemsize) < |objects| && pointer in objects
        invariant Taken(objects, pointer, Steps(offset, size, itemsize)) == goal
        decreases if offset < size then size - offset else 0
      {
        objects := Erase(objects, pointer);
        pointer := objects[0];
        offset := offset + itemsize;
      }
      r := Reserved(pointer);
    }
  }

  // ---- runs of reservations -----------------------------------------------------------------

  datatype Range = Range(start: nat, size: nat)

  predicate Disjoint(a: Range, b: Range) {
    a.start + a.size <= b.start || b.start + b.size <= a.start
  }

  function PagesOf(size: nat): nat {
    PageUp(size) / PAGE_SIZE
  }

  function TotalPages(sizes: seq<nat>): nat {
    if sizes == [] then 0 else PagesOf(sizes[0]) + TotalPages(sizes[1..])
  }

  /** The range that one reservation passes on, and the pages that stay free. */
  function ReserveOnce(free: seq<nat>, size: nat): (r: (seq<nat>, Range))
    requires PagesOf(size) < |free|
  {
    (free[PagesOf(size)..], Range(free[PagesOf(size)], size))
  }

  /** On the page slab, one call of `Reserve` is one such reservation. */
  lemma ReserveRefines(free: seq<nat>, base: nat, size: nat)
    requires Descending(free, base, PAGE_SIZE) && |free| >= 2 && PagesOf(size) < |free|
    ensures free[0] - free[1] == PAGE_SIZE && Steps(0, size, PAGE_SIZE) == PagesOf(size)
    ensures var taken := Taken(free, free[0], PagesOf(size));
            ReserveOnce(free, size) == (taken.0, Range(taken.1, size))
    ensures Descending(ReserveOnce(free, size).0, base, PAGE_SIZE)
  {
    var k := StepsOfSlab(size);
    DescendingRest(free, base, PAGE_SIZE, k);
    hide PagesOf, Descending, Steps, Taken;
    TakenFromFront(free, k);
  }

  lemma StepsOfSlab(size: nat) returns (k: nat)
    ensures k == PagesOf(size) == Steps(0, size, PAGE_SIZE)
  {
    hide Steps;
    StepsArePages(0, size);
    k := PagesOf(size);
  }

  lemma DescendingRest(free: seq<nat>, base: nat, item: nat, k: nat)
    requires Descending(free, base, item) && k < |free|
    ensures Descending(free[k..], base, item)
    ensures |free| >= 2 ==> free[0] - free[1] == item
  {
  }

  function ReserveAll(free: seq<nat>, sizes: seq<nat>): (r: (seq<nat>, seq<Range>))
    requires TotalPages(sizes) < |free|
    ensures |r.1| == |sizes|
  {
    if sizes == [] then (free, [])
    else
      var first := ReserveOnce(free, sizes[0]);
      var rest := ReserveAll(first.0, sizes[1..]);
      (rest.0, [first.1] + rest.1)
  }

  ghost predicate Inside(r: Range, low: nat, high: nat) {
    low <= r.start && r.start + r.size <= high && r.start % PAGE_SIZE == 0
  }

  /** One reservation ends at or below the old front and starts at the new one. */
  lemma OneReservation(free: seq<nat>, base: nat, size: nat)
    requires Descending(free, base, PAGE_SIZE) && base % PAGE_SIZE == 0 && PagesOf(size) < |free|
    ensures var r := ReserveOnce(free, size);
      && Descending(r.0, base, PAGE_SIZE) && r.0 != []
      && Inside(r.1, base, free[0]) && r.1 == Range(r.0[0], size)
  {
    var k := PagesOf(size);
    DescendingDistance(free, base, 0, k);
    DescendingDistance(free, base, k, |free| - 1);
    assert (|free| - 1 - k) * PAGE_SIZE % PAGE_SIZE == 0;
  }

  /** Ranges of the given sizes, page-aligned between two bounds, no two of which overlap. */
  ghost predicate Separate(ranges: seq<Range>, sizes: seq<nat>, low: nat, high: nat) {
    && |ranges| == |sizes|
    && (forall i :: 0 <= i < |sizes| ==> Inside(ranges[i], low, high) && ranges[i].size == sizes[i])
    && (forall i, j :: 0 <= i < j < |sizes| ==> Disjoint(ranges[i], ranges[j]))
  }

  /** A range above all the others may join them. */
  lemma SeparateMore(first: Range, rest: seq<Range>, sizes: seq<nat>, low: nat, high: nat)
    requires sizes != [] && Inside(first, low, high) && first.size == sizes[0]
    requires Separate(rest, sizes[1..], low, first.start)
    ensures Separate([first] + rest, sizes, low, high)
  {
    var ranges := [first] + rest;
    forall i | 0 < i < |sizes|
      ensures ranges[i] == rest[i - 1] && ranges[i].size == sizes[i] && Inside(ranges[i], low, first.start)
    {
      assert sizes[i] == sizes[1..][i - 1];
    }
  }

  /** Over any run that leaves the slab non-empty: the free list stays a descending progression, and the
      ranges are page-aligned, lie inside the slab below the first front, and never overlap. */
  lemma {:induction false} RunsNeverOverlap(free: seq<nat>, base: nat, sizes: seq<nat>)
    requires Descending(free, base, PAGE_SIZE) && base % PAGE_SIZE == 0 && TotalPages(sizes) < |free|
    ensures var r := ReserveAll(free, sizes);
      && r.0 == free[TotalPages(sizes)..] && Descending(r.0, base, PAGE_SIZE)
      && Separate(r.1, sizes, base, free[0])
    decreases |sizes|
  {
    hide Descending, PagesOf, Separate, Inside;
    if sizes == [] {
      assert free[0..] == free;
      NoneSeparate(base, free[0]);
    } else {
      OneReservation(free, base, sizes[0]);
      var first := ReserveOnce(free, sizes[0]);
      RunsNeverOverlap(first.0, base, sizes[1..]);
      assert free[PagesOf(sizes[0])..][TotalPages(sizes[1..])..] == free[TotalPages(sizes)..];
      SeparateMore(first.1, ReserveAll(first.0, sizes[1..]).1, sizes, base, free[0]);
    }
  }

  lemma NoneSeparate(low: nat, high: nat)
    ensures Separate([], [], low, high)
  {
  }

  lemma {:induction false} ReserveAllLeaves(free: seq<nat>, sizes: seq<nat>)
    requires TotalPages(sizes) < |free|
    ensures |ReserveAll(free, sizes).0| == |free| - TotalPages(sizes)
    decreases |sizes|
  {
    hide PagesOf;
    if sizes != [] {
      ReserveAllLeaves(ReserveOnce(free, sizes[0]).0, sizes[1..]);
    }
  }

  lemma {:induction false} OneMoreReservation(free: seq<nat>, sizes: seq<nat>, size: nat)
    requires TotalPages(sizes) + PagesOf(size) < |free|
    ensures TotalPages(sizes + [size]) == TotalPages(sizes) + PagesOf(size)
    ensures var r := ReserveAll(free, sizes);
      && |r.0| == |free| - TotalPages(sizes)
      && ReserveAll(free, sizes + [size]) == (ReserveOnce(r.0, size).0, r.1 + [ReserveOnce(r.0, size).1])
    decreases |sizes|
  {
    hide PagesOf;
    if sizes == [] {
      assert [size][1..] == [];
      var one := ReserveOnce(free, size);
      assert ReserveAll(one.0, []).1 == [] && [one.1] + [] == [] + [one.1];
    } else {
      var first := ReserveOnce(free, sizes[0]);
      assert (sizes + [size])[1..] == sizes[1..] + [size];
      OneMoreReservation(first.0, sizes[1..], size);
      var r := ReserveAll(first.0, sizes[1..]);
      assert [first.1] + (r.1 + [ReserveOnce(r.0, size).1]) == [first.1] + r.1 + [ReserveOnce(r.0, size).1];
    }
  }
}
