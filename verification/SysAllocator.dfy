/** The record of host mappings: which guest ranges are backed, and by which host frames. */
module SysAllocator {
  import opened Bytes
  import opened SlabHeap
  import Table = PageTable

  type AllocKey = (nat, nat)

  /** Some recorded, non-empty range covers `region`. */
  ghost predicate Covered(allocs: map<AllocKey, nat>, region: nat) {
    exists key: AllocKey :: key in allocs && key.0 <= region < key.0 + allocs[key]
  }

  class SysAllocator {
    const pagetable: Table.PageTable
    const hostptr: nat
    var alloclists: map<AllocKey, nat>

    constructor (table: Table.PageTable, hostptr: nat)
      ensures pagetable == table && this.hostptr == hostptr && alloclists == map[]
    {
      pagetable, this.hostptr, alloclists := table, hostptr, map[];
    }

    method CanAllocate(region: nat, size: nat) returns (r: bool)
      ensures r <==> size == 0 || !Covered(alloclists, region)
    {
      var left := alloclists.Keys;
      while left != {}
        invariant left <= alloclists.Keys
        invariant size != 0 ==>
          forall key: AllocKey :: key in alloclists && key !in left ==>
            !(key.0 <= region < key.0 + alloclists[key])
        decreases |left|
      {
        var key: AllocKey :| key in left;
        var length := alloclists[key];
        if key.0 <= region && key.0 + length > region {
          if length != 0 && size != 0 {
            return false;
          }
        }
        left := left - {key};
      }
      r := true;
    }

    /** A mapping already recorded is left alone. */
    method Map(guest: nat, hostaddr: nat, size: nat)
      requires pagetable.table != [] && size % PAGE_SIZE == 0
      requires hostaddr / PAGE_SIZE + size / PAGE_SIZE <= |pagetable.backing|
      modifies this, pagetable
      ensures (guest, hostaddr) in old(alloclists) ==>
        && alloclists == old(alloclists) && pagetable.table == old(pagetable.table)
        && pagetable.backing == old(pagetable.backing) && pagetable.tableinfo == old(pagetable.tableinfo)
      ensures (guest, hostaddr) !in old(alloclists) ==>
        && alloclists == old(alloclists)[(guest, hostaddr) := size]
        && pagetable.table == Table.TableAfter(old(pagetable.table), guest, size / PAGE_SIZE)
        && pagetable.backing == Table.BackingAfter(old(pagetable.backing), hostptr, hostaddr, size / PAGE_SIZE)
        && pagetable.tableinfo == old(pagetable.tableinfo) + [Table.TableInfo(Table.Allocated, guest, guest + size)]
    {
      hide Table.TableAfter, Table.BackingAfter;
      if (guest, hostaddr) in alloclists {
        return;
      }
      pagetable.CreateTable(guest, hostptr, hostaddr, size);
      alloclists := alloclists[(guest, hostaddr) := size];
    }
  }

  // ---- frames over a run of reservations ----------------------------------------------------

  function BackingAfterAll(backing: seq<nat>, host: nat, ranges: seq<Range>): (r: seq<nat>)
    requires forall i :: 0 <= i < |ranges| ==> ranges[i].start / PAGE_SIZE + ranges[i].size / PAGE_SIZE <= |backing|
    ensures |r| == |backing|
    decreases |ranges|
  {
    if ranges == [] then backing
    else
      BackingAfterAll(Table.BackingAfter(backing, host, ranges[0].start, ranges[0].size / PAGE_SIZE), host, ranges[1..])
  }

  lemma {:induction false} OneMoreBacking(backing: seq<nat>, host: nat, ranges: seq<Range>, r: Range)
    requires forall i :: 0 <= i < |ranges| ==> ranges[i].start / PAGE_SIZE + ranges[i].size / PAGE_SIZE <= |backing|
    requires r.start / PAGE_SIZE + r.size / PAGE_SIZE <= |backing|
    ensures BackingAfterAll(backing, host, ranges + [r])
         == Table.BackingAfter(BackingAfterAll(backing, host, ranges), host, r.start, r.size / PAGE_SIZE)
    decreases |ranges|
  {
    hide Table.BackingAfter;
    if ranges == [] {
      assert [r][1..] == [];
    } else {
      assert (ranges + [r])[1..] == ranges[1..] + [r];
      assert forall i :: 0 <= i < |ranges[1..]| ==> ranges[1..][i] == ranges[i + 1];
      var after := Table.BackingAfter(backing, host, ranges[0].start, ranges[0].size / PAGE_SIZE);
      OneMoreBacking(after, host, ranges[1..], r);
    }
  }

  /** Frame `k` lies in the range. */
  predicate Uses(r: Range, k: nat) {
    r.start <= k * PAGE_SIZE < r.start + r.size
  }

  lemma {:induction false} BackingOfRun(backing: seq<nat>, host: nat, ranges: seq<Range>, k: nat)
    requires k < |backing|
    requires forall i :: 0 <= i < |ranges| ==>
      && ranges[i].start % PAGE_SIZE == 0 && ranges[i].size % PAGE_SIZE == 0
      && ranges[i].start / PAGE_SIZE + ranges[i].size / PAGE_SIZE <= |backing|
    ensures BackingAfterAll(backing, host, ranges)[k]
         == if exists i :: 0 <= i < |ranges| && Uses(ranges[i], k)
            then Table.Tagged(host + k * PAGE_SIZE) else backing[k]
    decreases |ranges|
  {
    if ranges != [] {
      var first, rest := ranges[0], ranges[1..];
      Table.BackingFrames(backing, host, first.start, first.size / PAGE_SIZE, k);
      hide Table.BackingAfter, Table.Tagged;
      BackingOfRun(Table.BackingAfter(backing, host, first.start, first.size / PAGE_SIZE), host, rest, k);
      assert Uses(first, k) <==> first.start / PAGE_SIZE <= k < first.start / PAGE_SIZE + first.size / PAGE_SIZE;
      assert forall i :: 0 <= i < |rest| ==> rest[i] == ranges[i + 1];
      if i :| 0 <= i < |ranges| && Uses(ranges[i], k) && i > 0 {
        assert Uses(rest[i - 1], k);
      }
    }
  }

  /** Over any run of reservations from a page slab, each backing slot is written at most once, and then
      holds the host address of its own frame. */
  lemma FramesAreWrittenOnce(free: seq<nat>, base: nat, sizes: seq<nat>, backing: seq<nat>, host: nat, k: nat)
    requires Descending(free, base, PAGE_SIZE) && base % PAGE_SIZE == 0 && TotalPages(sizes) < |free|
    requires forall i :: 0 <= i < |sizes| ==> sizes[i] % PAGE_SIZE == 0
    requires free[0] <= |backing| * PAGE_SIZE && k < |backing|
    ensures var ranges := ReserveAll(free, sizes).1;
      && (forall i :: 0 <= i < |ranges| ==> ranges[i].start / PAGE_SIZE + ranges[i].size / PAGE_SIZE <= |backing|)
      && (forall i, j :: 0 <= i < j < |ranges| ==> !(Uses(ranges[i], k) && Uses(ranges[j], k)))
      && BackingAfterAll(backing, host, ranges)[k]
         == if exists i :: 0 <= i < |ranges| && Uses(ranges[i], k)
            then Table.Tagged(host + k * PAGE_SIZE) else backing[k]
  {
    hide Descending, ReserveAll, TotalPages, Table.Tagged, BackingAfterAll;
    RunsNeverOverlap(free, base, sizes);
    var ranges := ReserveAll(free, sizes).1;
    forall i | 0 <= i < |ranges|
      ensures ranges[i].start % PAGE_SIZE == 0 && ranges[i].size % PAGE_SIZE == 0
      ensures ranges[i].start / PAGE_SIZE + ranges[i].size / PAGE_SIZE <= |backing|
    {
      assert Inside(ranges[i], base, free[0]);
    }
    BackingOfRun(backing, host, ranges, k);
  }
}
