/** The page table of the recompiler: tagged page pointers indexed by the low bits of the page number,
    and the host frames behind them. */
module PageTable {
  import opened Bytes

  const MAPPED := 1
  const TAG_RANGE := 4

  /** `value | MAPPED`. */
  function Tagged(value: nat): nat {
    if value % 2 == 0 then value + MAPPED else value
  }

  function Attribute(page: nat): nat {
    page % TAG_RANGE
  }

  datatype Pointer = Null | To(address: nat)

  function PageAt(page: nat, offset: nat): Pointer {
    if page == 0 then Null else To(page - page % TAG_RANGE + offset)
  }

  function PageBase(address: nat): nat {
    address - address % PAGE_SIZE
  }

  function Slot(address: nat, slots: nat): (i: nat)
    requires slots > 0
    ensures i < slots
  {
    address / PAGE_SIZE % slots
  }

  /** Which of the 2^width-byte windows an address lies in. */
  function WindowOf(address: nat, slots: nat): nat
    requires slots > 0
  {
    address / PAGE_SIZE / slots
  }

  lemma SameSlotSamePage(a: nat, b: nat, slots: nat)
    requires slots > 0 && a % PAGE_SIZE == 0 && b % PAGE_SIZE == 0
    requires Slot(a, slots) == Slot(b, slots) && WindowOf(a, slots) == WindowOf(b, slots)
    ensures a == b
  {
    var p, q := a / PAGE_SIZE, b / PAGE_SIZE;
    assert p == p / slots * slots + p % slots && q == q / slots * slots + q % slots;
  }

  // ---- what the loop of `CreateTable` writes ----------------------------------------------

  function TableAfter(table: seq<nat>, begin: nat, n: nat): (r: seq<nat>)
    requires table != []
    ensures |r| == |table|
  {
    if n == 0 then table
    else
      var page := begin + (n - 1) * PAGE_SIZE;
      TableAfter(table, begin, n - 1)[Slot(page, |table|) := Tagged(page)]
  }

  function BackingAfter(backing: seq<nat>, host: nat, offset: nat, n: nat): (r: seq<nat>)
    requires offset / PAGE_SIZE + n <= |backing|
    ensures |r| == |backing|
  {
    if n == 0 then backing
    else
      var at := offset + (n - 1) * PAGE_SIZE;
      BackingAfter(backing, host, offset, n - 1)[at / PAGE_SIZE := Tagged(host + at)]
  }

  // ---- the table as a set of mapped pages -------------------------------------------------

  function PagesFrom(begin: nat, n: nat): (r: set<nat>) {
    if n == 0 then {} else PagesFrom(begin, n - 1) + {begin + (n - 1) * PAGE_SIZE}
  }

  lemma {:induction false} PagesFromSplit(begin: nat, m: nat, n: nat)
    ensures PagesFrom(begin, m + n) == PagesFrom(begin, m) + PagesFrom(begin + m * PAGE_SIZE, n)
    decreases n
  {
    if n > 0 {
      PagesFromSplit(begin, m, n - 1);
    }
  }

  lemma {:induction false} PagesFromMembers(begin: nat, n: nat, page: nat)
    requires begin % PAGE_SIZE == 0
    ensures page in PagesFrom(begin, n)
       <==> begin <= page < begin + n * PAGE_SIZE && page % PAGE_SIZE == 0
  {
    if n > 0 {
      PagesFromMembers(begin, n - 1, page);
    }
  }

  ghost predicate IsPage(page: nat) {
    page > 0 && page % PAGE_SIZE == 0
  }

  /** A mapped page is found in its slot. */
  ghost predicate PageHeld(table: seq<nat>, page: nat)
    requires table != []
  {
    IsPage(page) && table[Slot(page, |table|)] == page + MAPPED
  }

  /** A used slot holds a mapped page, and the right one. */
  ghost predicate SlotHeld(table: seq<nat>, mapped: set<nat>, i: nat)
    requires i < |table|
  {
    table[i] != 0 ==> table[i] - MAPPED in mapped && Slot(table[i] - MAPPED, |table|) == i
  }

  /** The table holds exactly the pages of `mapped`. */
  ghost predicate Holds(table: seq<nat>, mapped: set<nat>) {
    && table != []
    && (forall page :: page in mapped ==> PageHeld(table, page))
    && (forall i :: 0 <= i < |table| ==> SlotHeld(table, mapped, i))
  }

  /** Non-zero pages, no two of which share a slot. */
  ghost predicate OnePerSlot(pages: set<nat>, slots: nat)
    requires slots > 0
  {
    && (forall page :: page in pages ==> IsPage(page))
    && (forall p, q :: p in pages && q in pages && Slot(p, slots) == Slot(q, slots) ==> p == q)
  }

  lemma HeldAreOnePerSlot(table: seq<nat>, mapped: set<nat>)
    requires Holds(table, mapped)
    ensures OnePerSlot(mapped, |table|)
  {
    hide Slot;
    forall p, q | p in mapped && q in mapped && Slot(p, |table|) == Slot(q, |table|) ensures p == q {
      assert PageHeld(table, p) && PageHeld(table, q);
    }
  }

  lemma HoldsOneMore(table: seq<nat>, mapped: set<nat>, page: nat)
    requires Holds(table, mapped) && IsPage(page)
    requires forall q :: q in mapped && Slot(q, |table|) == Slot(page, |table|) ==> q == page
    ensures Holds(table[Slot(page, |table|) := Tagged(page)], mapped + {page})
  {
    var after, more := table[Slot(page, |table|) := Tagged(page)], mapped + {page};
    assert Tagged(page) == page + MAPPED;
    hide Slot, Tagged;
    forall q | q in more ensures PageHeld(after, q) {
      assert q in mapped ==> PageHeld(table, q);
    }
    forall i | 0 <= i < |after| ensures SlotHeld(after, more, i) {
      assert SlotHeld(table, mapped, i);
    }
  }

  /** Creating a table over pages that share no slot adds exactly those pages. */
  lemma {:induction false} TableAfterHolds(table: seq<nat>, mapped: set<nat>, begin: nat, n: nat)
    requires table != [] && Holds(table, mapped) && OnePerSlot(mapped + PagesFrom(begin, n), |table|)
    ensures Holds(TableAfter(table, begin, n), mapped + PagesFrom(begin, n))
  {
    hide Holds, IsPage, Slot;
    if n == 0 {
      assert mapped + PagesFrom(begin, 0) == mapped;
    } else {
      var page, earlier := begin + (n - 1) * PAGE_SIZE, mapped + PagesFrom(begin, n - 1);
      assert earlier + {page} == mapped + PagesFrom(begin, n);
      TableAfterHolds(table, mapped, begin, n - 1);
      HoldsOneMore(TableAfter(table, begin, n - 1), earlier, page);
    }
  }

  /** One `CreateTable` request, in pages. */
  datatype Request = Request(begin: nat, pages: nat)

  function TableAfterAll(table: seq<nat>, requests: seq<Request>): (r: seq<nat>)
    requires table != []
    ensures |r| == |table|
    decreases |requests|
  {
    if requests == [] then table
    else TableAfterAll(TableAfter(table, requests[0].begin, requests[0].pages), requests[1..])
  }

  function PagesOfAll(requests: seq<Request>): set<nat> {
    if requests == [] then {}
    else PagesFrom(requests[0].begin, requests[0].pages) + PagesOfAll(requests[1..])
  }

  /** Any run of `CreateTable` calls leaves exactly their pages mapped when no two pages share a slot. */
  lemma {:induction false} AnyRunHolds(table: seq<nat>, mapped: set<nat>, requests: seq<Request>)
    requires table != [] && Holds(table, mapped) && OnePerSlot(mapped + PagesOfAll(requests), |table|)
    ensures Holds(TableAfterAll(table, requests), mapped + PagesOfAll(requests))
    decreases |requests|
  {
    hide Holds, OnePerSlot;
    if requests == [] {
      assert mapped + PagesOfAll(requests) == mapped;
    } else {
      var pages, rest := PagesFrom(requests[0].begin, requests[0].pages), requests[1..];
      assert mapped + pages + PagesOfAll(rest) == mapped + PagesOfAll(requests);
      FewerPerSlot(mapped + pages, mapped + PagesOfAll(requests), |table|);
      TableAfterHolds(table, mapped, requests[0].begin, requests[0].pages);
      AnyRunHolds(TableAfter(table, requests[0].begin, requests[0].pages), mapped + pages, rest);
    }
  }

  lemma FewerPerSlot(few: set<nat>, pages: set<nat>, slots: nat)
    requires slots > 0 && few <= pages && OnePerSlot(pages, slots)
    ensures OnePerSlot(few, slots)
  {
    hide Slot, IsPage;
  }

  /** ... and only then: a later page takes the slot of an earlier one. */
  lemma AnyRunHoldsIff(table: seq<nat>, mapped: set<nat>, requests: seq<Request>)
    requires table != [] && Holds(table, mapped)
    ensures Holds(TableAfterAll(table, requests), mapped + PagesOfAll(requests))
       <==> OnePerSlot(mapped + PagesOfAll(requests), |table|)
  {
    hide Holds, OnePerSlot, TableAfterAll;
    if OnePerSlot(mapped + PagesOfAll(requests), |table|) {
      AnyRunHolds(table, mapped, requests);
    }
    if Holds(TableAfterAll(table, requests), mapped + PagesOfAll(requests)) {
      HeldAreOnePerSlot(TableAfterAll(table, requests), mapped + PagesOfAll(requests));
    }
  }

  /** Pages of one window share no slot. */
  lemma WindowIsOnePerSlot(pages: set<nat>, slots: nat, window: nat)
    requires slots > 0 && forall page :: page in pages ==> IsPage(page) && WindowOf(page, slots) == window
    ensures OnePerSlot(pages, slots)
  {
    hide Slot, WindowOf;
    forall p, q | p in pages && q in pages && Slot(p, slots) == Slot(q, slots) ensures p == q {
      SameSlotSamePage(p, q, slots);
    }
  }

  /** Nor do pages that lie within as many pages as the table has slots, wherever they start. */
  lemma SpanIsOnePerSlot(pages: set<nat>, slots: nat, low: nat)
    requires slots > 0 && forall page :: page in pages ==> IsPage(page) && low <= page < low + slots * PAGE_SIZE
    ensures OnePerSlot(pages, slots)
  {
    forall p, q | p in pages && q in pages && Slot(p, slots) == Slot(q, slots) ensures p == q {
      var i, j := p / PAGE_SIZE, q / PAGE_SIZE;
      assert p == i * PAGE_SIZE && q == j * PAGE_SIZE;
      if i < j {
        CloseMultiples(i, j, slots);
      } else if j < i {
        CloseMultiples(j, i, slots);
      }
    }
  }

  lemma CloseMultiples(i: nat, j: nat, n: nat)
    requires i < j < i + n
    ensures i % n != j % n
  {
    if i % n == j % n {
      var a, b := i / n, j / n;
      assert i == n * a + i % n && j == n * b + j % n;
      assert j - i == n * (b - a);
      if b > a {
        ProductAtLeast(n, b - a);
      }
      assert false;
    }
  }

  lemma {:induction false} OneMoreTable(table: seq<nat>, requests: seq<Request>, r: Request)
    requires table != []
    ensures TableAfterAll(table, requests + [r]) == TableAfter(TableAfterAll(table, requests), r.begin, r.pages)
    decreases |requests|
  {
    hide TableAfter;
    if requests == [] {
      assert [r][1..] == [];
    } else {
      assert (requests + [r])[1..] == requests[1..] + [r];
      OneMoreTable(TableAfter(table, requests[0].begin, requests[0].pages), requests[1..], r);
    }
  }

  lemma EmptyTableHolds(slots: nat)
    requires slots > 0
    ensures Holds(seq(slots, _ => 0), {})
  {
  }

  // ---- lookups ------------------------------------------------------------------------------

  /** `GetTable` as a function of the table. */
  function Lookup(table: seq<nat>, address: nat): Pointer
    requires table != []
  {
    var aligned := PageBase(address);
    var page := if aligned != 0 then table[Slot(aligned, |table|)] else table[0];
    PageAt(page, address - aligned)
  }

  /** The identity on mapped addresses, and null elsewhere. */
  ghost function Identity(mapped: set<nat>, address: nat): Pointer {
    if PageBase(address) in mapped then To(address) else Null
  }

  /** No mapped page sits in the slot of the address. */
  ghost predicate SlotEmpty(mapped: set<nat>, slots: nat, address: nat)
    requires slots > 0
  {
    forall page :: page in mapped ==> Slot(page, slots) != Slot(address, slots)
  }

  lemma BaseSlot(address: nat, slots: nat)
    requires slots > 0
    ensures PageBase(address) % PAGE_SIZE == 0 && Slot(PageBase(address), slots) == Slot(address, slots)
    ensures PageBase(address) == 0 ==> Slot(address, slots) == 0
  {
    assert PageBase(address) / PAGE_SIZE == address / PAGE_SIZE;
  }

  lemma TagIsMapped(page: nat)
    requires page % PAGE_SIZE == 0
    ensures (page + MAPPED) % TAG_RANGE == MAPPED
  {
    var k := page / PAGE_SIZE;
    assert page == 4096 * k;
    OneAboveMultiple(1024 * k);
  }

  lemma OneAboveMultiple(m: nat)
    ensures (4 * m + 1) % 4 == 1
  {
  }

  lemma OffsetInPage(page: nat, offset: nat)
    requires page % PAGE_SIZE == 0 && offset < PAGE_SIZE
    ensures (page + offset) % PAGE_SIZE == offset && PageBase(page + offset) == page
  {
  }

  /** A lookup goes to the mapped page in the slot of the address. */
  lemma LookupFinds(table: seq<nat>, mapped: set<nat>, address: nat, page: nat)
    requires Holds(table, mapped) && page in mapped && Slot(page, |table|) == Slot(address, |table|)
    ensures Lookup(table, address) == To(page + address % PAGE_SIZE)
  {
    assert PageHeld(table, page);
    TagIsMapped(page);
    BaseSlot(address, |table|);
    hide Slot, Holds;
  }

  lemma LookupMisses(table: seq<nat>, mapped: set<nat>, address: nat)
    requires Holds(table, mapped) && SlotEmpty(mapped, |table|, address)
    ensures Lookup(table, address) == Null
  {
    assert SlotHeld(table, mapped, Slot(address, |table|));
    BaseSlot(address, |table|);
    hide Slot, Holds;
  }

  /** Exactly when a lookup is the identity on mapped addresses and null elsewhere: the address is mapped, or no
      mapped page sits in its slot. */
  lemma LookupIsIdentityIff(table: seq<nat>, mapped: set<nat>, address: nat)
    requires Holds(table, mapped)
    ensures Lookup(table, address) == Identity(mapped, address)
       <==> PageBase(address) in mapped || SlotEmpty(mapped, |table|, address)
  {
    BaseSlot(address, |table|);
    hide Slot, Holds, Lookup;
    if PageBase(address) in mapped {
      LookupFinds(table, mapped, address, PageBase(address));
    } else if SlotEmpty(mapped, |table|, address) {
      LookupMisses(table, mapped, address);
    } else {
      var page :| page in mapped && Slot(page, |table|) == Slot(address, |table|);
      LookupFinds(table, mapped, address, page);
    }
  }

  /** An address one whole table above a mapped one is not mapped, and reaches the mapped one all the same. */
  lemma FarAddressAliases(table: seq<nat>, mapped: set<nat>, address: nat)
    requires Holds(table, mapped) && PageBase(address) in mapped
    ensures var far := address + |table| * PAGE_SIZE;
      PageBase(far) !in mapped && Lookup(table, far) == To(address) && Identity(mapped, far) == Null
  {
    var far := address + |table| * PAGE_SIZE;
    FarSlot(address, |table|);
    BaseSlot(address, |table|);
    BaseSlot(far, |table|);
    HeldAreOnePerSlot(table, mapped);
    hide Slot, Holds, Lookup;
    LookupFinds(table, mapped, far, PageBase(address));
  }

  lemma FarSlot(address: nat, slots: nat)
    requires slots > 0
    ensures var far := address + slots * PAGE_SIZE;
      Slot(far, slots) == Slot(address, slots) && far % PAGE_SIZE == address % PAGE_SIZE
  {
    var p, far := address / PAGE_SIZE, address + slots * PAGE_SIZE;
    assert far / PAGE_SIZE == p + slots;
    assert p + slots == slots * (p / slots + 1) + p % slots;
    RestOfMultiple(slots, p / slots + 1, p % slots);
  }

  lemma RestOfMultiple(n: nat, k: nat, r: nat)
    requires r < n
    ensures (n * k + r) % n == r && (n * k + r) / n == k
  {
    var m := n * k + r;
    var q := m / n;
    assert m == n * q + m % n;
    if q > k {
      assert n * q - n * k == n * (q - k);
      ProductAtLeast(n, q - k);
    } else if q < k {
      assert n * k - n * q == n * (k - q);
      ProductAtLeast(n, k - q);
    }
  }

  // ---- one window ---------------------------------------------------------------------------

  /** The address of a window with the slot and the offset of `address`. */
  function Fold(address: nat, slots: nat, window: nat): nat
    requires slots > 0
  {
    (slots * window + Slot(address, slots)) * PAGE_SIZE + address % PAGE_SIZE
  }

  lemma FoldFacts(address: nat, slots: nat, window: nat)
    requires slots > 0
    ensures var f := Fold(address, slots, window);
      && WindowOf(f, slots) == window && Slot(f, slots) == Slot(address, slots) && f % PAGE_SIZE == address % PAGE_SIZE
      && PageBase(f) + address % PAGE_SIZE == f
    ensures WindowOf(address, slots) == window ==> Fold(address, slots, window) == address
  {
    var f, page := Fold(address, slots, window), slots * window + Slot(address, slots);
    assert f / PAGE_SIZE == page;
    RestOfMultiple(slots, window, Slot(address, slots));
    var p := address / PAGE_SIZE;
    assert p == slots * (p / slots) + p % slots;
  }

  /** With all pages in one window, every address reaches its fold into that window. */
  lemma LookupFolds(table: seq<nat>, mapped: set<nat>, window: nat, address: nat)
    requires Holds(table, mapped) && forall page :: page in mapped ==> WindowOf(page, |table|) == window
    ensures Lookup(table, address) == Identity(mapped, Fold(address, |table|, window))
  {
    var f := Fold(address, |table|, window);
    FoldFacts(address, |table|, window);
    BaseSlot(f, |table|);
    BaseKeepsWindow(f, |table|);
    if PageBase(f) in mapped {
      LookupFinds(table, mapped, address, PageBase(f));
    } else {
      forall page | page in mapped ensures Slot(page, |table|) != Slot(address, |table|) {
        assert PageHeld(table, page);
        if Slot(page, |table|) == Slot(address, |table|) {
          SameSlotSamePage(page, PageBase(f), |table|);
        }
      }
      LookupMisses(table, mapped, address);
    }
  }

  /** ... so a lookup is the identity exactly inside the window and where nothing is mapped at the fold. */
  lemma LookupInWindowIff(table: seq<nat>, mapped: set<nat>, window: nat, address: nat)
    requires Holds(table, mapped) && forall page :: page in mapped ==> WindowOf(page, |table|) == window
    ensures Lookup(table, address) == Identity(mapped, address)
       <==> WindowOf(address, |table|) == window || PageBase(Fold(address, |table|, window)) !in mapped
  {
    FoldFacts(address, |table|, window);
    BaseKeepsWindow(address, |table|);
    LookupFolds(table, mapped, window, address);
    hide Slot, Holds, Lookup, Fold, WindowOf;
  }

  lemma BaseKeepsWindow(address: nat, slots: nat)
    requires slots > 0
    ensures WindowOf(PageBase(address), slots) == WindowOf(address, slots)
  {
    assert PageBase(address) / PAGE_SIZE == address / PAGE_SIZE;
  }

  // ---- host frames --------------------------------------------------------------------------

  lemma {:induction false} BackingFrames(backing: seq<nat>, host: nat, offset: nat, n: nat, k: nat)
    requires offset % PAGE_SIZE == 0 && offset / PAGE_SIZE + n <= |backing| && k < |backing|
    ensures BackingAfter(backing, host, offset, n)[k]
         == if offset / PAGE_SIZE <= k < offset / PAGE_SIZE + n then Tagged(host + k * PAGE_SIZE) else backing[k]
  {
    if n > 0 {
      BackingFrames(backing, host, offset, n - 1, k);
      var at := offset + (n - 1) * PAGE_SIZE;
      assert at / PAGE_SIZE == offset / PAGE_SIZE + n - 1 && at == at / PAGE_SIZE * PAGE_SIZE;
    }
  }

  datatype TableType = Allocated | Code | Stack
  datatype TableInfo = TableInfo(kind: TableType, begin: nat, end: nat)

  /** The ranges that were created as exactly [begin, begin + size) carry the label; the others keep theirs. */
  function Relabelled(infos: seq<TableInfo>, kind: TableType, begin: nat, size: nat): (r: seq<TableInfo>)
    ensures |r| == |infos|
    ensures forall i :: 0 <= i < |infos| ==>
      r[i] == if infos[i] == TableInfo(Allocated, begin, begin + size) then infos[i].(kind := kind) else infos[i]
  {
    if infos == [] then []
    else
      var info := infos[0];
      [if info == TableInfo(Allocated, begin, begin + size) then info.(kind := kind) else info]
      + Relabelled(infos[1..], kind, begin, size)
  }

  /** A new range gets the label, and ranges created elsewhere keep theirs. */
  lemma NewRangeIsLabelled(infos: seq<TableInfo>, kind: TableType, begin: nat, size: nat)
    requires TableInfo(Allocated, begin, begin + size) !in infos
    ensures Relabelled(infos + [TableInfo(Allocated, begin, begin + size)], kind, begin, size)
         == infos + [TableInfo(kind, begin, begin + size)]
  {
    hide Relabelled;
    var more := infos + [TableInfo(Allocated, begin, begin + size)];
    forall i | 0 <= i < |infos| ensures Relabelled(more, kind, begin, size)[i] == infos[i] {
      assert more[i] == infos[i];
    }
  }

  class PageTable {
    var table: seq<nat>
    var backing: seq<nat>
    var tableinfo: seq<TableInfo>

    constructor (slots: nat, frames: nat)
      requires slots > 0
      ensures table == seq(slots, _ => 0) && backing == seq(frames, _ => 0) && tableinfo == []
    {
      table := seq(slots, _ => 0);
      backing := seq(frames, _ => 0);
      tableinfo := [];
    }

    method GetTable(address: nat) returns (pointer: Pointer)
      requires table != []
      ensures pointer == Lookup(table, address)
    {
      var aligned := address - address % PAGE_SIZE;
      var page := if aligned != 0 then table[Slot(aligned, |table|)] else table[0];
      pointer := PageAt(page, address - aligned);
    }

    method CreateTable(begin: nat, host: nat, offset: nat, size: nat)
      requires table != [] && size % PAGE_SIZE == 0
      requires offset / PAGE_SIZE + size / PAGE_SIZE <= |backing|
      modifies this
      ensures table == TableAfter(old(table), begin, size / PAGE_SIZE)
      ensures backing == BackingAfter(old(backing), host, offset, size / PAGE_SIZE)
      ensures tableinfo == old(tableinfo) + [TableInfo(Allocated, begin, begin + size)]
    {
      hide Tagged, Slot;
      var beginit, hostit, at := begin, host + offset, offset;
      ghost var n := 0;
      while beginit != begin + size
        invariant n <= size / PAGE_SIZE && tableinfo == old(tableinfo)
        invariant beginit == begin + n * PAGE_SIZE && at == offset + n * PAGE_SIZE && hostit == host + at
        invariant table == TableAfter(old(table), begin, n)
        invariant backing == BackingAfter(old(backing), host, offset, n)
        decreases begin + size - beginit
      {
        table := table[Slot(beginit, |table|) := Tagged(beginit)];
        assert at / PAGE_SIZE == offset / PAGE_SIZE + n;
        backing := backing[at / PAGE_SIZE := Tagged(hostit)];
        beginit, hostit, at := beginit + PAGE_SIZE, hostit + PAGE_SIZE, at + PAGE_SIZE;
        n := n + 1;
      }
      tableinfo := tableinfo + [TableInfo(Allocated, begin, beginit)];
    }

    /** Labels the ranges that were created as exactly [begin, begin + size). */
    method DelimitTable(kind: TableType, begin: nat, size: nat)
      modifies `tableinfo
      ensures tableinfo == Relabelled(old(tableinfo), kind, begin, size)
    {
      var before := tableinfo;
      var i := 0;
      while i < |before|
        invariant i <= |before| == |tableinfo| && tableinfo[i..] == before[i..]
        invariant forall j :: 0 <= j < i ==>
          tableinfo[j]
          == if before[j] == TableInfo(Allocated, begin, begin + size) then before[j].(kind := kind) else before[j]
      {
        var info := tableinfo[i];
        assert info == tableinfo[i..][0] == before[i];
        if info.kind == Allocated && info.begin == begin && info.end == begin + size {
          tableinfo := tableinfo[i := info.(kind := kind)];
        }
        i := i + 1;
      }
      assert tableinfo == Relabelled(before, kind, begin, size);
    }

    /** Whether every page of [address, address + size) is mapped, and how the last range that holds all of them is
        labelled; the walk starts at the slot of the first page. */
    method Contains(address: nat, size: nat) returns (mapped: bool, kind: TableType)
      requires table != [] && Slot(PageBase(address), |table|) + PageUp(size) / PAGE_SIZE <= |table|
      ensures mapped <==> var first := Slot(PageBase(address), |table|);
        forall i :: first <= i < first + PageUp(size) / PAGE_SIZE ==> Attribute(table[i]) == MAPPED
      ensures kind == if mapped then LabelOf(tableinfo, PageBase(address), PageUp(size)) else Allocated
    {
      hide LabelOf;
      NoLabel(PageBase(address), PageUp(size));
      kind := Allocated;
      var index := Slot(PageBase(address), |table|);
      var end := index + PageUp(size) / PAGE_SIZE;
      mapped := true;
      var livepage := index;
      while livepage < end
        invariant index <= livepage <= end && mapped
        invariant forall i :: index <= i < livepage ==> Attribute(table[i]) == MAPPED
      {
        if Attribute(table[livepage]) != MAPPED {
          return false, Allocated;
        }
        livepage := livepage + 1;
      }
      var i := 0;
      while i < |tableinfo|
        invariant i <= |tableinfo| && kind == LabelOf(tableinfo[..i], PageBase(address), PageUp(size))
      {
        LabelOfMore(tableinfo[..i], tableinfo[i], PageBase(address), PageUp(size));
        assert tableinfo[..i + 1] == tableinfo[..i] + [tableinfo[i]];
        if Holding(tableinfo[i], PageBase(address), PageUp(size)) {
          kind := tableinfo[i].kind;
        }
        i := i + 1;
      }
      assert tableinfo[..i] == tableinfo;
    }
  }

  predicate Holding(info: TableInfo, begin: nat, size: nat) {
    info.begin <= begin && begin + size <= info.end
  }

  /** The label of the last range that holds [begin, begin + size). */
  function LabelOf(infos: seq<TableInfo>, begin: nat, size: nat): (kind: TableType)
    ensures (forall i :: 0 <= i < |infos| ==> !Holding(infos[i], begin, size)) ==> kind == Allocated
  {
    if infos == [] then Allocated
    else if Holding(infos[|infos| - 1], begin, size) then infos[|infos| - 1].kind
    else LabelOf(infos[..|infos| - 1], begin, size)
  }

  lemma {:induction false} LabelOfLast(infos: seq<TableInfo>, begin: nat, size: nat, i: nat)
    requires i < |infos| && infos[i].begin <= begin && begin + size <= infos[i].end
    requires forall j :: i < j < |infos| ==> begin < infos[j].begin || infos[j].end < begin + size
    ensures LabelOf(infos, begin, size) == infos[i].kind
    decreases |infos|
  {
    if i < |infos| - 1 {
      LabelOfLast(infos[..|infos| - 1], begin, size, i);
    }
  }

  lemma NoLabel(begin: nat, size: nat)
    ensures LabelOf([], begin, size) == Allocated
  {
  }

  lemma LabelOfMore(infos: seq<TableInfo>, info: TableInfo, begin: nat, size: nat)
    ensures LabelOf(infos + [info], begin, size)
         == if Holding(info, begin, size) then info.kind else LabelOf(infos, begin, size)
  {
    assert (infos + [info])[..|infos|] == infos;
  }
}
