/** Guest memory as the recompiled code sees it: wide accesses built from bytes, through the page table. */
module GuestAccess {
  import opened Bytes
  import opened PageTable

  function Next(vaddr: nat, k: nat): (r: nat)
    ensures vaddr + k < U64_LIMIT ==> r == vaddr + k
  {
    (vaddr + k) % U64_LIMIT
  }

  lemma NextNext(a: nat, m: nat, n: nat)
    ensures Next(Next(a, m), n) == Next(a, m + n)
  {
    var s := a + m;
    assert s == s / U64_LIMIT * U64_LIMIT + s % U64_LIMIT;
    assert s + n == s / U64_LIMIT * U64_LIMIT + (s % U64_LIMIT + n);
  }

  /** A pointer that a lookup gives points into a mapped page, at the offset of the address. */
  lemma PointerIsMapped(table: seq<nat>, mapped: set<nat>, address: nat)
    requires Holds(table, mapped) && Lookup(table, address).To?
    ensures var p := Lookup(table, address).address;
      PageBase(p) in mapped && p % PAGE_SIZE == address % PAGE_SIZE && Slot(p, |table|) == Slot(address, |table|)
  {
    hide Slot, Lookup;
    if SlotEmpty(mapped, |table|, address) {
      LookupMisses(table, mapped, address);
    } else {
      var page :| page in mapped && Slot(page, |table|) == Slot(address, |table|);
      assert PageHeld(table, page);
      LookupFinds(table, mapped, address, page);
      OffsetInPage(page, address % PAGE_SIZE);
      BaseSlot(page + address % PAGE_SIZE, |table|);
    }
  }

  // ---- flat memory --------------------------------------------------------------------------

  /** The mapped bytes. */
  ghost function FlatOf(mapped: set<nat>, memory: map<nat, byte>): (f: imap<nat, byte>)
    ensures forall b :: b in f <==> PageBase(b) in mapped
  {
    imap b: nat | PageBase(b) in mapped :: if b in memory then memory[b] else 0
  }

  /** The byte of flat memory that a pointer reaches; nothing is reached through null. */
  ghost function ByteThrough(f: imap<nat, byte>, p: Pointer): byte {
    match p
    case Null => 0
    case To(b) => if b in f then f[b] else 0
  }

  /** Flat memory after one byte was stored through a pointer. */
  ghost function WrittenThrough(f: imap<nat, byte>, p: Pointer, value: byte): (g: imap<nat, byte>)
    ensures g.Keys == f.Keys
  {
    match p
    case Null => f
    case To(b) => if b in f then f[b := value] else f
  }

  /** ... and after some bytes were stored one after the other, each where its address leads. */
  ghost function StoreThrough(f: imap<nat, byte>, table: seq<nat>, a: nat, bytes: seq<byte>): (g: imap<nat, byte>)
    requires table != []
    ensures g.Keys == f.Keys
    decreases |bytes|
  {
    if bytes == [] then f else
    var n := |bytes| - 1;
    WrittenThrough(StoreThrough(f, table, a, bytes[..n]), Lookup(table, Next(a, n)), bytes[n])
  }

  /** A flat store: the mapped bytes of the range, and nothing else. */
  ghost function Store(f: imap<nat, byte>, a: nat, bytes: seq<byte>): (g: imap<nat, byte>)
    ensures g.Keys == f.Keys
  {
    imap b | b in f :: if a <= b < a + |bytes| then bytes[b - a] else f[b]
  }

  lemma {:induction false} StoreThroughParts(f: imap<nat, byte>, table: seq<nat>, a: nat, x: seq<byte>, y: seq<byte>)
    requires table != []
    ensures StoreThrough(StoreThrough(f, table, a, x), table, Next(a, |x|), y) == StoreThrough(f, table, a, x + y)
    decreases |y|
  {
    hide Next, Lookup, WrittenThrough;
    if y == [] {
      assert x + y == x;
    } else {
      var n := |y| - 1;
      StoreThroughParts(f, table, a, x, y[..n]);
      NextNext(a, |x|, n);
      assert (x + y)[..|x + y| - 1] == x + y[..n];
    }
  }

  lemma StoreThroughHalves(f: imap<nat, byte>, table: seq<nat>, a: nat, low: nat, high: nat, n: nat)
    requires table != [] && n in {2, 4, 8} && low < Pow256(n) && high < Pow256(n)
    ensures StoreThrough(StoreThrough(f, table, a, LE(low, n)), table, Next(a, n), LE(high, n))
         == StoreThrough(f, table, a, LE(low + Pow256(n) * high, n + n))
    ensures Pow256(2) == 0x1_0000 && Pow256(4) == U32_LIMIT && Pow256(8) == U64_LIMIT
  {
    hide StoreThrough, Next;
    StoreThroughParts(f, table, a, LE(low, n), LE(high, n));
    LEOfParts(low, high, n, n);
    Pow256Values();
  }

  // ---- when a write is a flat store ---------------------------------------------------------

  /** The address is mapped, or no mapped page sits in its slot. */
  ghost predicate Clear(mapped: set<nat>, slots: nat, address: nat)
    requires slots > 0
  {
    PageBase(address) in mapped || SlotEmpty(mapped, slots, address)
  }

  /** Two bytes of one access never reach the same place. */
  lemma BytesStayApart(table: seq<nat>, mapped: set<nat>, a: nat, i: nat, j: nat)
    requires Holds(table, mapped) && i < j < i + PAGE_SIZE
    ensures Lookup(table, Next(a, i)) == Lookup(table, Next(a, j)) ==> Lookup(table, Next(a, i)) == Null
  {
    if Lookup(table, Next(a, i)).To? && Lookup(table, Next(a, j)).To? {
      hide Lookup, Slot, Holds;
      PointerIsMapped(table, mapped, Next(a, i));
      PointerIsMapped(table, mapped, Next(a, j));
      NextOffset(a, i);
      NextOffset(a, j);
      OffsetsDiffer(a + i, a + j);
    }
  }

  lemma NextOffset(a: nat, i: nat)
    ensures Next(a, i) % PAGE_SIZE == (a + i) % PAGE_SIZE
  {
  }

  lemma OffsetsDiffer(x: nat, y: nat)
    requires x < y < x + PAGE_SIZE
    ensures x % PAGE_SIZE != y % PAGE_SIZE
  {
  }

  /** What a byte of a stored range holds afterwards. */
  lemma {:induction false} StoredByte(f: imap<nat, byte>, table: seq<nat>, mapped: set<nat>, a: nat, bytes: seq<byte>,
      i: nat)
    requires Holds(table, mapped) && i < |bytes| <= PAGE_SIZE
    ensures table != []
    ensures var p := Lookup(table, Next(a, i));
      p.To? && p.address in f ==> StoreThrough(f, table, a, bytes)[p.address] == bytes[i]
    decreases |bytes|
  {
    hide Lookup, Next, Holds;
    HeldTable(table, mapped);
    var n := |bytes| - 1;
    if i < n {
      StoredByte(f, table, mapped, a, bytes[..n], i);
      BytesStayApart(table, mapped, a, i, n);
    }
  }

  lemma HeldTable(table: seq<nat>, mapped: set<nat>)
    requires Holds(table, mapped)
    ensures table != []
  {
  }

  /** A byte that no address of the range leads to is kept. */
  lemma {:induction false} KeptByte(f: imap<nat, byte>, table: seq<nat>, a: nat, bytes: seq<byte>, b: nat)
    requires table != [] && b in f && forall i :: 0 <= i < |bytes| ==> Lookup(table, Next(a, i)) != To(b)
    ensures StoreThrough(f, table, a, bytes)[b] == f[b]
    decreases |bytes|
  {
    hide Lookup, Next;
    if bytes != [] {
      KeptByte(f, table, a, bytes[..|bytes| - 1], b);
    }
  }

  ghost predicate AllClear(mapped: set<nat>, slots: nat, a: nat, n: nat)
    requires slots > 0
  {
    forall x :: a <= x < a + n ==> Clear(mapped, slots, x)
  }

  lemma ClearLookup(table: seq<nat>, mapped: set<nat>, a: nat, i: nat)
    requires Holds(table, mapped) && a + i < U64_LIMIT
    ensures table != []
    ensures Clear(mapped, |table|, a + i) <==> Lookup(table, Next(a, i)) == Identity(mapped, a + i)
  {
    LookupIsIdentityIff(table, mapped, a + i);
  }

  lemma ClearStoreIsFlat(table: seq<nat>, mapped: set<nat>, f: imap<nat, byte>, a: nat, bytes: seq<byte>)
    requires Holds(table, mapped) && (forall b :: b in f <==> PageBase(b) in mapped)
    requires |bytes| <= PAGE_SIZE && a + |bytes| <= U64_LIMIT && AllClear(mapped, |table|, a, |bytes|)
    ensures StoreThrough(f, table, a, bytes) == Store(f, a, bytes)
  {
    hide Lookup, Next, Holds, Clear, StoreThrough, PageBase;
    HeldTable(table, mapped);
    forall i | 0 <= i < |bytes| ensures Lookup(table, Next(a, i)) == Identity(mapped, a + i) {
      ClearLookup(table, mapped, a, i);
    }
    forall b | b in f ensures StoreThrough(f, table, a, bytes)[b] == Store(f, a, bytes)[b] {
      if a <= b < a + |bytes| {
        StoredByte(f, table, mapped, a, bytes, b - a);
      } else {
        KeptByte(f, table, a, bytes, b);
      }
    }
  }

  /** An unclear address leads into another, mapped page, which a flat store of the range would not touch. */
  lemma UnclearByte(table: seq<nat>, mapped: set<nat>, a: nat, n: nat, i: nat) returns (b: nat)
    requires Holds(table, mapped) && n <= PAGE_SIZE && a + n <= U64_LIMIT && i < n && !Clear(mapped, |table|, a + i)
    ensures table != [] && Lookup(table, Next(a, i)) == To(b) && PageBase(b) in mapped && !(a <= b < a + n)
  {
    hide Lookup, Holds, Slot;
    HeldTable(table, mapped);
    var page :| page in mapped && Slot(page, |table|) == Slot(a + i, |table|);
    LookupFinds(table, mapped, a + i, page);
    b := page + (a + i) % PAGE_SIZE;
    PointerIsMapped(table, mapped, a + i);
    if a <= b < a + n {
      OffsetInRange(b, a + i, a, n);
    }
  }

  lemma OffsetInRange(b: nat, x: nat, a: nat, n: nat)
    requires b % PAGE_SIZE == x % PAGE_SIZE && n <= PAGE_SIZE && a <= x < a + n && a <= b < a + n
    ensures b == x
  {
  }

  /** Exactly when every write of `n` bytes at `a` is a flat store: each address is mapped, or no mapped page sits
      in its slot. */
  lemma WriteIsFlatIff(table: seq<nat>, mapped: set<nat>, f: imap<nat, byte>, a: nat, n: nat)
    requires Holds(table, mapped) && (forall b :: b in f <==> PageBase(b) in mapped)
    requires n <= PAGE_SIZE && a + n <= U64_LIMIT
    ensures table != []
    ensures (forall bytes: seq<byte> :: |bytes| == n ==> StoreThrough(f, table, a, bytes) == Store(f, a, bytes))
       <==> AllClear(mapped, |table|, a, n)
  {
    hide Lookup, Next, Holds, Clear, StoreThrough, Store, PageBase;
    HeldTable(table, mapped);
    if AllClear(mapped, |table|, a, n) {
      forall bytes: seq<byte> | |bytes| == n ensures StoreThrough(f, table, a, bytes) == Store(f, a, bytes) {
        ClearStoreIsFlat(table, mapped, f, a, bytes);
      }
    } else {
      var x :| a <= x < a + n && !Clear(mapped, |table|, x);
      UnflatStore(table, mapped, f, a, n, x - a);
    }
  }

  lemma UnflatStore(table: seq<nat>, mapped: set<nat>, f: imap<nat, byte>, a: nat, n: nat, i: nat)
    requires Holds(table, mapped) && (forall b :: b in f <==> PageBase(b) in mapped)
    requires n <= PAGE_SIZE && a + n <= U64_LIMIT && i < n && !Clear(mapped, |table|, a + i)
    ensures table != []
    ensures exists bytes: seq<byte> :: |bytes| == n && StoreThrough(f, table, a, bytes) != Store(f, a, bytes)
  {
    hide Lookup, Next, Holds, Clear, StoreThrough, PageBase;
    HeldTable(table, mapped);
    var b := UnclearByte(table, mapped, a, n, i);
    var value: byte := if f[b] == 0 then 1 else 0;
    var bytes: seq<byte> := seq(n, _ => value);
    StoredByte(f, table, mapped, a, bytes, i);
    assert StoreThrough(f, table, a, bytes)[b] != Store(f, a, bytes)[b];
  }

  /** With all pages in one window, a byte is stored at the fold of its address. */
  lemma WriteFolds(table: seq<nat>, mapped: set<nat>, window: nat, f: imap<nat, byte>, a: nat, value: byte)
    requires Holds(table, mapped) && forall page :: page in mapped ==> WindowOf(page, |table|) == window
    requires forall b :: b in f <==> PageBase(b) in mapped
    ensures WrittenThrough(f, Lookup(table, a), value) == Store(f, Fold(a, |table|, window), [value])
  {
    hide Lookup, Holds, Fold, PageBase, WindowOf;
    HeldTable(table, mapped);
    LookupFolds(table, mapped, window, a);
  }

  /** Host bytes that no mapped page covers are as they were. */
  ghost predicate SameOutside(mapped: set<nat>, before: map<nat, byte>, after: map<nat, byte>) {
    forall b: nat :: PageBase(b) !in mapped ==>
      (b in after <==> b in before) && (b in after ==> after[b] == before[b])
  }

  // ---- the callbacks ------------------------------------------------------------------------

  class DynarmicCallbacks {
    const ptable: PageTable
    /** The host bytes behind guest pointers. */
    var memory: map<nat, byte>
    /** Accesses to unmapped pages, each of which halts the recompiler. */
    var halts: nat
    ghost const mapped: set<nat>

    constructor (table: PageTable, bytes: map<nat, byte>, ghost mapped: set<nat>)
      requires Holds(table.table, mapped)
      requires forall a: nat :: PageBase(a) in mapped ==> a in bytes
      ensures Valid() && ptable == table && memory == bytes && this.mapped == mapped && halts == 0
    {
      ptable, memory, halts := table, bytes, 0;
      this.mapped := mapped;
    }

    ghost predicate Valid()
      reads `memory, ptable
    {
      && ptable.table != [] && Holds(ptable.table, mapped)
      && forall a: nat :: PageBase(a) in mapped ==> a in memory
    }

    ghost function Flat(): (f: imap<nat, byte>)
      requires Valid()
      reads `memory, ptable
      ensures forall b :: b in f <==> PageBase(b) in mapped
    {
      FlatOf(mapped, memory)
    }

    /** The byte that an access to `a` reaches. */
    ghost function ByteAt(a: nat): byte
      requires Valid()
      reads `memory, ptable
    {
      ByteThrough(Flat(), Lookup(ptable.table, a))
    }

    /** Memory is flat at every clear address: the mapped byte there, or zero. Any other address shows the byte of the
        page in its slot. */
    lemma ByteAtIsFlat(a: nat)
      requires Valid()
      ensures PageBase(a) in mapped ==> ByteAt(a) == memory[a]
      ensures SlotEmpty(mapped, |ptable.table|, a) ==> ByteAt(a) == 0
      ensures forall page :: page in mapped && Slot(page, |ptable.table|) == Slot(a, |ptable.table|) ==>
        PageBase(page + a % PAGE_SIZE) in mapped && ByteAt(a) == memory[page + a % PAGE_SIZE]
    {
      hide Lookup, Slot, Holds;
      LookupIsIdentityIff(ptable.table, mapped, a);
      if SlotEmpty(mapped, |ptable.table|, a) {
        LookupMisses(ptable.table, mapped, a);
      }
      forall page | page in mapped && Slot(page, |ptable.table|) == Slot(a, |ptable.table|)
        ensures PageBase(page + a % PAGE_SIZE) in mapped && ByteAt(a) == memory[page + a % PAGE_SIZE]
      {
        LookupFinds(ptable.table, mapped, a, page);
        PointerIsMapped(ptable.table, mapped, a);
      }
    }

    ghost function BytesAt(a: nat, n: nat): (r: seq<byte>)
      requires Valid()
      reads `memory, ptable
      ensures |r| == n
    {
      if n == 0 then [] else BytesAt(a, n - 1) + [ByteAt(Next(a, n - 1))]
    }

    /** How many of the `n` bytes from `a` on lead nowhere. */
    ghost function Misses(a: nat, n: nat): nat
      requires ptable.table != []
      reads ptable
    {
      if n == 0 then 0 else Misses(a, n - 1) + if Lookup(ptable.table, Next(a, n - 1)) == Null then 1 else 0
    }

    lemma {:induction false} MissesParts(a: nat, m: nat, n: nat)
      requires ptable.table != []
      ensures Misses(a, m + n) == Misses(a, m) + Misses(Next(a, m), n)
      decreases n
    {
      hide Lookup, Next;
      if n > 0 {
        MissesParts(a, m, n - 1);
        NextNext(a, m, n - 1);
      }
    }

    lemma OneMiss(a: nat)
      requires ptable.table != [] && a < U64_LIMIT
      ensures Misses(a, 1) == if Lookup(ptable.table, a).To? then 0 else 1
    {
      assert Misses(a, 0) == 0;
    }

    method ValidateMemoryAccess(vaddr: nat) returns (valid: bool)
      requires Valid()
      modifies `halts
      ensures valid <==> Lookup(ptable.table, vaddr).To?
      ensures halts == old(halts) + if valid then 0 else 1
      ensures ptable.table != []
    {
      BaseSlot(vaddr, |ptable.table|);
      var kind: TableType;
      valid, kind := ptable.Contains(vaddr, 1);
      assert PageUp(1) / PAGE_SIZE == 1;
      EntryTagged(vaddr);
      if !valid {
        halts := halts + 1;
      }
    }

    lemma EntryTagged(vaddr: nat)
      requires Valid()
      ensures Attribute(ptable.table[Slot(PageBase(vaddr), |ptable.table|)]) == MAPPED
         <==> Lookup(ptable.table, vaddr).To?
    {
      var i := Slot(PageBase(vaddr), |ptable.table|);
      BaseSlot(vaddr, |ptable.table|);
      assert SlotHeld(ptable.table, mapped, i);
      assert ptable.table[i] != 0 ==> PageHeld(ptable.table, ptable.table[i] - MAPPED);
      if ptable.table[i] != 0 {
        TagIsMapped(ptable.table[i] - MAPPED);
      }
      hide Slot, Holds;
    }

    method MemoryRead8(vaddr: nat) returns (r: byte)
      requires Valid()
      modifies `halts
      ensures r == ByteAt(vaddr)
      ensures halts == old(halts) + if Lookup(ptable.table, vaddr).To? then 0 else 1
    {
      hide Lookup, Holds, Slot, PageBase;
      var valid := ValidateMemoryAccess(vaddr);
      if !valid {
        return 0;
      }
      var pointer := ptable.GetTable(vaddr);
      PointerIsMapped(ptable.table, mapped, vaddr);
      r := memory[pointer.address];
    }

    lemma {:induction false} BytesAtParts(a: nat, m: nat, n: nat)
      requires Valid()
      ensures BytesAt(a, m + n) == BytesAt(a, m) + BytesAt(Next(a, m), n)
      decreases n
    {
      hide ByteAt, Holds, Next;
      if n > 0 {
        BytesAtParts(a, m, n - 1);
        NextNext(a, m, n - 1);
      }
    }

    /** Two halves of `n` bytes read as one number. */
    lemma ReadOfParts(a: nat, n: nat)
      requires Valid()
      ensures LEValue(BytesAt(a, n + n)) == LEValue(BytesAt(a, n)) + Pow256(n) * LEValue(BytesAt(Next(a, n), n))
    {
      hide ByteAt, Holds, BytesAt;
      BytesAtParts(a, n, n);
      LEValueOfConcat(BytesAt(a, n), BytesAt(Next(a, n), n));
    }

    method MemoryRead16(vaddr: nat) returns (r: nat)
      requires Valid() && vaddr < U64_LIMIT
      modifies `halts
      ensures r == LEValue(BytesAt(vaddr, 2))
      ensures halts == old(halts) + Misses(vaddr, 2)
    {
      hide ByteAt, Holds, Misses;
      MissesParts(vaddr, 1, 1);
      OneMiss(vaddr);
      OneMiss(Next(vaddr, 1));
      var low := MemoryRead8(vaddr);
      var high := MemoryRead8(Next(vaddr, 1));
      r := (low as int) + 0x100 * (high as int);
      assert BytesAt(vaddr, 1) == [low] && BytesAt(vaddr, 2) == [low, high];
    }

    method MemoryRead32(vaddr: nat) returns (r: nat)
      requires Valid() && vaddr < U64_LIMIT
      modifies `halts
      ensures r == LEValue(BytesAt(vaddr, 4))
      ensures halts == old(halts) + Misses(vaddr, 4)
    {
      hide ByteAt, Holds, BytesAt, LEValue, Misses;
      MissesParts(vaddr, 2, 2);
      var low := MemoryRead16(vaddr);
      var high := MemoryRead16(Next(vaddr, 2));
      r := low + 0x1_0000 * high;
      ReadOfParts(vaddr, 2);
      Pow256Values();
    }

    method MemoryRead64(vaddr: nat) returns (r: nat)
      requires Valid() && vaddr < U64_LIMIT
      modifies `halts
      ensures r == LEValue(BytesAt(vaddr, 8))
      ensures halts == old(halts) + Misses(vaddr, 8)
    {
      hide ByteAt, Holds, BytesAt, LEValue, Misses;
      MissesParts(vaddr, 4, 4);
      var low := MemoryRead32(vaddr);
      var high := MemoryRead32(Next(vaddr, 4));
      r := low + U32_LIMIT * high;
      ReadOfParts(vaddr, 4);
      Pow256Values();
    }

    method MemoryRead128(vaddr: nat) returns (low: nat, high: nat)
      requires Valid() && vaddr < U64_LIMIT
      modifies `halts
      ensures low == LEValue(BytesAt(vaddr, 8)) && high == LEValue(BytesAt(Next(vaddr, 8), 8))
      ensures low + U64_LIMIT * high == LEValue(BytesAt(vaddr, 16))
      ensures halts == old(halts) + Misses(vaddr, 16)
    {
      hide ByteAt, Holds, BytesAt, LEValue, Misses;
      MissesParts(vaddr, 8, 8);
      low := MemoryRead64(vaddr);
      high := MemoryRead64(Next(vaddr, 8));
      ReadOfParts(vaddr, 8);
      Pow256Values();
    }

    // ---- writes ---------------------------------------------------------------------------

    method MemoryWrite8(vaddr: nat, value: byte)
      requires Valid() && vaddr < U64_LIMIT
      modifies `halts, `memory
      ensures Valid() && Flat() == StoreThrough(old(Flat()), ptable.table, vaddr, [value])
      ensures halts == old(halts) + if Lookup(ptable.table, vaddr).To? then 0 else 1
      ensures SameOutside(mapped, old(memory), memory)
    {
      hide Lookup, Holds, Slot, PageBase;
      OneByte(Flat(), ptable.table, vaddr, value);
      var valid := ValidateMemoryAccess(vaddr);
      if valid {
        var pointer := ptable.GetTable(vaddr);
        PointerIsMapped(ptable.table, mapped, vaddr);
        memory := memory[pointer.address := value];
      }
    }

    method MemoryWrite16(vaddr: nat, value: nat)
      requires Valid() && value < 0x1_0000 && vaddr < U64_LIMIT
      modifies `halts, `memory
      ensures Valid() && Flat() == StoreThrough(old(Flat()), ptable.table, vaddr, LE(value, 2))
      ensures halts == old(halts) + Misses(vaddr, 2) && SameOutside(mapped, old(memory), memory)
    {
      hide Flat, StoreThrough, Lookup, Holds, LE, Misses, PageBase;
      MissesParts(vaddr, 1, 1);
      OneMiss(vaddr);
      OneMiss(Next(vaddr, 1));
      TwoBytes(value);
      StoreThroughParts(Flat(), ptable.table, vaddr, [value % 0x100], [value / 0x100]);
      MemoryWrite8(vaddr, value % 0x100);
      MemoryWrite8(Next(vaddr, 1), value / 0x100);
    }

    method MemoryWrite32(vaddr: nat, value: nat)
      requires Valid() && value < U32_LIMIT && vaddr < U64_LIMIT
      modifies `halts, `memory
      ensures Valid() && Flat() == StoreThrough(old(Flat()), ptable.table, vaddr, LE(value, 4))
      ensures halts == old(halts) + Misses(vaddr, 4) && SameOutside(mapped, old(memory), memory)
    {
      hide Flat, StoreThrough, LE, Lookup, Holds, Misses, PageBase;
      MissesParts(vaddr, 2, 2);
      var low, high := value % 0x1_0000, value / 0x1_0000;
      StoreThroughHalves(Flat(), ptable.table, vaddr, low, high, 2);
      MemoryWrite16(vaddr, low);
      MemoryWrite16(Next(vaddr, 2), high);
    }

    method MemoryWrite64(vaddr: nat, value: nat)
      requires Valid() && value < U64_LIMIT && vaddr < U64_LIMIT
      modifies `halts, `memory
      ensures Valid() && Flat() == StoreThrough(old(Flat()), ptable.table, vaddr, LE(value, 8))
      ensures halts == old(halts) + Misses(vaddr, 8) && SameOutside(mapped, old(memory), memory)
    {
      hide Flat, StoreThrough, LE, Lookup, Holds, Misses, PageBase;
      MissesParts(vaddr, 4, 4);
      var low, high := value % U32_LIMIT, value / U32_LIMIT;
      StoreThroughHalves(Flat(), ptable.table, vaddr, low, high, 4);
      MemoryWrite32(vaddr, low);
      MemoryWrite32(Next(vaddr, 4), high);
    }

    method MemoryWrite128(vaddr: nat, low: nat, high: nat)
      requires Valid() && low < U64_LIMIT && high < U64_LIMIT && vaddr < U64_LIMIT
      modifies `halts, `memory
      ensures Valid() && Flat() == StoreThrough(old(Flat()), ptable.table, vaddr, LE(low + U64_LIMIT * high, 16))
      ensures halts == old(halts) + Misses(vaddr, 16) && SameOutside(mapped, old(memory), memory)
    {
      hide Flat, StoreThrough, LE, Lookup, Holds, Misses, PageBase;
      MissesParts(vaddr, 8, 8);
      StoreThroughHalves(Flat(), ptable.table, vaddr, low, high, 8);
      MemoryWrite64(vaddr, low);
      MemoryWrite64(Next(vaddr, 8), high);
    }

    /** What any of these reads returns after the write of the same width, at any address that leads to mapped pages:
        the value written. */
    lemma ReadBack(before: imap<nat, byte>, a: nat, value: nat, n: nat)
      requires Valid() && value < Pow256(n) && n <= PAGE_SIZE && before.Keys == Flat().Keys
      requires Flat() == StoreThrough(before, ptable.table, a, LE(value, n))
      requires forall i :: 0 <= i < n ==> Lookup(ptable.table, Next(a, i)).To?
      ensures LEValue(BytesAt(a, n)) == value
    {
      hide Lookup, Holds, StoreThrough;
      BytesStored(before, a, LE(value, n), n);
      assert LE(value, n)[..n] == LE(value, n);
      LERoundTrip(value, n);
    }

    lemma {:induction false} BytesStored(before: imap<nat, byte>, a: nat, bytes: seq<byte>, k: nat)
      requires Valid() && k <= |bytes| <= PAGE_SIZE && before.Keys == Flat().Keys
      requires Flat() == StoreThrough(before, ptable.table, a, bytes)
      requires forall i :: 0 <= i < |bytes| ==> Lookup(ptable.table, Next(a, i)).To?
      ensures BytesAt(a, k) == bytes[..k]
    {
      hide Holds, Lookup, Next, StoreThrough, Slot, PageBase;
      if k > 0 {
        BytesStored(before, a, bytes, k - 1);
        StoredByte(before, ptable.table, mapped, a, bytes, k - 1);
        PointerIsMapped(ptable.table, mapped, Next(a, k - 1));
      }
    }
  }

  lemma TwoBytes(value: nat)
    requires value < 0x1_0000
    ensures [value % 0x100] + [value / 0x100] == LE(value, 2)
  {
  }

  lemma OneByte(f: imap<nat, byte>, table: seq<nat>, a: nat, value: byte)
    requires table != [] && a < U64_LIMIT
    ensures StoreThrough(f, table, a, [value]) == WrittenThrough(f, Lookup(table, a), value)
  {
    assert [value][..0] == [];
    assert StoreThrough(f, table, a, []) == f;
  }
}
