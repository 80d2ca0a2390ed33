/** The directory of a partition image: a header, fixed-size entries, a table of names, and the files' data. Images
    of files read back, and what the parser makes of any other bytes, by position; opening and listing files. */
module PartitionFs {
  import opened Bytes
  import opened VirtualFiles

  const PFS0_MAGIC := 0x3053_4650
  const HEADER := 16
  const ENTRY := 24
  const MAX_ENTRIES_COUNT := 16

  type Name = seq<byte>

  datatype Entry = Entry(offset: nat, size: nat, nameOffset: nat)

  /** What the constructor leaves behind: the files by name, where the data starts, the entries it counted, and
      whether it went through all of them. An assertion that fails aborts it. */
  datatype Parsed = Aborted | Loaded(files: map<Name, Entry>, dataoffset: nat, count: nat, whole: bool)

  function U32At(c: seq<byte>, at: nat): nat
    requires at + 4 <= |c|
  {
    LEValue(c[at..at + 4])
  }

  function DecodeEntry(b: seq<byte>): Entry
    requires |b| == ENTRY
  {
    Entry(LEValue(b[..8]), LEValue(b[8..16]), LEValue(b[16..20]))
  }

  /** The first `n` entries of an image that holds them. */
  function EntriesOf(c: seq<byte>, n: nat): (r: seq<Entry>)
    requires HEADER + ENTRY * n <= |c|
    ensures |r| == n
  {
    if n == 0 then [] else EntriesOf(c, n - 1) + [DecodeEntry(c[HEADER + ENTRY * (n - 1)..HEADER + ENTRY * n])]
  }

  predicate HasName(table: seq<byte>, at: nat) {
    at <= |table| && 0 in table[at..]
  }

  /** The entries from `i` on, entered by name unless the name is taken; an empty file ends the walk. */
  function Collected(entries: seq<Entry>, table: seq<byte>, start: nat, i: nat, files: map<Name, Entry>):
      (r: Parsed)
    requires i <= |entries|
    ensures r.Loaded? ==> r.dataoffset == start
    decreases |entries| - i
  {
    if i == |entries| then Loaded(files, start, 0, true) else
    var e := entries[i];
    if e.size == 0 || (table == [] && e.nameOffset == 0) then Loaded(files, start, 0, false)
    else if !HasName(table, e.nameOffset) then Aborted
    else Collected(entries, table, start, i + 1, Entered(files, UpToNul(table[e.nameOffset..]), start, e))
  }

  /** An empty entry ends the walk: what was entered before it stays, and nothing behind it counts. */
  lemma {:induction false} EmptyEntryEnds(entries: seq<Entry>, empty: Entry, more: seq<Entry>, table: seq<byte>,
      start: nat, i: nat, files: map<Name, Entry>)
    requires i <= |entries| && empty.size == 0
    ensures var r := Collected(entries, table, start, i, files);
      Collected(entries + [empty] + more, table, start, i, files) == if r.Loaded? then r.(whole := false) else r
    decreases |entries| - i
  {
    hide UpToNul, Entered;
    var all := entries + [empty] + more;
    if i < |entries| {
      var e := entries[i];
      assert all[i] == e;
      if e.size != 0 && !(table == [] && e.nameOffset == 0) && HasName(table, e.nameOffset) {
        EmptyEntryEnds(entries, empty, more, table, start, i + 1,
          Entered(files, UpToNul(table[e.nameOffset..]), start, e));
      }
    } else {
      assert all[i] == empty;
    }
  }

  function Entered(files: map<Name, Entry>, name: Name, start: nat, e: Entry): map<Name, Entry> {
    if name in files then files else files[name := Entry((start + e.offset) % U64_LIMIT, e.size, e.nameOffset)]
  }

  /** How many entries the loop reads: it stops once it has counted sixteen, after reading one more. */
  function EntriesRead(fileCount: nat): nat {
    Min(fileCount, MAX_ENTRIES_COUNT + 1)
  }

  function Parse(c: seq<byte>): Parsed {
    if !Has(c, 0, 4) then Aborted
    else if U32At(c, 0) != PFS0_MAGIC then Loaded(map[], 0, 0, true)
    else if !Has(c, 4, 4) then Aborted
    else if U32At(c, 4) == 0 then Loaded(map[], 0, 0, true)
    else if !Has(c, 0, HEADER) then Aborted
    else ParseEntries(c, U32At(c, 4), U32At(c, 8))
  }

  function ParseEntries(c: seq<byte>, fileCount: nat, strTableSize: nat): Parsed {
    var n := EntriesRead(fileCount);
    var names := HEADER + ENTRY * n;
    if |c| < names || !Has(c, names, strTableSize) then Aborted else
    var table := Available(c, names, strTableSize);
    var r := Collected(EntriesOf(c, n), table, (names + |table|) % U32_LIMIT, 0, map[]);
    if r.Aborted? then r else r.(count := Min(fileCount, MAX_ENTRIES_COUNT))
  }

  // ---- the directory by position ------------------------------------------------------------------

  /** Eight bytes from `at` on, the lowest first, as a number. */
  function Long(c: seq<byte>, at: nat): int
    requires at + 8 <= |c|
  {
    Word(c[at], c[at + 1], c[at + 2], c[at + 3]) + U32_LIMIT * Word(c[at + 4], c[at + 5], c[at + 6], c[at + 7])
  }

  /** Entry `i` takes 24 bytes behind the 16 of the header: offset, size and the place of the name. */
  lemma {:induction false} EntryByPosition(c: seq<byte>, n: nat, i: nat)
    requires i < n && 16 + 24 * n <= |c|
    ensures var e, at := EntriesOf(c, n)[i], 16 + 24 * i;
      && e.offset == Long(c, at) && e.size == Long(c, at + 8)
      && e.nameOffset == Word(c[at + 16], c[at + 17], c[at + 18], c[at + 19])
  {
    hide LEValue, Word, DecodeEntry;
    if i < n - 1 {
      EntryByPosition(c, n - 1, i);
    } else {
      LastEntry(c, n);
      EntryWords(c, 16 + 24 * i);
    }
  }

  lemma EntryWords(c: seq<byte>, at: nat)
    requires at + 24 <= |c|
    ensures var e := DecodeEntry(c[at..at + 24]);
      && e.offset == Long(c, at) && e.size == Long(c, at + 8)
      && e.nameOffset == Word(c[at + 16], c[at + 17], c[at + 18], c[at + 19])
  {
    hide LEValue, Word;
    var b := c[at..at + 24];
    SliceOfSlice(c, at, at + 24, 0, 8);
    SliceOfSlice(c, at, at + 24, 8, 8);
    SliceOfSlice(c, at, at + 24, 16, 4);
    assert b[..8] == b[0..8];
    EightBytes(b[..8]);
    EightBytes(b[8..16]);
    FourBytes(b[16..20]);
  }

  lemma LastEntry(c: seq<byte>, n: nat)
    requires n > 0 && 16 + 24 * n <= |c|
    ensures EntriesOf(c, n)[n - 1] == DecodeEntry(c[16 + 24 * (n - 1)..16 + 24 * (n - 1) + 24])
  {
  }

  /** Entry `j` is the first from `i` on with that name, and no entry up to it is empty. */
  ghost predicate FirstNamed(entries: seq<Entry>, table: seq<byte>, i: nat, j: nat, name: Name) {
    && i <= j < |entries|
    && (forall k :: i <= k <= j ==> entries[k].size > 0 && !(table == [] && entries[k].nameOffset == 0))
    && (forall k :: i <= k <= j ==> entries[k].nameOffset <= |table|)
    && UpToNul(table[entries[j].nameOffset..]) == name
    && (forall k :: i <= k < j ==> UpToNul(table[entries[k].nameOffset..]) != name)
  }

  /** What the walk lists: the entries given, and under any other name the first entry that carries it, with its offset
      counted from the start of the data. */
  lemma {:induction false} CollectedEntries(entries: seq<Entry>, table: seq<byte>, start: nat, i: nat,
      files: map<Name, Entry>, name: Name)
    requires i <= |entries| && Collected(entries, table, start, i, files).Loaded?
    ensures var r := Collected(entries, table, start, i, files).files;
      && (name in files ==> name in r && r[name] == files[name])
      && (name !in files ==> (name in r <==> exists j: nat :: FirstNamed(entries, table, i, j, name)))
      && (name !in files ==> forall j: nat :: FirstNamed(entries, table, i, j, name) ==>
           j < |entries| && name in r
           && r[name] == Entry((start + entries[j].offset) % U64_LIMIT, entries[j].size, entries[j].nameOffset))
    decreases |entries| - i
  {
    hide UpToNul, FirstNamed;
    if i == |entries| {
      NoneNamed(entries, table, i, name);
    } else {
      var e := entries[i];
      if e.size == 0 || (table == [] && e.nameOffset == 0) {
        NoneNamed(entries, table, i, name);
      } else {
        var here := UpToNul(table[e.nameOffset..]);
        var next := i + 1;
        CollectedEntries(entries, table, start, next, Entered(files, here, start, e), name);
        NamedHere(entries, table, i, next, name);
        assert here == name ==> FirstNamed(entries, table, i, i, name);
      }
    }
  }

  lemma NoneNamed(entries: seq<Entry>, table: seq<byte>, i: nat, name: Name)
    requires i < |entries| ==> entries[i].size == 0 || (table == [] && entries[i].nameOffset == 0)
    ensures forall j: nat :: !FirstNamed(entries, table, i, j, name)
  {
  }

  /** The first entry of a name is the next one, or the first one behind it. */
  lemma NamedHere(entries: seq<Entry>, table: seq<byte>, i: nat, next: nat, name: Name)
    requires i < |entries| && next == i + 1 && entries[i].size > 0 && !(table == [] && entries[i].nameOffset == 0)
    requires entries[i].nameOffset <= |table|
    ensures UpToNul(table[entries[i].nameOffset..]) == name ==>
      forall j: nat :: FirstNamed(entries, table, i, j, name) <==> j == i
    ensures UpToNul(table[entries[i].nameOffset..]) != name ==>
      forall j: nat :: FirstNamed(entries, table, i, j, name) <==> FirstNamed(entries, table, next, j, name)
  {
    hide UpToNul;
  }

  /** Any file with the magic, at least one entry and its whole name table, by position: the data starts behind the
      table, cut to 32 bits, and under each name the directory holds the first entry that carries it. */
  lemma ParsedByPosition(c: seq<byte>, n: nat, names: nat, name: Name)
    requires |c| >= 16 && c[0] == 0x50 && c[1] == 0x46 && c[2] == 0x53 && c[3] == 0x30
    requires Word(c[4], c[5], c[6], c[7]) > 0 && names == Word(c[8], c[9], c[10], c[11])
    requires n == if Word(c[4], c[5], c[6], c[7]) <= 17 then Word(c[4], c[5], c[6], c[7]) else 17
    requires 16 + 24 * n + names <= |c| && Parse(c).Loaded?
    ensures var r, entries, table, start :=
        Parse(c), EntriesOf(c, n), c[16 + 24 * n..16 + 24 * n + names], (16 + 24 * n + names) % 0x1_0000_0000;
      && r.dataoffset == start && r.count == (if n <= 16 then n else 16)
      && (name in r.files <==> exists j: nat :: FirstNamed(entries, table, 0, j, name))
      && (forall j: nat :: FirstNamed(entries, table, 0, j, name) ==>
           j < n && name in r.files
           && r.files[name] == Entry((start + entries[j].offset) % U64_LIMIT, entries[j].size, entries[j].nameOffset))
  {
    hide Parse, EntriesOf, Collected, FirstNamed, UpToNul, Word;
    ParseIsCollected(c, n, names);
    CollectedEntries(EntriesOf(c, n), c[16 + 24 * n..16 + 24 * n + names], (16 + 24 * n + names) % 0x1_0000_0000, 0,
      map[], name);
  }

  /** Any other file, by position: one without the magic or without entries is no partition, and a read behind the end
      of one aborts the constructor. */
  lemma OtherFilesByPosition(c: seq<byte>)
    ensures |c| < 4 ==> Parse(c) == Aborted
    ensures |c| >= 4 && !(c[0] == 0x50 && c[1] == 0x46 && c[2] == 0x53 && c[3] == 0x30) ==>
      Parse(c) == Loaded(map[], 0, 0, true)
    ensures |c| >= 4 && c[0] == 0x50 && c[1] == 0x46 && c[2] == 0x53 && c[3] == 0x30 ==>
      && (|c| < 8 ==> Parse(c) == Aborted)
      && (|c| >= 8 && Word(c[4], c[5], c[6], c[7]) == 0 ==> Parse(c) == Loaded(map[], 0, 0, true))
      && (8 <= |c| < 16 && Word(c[4], c[5], c[6], c[7]) > 0 ==> Parse(c) == Aborted)
      && (16 <= |c| && Word(c[4], c[5], c[6], c[7]) > 0
          && |c| < 16 + 24 * (if Word(c[4], c[5], c[6], c[7]) <= 17 then Word(c[4], c[5], c[6], c[7]) else 17)
                   + Word(c[8], c[9], c[10], c[11]) ==>
          Parse(c) == Aborted)
  {
    hide U32At, EntriesOf, Collected, Word;
    if |c| >= 4 {
      MagicIff(c);
      if |c| >= 8 {
        SliceWord(c, 4);
        if |c| >= 16 {
          SliceWord(c, 8);
        }
      }
    }
  }

  lemma MagicIff(c: seq<byte>)
    requires |c| >= 4
    ensures U32At(c, 0) == PFS0_MAGIC <==> c[0] == 0x50 && c[1] == 0x46 && c[2] == 0x53 && c[3] == 0x30
  {
    hide LEValue;
    SliceWord(c, 0);
  }

  /** The walk reaches entry `k`: none from `i` up to it is empty. */
  ghost predicate Walked(entries: seq<Entry>, table: seq<byte>, i: nat, k: nat) {
    && i <= k < |entries|
    && forall l :: i <= l <= k ==> entries[l].size > 0 && !(table == [] && entries[l].nameOffset == 0)
  }

  /** The walk comes through exactly when every entry it reaches has a name that ends inside the table, and goes through
      all entries exactly when none is empty. */
  lemma {:induction false} CollectedIff(entries: seq<Entry>, table: seq<byte>, start: nat, i: nat,
      files: map<Name, Entry>)
    requires i <= |entries|
    ensures var r := Collected(entries, table, start, i, files);
      && (r.Loaded? <==> forall k: nat :: Walked(entries, table, i, k) ==>
            entries[k].nameOffset <= |table| && 0 in table[entries[k].nameOffset..])
      && (r.Loaded? ==> (r.whole <==> (i < |entries| ==> Walked(entries, table, i, |entries| - 1))))
    decreases |entries| - i
  {
    hide UpToNul, Entered, Walked;
    if i < |entries| {
      var next := i + 1;
      WalkedMore(entries, table, i, next);
      var e := entries[i];
      if e.size > 0 && !(table == [] && e.nameOffset == 0) && HasName(table, e.nameOffset) {
        CollectedIff(entries, table, start, next, Entered(files, UpToNul(table[e.nameOffset..]), start, e));
      }
    } else {
      WalkedInside(entries, table, i);
    }
  }

  lemma WalkedInside(entries: seq<Entry>, table: seq<byte>, i: nat)
    ensures forall k: nat :: Walked(entries, table, i, k) ==> i <= k < |entries|
  {
  }

  lemma WalkedMore(entries: seq<Entry>, table: seq<byte>, i: nat, next: nat)
    requires i < |entries| && next == i + 1
    ensures Walked(entries, table, i, i) <==> entries[i].size > 0 && !(table == [] && entries[i].nameOffset == 0)
    ensures forall k: nat ::
      (Walked(entries, table, i, k) <==> Walked(entries, table, i, i) && (k == i || Walked(entries, table, next, k)))
  {
  }

  lemma ParseIsCollected(c: seq<byte>, n: nat, names: nat)
    requires |c| >= 16 && c[0] == 0x50 && c[1] == 0x46 && c[2] == 0x53 && c[3] == 0x30
    requires Word(c[4], c[5], c[6], c[7]) > 0 && names == Word(c[8], c[9], c[10], c[11])
    requires n == if Word(c[4], c[5], c[6], c[7]) <= 17 then Word(c[4], c[5], c[6], c[7]) else 17
    requires 16 + 24 * n + names <= |c|
    ensures var r := Collected(EntriesOf(c, n), c[16 + 24 * n..16 + 24 * n + names],
                               (16 + 24 * n + names) % 0x1_0000_0000, 0, map[]);
      Parse(c) == if r.Aborted? then r else r.(count := if n <= 16 then n else 16)
  {
    hide U32At, EntriesOf, Collected, Word, ParseEntries;
    MagicIff(c);
    SliceWord(c, 4);
    SliceWord(c, 8);
    EntriesAreCollected(c, Word(c[4], c[5], c[6], c[7]), n, names);
  }

  lemma EntriesAreCollected(c: seq<byte>, fileCount: nat, n: nat, names: nat)
    requires n == (if fileCount <= 17 then fileCount else 17) && 16 + 24 * n + names <= |c|
    ensures var r := Collected(EntriesOf(c, n), c[16 + 24 * n..16 + 24 * n + names],
                               (16 + 24 * n + names) % 0x1_0000_0000, 0, map[]);
      ParseEntries(c, fileCount, names) == if r.Aborted? then r else r.(count := if n <= 16 then n else 16)
  {
    hide EntriesOf, Collected, Available;
    WholeTableIsRead(c, n, names);
  }

  lemma SliceWord(c: seq<byte>, at: nat)
    requires at + 4 <= |c|
    ensures U32At(c, at) == Word(c[at], c[at + 1], c[at + 2], c[at + 3])
  {
    FourBytes(c[at..at + 4]);
  }

  lemma WholeTableIsRead(c: seq<byte>, n: nat, names: nat)
    requires 16 + 24 * n + names <= |c|
    ensures Available(c, 16 + 24 * n, names) == c[16 + 24 * n..16 + 24 * n + names]
  {
  }

  // ---- the constructor and its queries ------------------------------------------------------------

  predicate Inside(c: seq<byte>, e: Entry) {
    e.offset + e.size <= |c|
  }

  function BytesOf(c: seq<byte>, e: Entry): seq<byte>
    requires Inside(c, e)
  {
    c[e.offset..e.offset + e.size]
  }

  /** What opening a name comes to: nothing, a failed assertion, or a file of certain bytes. */
  datatype Shown = Nothing | Fails | Bytes(bytes: seq<byte>)

  /** A name with a parent path, or an unlisted one, opens nothing. A directory whose walk ended early still has
      raw entries, which only a hashed partition may have. */
  function ShownBy(files: map<Name, Entry>, whole: bool, c: seq<byte>, name: Name): Shown {
    if '/' as int in name || name !in files then Nothing
    else if !whole || !Inside(c, files[name]) then Fails
    else Bytes(BytesOf(c, files[name]))
  }

  // ---- the order of names -------------------------------------------------------------------------

  /** Byte strings in lexicographic order. */
  predicate Before(a: Name, b: Name) {
    b != [] && (a == [] || a[0] < b[0] || (a[0] == b[0] && Before(a[1..], b[1..])))
  }

  ghost predicate Ascending(names: seq<Name>) {
    forall i, j :: 0 <= i < j < |names| ==> Before(names[i], names[j])
  }

  lemma {:induction false} BeforeItself(a: Name)
    ensures !Before(a, a)
  {
    if a != [] {
      BeforeItself(a[1..]);
    }
  }

  lemma {:induction false} BeforeThrough(a: Name, b: Name, c: Name)
    requires Before(a, b) && Before(b, c)
    ensures Before(a, c)
  {
    if a != [] && a[0] == b[0] == c[0] {
      BeforeThrough(a[1..], b[1..], c[1..]);
    }
  }

  lemma {:induction false} BeforeOrAfter(a: Name, b: Name)
    ensures a == b || Before(a, b) || Before(b, a)
  {
    if a != [] && b != [] && a[0] == b[0] {
      BeforeOrAfter(a[1..], b[1..]);
      assert a == [a[0]] + a[1..] && b == [b[0]] + b[1..];
    }
  }

  ghost predicate IsFirst(names: set<Name>, name: Name) {
    name in names && forall other :: other in names && other != name ==> Before(name, other)
  }

  /** A set of names has a first one. */
  lemma FirstExists(names: set<Name>)
    requires names != {}
    ensures exists name :: name in names && forall other :: other in names && other != name ==> Before(name, other)
  {
    hide Before;
    var first := FindFirst(names);
  }

  lemma {:induction false} FindFirst(names: set<Name>) returns (name: Name)
    requires names != {}
    ensures IsFirst(names, name)
    decreases |names|
  {
    hide Before;
    name :| name in names;
    var rest := names - {name};
    if rest == {} {
      forall other | other in names ensures other == name {
        assert other !in rest;
      }
    } else {
      var first := FindFirst(rest);
      name := FirstOfTwo(names, name, first);
    }
  }

  /** The first of all the names is `some`, or the first of the others. */
  lemma FirstOfTwo(names: set<Name>, some: Name, first: Name) returns (name: Name)
    requires some in names && IsFirst(names - {some}, first)
    ensures IsFirst(names, name)
  {
    hide Before;
    BeforeOrAfter(some, first);
    if Before(some, first) {
      forall other | other in names && other != some ensures Before(some, other) {
        if other != first {
          BeforeThrough(some, first, other);
        }
      }
      name := some;
    } else {
      name := first;
    }
  }

  lemma EmptyByMembers(a: seq<Name>)
    ensures a == [] <==> forall name :: name !in a
  {
    if a != [] {
      assert a[0] in a;
    }
  }

  lemma TailMembers(a: seq<Name>)
    requires Ascending(a) && a != []
    ensures Ascending(a[1..]) && forall name :: name in a[1..] <==> name in a && name != a[0]
  {
    hide Before;
    var tail := a[1..];
    forall name ensures name in tail <==> name in a && name != a[0] {
      BeforeItself(a[0]);
      assert a == [a[0]] + tail;
      if name in tail {
        var i :| 0 <= i < |tail| && tail[i] == name;
        assert a[i + 1] == name;
      }
    }
  }

  /** The listing is determined by the set of names. */
  lemma {:induction false} AscendingIsUnique(a: seq<Name>, b: seq<Name>)
    requires Ascending(a) && Ascending(b) && forall name :: name in a <==> name in b
    ensures a == b
    decreases |a|
  {
    EmptyByMembers(a);
    EmptyByMembers(b);
    if a != [] {
      assert a[0] in b && b[0] in a;
      if a[0] != b[0] {
        BeforeThrough(a[0], b[0], a[0]);
        BeforeItself(a[0]);
        assert false;
      }
      TailMembers(a);
      TailMembers(b);
      AscendingIsUnique(a[1..], b[1..]);
    }
  }

  datatype Opened = NoFile | Abort | File(window: OffsetFile)

  class PartitionFileSystem {
    const partfs: BackingFile
    var files: map<Name, Entry>
    var dataoffset: nat
    var count: nat
    var pents: seq<Entry>

    constructor (pfsf: BackingFile)
      ensures partfs == pfsf && files == map[] && dataoffset == 0 && count == 0 && pents == []
    {
      partfs := pfsf;
      files, dataoffset, count, pents := map[], 0, 0, [];
    }

    /** Reads the entries until sixteen were counted, or all. */
    method ReadEntries(fileCount: nat) returns (ok: bool, nexoffset: nat)
      requires pents == [] && count == 0 && fileCount > 0 && |partfs.contents| >= HEADER
      modifies this`pents, this`count
      ensures ok == (HEADER + ENTRY * EntriesRead(fileCount) <= |partfs.contents|)
      ensures ok ==> nexoffset == HEADER + ENTRY * EntriesRead(fileCount) && count == Min(fileCount, MAX_ENTRIES_COUNT)
      ensures ok ==> pents == EntriesOf(partfs.contents, EntriesRead(fileCount))
    {
      hide DecodeEntry;
      var partssize := fileCount * ENTRY;
      nexoffset := HEADER;
      var peindex := 0;
      while peindex < fileCount
        invariant peindex <= EntriesRead(fileCount) && peindex <= MAX_ENTRIES_COUNT && count == peindex
        invariant nexoffset == HEADER + ENTRY * peindex <= |partfs.contents|
        invariant pents == EntriesOf(partfs.contents, peindex)
      {
        var read, bytes := partfs.ReadExactly(ENTRY, nexoffset);
        if !read {
          return false, nexoffset;
        }
        assert nexoffset - HEADER < partssize;
        pents := pents + [DecodeEntry(bytes)];
        nexoffset := nexoffset + ENTRY;
        if count >= MAX_ENTRIES_COUNT {
          break;
        }
        count := count + 1;
        peindex := peindex + 1;
      }
      ok := true;
    }

    /** Enters the files by name; `whole` is false when an empty entry ended the walk early. */
    method EnterFiles(table: seq<byte>) returns (ok: bool, whole: bool)
      modifies this`files
      ensures var r := Collected(pents, table, dataoffset, 0, old(files));
        ok == r.Loaded? && (ok ==> files == r.files && whole == r.whole)
    {
      hide UpToNul, Entered;
      var i := 0;
      while i < |pents|
        invariant i <= |pents|
        invariant Collected(pents, table, dataoffset, i, files) == Collected(pents, table, dataoffset, 0, old(files))
      {
        var basefile := pents[i];
        if (table == [] && basefile.nameOffset == 0) || basefile.size == 0 {
          return true, false;
        }
        if !HasName(table, basefile.nameOffset) {
          return false, false;
        }
        var filename := UpToNul(table[basefile.nameOffset..]);
        EnterFile(filename, basefile);
        i := i + 1;
      }
      return true, true;
    }

    method EnterFile(filename: Name, basefile: Entry)
      modifies this`files
      ensures files == Entered(old(files), filename, dataoffset, basefile)
    {
      if filename !in files {
        var offset := (dataoffset + basefile.offset) % U64_LIMIT;
        files := files[filename := Entry(offset, basefile.size, basefile.nameOffset)];
      }
    }

    /** The body of the constructor. */
    method Load() returns (ok: bool)
      requires files == map[] && dataoffset == 0 && count == 0 && pents == []
      modifies this
      ensures var r := Parse(partfs.contents);
        && ok == r.Loaded?
        && (ok ==> files == r.files && dataoffset == r.dataoffset && count == r.count && (pents == []) == r.whole)
    {
      hide ParseEntries, LEValue;
      var read, magic := partfs.ReadExactly(4, 0);
      if !read || LEValue(magic) != PFS0_MAGIC {
        return read;
      }
      var fileCount: seq<byte>;
      read, fileCount := partfs.ReadExactly(4, 4);
      if !read || LEValue(fileCount) == 0 {
        return read;
      }
      var header: seq<byte>;
      read, header := partfs.ReadExactly(HEADER, 0);
      if !read {
        return false;
      }
      SliceOfSlice(partfs.contents, 0, HEADER, 4, 4);
      SliceOfSlice(partfs.contents, 0, HEADER, 8, 4);
      ok := LoadEntries(LEValue(header[4..8]), LEValue(header[8..12]));
    }

    method LoadEntries(fileCount: nat, strTableSize: nat) returns (ok: bool)
      requires files == map[] && dataoffset == 0 && count == 0 && pents == []
      requires |partfs.contents| >= HEADER && fileCount > 0
      modifies this
      ensures var r := ParseEntries(partfs.contents, fileCount, strTableSize);
        && ok == r.Loaded?
        && (ok ==> files == r.files && dataoffset == r.dataoffset && count == r.count && (pents == []) == r.whole)
    {
      hide EntriesOf, Collected;
      var nexoffset: nat;
      ok, nexoffset := ReadEntries(fileCount);
      if !ok {
        return;
      }
      var namestable: seq<byte>;
      ok, namestable := partfs.ReadExactly(strTableSize, nexoffset);
      if !ok {
        return;
      }
      dataoffset := (nexoffset + |namestable|) % U32_LIMIT;
      var whole: bool;
      ok, whole := EnterFiles(namestable);
      if whole {
        pents := [];
      }
    }

    /** The names in the order of the map: ascending, each once. */
    method ListAllFiles() returns (result: seq<Name>)
      ensures Ascending(result) && forall name :: name in result <==> name in files
    {
      var left := files.Keys;
      result := [];
      while left != {}
        invariant left <= files.Keys && Ascending(result)
        invariant forall name :: name in files <==> name in left || name in result
        invariant forall i, name :: 0 <= i < |result| && name in left ==> Before(result[i], name)
        decreases |left|
      {
        FirstExists(left);
        var entryname :|
          entryname in left && forall other :: other in left && other != entryname ==> Before(entryname, other);
        BeforeItself(entryname);
        result := result + [entryname];
        left := left - {entryname};
      }
    }

    /** A listed name without a parent path opens the window of its entry; a directory that ended early has raw
        entries left, which only a hashed partition may have. */
    method OpenFile(name: Name, pathExists: bool) returns (r: Opened)
      ensures var shown := ShownBy(files, pents == [], partfs.contents, name);
        && (r.NoFile? <==> shown.Nothing?) && (r.Abort? <==> shown.Fails?)
        && (r.File? ==> r.window.Valid() && r.window.filesrc == partfs && shown == Bytes(r.window.Window()))
    {
      if '/' as int in name || name !in files {
        return NoFile;
      }
      var entry := files[name];
      if pents != [] || !Inside(partfs.contents, entry) {
        return Abort;
      }
      var window := new OffsetFile(partfs, entry.offset, entry.size, pathExists);
      r := File(window);
    }
  }

  // ---- images and the round trip ------------------------------------------------------------------

  datatype PartFile = PartFile(name: Name, data: seq<byte>)

  function Names(files: seq<PartFile>): seq<byte> {
    if files == [] then [] else files[0].name + [0] + Names(files[1..])
  }

  function Data(files: seq<PartFile>): seq<byte> {
    if files == [] then [] else files[0].data + Data(files[1..])
  }

  function EncodeEntry(e: Entry): (r: seq<byte>)
    ensures |r| == ENTRY
  {
    LE(e.offset, 8) + LE(e.size, 8) + LE(e.nameOffset, 4) + LE(0, 4)
  }

  /** The encoded entries of `files`, whose data and names start at the given places. */
  function Table(files: seq<PartFile>, offset: nat, nameOffset: nat): (r: seq<byte>)
    ensures |r| == ENTRY * |files|
  {
    if files == [] then [] else
      EncodeEntry(Entry(offset, |files[0].data|, nameOffset))
      + Table(files[1..], offset + |files[0].data|, nameOffset + |files[0].name| + 1)
  }

  /** The partition image of `files`, with `padding` zeros after the names. */
  function Image(files: seq<PartFile>, padding: nat): seq<byte> {
    LE(PFS0_MAGIC, 4) + LE(|files|, 4) + LE(|Names(files)| + padding, 4) + LE(0, 4)
    + Table(files, 0, 0) + (Names(files) + Zeros(padding)) + Data(files)
  }

  function DataStart(files: seq<PartFile>, padding: nat): nat {
    HEADER + ENTRY * |files| + |Names(files)| + padding
  }

  /** Distinct names without a NUL, no empty file, and numbers that fit their fields. */
  ghost predicate Storable(files: seq<PartFile>, padding: nat) {
    && 0 < |files| < U32_LIMIT && |Names(files)| + padding < U32_LIMIT && |Data(files)| + U32_LIMIT < U64_LIMIT
    && (forall k :: 0 <= k < |files| ==> 0 !in files[k].name && files[k].data != [])
    && (forall k, l :: 0 <= k < l < |files| ==> files[k].name != files[l].name)
  }

  lemma EntryRoundTrip(e: Entry)
    requires e.offset < U64_LIMIT && e.size < U64_LIMIT && e.nameOffset < U32_LIMIT
    ensures DecodeEntry(EncodeEntry(e)) == e
  {
    hide LE, LEValue;
    Pow256Values();
    var b := EncodeEntry(e);
    assert b[..8] == LE(e.offset, 8) && b[8..16] == LE(e.size, 8) && b[16..20] == LE(e.nameOffset, 4);
    LERoundTrip(e.offset, 8);
    LERoundTrip(e.size, 8);
    LERoundTrip(e.nameOffset, 4);
  }

  lemma {:induction false} TableAt(files: seq<PartFile>, offset: nat, nameOffset: nat, k: nat)
    requires k < |files|
    ensures Table(files, offset, nameOffset)[ENTRY * k..ENTRY * k + ENTRY]
         == EncodeEntry(Entry(offset + |Data(files[..k])|, |files[k].data|, nameOffset + |Names(files[..k])|))
  {
    hide EncodeEntry;
    var head := EncodeEntry(Entry(offset, |files[0].data|, nameOffset));
    var o, no := offset + |files[0].data|, nameOffset + |files[0].name| + 1;
    var rest := Table(files[1..], o, no);
    if k == 0 {
      assert (head + rest)[..ENTRY] == head;
    } else {
      TableAt(files[1..], o, no, k - 1);
      assert (head + rest)[ENTRY * k..ENTRY * k + ENTRY] == rest[ENTRY * (k - 1)..ENTRY * (k - 1) + ENTRY];
      assert files[..k][0] == files[0] && files[..k][1..] == files[1..][..k - 1];
    }
  }

  lemma {:induction false} NamesSplit(files: seq<PartFile>, k: nat)
    requires k < |files|
    ensures Names(files) == Names(files[..k]) + (files[k].name + [0] + Names(files[k + 1..]))
  {
    if k > 0 {
      NamesSplit(files[1..], k - 1);
      assert files[..k][1..] == files[1..][..k - 1] && files[1..][k - 1 + 1..] == files[k + 1..];
    }
  }

  lemma {:induction false} DataSplit(files: seq<PartFile>, k: nat)
    requires k < |files|
    ensures Data(files) == Data(files[..k]) + (files[k].data + Data(files[k + 1..]))
  {
    if k > 0 {
      DataSplit(files[1..], k - 1);
      assert files[..k][1..] == files[1..][..k - 1] && files[1..][k - 1 + 1..] == files[k + 1..];
    }
  }

  /** Where the parts of an image lie. */
  ghost predicate LaidOut(c: seq<byte>, files: seq<PartFile>, padding: nat) {
    var names := HEADER + ENTRY * |files|;
    var start := DataStart(files, padding);
    && |c| == start + |Data(files)|
    && U32At(c, 0) == PFS0_MAGIC && U32At(c, 4) == |files| && U32At(c, 8) == |Names(files)| + padding
    && c[HEADER..names] == Table(files, 0, 0) && c[names..start] == Names(files) + Zeros(padding)
    && c[start..] == Data(files)
  }

  lemma ImageIsLaidOut(files: seq<PartFile>, padding: nat)
    requires Storable(files, padding)
    ensures LaidOut(Image(files, padding), files, padding)
  {
    hide LE, LEValue, Names, Data, Table;
    Pow256Values();
    var head := LE(PFS0_MAGIC, 4) + LE(|files|, 4) + LE(|Names(files)| + padding, 4) + LE(0, 4);
    var entries, names, data := Table(files, 0, 0), Names(files) + Zeros(padding), Data(files);
    HeaderRoundTrip(|files|, |Names(files)| + padding);
    Cuts(head, entries, names, data);
    var c := Image(files, padding);
    assert c[0..4] == head[0..4] && c[4..8] == head[4..8] && c[8..12] == head[8..12];
  }

  lemma HeaderRoundTrip(count: nat, names: nat)
    requires count < U32_LIMIT && names < U32_LIMIT
    ensures var head := LE(PFS0_MAGIC, 4) + LE(count, 4) + LE(names, 4) + LE(0, 4);
      U32At(head, 0) == PFS0_MAGIC && U32At(head, 4) == count && U32At(head, 8) == names
  {
    hide LE, LEValue;
    Pow256Values();
    var head := LE(PFS0_MAGIC, 4) + LE(count, 4) + LE(names, 4) + LE(0, 4);
    assert head[0..4] == LE(PFS0_MAGIC, 4) && head[4..8] == LE(count, 4) && head[8..12] == LE(names, 4);
    LERoundTrip(PFS0_MAGIC, 4);
    LERoundTrip(count, 4);
    LERoundTrip(names, 4);
  }

  lemma Cuts(a: seq<byte>, b: seq<byte>, c: seq<byte>, d: seq<byte>)
    ensures var s := a + b + c + d;
      && s[..|a|] == a && s[|a|..|a| + |b|] == b
      && s[|a| + |b|..|a| + |b| + |c|] == c && s[|a| + |b| + |c|..] == d
  {
  }

  /** The entry of file `k`, as the image records it. */
  function EntryOf(files: seq<PartFile>, k: nat): Entry
    requires k < |files|
  {
    Entry(|Data(files[..k])|, |files[k].data|, |Names(files[..k])|)
  }

  lemma EntryFits(files: seq<PartFile>, padding: nat, k: nat)
    requires Storable(files, padding) && k < |files|
    ensures DecodeEntry(EncodeEntry(EntryOf(files, k))) == EntryOf(files, k)
    ensures |Data(files[..k])| + |files[k].data| <= |Data(files)|
  {
    hide DecodeEntry, EncodeEntry;
    NamesSplit(files, k);
    DataSplit(files, k);
    EntryRoundTrip(EntryOf(files, k));
  }

  lemma {:induction false} EntriesOfAt(c: seq<byte>, m: nat, k: nat)
    requires HEADER + ENTRY * m <= |c| && k < m
    ensures EntriesOf(c, m)[k] == DecodeEntry(c[HEADER + ENTRY * k..HEADER + ENTRY * k + ENTRY])
  {
    hide DecodeEntry;
    if k < m - 1 {
      EntriesOfAt(c, m - 1, k);
    }
  }

  /** `entries` are the files' entries, as an image records them. */
  ghost predicate Recorded(entries: seq<Entry>, files: seq<PartFile>) {
    |entries| == |files| && forall k :: 0 <= k < |files| ==> entries[k] == EntryOf(files, k)
  }

  lemma EntriesOfImage(c: seq<byte>, files: seq<PartFile>, padding: nat)
    requires Storable(files, padding) && LaidOut(c, files, padding)
    ensures Recorded(EntriesOf(c, |files|), files)
  {
    assert HEADER + ENTRY * |files| <= |c|;
    hide Storable, LaidOut, EntryOf, EntriesOf;
    forall k | 0 <= k < |files| ensures EntriesOf(c, |files|)[k] == EntryOf(files, k) {
      EntryOfImage(c, files, padding, k);
    }
  }

  lemma EntryOfImage(c: seq<byte>, files: seq<PartFile>, padding: nat, k: nat)
    requires Storable(files, padding) && LaidOut(c, files, padding) && k < |files|
    ensures EntriesOf(c, |files|)[k] == EntryOf(files, k)
  {
    hide Storable, Names, Data, Table, DecodeEntry, EncodeEntry, EntriesOf, LEValue;
    var names := HEADER + ENTRY * |files|;
    EntriesOfAt(c, |files|, k);
    EntryFits(files, padding, k);
    TableAt(files, 0, 0, k);
    SliceOfSlice(c, HEADER, names, ENTRY * k, ENTRY);
  }

  // ---- the directory of an image ------------------------------------------------------------------

  /** The first `i` files, by name, with their places in an image whose data starts at `start`. */
  function Directory(files: seq<PartFile>, start: nat, i: nat): map<Name, Entry>
    requires i <= |files|
  {
    if i == 0 then map[] else
    var e := EntryOf(files, i - 1);
    Directory(files, start, i - 1)[files[i - 1].name := Entry(start + e.offset, e.size, e.nameOffset)]
  }

  lemma {:induction false} DirectoryKeys(files: seq<PartFile>, start: nat, i: nat, name: Name)
    requires i <= |files|
    ensures name in Directory(files, start, i) <==> exists k :: 0 <= k < i && files[k].name == name
  {
    if i > 0 {
      DirectoryKeys(files, start, i - 1, name);
    }
  }

  lemma {:induction false} DirectoryAt(files: seq<PartFile>, start: nat, i: nat, k: nat)
    requires k < i <= |files|
    requires forall k, l :: 0 <= k < l < |files| ==> files[k].name != files[l].name
    ensures files[k].name in Directory(files, start, i)
    ensures Directory(files, start, i)[files[k].name] == EntryOf(files, k).(offset := start + EntryOf(files, k).offset)
  {
    if k < i - 1 {
      DirectoryAt(files, start, i - 1, k);
    }
  }

  lemma EntryStaysBelow(files: seq<PartFile>, padding: nat, start: nat, i: nat)
    requires Storable(files, padding) && start < U32_LIMIT && i < |files|
    ensures start + EntryOf(files, i).offset < U64_LIMIT
  {
    hide Names, Data;
    DataSplit(files, i);
  }

  lemma NewName(files: seq<PartFile>, padding: nat, start: nat, i: nat)
    requires Storable(files, padding) && i < |files|
    ensures files[i].name !in Directory(files, start, i)
  {
    hide Names, Data, Directory;
    DirectoryKeys(files, start, i, files[i].name);
  }

  lemma EnteredOneMore(files: seq<PartFile>, padding: nat, start: nat, i: nat)
    requires Storable(files, padding) && start < U32_LIMIT && i < |files|
    ensures Entered(Directory(files, start, i), files[i].name, start, EntryOf(files, i))
         == Directory(files, start, i + 1)
  {
    hide Storable, EntryOf;
    EntryStaysBelow(files, padding, start, i);
    NewName(files, padding, start, i);
  }

  lemma NameInTable(files: seq<PartFile>, padding: nat, table: seq<byte>, i: nat)
    requires Storable(files, padding) && table == Names(files) + Zeros(padding) && i < |files|
    ensures HasName(table, |Names(files[..i])|) && table != []
    ensures UpToNul(table[|Names(files[..i])|..]) == files[i].name
  {
    hide Names, Zeros, UpToNul;
    NamesSplit(files, i);
    var name, after := files[i].name, Names(files[i + 1..]);
    var from := |Names(files[..i])|;
    assert table[from..] == name + [0] + (after + Zeros(padding));
    assert table[from..][|name|] == 0;
    UpToNulOfName(name, after + Zeros(padding));
  }

  lemma CollectedStep(files: seq<PartFile>, padding: nat, entries: seq<Entry>, table: seq<byte>, start: nat, i: nat)
    requires Storable(files, padding) && start < U32_LIMIT && i < |files|
    requires table == Names(files) + Zeros(padding) && Recorded(entries, files)
    ensures Collected(entries, table, start, i, Directory(files, start, i))
         == Collected(entries, table, start, i + 1, Directory(files, start, i + 1))
  {
    hide Names, Data, Zeros, UpToNul, HasName, Directory, Entered;
    NameInTable(files, padding, table, i);
    EnteredOneMore(files, padding, start, i);
    assert entries[i] == EntryOf(files, i) && entries[i].size != 0;
  }

  lemma {:induction false} CollectedIsDirectory(files: seq<PartFile>, padding: nat, entries: seq<Entry>,
                                                table: seq<byte>, start: nat, i: nat)
    requires Storable(files, padding) && start < U32_LIMIT && i <= |files|
    requires table == Names(files) + Zeros(padding) && Recorded(entries, files)
    ensures Collected(entries, table, start, i, Directory(files, start, i))
         == Loaded(Directory(files, start, |files|), start, 0, true)
    decreases |files| - i
  {
    assert |entries| == |files|;
    if i < |files| {
      hide *;
      CollectedStep(files, padding, entries, table, start, i);
      CollectedIsDirectory(files, padding, entries, table, start, i + 1);
    }
  }

  lemma ParseReachesEntries(c: seq<byte>, files: seq<PartFile>, padding: nat)
    requires Storable(files, padding) && LaidOut(c, files, padding)
    ensures Parse(c) == ParseEntries(c, |files|, |Names(files)| + padding)
  {
    hide ParseEntries, Names, Data, Table, LEValue;
  }

  lemma TableIsRead(c: seq<byte>, files: seq<PartFile>, padding: nat)
    requires LaidOut(c, files, padding)
    ensures var names := HEADER + ENTRY * |files|;
      && names <= |c| && Has(c, names, |Names(files)| + padding)
      && Available(c, names, |Names(files)| + padding) == Names(files) + Zeros(padding)
  {
    hide Names, Data, Table, LEValue, Zeros;
    var names, start := HEADER + ENTRY * |files|, DataStart(files, padding);
    assert Available(c, names, |Names(files)| + padding) == c[names..start];
  }

  lemma EntriesParseToDirectory(c: seq<byte>, files: seq<PartFile>, padding: nat)
    requires Storable(files, padding) && LaidOut(c, files, padding) && |files| <= MAX_ENTRIES_COUNT + 1
    ensures var start := DataStart(files, padding) % U32_LIMIT;
      ParseEntries(c, |files|, |Names(files)| + padding)
      == Loaded(Directory(files, start, |files|), start, Min(|files|, MAX_ENTRIES_COUNT), true)
  {
    hide Has, Available, LaidOut, Storable, Recorded, Names, Zeros, Collected, EntriesOf, Directory, EntryOf;
    var start := DataStart(files, padding) % U32_LIMIT;
    EntriesOfImage(c, files, padding);
    TableIsRead(c, files, padding);
    EmptyDirectory(files, start);
    CollectedIsDirectory(files, padding, EntriesOf(c, |files|), Names(files) + Zeros(padding), start, 0);
  }

  lemma EmptyDirectory(files: seq<PartFile>, start: nat)
    ensures Directory(files, start, 0) == map[]
  {
  }

  /** The parse inverts the image of up to seventeen files. */
  lemma ParseInvertsImage(files: seq<PartFile>, padding: nat)
    requires Storable(files, padding) && |files| <= MAX_ENTRIES_COUNT + 1
    ensures var start := DataStart(files, padding) % U32_LIMIT;
      Parse(Image(files, padding))
      == Loaded(Directory(files, start, |files|), start, Min(|files|, MAX_ENTRIES_COUNT), true)
  {
    hide *;
    ImageIsLaidOut(files, padding);
    ParseReachesEntries(Image(files, padding), files, padding);
    EntriesParseToDirectory(Image(files, padding), files, padding);
  }

  /** `dir` lists the file, and its window in `c` holds exactly the file's bytes. */
  ghost predicate Serves(dir: map<Name, Entry>, c: seq<byte>, file: PartFile) {
    file.name in dir && Inside(c, dir[file.name]) && BytesOf(c, dir[file.name]) == file.data
  }

  /** Exactly the files' names are listed, and every file is served. */
  ghost predicate Faithful(dir: map<Name, Entry>, c: seq<byte>, files: seq<PartFile>) {
    && (forall name :: name in dir <==> exists k :: 0 <= k < |files| && files[k].name == name)
    && (forall k :: 0 <= k < |files| ==> Serves(dir, c, files[k]))
  }

  lemma FileServed(c: seq<byte>, files: seq<PartFile>, padding: nat, start: nat, k: nat)
    requires Storable(files, padding) && k < |files| && start <= |c| && c[start..] == Data(files)
    ensures Serves(Directory(files, start, |files|), c, files[k])
  {
    hide Data, Names, Directory, Storable;
    NamesDiffer(files, padding);
    DirectoryAt(files, start, |files|, k);
    DataInImage(c, files, start, k);
  }

  lemma NamesDiffer(files: seq<PartFile>, padding: nat)
    requires Storable(files, padding)
    ensures forall k, l :: 0 <= k < l < |files| ==> files[k].name != files[l].name
  {
  }

  lemma DirectoryIsFaithful(c: seq<byte>, files: seq<PartFile>, padding: nat, start: nat)
    requires Storable(files, padding) && start <= |c| && c[start..] == Data(files)
    ensures Faithful(Directory(files, start, |files|), c, files)
  {
    hide Data, Names, Directory, Serves, Storable;
    forall name
      ensures name in Directory(files, start, |files|) <==> exists k :: 0 <= k < |files| && files[k].name == name
    {
      DirectoryKeys(files, start, |files|, name);
    }
    forall k | 0 <= k < |files| ensures Serves(Directory(files, start, |files|), c, files[k]) {
      FileServed(c, files, padding, start, k);
    }
  }

  /** Parsing the image of up to seventeen files whose data starts below 2^32 gives a directory that lists
      exactly their names and serves exactly their bytes. */
  lemma ImageRoundTrip(files: seq<PartFile>, padding: nat)
    requires Storable(files, padding) && |files| <= MAX_ENTRIES_COUNT + 1 && DataStart(files, padding) < U32_LIMIT
    ensures var c, r := Image(files, padding), Parse(Image(files, padding));
      r.Loaded? && r.whole && Faithful(r.files, c, files)
  {
    hide Image, Parse, Data, Names, Table, Zeros, LEValue, Directory, Storable, Faithful;
    ParseInvertsImage(files, padding);
    ImageIsLaidOut(files, padding);
    DirectoryIsFaithful(Image(files, padding), files, padding, DataStart(files, padding));
  }

  lemma DataInImage(c: seq<byte>, files: seq<PartFile>, start: nat, k: nat)
    requires k < |files| && start <= |c| && c[start..] == Data(files)
    ensures var at := start + |Data(files[..k])|;
      at + |files[k].data| <= |c| && c[at..at + |files[k].data|] == files[k].data
  {
    hide Data;
    DataSplit(files, k);
    var before, data := Data(files[..k]), files[k].data;
    assert c[start..][|before|..|before| + |data|] == data;
    SliceOfSlice(c, start, |c|, |before|, |data|);
  }

  // ---- exactly when the parse is right ------------------------------------------------------------

  lemma {:induction false} CollectedAtMost(entries: seq<Entry>, table: seq<byte>, start: nat, i: nat, files: map<Name,
      Entry>)
    requires i <= |entries|
    ensures var r := Collected(entries, table, start, i, files);
      r.Loaded? ==> |r.files| <= |files| + |entries| - i
    decreases |entries| - i
  {
    hide UpToNul;
    if i < |entries| {
      var e := entries[i];
      if e.size != 0 && (table != [] || e.nameOffset != 0) && HasName(table, e.nameOffset) {
        CollectedAtMost(entries, table, start, i + 1, Entered(files, UpToNul(table[e.nameOffset..]), start, e));
      }
    }
  }

  lemma {:induction false} DistinctNamesFill(files: seq<PartFile>, names: set<Name>)
    requires forall k, l :: 0 <= k < l < |files| ==> files[k].name != files[l].name
    requires forall k :: 0 <= k < |files| ==> files[k].name in names
    ensures |files| <= |names|
    decreases |files|
  {
    if files != [] {
      var n := |files| - 1;
      DistinctNamesFill(files[..n], names - {files[n].name});
    }
  }

  /** What any image parses to: at most seventeen names, and data that starts behind seventeen entries. */
  lemma ParseOfLongImage(files: seq<PartFile>, padding: nat)
    requires Storable(files, padding) && |files| > MAX_ENTRIES_COUNT + 1
    ensures var r := Parse(Image(files, padding));
      r.Loaded? ==> |r.files| <= MAX_ENTRIES_COUNT + 1 && r.dataoffset < DataStart(files, padding)
  {
    hide Image, Names, Data, Table, Zeros, LEValue, EntriesOf, Collected, LaidOut;
    var c := Image(files, padding);
    ImageIsLaidOut(files, padding);
    ParseReachesEntries(c, files, padding);
    var n, strTableSize := MAX_ENTRIES_COUNT + 1, |Names(files)| + padding;
    if HEADER + ENTRY * n <= |c| && Has(c, HEADER + ENTRY * n, strTableSize) {
      var table := Available(c, HEADER + ENTRY * n, strTableSize);
      CollectedAtMost(EntriesOf(c, n), table, (HEADER + ENTRY * n + |table|) % U32_LIMIT, 0, map[]);
    }
  }

  /** The parse of an image is loaded with every file's name exactly when there are at most seventeen files. */
  lemma ListsEveryFileIff(files: seq<PartFile>, padding: nat)
    requires Storable(files, padding)
    ensures var r := Parse(Image(files, padding));
      (r.Loaded? && forall k :: 0 <= k < |files| ==> files[k].name in r.files) <==> |files| <= MAX_ENTRIES_COUNT + 1
  {
    var r := Parse(Image(files, padding));
    assert forall k, l :: 0 <= k < l < |files| ==> files[k].name != files[l].name;
    hide Image, Parse, Names, Data, Directory, Storable;
    if |files| <= MAX_ENTRIES_COUNT + 1 {
      ParseInvertsImage(files, padding);
      forall k | 0 <= k < |files| ensures files[k].name in r.files {
        DirectoryAt(files, DataStart(files, padding) % U32_LIMIT, |files|, k);
      }
    } else {
      ParseOfLongImage(files, padding);
      if r.Loaded? && forall k :: 0 <= k < |files| ==> files[k].name in r.files {
        DistinctNamesFill(files, r.files.Keys);
      }
    }
  }

  /** The data offset is that of the image exactly when, moreover, it fits 32 bits. */
  lemma DataIsFoundIff(files: seq<PartFile>, padding: nat)
    requires Storable(files, padding)
    ensures var r := Parse(Image(files, padding));
      r.Loaded? && r.dataoffset == DataStart(files, padding)
      <==> |files| <= MAX_ENTRIES_COUNT + 1 && DataStart(files, padding) < U32_LIMIT
  {
    hide Image, Parse, Names, Data, Directory, Storable, DataStart;
    if |files| <= MAX_ENTRIES_COUNT + 1 {
      ParseInvertsImage(files, padding);
    } else {
      ParseOfLongImage(files, padding);
    }
  }

  // ---- opening the files of an image --------------------------------------------------------------

  /** Loading an image and opening one name in it, as a caller does. */
  method LoadAndOpen(file: BackingFile, name: Name, pathExists: bool) returns (loaded: bool, r: Opened)
    ensures loaded == Parse(file.contents).Loaded?
    ensures loaded ==> var p := Parse(file.contents);
      var shown := ShownBy(p.files, p.whole, file.contents, name);
      && (r.NoFile? <==> shown.Nothing?) && (r.Abort? <==> shown.Fails?)
      && (r.File? ==> r.window.Valid() && r.window.filesrc == file && shown == Bytes(r.window.Window()))
  {
    hide Parse, ShownBy;
    var fs := new PartitionFileSystem(file);
    loaded := fs.Load();
    r := Abort;
    if loaded {
      r := fs.OpenFile(name, pathExists);
    }
  }

  /** Every file of an image whose data starts below 2^32 opens as exactly its bytes, exactly when there are at most
      seventeen files and no name holds a slash. */
  lemma EveryFileOpensIff(files: seq<PartFile>, padding: nat)
    requires Storable(files, padding) && DataStart(files, padding) < U32_LIMIT
    ensures var c, p := Image(files, padding), Parse(Image(files, padding));
      (p.Loaded?
       && forall k :: 0 <= k < |files| ==> ShownBy(p.files, p.whole, c, files[k].name) == Bytes(files[k].data))
      <==> |files| <= MAX_ENTRIES_COUNT + 1 && forall k :: 0 <= k < |files| ==> '/' as int !in files[k].name
  {
    hide Image, Parse, Storable, DataStart, Inside, BytesOf;
    ListsEveryFileIff(files, padding);
    if |files| <= MAX_ENTRIES_COUNT + 1 {
      ImageRoundTrip(files, padding);
    }
  }

  /** No other name opens anything. */
  lemma OtherNamesOpenNothing(files: seq<PartFile>, padding: nat, name: Name)
    requires Storable(files, padding) && |files| <= MAX_ENTRIES_COUNT + 1
    requires forall k :: 0 <= k < |files| ==> files[k].name != name
    ensures var c, p := Image(files, padding), Parse(Image(files, padding));
      p.Loaded? && ShownBy(p.files, p.whole, c, name) == Nothing
  {
    hide Image, Parse, Storable, DataStart, Directory;
    ParseInvertsImage(files, padding);
    DirectoryKeys(files, DataStart(files, padding) % U32_LIMIT, |files|, name);
  }
}
