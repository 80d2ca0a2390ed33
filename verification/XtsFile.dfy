/** Sector reads of an XTS-encrypted file, over runs of reads: the cipher keeps its sector size from one read to
    the next. */
module XtsFile {
  import opened Bytes
  import opened VirtualFiles
  import opened Cipher = AesCipher

  /** The start sectors that leave a sector size of 0x200 alone. */
  predicate KeepsSectorSize(sector: nat) {
    sector == 0 || sector % 16 != 0 || sector == SECTOR
  }

  // ---- the reference ----------------------------------------------------------------------

  /** Byte `i` of the file under the standard: its data unit, decrypted under the unit's number. */
  function PlainByte(keys: Keys, shown: seq<byte>, i: nat): byte
    requires i / SECTOR * SECTOR + SECTOR <= |shown|
  {
    var p := i / SECTOR * SECTOR;
    keys.unit(UnitTweak(i / SECTOR), shown[p..p + SECTOR], i % SECTOR)
  }

  lemma SectorOf(k: nat, j: nat)
    ensures (k * SECTOR + j) / SECTOR == k + j / SECTOR && (k * SECTOR + j) % SECTOR == j % SECTOR
  {
  }

  /** Byte `j` of `size` bytes from a sector on. */
  function PlainAt(keys: Keys, shown: seq<byte>, sector: nat, size: nat, j: nat): byte
    requires sector * SECTOR + size <= |shown| && size % SECTOR == 0 && j < size
  {
    SectorOf(sector, j);
    PlainByte(keys, shown, sector * SECTOR + j)
  }

  function PlainBytes(keys: Keys, shown: seq<byte>, sector: nat, size: nat): (r: seq<byte>)
    requires sector * SECTOR + size <= |shown| && size % SECTOR == 0
    ensures |r| == size
  {
    seq(size, j requires 0 <= j < size => PlainAt(keys, shown, sector, size, j))
  }

  /** Which bytes those are does not depend on how the range is split. */
  lemma PlainBytesSplit(keys: Keys, shown: seq<byte>, sector: nat, a: nat, b: nat)
    requires sector * SECTOR + a * SECTOR + b <= |shown| && b % SECTOR == 0
    ensures PlainBytes(keys, shown, sector, a * SECTOR + b)
         == PlainBytes(keys, shown, sector, a * SECTOR) + PlainBytes(keys, shown, sector + a, b)
  {
    hide PlainByte;
    var whole, rest := PlainBytes(keys, shown, sector, a * SECTOR + b), PlainBytes(keys, shown, sector + a, b);
    forall j | 0 <= j < b ensures whole[a * SECTOR + j] == rest[j] {
      assert sector * SECTOR + (a * SECTOR + j) == (sector + a) * SECTOR + j;
    }
  }

  // ---- one read ---------------------------------------------------------------------------

  /** A read of whole sectors. */
  datatype Read = Read(sector: nat, size: nat)

  /** The tweak that a read starts with. */
  function TweakOf(sectorsz: nat, r: Read): nat
    requires sectorsz > 0
  {
    r.sector * SECTOR / sectorsz
  }

  /** The sector size after a read; an empty read never reaches the cipher. */
  function SizeAfter(sectorsz: nat, r: Read): (next: nat)
    requires sectorsz > 0
    ensures next > 0
  {
    if r.size == 0 then sectorsz else NextSectorSize(sectorsz, TweakOf(sectorsz, r))
  }

  /** What a read leaves in its buffer. `extra` is what followed the request there: the last data unit is
      decrypted whole. */
  function Obtained(keys: Keys, shown: seq<byte>, sectorsz: nat, r: Read, extra: seq<byte>): (d: seq<byte>)
    requires sectorsz > 0 && r.sector * SECTOR + r.size <= |shown|
    ensures |d| == r.size
  {
    Sectors(keys, shown[r.sector * SECTOR..r.sector * SECTOR + r.size] + extra,
            TweakOf(sectorsz, r), SizeAfter(sectorsz, r))[..r.size]
  }

  /** How far the last data unit reaches behind the request. */
  function ExtraOf(sectorsz: nat, r: Read): nat
    requires sectorsz > 0
  {
    WholeUp(r.size, SizeAfter(sectorsz, r)) - r.size
  }

  ghost predicate WholeSectors(r: Read) {
    r.size % SECTOR == 0 && r.sector * SECTOR + r.size < U64_LIMIT
  }

  /** The read gives the bytes of the standard, whatever the keys and the contents. */
  ghost predicate AlwaysPlain(sectorsz: nat, r: Read)
    requires sectorsz > 0 && WholeSectors(r)
  {
    forall keys, shown, extra |
      r.sector * SECTOR + r.size <= |shown| && |extra| == ExtraOf(sectorsz, r) ::
      Obtained(keys, shown, sectorsz, r, extra) == PlainBytes(keys, shown, r.sector, r.size)
  }

  /** A sector-aligned read that keeps the sector size decrypts every byte as the standard says,
      whatever range it was part of. */
  lemma SectorReadIsPlain(keys: Keys, shown: seq<byte>, sector: nat, size: nat)
    requires sector * SECTOR + size <= |shown| && size % SECTOR == 0
    ensures Sectors(keys, shown[sector * SECTOR..sector * SECTOR + size], sector, SECTOR)
         == PlainBytes(keys, shown, sector, size)
  {
    hide Sectors, NintendoTweak, UnitTweak;
    var from := sector * SECTOR;
    var data := shown[from..from + size];
    forall j | 0 <= j < size
      ensures Sectors(keys, data, sector, SECTOR)[j] == PlainBytes(keys, shown, sector, size)[j]
    {
      SectorsAreDataUnits(keys, data, sector, j);
      SectorOf(sector, j);
      SliceOfSlice(shown, from, from + size, j / SECTOR * SECTOR, SECTOR);
    }
  }

  /** Byte `j` of such a read, spelled out: its data unit decrypted under eight zeros and the unit's number. */
  lemma ReadByteOfUnit(keys: Keys, shown: seq<byte>, sector: nat, size: nat, j: nat, w: seq<byte>)
    requires sector * 0x200 + size <= |shown| && size % 0x200 == 0 && j < size
    requires IsTweak(w, sector + j / 0x200)
    ensures var from := (sector + j / 0x200) * 0x200;
      && from + 0x200 <= |shown|
      && Sectors(keys, shown[sector * 0x200..sector * 0x200 + size], sector, 0x200)[j]
         == keys.unit(w, shown[from..from + 0x200], j % 0x200)
  {
    hide Sectors, NintendoTweak, UnitTweak, IsTweak;
    SectorReadIsPlain(keys, shown, sector, size);
    TweakIsUnique(w, sector + j / 0x200);
    SectorOf(sector, j);
    assert PlainBytes(keys, shown, sector, size)[j] == PlainAt(keys, shown, sector, size, j);
  }

  /** The first byte of a read comes from one library call, on a whole data unit or a stride of it. */
  lemma FirstByte(keys: Keys, data: seq<byte>, tweak: nat, unit: nat)
    requires 0 < unit <= |data|
    ensures Sectors(keys, data, tweak, unit)[0]
         == keys.unit(NintendoTweak(tweak), data[..Min(unit, STRIDE)], 0)
  {
    var head, n := data[..unit], Min(unit, STRIDE);
    assert head[..n] == data[..n];
    assert UnderTweak(keys, NintendoTweak(tweak), head)[0] == Unit(keys.unit, NintendoTweak(tweak), head[..n])[0];
  }

  lemma FirstObtained(keys: Keys, shown: seq<byte>, sectorsz: nat, r: Read, extra: seq<byte>)
    requires sectorsz > 0 && r.size > 0 && r.sector * SECTOR + r.size <= |shown|
    requires SizeAfter(sectorsz, r) <= r.size + |extra|
    ensures var unit, from := SizeAfter(sectorsz, r), r.sector * SECTOR;
      var data := shown[from..from + r.size] + extra;
      Obtained(keys, shown, sectorsz, r, extra)[0]
      == keys.unit(NintendoTweak(TweakOf(sectorsz, r)), data[..Min(unit, STRIDE)], 0)
  {
    hide Sectors, NintendoTweak, SizeAfter, TweakOf;
    var unit := SizeAfter(sectorsz, r);
    FirstByte(keys, shown[r.sector * SECTOR..r.sector * SECTOR + r.size] + extra, TweakOf(sectorsz, r), unit);
  }

  lemma AtLeastOneUnit(n: nat, unit: nat)
    requires n > 0 && unit > 0
    ensures unit <= WholeUp(n, unit) && n <= WholeUp(n, unit)
  {
    hide WholeUp;
    WholeUpFacts(n, unit);
    WholeUnitsLeft(WholeUp(n, unit), unit);
  }

  lemma FirstPlain(keys: Keys, shown: seq<byte>, r: Read)
    requires WholeSectors(r) && r.size > 0 && r.sector * SECTOR + r.size <= |shown|
    ensures r.sector * SECTOR + SECTOR <= |shown|
    ensures PlainBytes(keys, shown, r.sector, r.size)[0]
         == keys.unit(NintendoTweak(r.sector), shown[r.sector * SECTOR..r.sector * SECTOR + SECTOR], 0)
  {
    hide NintendoTweak, UnitTweak;
    TweakIsUnitTweak(r.sector);
    SectorOf(r.sector, 0);
    assert PlainBytes(keys, shown, r.sector, r.size)[0] == PlainAt(keys, shown, r.sector, r.size, 0);
  }

  /** A data-unit function that answers whether it was given a whole sector. */
  function LengthRevealing(): Keys {
    Keys((block: seq<byte>, i: nat) => 0,
         (tweak: seq<byte>, data: seq<byte>, i: nat) => if |data| == SECTOR then 1 else 0)
  }

  /** ... and one that answers whether it was given a certain tweak. */
  function TweakRevealing(t: seq<byte>): Keys {
    Keys((block: seq<byte>, i: nat) => 0,
         (tweak: seq<byte>, data: seq<byte>, i: nat) => if tweak == t then 1 else 0)
  }

  lemma TweaksDiffer(a: nat, b: nat)
    requires a < U64_LIMIT && b < U64_LIMIT && a != b
    ensures NintendoTweak(a) != NintendoTweak(b)
  {
    Pow256Values();
    BERoundTrip(a, 8);
    BERoundTrip(b, 8);
    assert NintendoTweak(a)[8..] == BE(a, 8) && NintendoTweak(b)[8..] == BE(b, 8);
  }

  /** Data that is cut at another size comes out differently. */
  lemma OtherSizeShows(sectorsz: nat, r: Read)
    requires sectorsz > 0 && WholeSectors(r) && r.size > 0 && SizeAfter(sectorsz, r) != SECTOR
    ensures !AlwaysPlain(sectorsz, r)
  {
    hide NintendoTweak, SizeAfter, TweakOf, WholeUp, WholeUnits, Obtained, PlainBytes;
    var keys, unit := LengthRevealing(), SizeAfter(sectorsz, r);
    var shown, extra := Zeros(r.sector * SECTOR + r.size), Zeros(ExtraOf(sectorsz, r));
    AtLeastOneUnit(r.size, unit);
    FirstObtained(keys, shown, sectorsz, r, extra);
    FirstPlain(keys, shown, r);
    assert Obtained(keys, shown, sectorsz, r, extra) != PlainBytes(keys, shown, r.sector, r.size);
  }

  /** Data that is decrypted under another number comes out differently. */
  lemma OtherTweakShows(sectorsz: nat, r: Read)
    requires sectorsz > 0 && WholeSectors(r) && r.size > 0
    requires TweakOf(sectorsz, r) < U64_LIMIT && TweakOf(sectorsz, r) != r.sector
    ensures !AlwaysPlain(sectorsz, r)
  {
    hide NintendoTweak, SizeAfter, TweakOf, WholeUp, WholeUnits, Obtained, PlainBytes;
    var tweak, unit := TweakOf(sectorsz, r), SizeAfter(sectorsz, r);
    var keys := TweakRevealing(NintendoTweak(tweak));
    var shown, extra := Zeros(r.sector * SECTOR + r.size), Zeros(ExtraOf(sectorsz, r));
    AtLeastOneUnit(r.size, unit);
    FirstObtained(keys, shown, sectorsz, r, extra);
    FirstPlain(keys, shown, r);
    TweaksDiffer(tweak, r.sector);
    assert Obtained(keys, shown, sectorsz, r, extra) != PlainBytes(keys, shown, r.sector, r.size);
  }

  /** Exactly when one read is right: the cipher still has sectors of 0x200 bytes, and the start sector keeps them. */
  lemma ReadIsPlainIff(sectorsz: nat, r: Read)
    requires sectorsz > 0 && WholeSectors(r)
    ensures AlwaysPlain(sectorsz, r) <==> r.size == 0 || (sectorsz == SECTOR && KeepsSectorSize(r.sector))
  {
    if r.size == 0 || (sectorsz == SECTOR && KeepsSectorSize(r.sector)) {
      KeptReadIsPlain(sectorsz, r);
    } else if SizeAfter(sectorsz, r) != SECTOR {
      OtherSizeShows(sectorsz, r);
    } else {
      OnlySizeCame(sectorsz, r);
      OtherTweakShows(sectorsz, r);
    }
  }

  /** A sector size that became 0x200 by a tweak of 0x200 was 0x200 before, or the tweak is not the sector. */
  lemma OnlySizeCame(sectorsz: nat, r: Read)
    requires sectorsz > 0 && WholeSectors(r) && r.size > 0 && SizeAfter(sectorsz, r) == SECTOR
    requires !(sectorsz == SECTOR && KeepsSectorSize(r.sector))
    ensures TweakOf(sectorsz, r) < U64_LIMIT && TweakOf(sectorsz, r) != r.sector
  {
    var from := r.sector * SECTOR;
    assert sectorsz == SECTOR ==> TweakOf(sectorsz, r) == r.sector;
    assert sectorsz != SECTOR;
    assert from / sectorsz == SECTOR;
    assert from == SECTOR * sectorsz + from % sectorsz;
  }

  lemma KeptReadIsPlain(sectorsz: nat, r: Read)
    requires sectorsz > 0 && WholeSectors(r)
    requires r.size == 0 || (sectorsz == SECTOR && KeepsSectorSize(r.sector))
    ensures AlwaysPlain(sectorsz, r)
  {
    hide Sectors, WholeUnits, WholeUp, PlainBytes;
    var from := r.sector * SECTOR;
    forall keys, shown, extra | from + r.size <= |shown| && |extra| == ExtraOf(sectorsz, r)
      ensures Obtained(keys, shown, sectorsz, r, extra) == PlainBytes(keys, shown, r.sector, r.size)
    {
      if r.size > 0 {
        WholeUpOfSectors(r.size);
        assert TweakOf(SECTOR, r) == r.sector && SizeAfter(sectorsz, r) == SECTOR && extra == [];
        SectorReadIsPlain(keys, shown, r.sector, r.size);
        var data := shown[from..from + r.size];
        assert data + extra == data;
      }
    }
  }

  lemma WholeUpOfSectors(size: nat)
    requires size % SECTOR == 0
    ensures WholeUp(size, SECTOR) == size
  {
    WholeUpFacts(size, SECTOR);
  }

  // ---- runs of reads ----------------------------------------------------------------------

  function SizeAfterAll(sectorsz: nat, run: seq<Read>): (next: nat)
    requires sectorsz > 0
    ensures next > 0
    decreases |run|
  {
    if run == [] then sectorsz else SizeAfterAll(SizeAfter(sectorsz, run[0]), run[1..])
  }

  /** Every read of the run, in the state that the ones before left, gives the bytes of the standard. */
  ghost predicate RunIsPlain(sectorsz: nat, run: seq<Read>)
    requires sectorsz > 0 && forall k :: 0 <= k < |run| ==> WholeSectors(run[k])
    decreases |run|
  {
    run == [] || (AlwaysPlain(sectorsz, run[0]) && RunIsPlain(SizeAfter(sectorsz, run[0]), run[1..]))
  }

  /** Over any run of reads from a fresh cipher: all of them are right exactly when every non-empty one starts at
      sector 0, at sector 0x200, or at a sector not divisible by 16. */
  lemma {:induction false} RunIsPlainIff(run: seq<Read>)
    requires forall k :: 0 <= k < |run| ==> WholeSectors(run[k])
    ensures RunIsPlain(SECTOR, run)
       <==> forall k :: 0 <= k < |run| ==> run[k].size == 0 || KeepsSectorSize(run[k].sector)
    ensures RunIsPlain(SECTOR, run) ==> SizeAfterAll(SECTOR, run) == SECTOR
    decreases |run|
  {
    hide AlwaysPlain, WholeSectors;
    if run != [] {
      var r, rest := run[0], run[1..];
      ReadIsPlainIff(SECTOR, r);
      assert forall k :: 0 <= k < |rest| ==> rest[k] == run[k + 1];
      if r.size == 0 || KeepsSectorSize(r.sector) {
        assert TweakOf(SECTOR, r) == r.sector;
        RunIsPlainIff(rest);
        assert forall k :: 0 < k < |run| ==> run[k] == rest[k - 1];
      }
    }
  }

  /** A read of sector 16 leaves sectors of 16 bytes behind, and then a read of sector 1 is wrong too. */
  lemma WrongAfterSectorSixteen()
    ensures var first, second := Read(16, SECTOR), Read(1, SECTOR);
      && !AlwaysPlain(SECTOR, first) && AlwaysPlain(SECTOR, second) && !AlwaysPlain(SizeAfter(SECTOR, first), second)
      && SizeAfter(SECTOR, first) == 16 && SizeAfterAll(SECTOR, [first, second]) == 32
  {
    hide AlwaysPlain, SizeAfter;
    var first, second := Read(16, SECTOR), Read(1, SECTOR);
    ReadIsPlainIff(SECTOR, first);
    ReadIsPlainIff(SECTOR, second);
    ReadIsPlainIff(16, second);
    SizesAfterSixteen();
    assert [first, second][1..] == [second] && [second][1..] == [];
    assert SizeAfterAll(16, [second]) == 32;
  }

  lemma SizesAfterSixteen()
    ensures SizeAfter(SECTOR, Read(16, SECTOR)) == 16 && SizeAfter(16, Read(1, SECTOR)) == 32
  {
  }

  // ---- the file object --------------------------------------------------------------------

  /** What reaches the cipher of a read into `dest`: the bytes fetched, and behind them what `dest` held. */
  ghost function Input(got: seq<byte>, behind: seq<byte>): seq<byte>
    requires |got| <= |behind|
  {
    got + behind[|got|..]
  }

  lemma InputIs(start: seq<byte>, doff: nat, got: seq<byte>, total: nat)
    requires |got| <= total && doff + total <= |start|
    ensures Splice(start, doff, got)[doff..doff + total] == Input(got, start[doff..doff + total])
  {
  }

  lemma InputIsFetched(got: seq<byte>, behind: seq<byte>)
    requires |got| == |behind|
    ensures Input(got, behind) == got
  {
  }

  class XtsFile {
    const encfile: Source
    const decrypt: AesCipher
    var doublebuf: bool

    ghost predicate Valid()
      reads this, decrypt, if encfile.Windowed? then {encfile.window, encfile.window.filesrc} else {encfile.file}
    {
      decrypt.Valid() && decrypt.mode == Xts && ValidSource(encfile)
    }

    constructor (file: BackingFile, keys: Keys, starts: nat, size: nat, isHuge: bool)
      requires starts > 0 && size > 0 ==> starts + size <= |file.contents|
      ensures Valid() && decrypt.keys == keys && decrypt.sectorsz == SECTOR && !doublebuf
      ensures fresh(decrypt) && fresh(decrypt.auxbuffer)
      ensures Shown(encfile) == if starts > 0 && size > 0 then file.contents[starts..starts + size] else file.contents
    {
      var source := Whole(file);
      if starts > 0 && size > 0 {
        var window := new OffsetFile(file, starts, size, isHuge);
        source := Windowed(window);
      }
      encfile := source;
      decrypt := new AesCipher(keys, Xts);
      doublebuf := false;
    }

    /** What a request meets at the cipher: its first tweak, the sector size, and the length of its whole data units. */
    ghost predicate Meets(size: nat, offset: nat, tweak: nat, unit: nat, total: nat)
      requires Valid()
      reads this, decrypt, if encfile.Windowed? then {encfile.window, encfile.window.filesrc} else {encfile.file}
    {
      && tweak == offset / decrypt.sectorsz && unit == NextSectorSize(decrypt.sectorsz, tweak)
      && unit > 0 && total == WholeUp(size, unit)
    }

    /** The encrypted bytes are read into `dest` and decrypted where they lie. */
    method ReadInPlace(dest: array<byte>, doff: nat, size: nat, offset: nat,
                       ghost tweak: nat, ghost unit: nat, ghost total: nat) returns (count: nat)
      requires Valid() && dest != decrypt.auxbuffer && Meets(size, offset, tweak, unit, total)
      requires doff + total <= dest.Length
      modifies decrypt, dest, decrypt.auxbuffer
      ensures Valid() && (decrypt.auxbuffer == old(decrypt.auxbuffer) || fresh(decrypt.auxbuffer))
      ensures var got := Fetched(encfile.Windowed?, Shown(encfile), offset, size);
        && |got| <= total && count == (if got == [] then 0 else size) && unit > 0
        && decrypt.sectorsz == (if got == [] then old(decrypt.sectorsz) else unit)
        && Stored(dest, doff, if got == [] then [] else
             Sectors(decrypt.keys, Input(got, old(dest[doff..doff + total])), tweak, unit))
    {
      hide Splice, Sectors, NextSectorSize, Shown, ValidSource, Fetched, Input;
      ghost var start := dest[..];
      ghost var got := Fetched(encfile.Windowed?, Shown(encfile), offset, size);
      SpliceNothing(start, doff, []);
      InputIs(start, doff, got, total);
      var fetched := ReadSource(encfile, dest, doff, size, offset);
      if fetched == 0 {
        return 0;
      }
      var processed := decrypt.ProcessXts(dest, doff, dest, doff, size, offset);
      SpliceTwice(start, doff, got, Sectors(decrypt.keys, Input(got, start[doff..doff + total]), tweak, unit));
      count := size;
    }

    /** The encrypted bytes are read into a second buffer, which must be filled, and decrypted from there. */
    method ReadThroughBuffer(dest: array<byte>, doff: nat, size: nat, offset: nat,
                             ghost tweak: nat, ghost unit: nat) returns (ok: bool, count: nat)
      requires Valid() && dest != decrypt.auxbuffer && Meets(size, offset, tweak, unit, size)
      requires doff + size <= dest.Length
      modifies decrypt, dest, decrypt.auxbuffer
      ensures Valid() && (decrypt.auxbuffer == old(decrypt.auxbuffer) || fresh(decrypt.auxbuffer))
      ensures var got := Fetched(encfile.Windowed?, Shown(encfile), offset, size);
        && ok == (|got| == size) && count == (if ok then size else 0) && unit > 0
        && decrypt.sectorsz == (if !ok || size == 0 then old(decrypt.sectorsz) else unit)
        && Stored(dest, doff, if !ok || size == 0 then [] else Sectors(decrypt.keys, got, tweak, unit))
    {
      hide Splice, Sectors, NextSectorSize, Shown, ValidSource, Fetched;
      SpliceNothing(dest[..], doff, []);
      ghost var got := Fetched(encfile.Windowed?, Shown(encfile), offset, size);
      var ebuffer := new byte[size](_ => 0);
      ghost var blank := ebuffer[..];
      SpliceHolds(blank, 0, got);
      var fetched := ReadSource(encfile, ebuffer, 0, size, offset);
      if fetched != size {
        return false, 0;
      }
      assert ebuffer[0..size] == got;
      if size == 0 {
        return true, 0;
      }
      var processed := decrypt.ProcessXts(dest, doff, ebuffer, 0, size, offset);
      ok, count := true, size;
    }

    /** Either way `dest` receives the decrypted request. Reading through a second buffer fails when the file ends
        early, and then the cipher must not reach past the request. */
    method ReadTypeImpl(dest: array<byte>, doff: nat, size: nat, offset: nat,
                        ghost tweak: nat, ghost unit: nat, ghost total: nat) returns (ok: bool, count: nat)
      requires Valid() && dest != decrypt.auxbuffer && Meets(size, offset, tweak, unit, total)
      requires doff + total <= dest.Length && (doublebuf ==> total == size)
      modifies decrypt, dest, decrypt.auxbuffer
      ensures Valid() && (decrypt.auxbuffer == old(decrypt.auxbuffer) || fresh(decrypt.auxbuffer))
      ensures var got := Fetched(encfile.Windowed?, Shown(encfile), offset, size);
        && |got| <= total && unit > 0 && ok == (doublebuf ==> |got| == size)
        && count == (if !ok || got == [] then 0 else size)
        && decrypt.sectorsz == (if !ok || got == [] then old(decrypt.sectorsz) else unit)
        && Stored(dest, doff, if !ok || got == [] then [] else
             Sectors(decrypt.keys, Input(got, old(dest[doff..doff + total])), tweak, unit))
      ensures old(decrypt.sectorsz) == SECTOR && KeptRange(Shown(encfile), offset, size) ==>
        && ok && count == size && decrypt.sectorsz == SECTOR
        && Stored(dest, doff, PlainBytes(decrypt.keys, Shown(encfile), offset / SECTOR, size))
    {
      hide Splice, Sectors, NextSectorSize, Shown, ValidSource, Fetched, WholeUp, KeptRange, PlainBytes;
      ghost var got, behind := Fetched(encfile.Windowed?, Shown(encfile), offset, size), dest[doff..doff + total];
      if decrypt.sectorsz == SECTOR && KeptRange(Shown(encfile), offset, size) {
        KeptRangeFacts(Shown(encfile), offset, size);
        KeptRangeIsPlain(decrypt.keys, encfile.Windowed?, Shown(encfile), offset, size, behind);
      }
      if doublebuf {
        ok, count := ReadThroughBuffer(dest, doff, size, offset, tweak, unit);
        if ok {
          InputIsFetched(got, behind);
        }
      } else {
        ok := true;
        count := ReadInPlace(dest, doff, size, offset, tweak, unit, total);
      }
    }
  }

  /** Whole sectors of the file, from a start sector that keeps the sector size. */
  ghost predicate KeptRange(shown: seq<byte>, offset: nat, size: nat) {
    offset % SECTOR == 0 && size % SECTOR == 0 && offset + size <= |shown| && KeepsSectorSize(offset / SECTOR)
  }

  lemma KeptRangeFacts(shown: seq<byte>, offset: nat, size: nat)
    requires KeptRange(shown, offset, size)
    ensures offset / SECTOR * SECTOR == offset && NextSectorSize(SECTOR, offset / SECTOR) == SECTOR
    ensures WholeUp(size, SECTOR) == size
  {
    WholeUpOfSectors(size);
  }

  lemma KeptRangeIsPlain(keys: Keys, windowed: bool, shown: seq<byte>, offset: nat, size: nat, behind: seq<byte>)
    requires KeptRange(shown, offset, size) && |behind| == size
    ensures var got := Fetched(windowed, shown, offset, size);
      && |got| == size
      && Sectors(keys, Input(got, behind), offset / SECTOR, SECTOR) == PlainBytes(keys, shown, offset / SECTOR, size)
  {
    hide Sectors, PlainBytes;
    KeptRangeFacts(shown, offset, size);
    InputIsFetched(shown[offset..offset + size], behind);
    SectorReadIsPlain(keys, shown, offset / SECTOR, size);
  }

  /** A request for whole sectors inside the file is one read of a run. */
  lemma RequestIsRead(keys: Keys, windowed: bool, shown: seq<byte>, sectorsz: nat, r: Read, behind: seq<byte>)
    requires sectorsz > 0 && r.size > 0 && r.sector * SECTOR + r.size <= |shown|
    requires |behind| == WholeUp(r.size, NextSectorSize(sectorsz, r.sector * SECTOR / sectorsz))
    ensures SizeAfter(sectorsz, r) == NextSectorSize(sectorsz, r.sector * SECTOR / sectorsz)
    ensures var got := Fetched(windowed, shown, r.sector * SECTOR, r.size);
      && got != [] && |got| <= |behind| && |behind[r.size..]| == ExtraOf(sectorsz, r)
      && Sectors(keys, Input(got, behind), r.sector * SECTOR / sectorsz, SizeAfter(sectorsz, r))[..r.size]
         == Obtained(keys, shown, sectorsz, r, behind[r.size..])
  {
    hide Sectors, NextSectorSize;
  }
}
