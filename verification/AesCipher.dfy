/** The cipher object: strides, and sectors under tweaks (section 5.1 of IEEE Std 1619-2007). */
module AesCipher {
  import opened Bytes
  import opened Keystream

  const STRIDE := 2048
  const SECTOR := 0x200

  datatype AesType = Xts | Ctr | Ecb

  /** Byte `i` of the decryption of one data unit under a tweak. */
  type DataUnit = (seq<byte>, seq<byte>, nat) -> byte

  datatype Keys = Keys(block: BlockCipher, unit: DataUnit)

  function Unit(unit: DataUnit, tweak: seq<byte>, data: seq<byte>): (r: seq<byte>)
    ensures |r| == |data|
  {
    seq(|data|, i requires 0 <= i < |data| => unit(tweak, data, i))
  }

  lemma UnitByte(unit: DataUnit, tweak: seq<byte>, data: seq<byte>, i: nat)
    requires i < |data|
    ensures Unit(unit, tweak, data)[i] == unit(tweak, data, i)
  {
  }

  /** In block mode one block is enciphered; the library is given no more than that. */
  function EcbByte(block: BlockCipher, input: seq<byte>, i: nat): byte {
    if i < BLOCK then block(input, i) else 0
  }

  function EcbBlock(block: BlockCipher, input: seq<byte>): (r: seq<byte>)
    ensures |r| == |input|
  {
    seq(|input|, i requires 0 <= i < |input| => EcbByte(block, input, i))
  }

  /** One call of the library on `input`. */
  function LibraryUpdate(mode: AesType, keys: Keys, c: Running, input: seq<byte>): (r: (Running, seq<byte>))
    requires Sound(c)
    ensures |r.1| == |input| && Sound(r.0)
  {
    match mode
    case Ctr => Update(keys.block, c, input)
    case Xts => (c, Unit(keys.unit, c.iv, input))
    case Ecb => (c, EcbBlock(keys.block, input))
  }

  function StrideOf(mode: AesType): nat {
    if mode == Ecb then BLOCK else STRIDE
  }

  /** `input` fed to the library in strides. */
  function Strides(mode: AesType, keys: Keys, c: Running, input: seq<byte>): (r: (Running, seq<byte>))
    requires Sound(c)
    ensures |r.1| == |input| && Sound(r.0)
    decreases |input|
  {
    if input == [] then (c, [])
    else
      var n := Min(|input|, StrideOf(mode));
      var head := LibraryUpdate(mode, keys, c, input[..n]);
      var tail := Strides(mode, keys, head.0, input[n..]);
      (tail.0, head.1 + tail.1)
  }

  /** The stride loop of counter mode is one pass of counter mode. */
  lemma {:induction false} StridesAreOnePass(keys: Keys, c: Running, input: seq<byte>)
    requires Sound(c)
    ensures Strides(Ctr, keys, c, input) == Update(keys.block, c, input)
    decreases |input|
  {
    if input != [] {
      var n := Min(|input|, STRIDE);
      var head := Update(keys.block, c, input[..n]);
      StridesAreOnePass(keys, head.0, input[n..]);
      UpdateSplits(keys.block, c, input[..n], input[n..]);
      assert input == input[..n] + input[n..];
    }
  }

  lemma FirstBlock(keys: Keys, c: Running, input: seq<byte>)
    requires Sound(c) && |input| >= 16
    ensures Strides(Ecb, keys, c, input)
         == (Strides(Ecb, keys, c, input[16..]).0,
             EcbBlock(keys.block, input[..16]) + Strides(Ecb, keys, c, input[16..]).1)
  {
    hide EcbBlock, Sound;
  }

  lemma BlockByte(block: BlockCipher, input: seq<byte>, i: nat)
    requires i < |input| == 16
    ensures EcbBlock(block, input)[i] == block(input, i)
  {
  }

  /** In block mode every 16 bytes are enciphered on their own. */
  lemma {:induction false} StridesOfBlocks(keys: Keys, c: Running, input: seq<byte>, k: nat, j: nat)
    requires Sound(c) && 16 * k + 16 <= |input| && j < 16
    ensures Strides(Ecb, keys, c, input).1[16 * k + j] == keys.block(input[16 * k..16 * k + 16], j)
    decreases k
  {
    hide Strides, EcbBlock, Sound;
    FirstBlock(keys, c, input);
    if k == 0 {
      BlockByte(keys.block, input[..16], j);
    } else {
      StridesOfBlocks(keys, c, input[16..], k - 1, j);
      assert input[16..][16 * (k - 1)..16 * (k - 1) + 16] == input[16 * k..16 * k + 16];
    }
  }

  /** What is left of `input` at `p` completes `whole`, the result of striding over all of it. */
  ghost predicate RestOf(mode: AesType, keys: Keys, c: Running, input: seq<byte>, p: nat, whole: (Running, seq<byte>)) {
    && p <= |input| == |whole.1| && Sound(c)
    && Strides(mode, keys, c, input[p..]) == (whole.0, whole.1[p..])
  }

  lemma RestAtStart(mode: AesType, keys: Keys, c: Running, input: seq<byte>)
    requires Sound(c)
    ensures RestOf(mode, keys, c, input, 0, Strides(mode, keys, c, input))
  {
    var whole := Strides(mode, keys, c, input);
    assert input[0..] == input && whole.1[0..] == whole.1;
  }

  lemma RestAtEnd(mode: AesType, keys: Keys, c: Running, input: seq<byte>, whole: (Running, seq<byte>))
    requires RestOf(mode, keys, c, input, |input|, whole)
    ensures c == whole.0
  {
  }

  lemma RestStep(mode: AesType, keys: Keys, c: Running, input: seq<byte>, p: nat, n: nat, whole: (Running, seq<byte>))
    requires RestOf(mode, keys, c, input, p, whole) && p < |input| && Sound(c)
    requires n == Min(|input| - p, StrideOf(mode))
    ensures var head := LibraryUpdate(mode, keys, c, input[p..p + n]);
            head.1 == whole.1[p..p + n] && RestOf(mode, keys, head.0, input, p + n, whole)
  {
    assert input[p..][..n] == input[p..p + n] && input[p..][n..] == input[p + n..];
    var head := LibraryUpdate(mode, keys, c, input[p..p + n]);
    var tail := Strides(mode, keys, head.0, input[p + n..]);
    assert head.1 + tail.1 == whole.1[p..];
    assert whole.1[p..][..n] == whole.1[p..p + n] && whole.1[p..][n..] == whole.1[p + n..];
  }

  // ---- data units -------------------------------------------------------------------------

  /** The tweak of a data unit: its number, big-endian, in the low half of a block. */
  function NintendoTweak(t: nat): (r: seq<byte>)
    ensures |r| == BLOCK
  {
    Zeros(8) + BE(t, 8)
  }

  /** Sixteen bytes that stand for unit `n`: eight zeros and then the number, big-endian. */
  ghost predicate IsTweak(w: seq<byte>, n: nat) {
    |w| == 16 && (forall j :: 0 <= j < 8 ==> w[j] == 0) && BEValue(w[8..]) == n
  }

  /** The tweak of the standard, digit by digit. */
  function UnitTweak(n: nat): (r: seq<byte>)
    ensures |r| == 16
  {
    seq(16, j requires 0 <= j < 16 => if j < 8 then 0 else n / Pow256(15 - j) % 256)
  }

  lemma TweakIsUnitTweak(t: nat)
    ensures NintendoTweak(t) == UnitTweak(t)
  {
    hide BE, Pow256;
    forall j | 8 <= j < 16 ensures NintendoTweak(t)[j] == UnitTweak(t)[j] {
      BEPosition(t, 8, j - 8);
    }
  }

  lemma TweakParts(t: nat)
    requires t < U64_LIMIT
    ensures IsTweak(NintendoTweak(t), t)
  {
    hide BE, BEValue;
    Pow256Values();
    BERoundTrip(t, 8);
    assert NintendoTweak(t)[8..] == BE(t, 8);
  }

  /** No other sixteen bytes are a tweak of the unit. */
  lemma TweakIsUnique(w: seq<byte>, n: nat)
    requires IsTweak(w, n)
    ensures n < U64_LIMIT && w == NintendoTweak(n) == UnitTweak(n)
  {
    hide BE, BEValue;
    Pow256Values();
    TweakIsUnitTweak(n);
    BEValueRoundTrip(w[8..]);
    assert w == w[..8] + w[8..] && w[..8] == Zeros(8);
  }

  /** `SetupIv` replaces the sector size by any non-zero sector number divisible by the block size. */
  function NextSectorSize(sectorsz: nat, sector: nat): nat {
    if sector != 0 && sector % BLOCK == 0 then sector else sectorsz
  }

  /** One `Process` of `input` in the sector mode: every stride is a data unit under the same tweak. */
  function UnderTweak(keys: Keys, iv: seq<byte>, input: seq<byte>): (r: seq<byte>)
    ensures |r| == |input|
    decreases |input|
  {
    if input == [] then []
    else
      var n := Min(|input|, STRIDE);
      Unit(keys.unit, iv, input[..n]) + UnderTweak(keys, iv, input[n..])
  }

  /** A data unit no longer than a stride reaches the library in one piece. */
  lemma OneUnitUnderTweak(keys: Keys, iv: seq<byte>, input: seq<byte>)
    requires 0 < |input| <= STRIDE
    ensures UnderTweak(keys, iv, input) == Unit(keys.unit, iv, input)
  {
    assert input[..|input|] == input && input[|input|..] == [];
  }

  lemma {:induction false} StridesUnderTweak(keys: Keys, c: Running, input: seq<byte>)
    requires Sound(c)
    ensures Strides(Xts, keys, c, input) == (c, UnderTweak(keys, c.iv, input))
    decreases |input|
  {
    if input != [] {
      StridesUnderTweak(keys, c, input[Min(|input|, STRIDE)..]);
    }
  }

  /** Successive pieces of `unit` bytes, each decrypted from a fresh tweak, counting up. */
  function Sectors(keys: Keys, data: seq<byte>, tweak: nat, unit: nat): (r: seq<byte>)
    requires unit > 0
    ensures |r| == |data|
    decreases |data|
  {
    if data == [] then []
    else
      var n := Min(|data|, unit);
      UnderTweak(keys, NintendoTweak(tweak), data[..n]) + Sectors(keys, data[n..], tweak + 1, unit)
  }

  /** The standard's reading: byte `i` comes from data unit `first + i / 0x200`, decrypted whole under
      its own number. */
  function SectorByte(keys: Keys, data: seq<byte>, first: nat, i: nat): byte
    requires i < |data| && |data| % SECTOR == 0
  {
    var k := i / SECTOR;
    keys.unit(UnitTweak(first + k), data[k * SECTOR..k * SECTOR + SECTOR], i % SECTOR)
  }

  /** What is left of `data` at `p` completes `whole`. */
  ghost predicate SectorsLeft(keys: Keys, data: seq<byte>, p: nat, tweak: nat, unit: nat, whole: seq<byte>) {
    && unit > 0 && p <= |data| == |whole|
    && Sectors(keys, data[p..], tweak, unit) == whole[p..]
  }

  lemma SectorsAtStart(keys: Keys, data: seq<byte>, tweak: nat, unit: nat)
    requires unit > 0
    ensures SectorsLeft(keys, data, 0, tweak, unit, Sectors(keys, data, tweak, unit))
  {
    var whole := Sectors(keys, data, tweak, unit);
    assert data[0..] == data && whole[0..] == whole;
  }

  lemma SectorsStep(keys: Keys, data: seq<byte>, p: nat, tweak: nat, unit: nat, whole: seq<byte>)
    requires SectorsLeft(keys, data, p, tweak, unit, whole) && p + unit <= |data|
    ensures UnderTweak(keys, NintendoTweak(tweak), data[p..p + unit]) == whole[p..p + unit]
    ensures SectorsLeft(keys, data, p + unit, tweak + 1, unit, whole)
  {
    assert data[p..][..unit] == data[p..p + unit] && data[p..][unit..] == data[p + unit..];
    var head := UnderTweak(keys, NintendoTweak(tweak), data[p..p + unit]);
    var tail := Sectors(keys, data[p + unit..], tweak + 1, unit);
    assert head + tail == whole[p..];
    assert whole[p..][..unit] == whole[p..p + unit] && whole[p..][unit..] == whole[p + unit..];
  }

  lemma {:induction false} SectorsReach(keys: Keys, data: seq<byte>, first: nat, k: nat)
    requires k * SECTOR <= |data|
    ensures SectorsLeft(keys, data, k * SECTOR, first + k, SECTOR, Sectors(keys, data, first, SECTOR))
  {
    if k == 0 {
      SectorsAtStart(keys, data, first, SECTOR);
    } else {
      SectorsReach(keys, data, first, k - 1);
      SectorsStep(keys, data, (k - 1) * SECTOR, first + k - 1, SECTOR, Sectors(keys, data, first, SECTOR));
    }
  }

  lemma SectorIsDataUnit(keys: Keys, data: seq<byte>, first: nat, k: nat)
    requires k * SECTOR + SECTOR <= |data|
    ensures Sectors(keys, data, first, SECTOR)[k * SECTOR..k * SECTOR + SECTOR]
         == Unit(keys.unit, NintendoTweak(first + k), data[k * SECTOR..k * SECTOR + SECTOR])
  {
    hide Sectors, SectorsLeft, UnderTweak, NintendoTweak, Unit;
    SectorsReach(keys, data, first, k);
    SectorsStep(keys, data, k * SECTOR, first + k, SECTOR, Sectors(keys, data, first, SECTOR));
    OneUnitUnderTweak(keys, NintendoTweak(first + k), data[k * SECTOR..k * SECTOR + SECTOR]);
  }

  /** Sectors of 0x200 bytes are exactly the data units of the standard. */
  lemma SectorsAreDataUnits(keys: Keys, data: seq<byte>, first: nat, i: nat)
    requires i < |data| && |data| % SECTOR == 0
    ensures Sectors(keys, data, first, SECTOR)[i] == SectorByte(keys, data, first, i)
  {
    hide Sectors, NintendoTweak, UnitTweak, Unit;
    var k := i / SECTOR;
    var p, whole := k * SECTOR, Sectors(keys, data, first, SECTOR);
    SectorIsDataUnit(keys, data, first, k);
    TweakIsUnitTweak(first + k);
    UnitByte(keys.unit, NintendoTweak(first + k), data[p..p + SECTOR], i % SECTOR);
    assert whole[i] == whole[p..p + SECTOR][i % SECTOR];
  }

  class AesCipher {
    const mode: AesType
    const keys: Keys
    var running: Running
    var sectorsz: nat
    var auxbuffer: array<byte>

    ghost predicate Valid()
      reads this
    {
      Sound(running) && sectorsz > 0
    }

    constructor (keys: Keys, mode: AesType)
      ensures Valid() && this.mode == mode && this.keys == keys
      ensures sectorsz == 0x200 && fresh(auxbuffer) && auxbuffer.Length == 0
      ensures running == Running(Zeros(BLOCK), 0, Zeros(BLOCK))
    {
      this.keys, this.mode := keys, mode;
      running := Running(Zeros(BLOCK), 0, Zeros(BLOCK));
      sectorsz := SECTOR;
      auxbuffer := new byte[0];
    }

    /** The library refuses a vector that is not one block long. */
    method SetupIv(vector: seq<byte>, sector: nat)
      requires Valid()
      modifies `running, `sectorsz
      ensures Valid()
      ensures running == if |vector| == BLOCK then old(running).(iv := vector) else old(running)
      ensures sectorsz == NextSectorSize(old(sectorsz), sector)
    {
      if |vector| == BLOCK {
        running := running.(iv := vector);
      }
      if sector != 0 && sector % BLOCK == 0 {
        sectorsz := sector;
      }
    }

    /** One library call between two different buffers. */
    method CipherUpdate(dest: array<byte>, doff: nat, source: array<byte>, soff: nat, size: nat) returns (output: nat)
      requires Valid() && dest != source
      requires doff + size <= dest.Length && soff + size <= source.Length
      modifies `running, dest
      ensures Valid() && output == size
      ensures var r := LibraryUpdate(mode, keys, old(running), old(source[soff..soff + size]));
              running == r.0 && Stored(dest, doff, r.1)
    {
      var r := LibraryUpdate(mode, keys, running, source[soff..soff + size]);
      forall i | 0 <= i < size {
        dest[doff + i] := r.1[i];
      }
      running := r.0;
      output := size;
      assert dest[..] == Splice(old(dest[..]), doff, r.1);
    }

    /** The stride loop between two different buffers. */
    method StrideLoop(dest: array<byte>, doff: nat, source: array<byte>, soff: nat, size: nat) returns (processed: nat)
      requires Valid() && dest != source
      requires doff + size <= dest.Length && soff + size <= source.Length
      modifies `running, dest
      ensures Valid() && processed == size
      ensures var r := Strides(mode, keys, old(running), old(source[soff..soff + size]));
              running == r.0 && Stored(dest, doff, r.1)
    {
      hide Strides, LibraryUpdate, RestOf, Splice;
      ghost var bytes := source[..];
      ghost var input := bytes[soff..soff + size];
      ghost var whole := Strides(mode, keys, running, input);
      RestAtStart(mode, keys, running, input);
      ghost var start := dest[..];
      SpliceNothing(start, doff, whole.1);
      processed := 0;
      while processed < size
        invariant processed <= size && Valid()
        invariant source[..] == bytes && RestOf(mode, keys, running, input, processed, whole)
        invariant dest[..] == Splice(start, doff, whole.1[..processed])
      {
        var stride := Min(size - processed, StrideOf(mode));
        RestStep(mode, keys, running, input, processed, stride, whole);
        SliceOfSlice(bytes, soff, soff + size, processed, stride);
        var output := CipherUpdate(dest, doff + processed, source, soff + processed, stride);
        SpliceMore(start, doff, whole.1, processed, stride);
        processed := processed + output;
      }
      RestAtEnd(mode, keys, running, input, whole);
    }

    /** In place the result goes through the auxiliary buffer, which grows to the largest request. */
    method Process(dest: array<byte>, doff: nat, source: array<byte>, soff: nat, size: nat) returns (processed: nat)
      requires Valid() && dest != auxbuffer && source != auxbuffer
      requires dest == source ==> doff == soff
      requires doff + size <= dest.Length && soff + size <= source.Length
      requires mode == Ecb ==> size % BLOCK == 0
      modifies `running, `auxbuffer, dest, auxbuffer
      ensures Valid() && (auxbuffer == old(auxbuffer) || fresh(auxbuffer))
      ensures processed == if mode == Ecb then 2 * size else size
      ensures var r := Strides(mode, keys, old(running).(used := 0), old(source[soff..soff + size]));
              running == r.0 && Stored(dest, doff, r.1)
    {
      hide Strides, Splice;
      running := running.(used := 0);
      if dest != source {
        processed := StrideLoop(dest, doff, source, soff, size);
      } else {
        if auxbuffer.Length < size {
          auxbuffer := new byte[size];
        }
        ghost var r := Strides(mode, keys, running, source[soff..soff + size]);
        ghost var aux := auxbuffer[..];
        processed := StrideLoop(auxbuffer, 0, source, soff, size);
        SpliceHolds(aux, 0, r.1);
        CopyBytes(dest, doff, auxbuffer, 0, size);
      }
      if mode == Ecb {
        processed := processed + size;
      }
    }

    method ProcessSector(dest: array<byte>, doff: nat, source: array<byte>, soff: nat, size: nat, tweak: nat)
      returns (result: nat)
      requires Valid() && mode == Xts && dest != auxbuffer && source != auxbuffer
      requires dest == source ==> doff == soff
      requires doff + size <= dest.Length && soff + size <= source.Length
      modifies `running, `auxbuffer, `sectorsz, dest, auxbuffer
      ensures Valid() && (auxbuffer == old(auxbuffer) || fresh(auxbuffer))
      ensures result == size && sectorsz == old(sectorsz)
      ensures Stored(dest, doff, UnderTweak(keys, NintendoTweak(tweak), old(source[soff..soff + size])))
    {
      hide Strides, UnderTweak, NintendoTweak;
      SetupIv(NintendoTweak(tweak), 0);
      StridesUnderTweak(keys, running.(used := 0), source[soff..soff + size]);
      result := Process(dest, doff, source, soff, size);
    }

    /** Decrypts the bytes at `starts` of a file, data unit by data unit. The last data unit is decrypted whole,
        so the loop goes on to the end of it. */
    method ProcessXts(dest: array<byte>, doff: nat, source: array<byte>, soff: nat, size: nat, starts: nat)
      returns (count: nat)
      requires Valid() && mode == Xts && dest != auxbuffer && source != auxbuffer
      requires dest == source ==> doff == soff
      requires doff + WholeUp(size, NextSectorSize(sectorsz, starts / sectorsz)) <= dest.Length
      requires soff + WholeUp(size, NextSectorSize(sectorsz, starts / sectorsz)) <= source.Length
      modifies this, dest, auxbuffer
      ensures Valid() && (auxbuffer == old(auxbuffer) || fresh(auxbuffer))
      ensures sectorsz == NextSectorSize(old(sectorsz), starts / old(sectorsz))
      ensures count == WholeUp(size, sectorsz)
      ensures Stored(dest, doff,
        Sectors(keys, old(source[soff..soff + WholeUp(size, NextSectorSize(sectorsz, starts / sectorsz))]),
                starts / old(sectorsz), sectorsz))
    {
      hide Strides, Sectors, SectorsLeft, UnderTweak, NintendoTweak, WholeUnits, WholeUp, Splice, NextSectorSize;
      ghost var start, bytes := dest[..], source[..];
      var tweak := starts / sectorsz;
      SetupIv([], tweak);
      ghost var unit := sectorsz;
      ghost var total := WholeUp(size, unit);
      ghost var data := bytes[soff..soff + total];
      ghost var whole := Sectors(keys, data, tweak, unit);
      WholeUpFacts(size, unit);
      SectorsAtStart(keys, data, tweak, unit);
      SpliceNothing(start, doff, whole);
      count := 0;
      var offset := 0;
      while offset < size
        invariant 0 <= tweak && offset <= total && count == offset && Valid() && sectorsz == unit
        invariant WholeUnits(total - offset, unit)
        invariant auxbuffer == old(auxbuffer) || fresh(auxbuffer)
        invariant SectorsLeft(keys, data, offset, tweak, unit, whole)
        invariant dest != source ==> source[..] == bytes
        invariant dest[..] == Splice(start, doff, whole[..offset])
      {
        WholeUnitsLeft(total - offset, unit);
        SectorsStep(keys, data, offset, tweak, unit, whole);
        SliceOfSlice(bytes, soff, soff + total, offset, unit);
        if dest == source {
          SpliceKeepsTail(start, doff, whole[..offset], soff + offset, soff + offset + unit);
        }
        assert source[soff + offset..soff + offset + unit] == data[offset..offset + unit];
        SpliceMore(start, doff, whole, offset, unit);
        var result := ProcessSector(dest, doff + offset, source, soff + offset, sectorsz, tweak);
        if result == 0 {
          break;
        }
        assert total - (offset + unit) == total - offset - unit;
        count := count + result;
        tweak := tweak + 1;
        offset := offset + sectorsz;
      }
      if offset < total {
        WholeUnitsLeft(total - offset, unit);
      }
      assert whole[..total] == whole;
    }
  }
}
