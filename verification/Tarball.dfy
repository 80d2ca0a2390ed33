/** The archive writer: a 512-byte header per file, the file, and zeros up to the next block. Every byte of a header
    by position, and a walk over the archive that recovers what was included. */
module Tarball {
  import opened Bytes
  import opened VirtualFiles

  const BLOCK := 512
  const COPY_BUFFER := 0x20_0000

  // ---- octal fields -------------------------------------------------------------------------------

  function Pow8(n: nat): (r: nat)
    ensures r > 0
  {
    if n == 0 then 1 else 8 * Pow8(n - 1)
  }

  /** The digits of `%0<width>o` for a number that needs no more of them. */
  function Octal(n: nat, width: nat): (r: seq<byte>)
    ensures |r| == width
  {
    if width == 0 then [] else Octal(n / 8, width - 1) + [('0' as int) + n % 8]
  }

  function OctalValue(s: seq<byte>): int {
    if s == [] then 0 else OctalValue(s[..|s| - 1]) * 8 + s[|s| - 1] - '0' as int
  }

  lemma {:induction false} OctalRoundTrip(n: nat, width: nat)
    requires n < Pow8(width)
    ensures OctalValue(Octal(n, width)) == n
  {
    if width > 0 {
      OctalRoundTrip(n / 8, width - 1);
      assert Octal(n, width)[..width - 1] == Octal(n / 8, width - 1);
    }
  }

  // ---- the header ---------------------------------------------------------------------------------

  /** Offsets of the fields that are written. */
  const MODE := 100
  const SIZE := 128
  const MTIME := 140
  const CHECKSUM := 152
  const CHECKSUM_END := 160
  const MAGIC := 261
  const VERSION := 267
  const GNAME := 301
  const FILENAME_SIZE := 100

  function Text(s: string): (r: seq<byte>)
    requires forall i :: 0 <= i < |s| ==> s[i] as int < 256
    ensures |r| == |s|
  {
    seq(|s|, i requires 0 <= i < |s| => s[i] as int)
  }

  function Sum(s: seq<byte>): (r: nat)
    ensures r <= 255 * |s|
  {
    if s == [] then 0 else Sum(s[..|s| - 1]) + s[|s| - 1]
  }

  /** The sum of a header's bytes, its checksum field counted as spaces. */
  function HeaderSum(h: seq<byte>): (r: nat)
    requires |h| == BLOCK
    ensures r <= 128776
  {
    Sum(h[..CHECKSUM]) + 8 * 0x20 + Sum(h[CHECKSUM_END..])
  }

  function Started(h: seq<byte>, now: nat): (r: seq<byte>)
    requires |h| == BLOCK
    ensures |r| == BLOCK
  {
    var magic := Splice(h, MAGIC, Text("ustar") + [0]);
    var version := Splice(magic, VERSION, Text(" ") + [0]);
    var mode := Splice(version, MODE, Octal(0x1A4, 7) + [0]);
    var group := Splice(mode, GNAME, Text("users") + [0]);
    Splice(group, MTIME, Octal(now, 11) + [0])
  }

  function Filled(name: seq<byte>, size: nat, now: nat): (r: seq<byte>)
    requires |name| <= FILENAME_SIZE
    ensures |r| == BLOCK
  {
    Splice(Splice(Started(Zeros(BLOCK), now), 0, name), SIZE, Octal(size, 11) + [0])
  }

  function Summed(h: seq<byte>): (r: seq<byte>)
    requires |h| == BLOCK
    ensures |r| == BLOCK
  {
    Splice(h, CHECKSUM, Octal(HeaderSum(h), 6) + [0])
  }

  function Header(name: seq<byte>, size: nat, now: nat): (r: seq<byte>)
    requires |name| <= FILENAME_SIZE
    ensures |r| == BLOCK
  {
    Summed(Filled(name, size, now))
  }

  method Put(tar: array<byte>, at: nat, data: seq<byte>)
    requires at + |data| <= tar.Length
    modifies tar
    ensures Stored(tar, at, data)
  {
    forall i | 0 <= i < |data| {
      tar[at + i] := data[i];
    }
    assert tar[..] == Splice(old(tar[..]), at, data);
  }

  method Start(tar: array<byte>, now: nat)
    requires tar.Length == BLOCK && now < Pow8(11)
    modifies tar
    ensures tar[..] == Started(old(tar[..]), now)
  {
    hide Splice, Octal, Text, Pow8;
    Put(tar, MAGIC, Text("ustar") + [0]);
    Put(tar, VERSION, Text(" ") + [0]);
    Put(tar, MODE, Octal(0x1A4, 7) + [0]);
    Put(tar, GNAME, Text("users") + [0]);
    Put(tar, MTIME, Octal(now, 11) + [0]);
  }

  /** Writes the path into the name field, or refuses it. */
  method Setname(tar: array<byte>, path: seq<byte>) returns (ok: bool)
    requires tar.Length == BLOCK
    modifies tar
    ensures ok == (path != [] && |UpToNul(path)| <= FILENAME_SIZE)
    ensures Stored(tar, 0, if ok then UpToNul(path) else [])
  {
    hide Splice, UpToNul;
    var size := |UpToNul(path)|;
    if path == [] || size > FILENAME_SIZE {
      SpliceNothing(tar[..], 0, []);
      return false;
    }
    Put(tar, 0, UpToNul(path));
    ok := true;
  }

  /** Sums the header with its checksum field read as spaces, and stores six octal digits. */
  method Checksum(tar: array<byte>)
    requires tar.Length == BLOCK
    modifies tar
    ensures tar[..] == Summed(old(tar[..]))
  {
    var result := 0;
    var begin := 0;
    while begin < CHECKSUM
      invariant begin <= CHECKSUM && result == Sum(tar[..begin])
    {
      result := result + tar[begin];
      begin := begin + 1;
      assert tar[..begin][..begin - 1] == tar[..begin - 1];
    }
    while begin < CHECKSUM_END
      invariant CHECKSUM <= begin <= CHECKSUM_END
      invariant result == Sum(tar[..CHECKSUM]) + (begin - CHECKSUM) * 0x20
    {
      result := result + ' ' as int;
      begin := begin + 1;
    }
    while begin != BLOCK
      invariant CHECKSUM_END <= begin <= BLOCK
      invariant result == Sum(tar[..CHECKSUM]) + 8 * 0x20 + Sum(tar[CHECKSUM_END..begin])
    {
      result := result + tar[begin];
      begin := begin + 1;
      assert tar[CHECKSUM_END..begin][..begin - CHECKSUM_END - 1] == tar[CHECKSUM_END..begin - 1];
    }
    assert tar[..][..CHECKSUM] == tar[..CHECKSUM] && tar[..][CHECKSUM_END..] == tar[CHECKSUM_END..BLOCK];
    Put(tar, CHECKSUM, Octal(result, 6) + [0]);
  }

  // ---- copying ------------------------------------------------------------------------------------

  method WriteZeros(file: BackingFile, offset: nat, count: nat)
    modifies file
    ensures file.contents == Overwrite(old(file.contents), offset, Zeros(count))
  {
    file.WriteType(Zeros(count), offset);
  }

  method CopyBuffer(output: BackingFile, offset: nat, source: BackingFile, outoff: nat, size: nat)
    requires output != source && outoff + size <= |source.contents|
    modifies output
    ensures output.contents == Overwrite(old(output.contents), offset, source.contents[outoff..outoff + size])
  {
    hide Overwrite, Splice;
    var buffer := new byte[size](_ => 0);
    ghost var blank := buffer[..];
    var count := source.ReadType(buffer, 0, size, outoff);
    assert Available(source.contents, outoff, size) == source.contents[outoff..outoff + size];
    SpliceWhole(blank, source.contents[outoff..outoff + size]);
    output.WriteType(buffer[..], offset);
  }

  /** Copies a file in buffers of at most two megabytes. */
  method CopyToFile(output: BackingFile, offset: nat, source: BackingFile)
    requires output != source && offset <= |output.contents|
    modifies output
    ensures output.contents == Overwrite(old(output.contents), offset, source.contents)
  {
    hide Overwrite;
    ghost var start, whole := output.contents, source.contents;
    NothingWritten(start, offset, whole);
    var length := COPY_BUFFER;
    var outoff := 0;
    while outoff < |source.contents|
      invariant outoff <= |whole| && (outoff < |whole| ==> length == COPY_BUFFER)
      invariant output.contents == Overwrite(start, offset, whole[..outoff])
    {
      var size := Min(|source.contents| - outoff, length);
      if length > size {
        length := size;
      }
      CopyBuffer(output, offset + outoff, source, outoff, length);
      OverwriteMore(start, offset, whole[..outoff], whole[outoff..outoff + size]);
      assert whole[..outoff] + whole[outoff..outoff + size] == whole[..outoff + size];
      outoff := outoff + size;
    }
    assert whole[..outoff] == whole;
  }

  lemma NothingWritten(s: seq<byte>, at: nat, data: seq<byte>)
    ensures Overwrite(s, at, data[..0]) == s
  {
  }

  lemma SpliceWhole(s: seq<byte>, data: seq<byte>)
    requires |s| == |data|
    ensures Splice(s, 0, data) == data
  {
  }

  // ---- members ------------------------------------------------------------------------------------

  datatype Member = Member(name: seq<byte>, data: seq<byte>, time: nat)

  ghost predicate Storable(m: Member) {
    |m.name| <= FILENAME_SIZE && 0 !in m.name && |m.data| < Pow8(11) && m.time < Pow8(11)
  }

  /** A header, the data, and zeros to the next block: a whole block of them when the data ends on one. */
  function Record(m: Member): (r: seq<byte>)
    requires |m.name| <= FILENAME_SIZE
    ensures |r| == RecordSize(|m.data|)
  {
    Header(m.name, |m.data|, m.time) + m.data + Zeros(BLOCK - |m.data| % BLOCK)
  }

  function RecordSize(size: nat): nat {
    BLOCK + size + (BLOCK - size % BLOCK)
  }

  lemma RecordsAreAligned(size: nat, before: nat)
    requires before % BLOCK == 0
    ensures (before + RecordSize(size)) % BLOCK == 0
    ensures (before + BLOCK + size) % BLOCK == size % BLOCK
  {
  }

  ghost predicate AllStorable(ms: seq<Member>) {
    forall k :: 0 <= k < |ms| ==> Storable(ms[k])
  }

  function Archive(ms: seq<Member>): (r: seq<byte>)
    requires forall k :: 0 <= k < |ms| ==> |ms[k].name| <= FILENAME_SIZE
  {
    if ms == [] then [] else Archive(ms[..|ms| - 1]) + Record(ms[|ms| - 1])
  }

  lemma {:induction false} ArchiveIsAligned(ms: seq<Member>)
    requires AllStorable(ms)
    ensures |Archive(ms)| % BLOCK == 0
  {
    hide Record, RecordSize;
    if ms != [] {
      var n := |ms| - 1;
      ArchiveIsAligned(ms[..n]);
      RecordsAreAligned(|ms[n].data|, |Archive(ms[..n])|);
    }
  }

  class Tarball {
    const tarfile: BackingFile
    var offset: nat
    ghost var members: seq<Member>

    /** The file starts with the archive of the members included so far. */
    ghost predicate Valid()
      reads this, tarfile
    {
      && AllStorable(members) && offset == |Archive(members)| <= |tarfile.contents|
      && tarfile.contents[..offset] == Archive(members)
    }

    constructor (file: BackingFile)
      ensures Valid() && tarfile == file && members == []
    {
      tarfile, offset, members := file, 0, [];
    }

    /** What was included so far can be read back from the file. */
    lemma FileWalksToMembers()
      requires Valid()
      ensures Walk(tarfile.contents[..offset]) == Listing(members)
    {
      WalkRecovers(members);
    }

    /** Appends a file's record, unless its name is refused. */
    method Include(path: seq<byte>, file: BackingFile, now: nat) returns (ok: bool)
      requires Valid() && file != tarfile && |file.contents| < Pow8(11) && now < Pow8(11)
      modifies this, tarfile
      ensures Valid() && ok == (path != [] && |UpToNul(path)| <= FILENAME_SIZE)
      ensures !ok ==> members == old(members) && tarfile.contents == old(tarfile.contents)
      ensures ok ==> members == old(members) + [Member(UpToNul(path), file.contents, now)]
    {
      hide Pow8, Archive, Header, Record, RecordSize, UpToNul, Overwrite, Zeros;
      ghost var before, at := tarfile.contents, offset;
      var tar := new byte[BLOCK](_ => 0);
      ZerosAre(tar[..]);
      ok := MakeHeader(tar, path, |file.contents|, now);
      if ok {
        ghost var m := Member(UpToNul(path), file.contents, now);
        ArchiveIsAligned(members);
        AppendRecord(tar, file);
        NameIsStorable(path, file.contents, now);
        RecordParts(m);
        IncludedOneMore(before, members, m);
        members := members + [m];
      }
    }

    /** Writes the header, the file and the zeros behind it, and moves on to the next block. */
    method AppendRecord(tar: array<byte>, file: BackingFile)
      requires file != tarfile && tar.Length == BLOCK && offset <= |tarfile.contents| && offset % BLOCK == 0
      modifies this`offset, tarfile
      ensures tarfile.contents
           == Overwrite(old(tarfile.contents), old(offset),
                tar[..] + file.contents + Zeros(BLOCK - |file.contents| % BLOCK))
      ensures offset == old(offset) + RecordSize(|file.contents|)
    {
      hide Overwrite, Zeros;
      ghost var start, at := tarfile.contents, offset;
      OverwriteReaches(start, at, tar[..]);
      tarfile.WriteType(tar[..], offset);
      offset := offset + BLOCK;
      CopyToFile(tarfile, offset, file);
      offset := offset + |file.contents|;
      RecordsAreAligned(|file.contents|, at);
      FinishBlock();
      ThreeWrites(start, at, tar[..], file.contents, Zeros(BLOCK - |file.contents| % BLOCK));
    }

    /** Zeros up to the next block, at least one of them. */
    method FinishBlock()
      modifies this`offset, tarfile
      ensures tarfile.contents == Overwrite(old(tarfile.contents), old(offset), Zeros(BLOCK - old(offset) % BLOCK))
      ensures offset == old(offset) + BLOCK - old(offset) % BLOCK && offset % BLOCK == 0
    {
      hide Overwrite, Zeros;
      var block := offset % BLOCK;
      WriteZeros(tarfile, offset, BLOCK - block);
      offset := offset + BLOCK - block;
    }
  }

  lemma OverwriteReaches(s: seq<byte>, at: nat, data: seq<byte>)
    ensures data != [] ==> at + |data| <= |Overwrite(s, at, data)|
  {
  }

  lemma ThreeWrites(s: seq<byte>, at: nat, a: seq<byte>, b: seq<byte>, c: seq<byte>)
    requires at <= |s|
    ensures Overwrite(Overwrite(Overwrite(s, at, a), at + |a|, b), at + |a| + |b|, c) == Overwrite(s, at, a + b + c)
  {
    hide Overwrite;
    OverwriteMore(s, at, a, b);
    OverwriteMore(s, at, a + b, c);
  }

  lemma RecordParts(m: Member)
    requires |m.name| <= FILENAME_SIZE
    ensures Record(m) == Header(m.name, |m.data|, m.time) + m.data + Zeros(BLOCK - |m.data| % BLOCK)
    ensures |Record(m)| == RecordSize(|m.data|)
  {
  }

  lemma ZerosAre(s: seq<byte>)
    requires forall i :: 0 <= i < |s| ==> s[i] == 0
    ensures s == Zeros(|s|)
  {
  }

  lemma NameIsStorable(path: seq<byte>, data: seq<byte>, now: nat)
    requires |UpToNul(path)| <= FILENAME_SIZE && |data| < Pow8(11) && now < Pow8(11)
    ensures Storable(Member(UpToNul(path), data, now))
  {
  }

  /** Writing a member's record behind the archive of `ms` gives the archive with that member. */
  lemma IncludedOneMore(c: seq<byte>, ms: seq<Member>, m: Member)
    requires AllStorable(ms) && Storable(m) && |Archive(ms)| <= |c| && c[..|Archive(ms)|] == Archive(ms)
    ensures AllStorable(ms + [m]) && Archive(ms + [m]) == Archive(ms) + Record(m)
    ensures var at := |Archive(ms)|;
      var after := Overwrite(c, at, Record(m));
      at + |Record(m)| <= |after| && after[..at + |Record(m)|] == Archive(ms + [m])
  {
    hide Record, RecordSize, Overwrite;
    assert (ms + [m])[..|ms|] == ms;
    OverwriteAppends(c, |Archive(ms)|, Record(m));
  }

  lemma OverwriteAppends(c: seq<byte>, at: nat, data: seq<byte>)
    requires at <= |c|
    ensures at + |data| <= |Overwrite(c, at, data)|
    ensures Overwrite(c, at, data)[..at + |data|] == c[..at] + data
  {
    if data != [] {
      var after := Overwrite(c, at, data);
      hide Overwrite;
      assert after[..at] == c[..at];
      assert after[..at + |data|] == after[..at] + after[at..at + |data|];
    }
  }

  method MakeHeader(tar: array<byte>, path: seq<byte>, size: nat, now: nat) returns (ok: bool)
    requires tar.Length == BLOCK && tar[..] == Zeros(BLOCK) && size < Pow8(11) && now < Pow8(11)
    modifies tar
    ensures ok == (path != [] && |UpToNul(path)| <= FILENAME_SIZE)
    ensures ok ==> tar[..] == Header(UpToNul(path), size, now)
  {
    hide Splice, Octal, UpToNul, Pow8, Zeros, Started, Summed;
    Start(tar, now);
    ok := Setname(tar, path);
    if !ok {
      return;
    }
    Put(tar, SIZE, Octal(size, 11) + [0]);
    Checksum(tar);
  }

  // ---- what the header says -----------------------------------------------------------------------

  /** The sum does not depend on what the checksum field holds. */
  lemma SumIgnoresItsField(h: seq<byte>, field: seq<byte>)
    requires |h| == BLOCK && |field| <= CHECKSUM_END - CHECKSUM
    ensures HeaderSum(Splice(h, CHECKSUM, field)) == HeaderSum(h)
  {
    hide Splice, Sum;
    SpliceKeepsHead(h, CHECKSUM, field, 0, CHECKSUM);
    SpliceKeepsTail(h, CHECKSUM, field, CHECKSUM_END, BLOCK);
    var k := Splice(h, CHECKSUM, field);
    assert k[0..CHECKSUM] == k[..CHECKSUM] && h[0..CHECKSUM] == h[..CHECKSUM];
    assert k[CHECKSUM_END..BLOCK] == k[CHECKSUM_END..] && h[CHECKSUM_END..BLOCK] == h[CHECKSUM_END..];
  }

  /** The sum is that of all 512 bytes once the eight bytes from 152 on are replaced by spaces. */
  lemma SumCountsSpaces(h: seq<byte>)
    requires |h| == 512
    ensures HeaderSum(h) == Sum(h[..152] + [32, 32, 32, 32, 32, 32, 32, 32] + h[160..])
  {
    hide Sum;
    var four: seq<byte> := [32, 32, 32, 32];
    SumOfFour(four);
    SumOfConcat(four, four);
    assert four + four == [32, 32, 32, 32, 32, 32, 32, 32];
    SumOfConcat(h[..152], four + four);
    SumOfConcat(h[..152] + (four + four), h[160..]);
  }

  lemma SumOfFour(s: seq<byte>)
    requires |s| == 4
    ensures Sum(s) == (s[0] as int) + s[1] + s[2] + s[3]
  {
    assert s[..3][..2] == s[..2] && s[..2][..1] == s[..1] && s[..1][..0] == [];
    assert Sum(s[..1]) == s[0] && Sum(s[..2]) == Sum(s[..1]) + s[1] && Sum(s[..3]) == Sum(s[..2]) + s[2];
  }

  lemma {:induction false} SumOfConcat(a: seq<byte>, b: seq<byte>)
    ensures Sum(a + b) == Sum(a) + Sum(b)
  {
    if b == [] {
      assert a + b == a;
    } else {
      assert (a + b)[..|a + b| - 1] == a + b[..|b| - 1];
      SumOfConcat(a, b[..|b| - 1]);
    }
  }

  // ---- the header by position -----------------------------------------------------------------------

  /** Digit `i` of a field of `width` octal digits, in ASCII. */
  function OctalDigit(n: nat, width: nat, i: nat): int
    requires i < width
  {
    48 + n / Pow8(width - 1 - i) % 8
  }

  lemma Pow8Values()
    ensures Pow8(0) == 1 && Pow8(1) == 8 && Pow8(2) == 64 && Pow8(3) == 512 && Pow8(4) == 4096 && Pow8(5) == 32768
    ensures Pow8(6) == 262144
  {
    assert Pow8(3) == 8 * Pow8(2) && Pow8(4) == 8 * Pow8(3);
    assert Pow8(6) == 8 * Pow8(5) && Pow8(5) == 8 * Pow8(4);
  }

  lemma {:induction false} OctalPosition(n: nat, width: nat, i: nat)
    requires i < width
    ensures Octal(n, width)[i] == OctalDigit(n, width, i)
  {
    if i < width - 1 {
      OctalPosition(n / 8, width - 1, i);
      DivDiv(n, 8, Pow8(width - 2 - i));
    }
  }

  /** Byte `i` of the fields that do not depend on the file: mode 0644, time, "ustar" and " ", and the group "users". */
  function StartByte(now: nat, i: nat): int {
    if 100 <= i < 108 then [48, 48, 48, 48, 54, 52, 52, 0][i - 100]
    else if 140 <= i < 151 then OctalDigit(now, 11, i - 140)
    else if 261 <= i < 266 then [117, 115, 116, 97, 114][i - 261]
    else if i == 267 then 32
    else if 301 <= i < 306 then [117, 115, 101, 114, 115][i - 301]
    else 0
  }

  /** Byte `i` of a header with the name, the size and the checksum `sum`. */
  function HeaderByte(name: seq<byte>, size: nat, now: nat, sum: nat, i: nat): int {
    if i < |name| then name[i]
    else if 128 <= i < 139 then OctalDigit(size, 11, i - 128)
    else if 152 <= i < 158 then OctalDigit(sum, 6, i - 152)
    else StartByte(now, i)
  }

  lemma SpliceByte(s: seq<byte>, at: nat, data: seq<byte>, i: nat)
    requires at + |data| <= |s| && i < |s|
    ensures Splice(s, at, data)[i] == if at <= i < at + |data| then data[i - at] else s[i]
  {
  }

  lemma DigitsByte(n: nat, width: nat, i: nat)
    requires i <= width
    ensures (Octal(n, width) + [0])[i] == if i < width then OctalDigit(n, width, i) else 0
  {
    if i < width {
      OctalPosition(n, width, i);
    }
  }

  lemma Texts()
    ensures Text("ustar") == [117, 115, 116, 97, 114] && Text(" ") == [32] && Text("users") == [117, 115, 101, 114, 115]
  {
  }

  lemma ModeDigits()
    ensures Octal(0x1A4, 7) + [0] == [48, 48, 48, 48, 54, 52, 52, 0]
  {
    hide Octal, Pow8;
    Pow8Values();
    forall i | 0 <= i < 7 ensures Octal(0x1A4, 7)[i] == [48, 48, 48, 48, 54, 52, 52][i] {
      OctalPosition(0x1A4, 7, i);
    }
  }

  lemma StartedByte(now: nat, i: nat)
    requires i < 512
    ensures Started(Zeros(512), now)[i] == StartByte(now, i)
  {
    hide Splice, Octal, OctalDigit, Text;
    var h := Zeros(512);
    var magic := Splice(h, 261, Text("ustar") + [0]);
    SpliceByte(h, 261, Text("ustar") + [0], i);
    var version := Splice(magic, 267, Text(" ") + [0]);
    SpliceByte(magic, 267, Text(" ") + [0], i);
    var mode := Splice(version, 100, Octal(0x1A4, 7) + [0]);
    SpliceByte(version, 100, Octal(0x1A4, 7) + [0], i);
    var group := Splice(mode, 301, Text("users") + [0]);
    SpliceByte(mode, 301, Text("users") + [0], i);
    SpliceByte(group, 140, Octal(now, 11) + [0], i);
    Texts();
    ModeDigits();
    if 140 <= i < 152 {
      DigitsByte(now, 11, i - 140);
    }
  }

  /** Every byte of a header, by its position. */
  lemma HeaderByPosition(name: seq<byte>, size: nat, now: nat, i: nat)
    requires |name| <= 100 && i < 512
    ensures var h := Header(name, size, now); h[i] == HeaderByte(name, size, now, HeaderSum(h), i)
  {
    hide Splice, Octal, OctalDigit, Started, StartByte, HeaderSum, HeaderByte;
    var start := Started(Zeros(512), now);
    var named := Splice(start, 0, name);
    var filled := Splice(named, 128, Octal(size, 11) + [0]);
    SumIgnoresItsField(filled, Octal(HeaderSum(filled), 6) + [0]);
    StartedByte(now, i);
    SpliceByte(start, 0, name, i);
    SpliceByte(named, 128, Octal(size, 11) + [0], i);
    SpliceByte(filled, 152, Octal(HeaderSum(filled), 6) + [0], i);
    FieldsByte(name, size, now, HeaderSum(filled), i);
  }

  lemma FieldsByte(name: seq<byte>, size: nat, now: nat, sum: nat, i: nat)
    requires |name| <= 100 && i < 512
    ensures HeaderByte(name, size, now, sum, i)
         == if 152 <= i < 159 then (Octal(sum, 6) + [0])[i - 152]
            else if 128 <= i < 140 then (Octal(size, 11) + [0])[i - 128]
            else if i < |name| then name[i] else StartByte(now, i)
  {
    hide Octal, OctalDigit;
    if 152 <= i < 159 {
      DigitsByte(sum, 6, i - 152);
    } else if 128 <= i < 140 {
      DigitsByte(size, 11, i - 128);
    }
  }

  /** The checksum field of a header holds its sum in six octal digits. */
  lemma ChecksumHolds(name: seq<byte>, size: nat, now: nat)
    requires |name| <= FILENAME_SIZE
    ensures var h := Header(name, size, now); OctalValue(h[CHECKSUM..CHECKSUM + 6]) == HeaderSum(h)
  {
    hide Splice, Sum, HeaderSum, Filled, Octal, OctalValue;
    var h := Filled(name, size, now);
    var digits := Octal(HeaderSum(h), 6);
    SumIgnoresItsField(h, digits + [0]);
    SpliceHolds(h, CHECKSUM, digits + [0]);
    var summed := Summed(h);
    assert summed[CHECKSUM..CHECKSUM + 7][..6] == summed[CHECKSUM..CHECKSUM + 6];
    assert (digits + [0])[..6] == digits;
    assert Pow8(6) > 128776;
    OctalRoundTrip(HeaderSum(h), 6);
  }

  lemma SizeHolds(name: seq<byte>, size: nat, now: nat)
    requires |name| <= FILENAME_SIZE && size < Pow8(11)
    ensures OctalValue(Header(name, size, now)[SIZE..SIZE + 11]) == size
  {
    hide Splice, HeaderSum, Started, Octal, OctalValue, Pow8;
    var named := Splice(Started(Zeros(BLOCK), now), 0, name);
    var digits := Octal(size, 11);
    var filled := Splice(named, SIZE, digits + [0]);
    SpliceHolds(named, SIZE, digits + [0]);
    SpliceKeepsHead(filled, CHECKSUM, Octal(HeaderSum(filled), 6) + [0], SIZE, SIZE + 12);
    var h := Header(name, size, now);
    assert h[SIZE..SIZE + 12][..11] == h[SIZE..SIZE + 11];
    assert (digits + [0])[..11] == digits;
    OctalRoundTrip(size, 11);
  }

  /** No field that is written lies in the first hundred bytes. */
  lemma StartedLeavesName(now: nat)
    ensures Started(Zeros(BLOCK), now)[0..FILENAME_SIZE] == Zeros(FILENAME_SIZE)
  {
    hide Splice, Octal;
    var h := Zeros(BLOCK);
    var magic := Splice(h, MAGIC, Text("ustar") + [0]);
    SpliceKeepsHead(h, MAGIC, Text("ustar") + [0], 0, FILENAME_SIZE);
    var version := Splice(magic, VERSION, Text(" ") + [0]);
    SpliceKeepsHead(magic, VERSION, Text(" ") + [0], 0, FILENAME_SIZE);
    var mode := Splice(version, MODE, Octal(0x1A4, 7) + [0]);
    SpliceKeepsHead(version, MODE, Octal(0x1A4, 7) + [0], 0, FILENAME_SIZE);
    var group := Splice(mode, GNAME, Text("users") + [0]);
    SpliceKeepsHead(mode, GNAME, Text("users") + [0], 0, FILENAME_SIZE);
    SpliceKeepsHead(group, MTIME, Octal(now, 11) + [0], 0, FILENAME_SIZE);
  }

  lemma NameHolds(name: seq<byte>, size: nat, now: nat)
    requires |name| <= FILENAME_SIZE && 0 !in name
    ensures UpToNul(Header(name, size, now)[0..FILENAME_SIZE]) == name
  {
    hide Splice, HeaderSum, Octal, Started, UpToNul, Zeros;
    var start := Started(Zeros(BLOCK), now);
    var named := Splice(start, 0, name);
    var filled := Splice(named, SIZE, Octal(size, 11) + [0]);
    SpliceKeepsHead(named, SIZE, Octal(size, 11) + [0], 0, FILENAME_SIZE);
    SpliceKeepsHead(filled, CHECKSUM, Octal(HeaderSum(filled), 6) + [0], 0, FILENAME_SIZE);
    StartedLeavesName(now);
    NameField(start, name);
  }

  lemma NameField(start: seq<byte>, name: seq<byte>)
    requires |start| == BLOCK && start[0..FILENAME_SIZE] == Zeros(FILENAME_SIZE)
    requires |name| <= FILENAME_SIZE && 0 !in name
    ensures UpToNul(Splice(start, 0, name)[0..FILENAME_SIZE]) == name
  {
    hide UpToNul;
    var rest := FILENAME_SIZE - |name|;
    var field := Splice(start, 0, name)[0..FILENAME_SIZE];
    assert forall i :: |name| <= i < FILENAME_SIZE ==> field[i] == start[i] == start[0..FILENAME_SIZE][i];
    if rest == 0 {
      assert field == name;
      UpToNulOfAll(name);
    } else {
      assert field == name + [0] + Zeros(rest - 1);
      UpToNulOfName(name, Zeros(rest - 1));
    }
  }

  // ---- reading the archive back -------------------------------------------------------------------

  datatype Found = Found(name: seq<byte>, data: seq<byte>)

  /** The size that a header states, if the file it announces is there. */
  function StatedSize(a: seq<byte>): (size: int)
    requires |a| >= BLOCK
  {
    OctalValue(a[SIZE..SIZE + 11])
  }

  /** Walks an archive by its octal size fields, with the writer's own padding rule. */
  function Walk(a: seq<byte>): seq<Found>
    decreases |a|
  {
    if |a| < BLOCK then [] else
    var size := StatedSize(a);
    if size < 0 || |a| < RecordSize(size) then [] else
    [Found(UpToNul(a[0..FILENAME_SIZE]), a[BLOCK..BLOCK + size])] + Walk(a[RecordSize(size)..])
  }

  function Listing(ms: seq<Member>): seq<Found> {
    if ms == [] then [] else [Found(ms[0].name, ms[0].data)] + Listing(ms[1..])
  }

  lemma RecordShows(m: Member, rest: seq<byte>)
    requires Storable(m)
    ensures var a := Record(m) + rest;
      && StatedSize(a) == |m.data| && |a| >= RecordSize(|m.data|) && a[RecordSize(|m.data|)..] == rest
      && UpToNul(a[0..FILENAME_SIZE]) == m.name && a[BLOCK..BLOCK + |m.data|] == m.data
  {
    hide Header, OctalValue, UpToNul, Pow8, Zeros;
    var h, a := Header(m.name, |m.data|, m.time), Record(m) + rest;
    assert a[..BLOCK] == h;
    assert a[SIZE..SIZE + 11] == h[SIZE..SIZE + 11] && a[0..FILENAME_SIZE] == h[0..FILENAME_SIZE];
    SizeHolds(m.name, |m.data|, m.time);
    NameHolds(m.name, |m.data|, m.time);
  }

  lemma WalkStep(m: Member, rest: seq<byte>)
    requires Storable(m)
    ensures Walk(Record(m) + rest) == [Found(m.name, m.data)] + Walk(rest)
  {
    hide Record, StatedSize, UpToNul;
    RecordShows(m, rest);
  }

  lemma {:induction false} ArchiveFromFront(ms: seq<Member>)
    requires AllStorable(ms) && ms != []
    ensures Archive(ms) == Record(ms[0]) + Archive(ms[1..])
  {
    hide Record, RecordSize;
    var n := |ms| - 1;
    if n > 0 {
      ArchiveFromFront(ms[..n]);
      assert ms[1..][..n - 1] == ms[..n][1..] && ms[1..][n - 1] == ms[n];
      var first, middle, last := Record(ms[0]), Archive(ms[..n][1..]), Record(ms[n]);
      assert first + middle + last == first + (middle + last);
    }
  }

  /** Walking the archive of any run of includes recovers every name and content, in order. */
  lemma {:induction false} WalkRecovers(ms: seq<Member>)
    requires AllStorable(ms)
    ensures Walk(Archive(ms)) == Listing(ms)
    decreases |ms|
  {
    hide Record, Walk;
    if ms == [] {
      WalkOfNothing();
    } else {
      ArchiveFromFront(ms);
      WalkStep(ms[0], Archive(ms[1..]));
      WalkRecovers(ms[1..]);
    }
  }

  lemma WalkOfNothing()
    ensures Walk([]) == []
  {
  }

  /** Where record `k` starts. */
  function StartOf(ms: seq<Member>, k: nat): nat
    requires k <= |ms| && forall i :: 0 <= i < |ms| ==> |ms[i].name| <= FILENAME_SIZE
  {
    |Archive(ms[..k])|
  }

  lemma {:induction false} ArchivePrefix(ms: seq<Member>, k: nat)
    requires AllStorable(ms) && k <= |ms|
    ensures StartOf(ms, k) <= |Archive(ms)| && Archive(ms)[..StartOf(ms, k)] == Archive(ms[..k])
    decreases |ms|
  {
    hide Record, RecordSize;
    var n := |ms| - 1;
    if k == |ms| {
      assert ms[..k] == ms;
    } else {
      ArchivePrefix(ms[..n], k);
      assert ms[..n][..k] == ms[..k];
    }
  }

  /** Each record starts on a block, holds its member, and ends where the next one starts. */
  lemma RecordsDoNotOverlap(ms: seq<Member>, k: nat)
    requires AllStorable(ms) && k < |ms|
    ensures StartOf(ms, k) % BLOCK == 0 && StartOf(ms, k + 1) == StartOf(ms, k) + |Record(ms[k])| <= |Archive(ms)|
    ensures Archive(ms)[StartOf(ms, k)..StartOf(ms, k + 1)] == Record(ms[k])
  {
    hide Record, RecordSize;
    ArchiveIsAligned(ms[..k]);
    ArchivePrefix(ms, k + 1);
    assert ms[..k + 1][..k] == ms[..k];
    var lo, hi := StartOf(ms, k), StartOf(ms, k + 1);
    assert Archive(ms)[lo..hi] == Archive(ms)[..hi][lo..];
  }
}
