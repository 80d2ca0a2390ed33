/** Backing files as flat byte sequences, the chunked reader of memory-mapped files, and the windows that the cipher and
    partition files are read through. Every read is stated by the bytes that are available at its place. */
module VirtualFiles {
  import opened Bytes

  const HUGE_STRIDE := 0x40_0000

  datatype ReadResult = Done(count: nat) | BadAlloc

  /** The bytes [at, at + n) of `s`, cut off at its end. */
  function Available(s: seq<byte>, at: nat, n: nat): (r: seq<byte>)
    ensures |r| == Min(n, if at < |s| then |s| - at else 0)
    ensures forall i :: 0 <= i < |r| ==> r[i] == s[at + i]
  {
    if at >= |s| then [] else s[at..Min(at + n, |s|)]
  }

  lemma AvailablePart(s: seq<byte>, at: nat, size: nat, p: nat, n: nat)
    requires p + n <= size && at + p + n <= |s|
    ensures p + n <= |Available(s, at, size)|
    ensures Available(s, at, size)[p..p + n] == Available(s, at + p, n)
  {
  }

  /** The bytes [at, at + n) are all there. */
  predicate Has(s: seq<byte>, at: nat, n: nat) {
    n == 0 || at + n <= |s|
  }

  /** A file that returns min(size, bytes left) on every read. */
  class BackingFile {
    var contents: seq<byte>

    constructor (bytes: seq<byte>)
      ensures contents == bytes
    {
      contents := bytes;
    }

    method ReadType(dest: array<byte>, doff: nat, size: nat, offset: nat) returns (count: nat)
      requires doff + size <= dest.Length
      modifies dest
      ensures count == |Available(contents, offset, size)|
      ensures Stored(dest, doff, Available(contents, offset, size))
    {
      var data := Available(contents, offset, size);
      forall i | 0 <= i < |data| {
        dest[doff + i] := data[i];
      }
      count := |data|;
      assert dest[..] == Splice(old(dest[..]), doff, data);
    }

    /** A read into a zeroed buffer that must be filled: otherwise the caller's assertion fails. */
    method ReadExactly(size: nat, offset: nat) returns (ok: bool, bytes: seq<byte>)
      ensures ok == Has(contents, offset, size)
      ensures ok ==> bytes == Available(contents, offset, size) && |bytes| == size
    {
      var buffer := new byte[size](_ => 0);
      var count := ReadType(buffer, 0, size, offset);
      ok, bytes := count == size, buffer[..];
      assert ok ==> bytes == Available(contents, offset, size);
    }

    method WriteType(data: seq<byte>, offset: nat)
      modifies this
      ensures contents == Overwrite(old(contents), offset, data)
    {
      contents := Overwrite(contents, offset, data);
    }

    /** One read of a memory-mapped file: all of it, or an exception when it leaves the map. */
    method ReadMapped(dest: array<byte>, doff: nat, size: nat, offset: nat) returns (r: ReadResult)
      requires doff + size <= dest.Length
      modifies dest
      ensures r == if offset + size > |contents| then BadAlloc else Done(size)
      ensures Stored(dest, doff, if r.BadAlloc? then [] else Available(contents, offset, size))
    {
      if offset + size > |contents| {
        return BadAlloc;
      }
      var count := ReadType(dest, doff, size, offset);
      r := Done(count);
    }

    /** The chunked read of a mapped file equals one read. */
    method ReadTypeFaster(dest: array<byte>, doff: nat, size: nat, offset: nat) returns (r: ReadResult)
      requires doff + size <= dest.Length
      modifies dest
      ensures r == if size > 0 && offset + size > |contents| then BadAlloc else Done(size)
      ensures r.Done? ==> Stored(dest, doff, Available(contents, offset, size))
    {
      hide Available, Splice;
      ghost var start, whole := dest[..], Available(contents, offset, size);
      SpliceNothing(start, doff, whole);
      var copied, offat, at := 0, offset, doff;
      while offat < offset + size
        invariant offat == offset + copied && at == doff + copied && copied <= size
        invariant copied > 0 ==> offset + copied <= |contents|
        invariant copied <= |whole| && dest[..] == Splice(start, doff, whole[..copied])
        decreases offset + size - offat
      {
        var stride := Min(size - copied, HUGE_STRIDE);
        var part := ReadMapped(dest, at, stride, offat);
        if part.BadAlloc? {
          return BadAlloc;
        }
        AvailablePart(contents, offset, size, copied, stride);
        SpliceMore(start, doff, whole, copied, stride);
        copied := copied + part.count;
        offat := offat + stride;
        at := at + stride;
      }
      r := Done(copied);
    }
  }

  /** A window [begin, eof) onto another file. */
  class OffsetFile {
    const filesrc: BackingFile
    const begin: nat
    const size: nat
    const eof: nat
    const huge: bool

    ghost predicate Valid()
      reads this, filesrc
    {
      eof == begin + size && eof <= |filesrc.contents|
    }

    /** The bytes that the window shows. */
    ghost function Window(): (r: seq<byte>)
      requires Valid()
      reads this, filesrc
      ensures |r| == size
    {
      filesrc.contents[begin..eof]
    }

    constructor (backing: BackingFile, offset: nat, length: nat, isHuge: bool)
      requires offset + length <= |backing.contents|
      ensures Valid() && filesrc == backing && begin == offset && size == length
    {
      filesrc, begin, size, eof, huge := backing, offset, length, offset + length, isHuge;
    }

    method GetSize() returns (r: nat)
      requires Valid()
      ensures r == |Window()|
    {
      r := Min(|filesrc.contents|, eof - begin);
    }

    method ReadType(dest: array<byte>, doff: nat, length: nat, offset: nat) returns (count: nat)
      requires Valid() && doff + length <= dest.Length
      modifies dest
      ensures offset + length > |Window()| ==> count == 0 && Stored(dest, doff, [])
      ensures offset + length <= |Window()| ==>
        count == length && Stored(dest, doff, Window()[offset..offset + length])
    {
      hide Splice;
      if begin + offset + length > eof {
        SpliceNothing(dest[..], doff, []);
        return 0;
      }
      SliceOfSlice(filesrc.contents, begin, eof, offset, length);
      assert Available(filesrc.contents, begin + offset, length) == Window()[offset..offset + length];
      if huge {
        var r := filesrc.ReadTypeFaster(dest, doff, length, begin + offset);
        return r.count;
      }
      count := filesrc.ReadType(dest, doff, length, begin + offset);
    }
  }

  /** What a cipher file reads from: a whole file, or a window when both a start and a size
      were given. */
  datatype Source = Whole(file: BackingFile) | Windowed(window: OffsetFile)

  ghost predicate ValidSource(s: Source)
    reads if s.Windowed? then {s.window, s.window.filesrc} else {}
  {
    s.Windowed? ==> s.window.Valid()
  }

  ghost function Shown(s: Source): (r: seq<byte>)
    requires ValidSource(s)
    reads if s.Windowed? then {s.window, s.window.filesrc} else {s.file}
  {
    if s.Windowed? then s.window.Window() else s.file.contents
  }

  /** What a read of [at, at + n) puts in a zeroed buffer: a window refuses to be overrun,
      a whole file gives what it has. */
  ghost function Fetched(windowed: bool, shown: seq<byte>, at: nat, n: nat): (r: seq<byte>)
    ensures |r| <= n && (at + n <= |shown| ==> r == shown[at..at + n])
  {
    if windowed && at + n > |shown| then [] else Available(shown, at, n)
  }

  method ReadSource(s: Source, dest: array<byte>, doff: nat, size: nat, offset: nat) returns (count: nat)
    requires ValidSource(s) && doff + size <= dest.Length
    modifies dest
    ensures var got := Fetched(s.Windowed?, Shown(s), offset, size); count == |got| && Stored(dest, doff, got)
  {
    if s.Windowed? {
      count := s.window.ReadType(dest, doff, size, offset);
    } else {
      count := s.file.ReadType(dest, doff, size, offset);
    }
  }

  method SourceSize(s: Source) returns (size: nat)
    requires ValidSource(s)
    ensures size == |Shown(s)|
  {
    if s.Windowed? {
      size := s.window.GetSize();
    } else {
      size := |s.file.contents|;
    }
  }
}
