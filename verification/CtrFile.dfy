/** Random access into a file encrypted in counter mode, by seeking the counter. */
module CtrFile {
  import opened Bytes
  import opened VirtualFiles
  import opened Keystream
  import Cipher = AesCipher

  // ---- seeking ----------------------------------------------------------------------------

  /** The counter that block `b` of a window is decrypted under. */
  function SeekCounter(high: seq<byte>, sector: nat): (r: seq<byte>)
    requires |high| == 8
    ensures |r| == BLOCK
  {
    high + BE(sector, 8)
  }

  lemma SeekKeyByte(aes: BlockCipher, high: seq<byte>, first: nat, b: nat, j: nat)
    requires |high| == 8 && first + b + j / BLOCK < U64_LIMIT
    ensures KeyByte(aes, SeekCounter(high, first + b), j) == KeyByte(aes, SeekCounter(high, first), b * BLOCK + j)
  {
    CounterCountsSectors(high, first + b, j / BLOCK);
    CounterCountsSectors(high, first, b + j / BLOCK);
    assert (b * BLOCK + j) / BLOCK == b + j / BLOCK && (b * BLOCK + j) % BLOCK == j % BLOCK;
  }

  /** Decrypting a run of blocks from a seeked counter gives that slice of the whole decryption. */
  lemma SeekedSlice(aes: BlockCipher, high: seq<byte>, first: nat, b: nat, data: seq<byte>)
    requires |high| == 8 && first + b + |data| / BLOCK < U64_LIMIT
    ensures CtrPass(aes, SeekCounter(high, first + b), 0, data)
         == CtrPass(aes, SeekCounter(high, first), b * BLOCK, data)
  {
    var seeked := CtrPass(aes, SeekCounter(high, first + b), 0, data);
    var whole := CtrPass(aes, SeekCounter(high, first), b * BLOCK, data);
    forall j | 0 <= j < |data| ensures seeked[j] == whole[j] {
      SeekKeyByte(aes, high, first, b, j);
    }
  }

  lemma CtrPassSlice(aes: BlockCipher, iv: seq<byte>, at: nat, data: seq<byte>, lo: nat, hi: nat)
    requires lo <= hi <= |data|
    ensures CtrPass(aes, iv, at, data)[lo..hi] == CtrPass(aes, iv, at + lo, data[lo..hi])
  {
    hide KeyByte, Xor;
    var whole, part := CtrPass(aes, iv, at, data), CtrPass(aes, iv, at + lo, data[lo..hi]);
    forall j | 0 <= j < hi - lo ensures part[j] == whole[lo..hi][j] {
      assert at + lo + j == at + (lo + j);
    }
  }

  // ---- the reference ----------------------------------------------------------------------

  /** The whole window decrypted in one pass from its first counter. */
  function Decrypted(aes: BlockCipher, high: seq<byte>, first: nat, shown: seq<byte>): (r: seq<byte>)
    requires |high| == 8
    ensures |r| == |shown|
  {
    CtrPass(aes, SeekCounter(high, first), 0, shown)
  }

  /** What `ReadTypeImpl` delivers for a request inside the window. */
  ghost predicate HeadReadable(windowed: bool, shown: seq<byte>, offset: nat, size: nat) {
    size > 0 && windowed && offset % BLOCK != 0 ==> offset - offset % BLOCK + BLOCK <= |shown|
  }

  /** The ciphertext that a request is served from. */
  ghost function Served(windowed: bool, shown: seq<byte>, offset: nat, size: nat): (r: seq<byte>)
    requires offset + size <= |shown|
    ensures |r| == size
  {
    if HeadReadable(windowed, shown, offset, size) then shown[offset..offset + size] else Zeros(size)
  }

  ghost function Delivered(aes: BlockCipher, high: seq<byte>, first: nat, windowed: bool, shown: seq<byte>,
      offset: nat, size: nat): (r: seq<byte>)
    requires |high| == 8 && offset + size <= |shown|
    ensures |r| == size
  {
    CtrPass(aes, SeekCounter(high, first), offset, Served(windowed, shown, offset, size))
  }

  /** A read whose head block lies inside the window gives exactly its slice of the plaintext. */
  lemma ReadIsSlice(aes: BlockCipher, high: seq<byte>, first: nat, windowed: bool, shown: seq<byte>,
      offset: nat, size: nat)
    requires |high| == 8 && offset + size <= |shown| && HeadReadable(windowed, shown, offset, size)
    ensures Delivered(aes, high, first, windowed, shown, offset, size)
         == Decrypted(aes, high, first, shown)[offset..offset + size]
  {
    hide CtrPass, SeekCounter, HeadReadable;
    CtrPassSlice(aes, SeekCounter(high, first), 0, shown, offset, offset + size);
    assert 0 + offset == offset;
  }

  /** Every request inside a window of whole blocks has a readable head block. */
  lemma AlignedWindowRead(aes: BlockCipher, high: seq<byte>, first: nat, windowed: bool, shown: seq<byte>,
      offset: nat, size: nat)
    requires |high| == 8 && |shown| % BLOCK == 0 && offset + size <= |shown|
    ensures HeadReadable(windowed, shown, offset, size)
    ensures Delivered(aes, high, first, windowed, shown, offset, size)
         == Decrypted(aes, high, first, shown)[offset..offset + size]
  {
    assert HeadReadable(windowed, shown, offset, size);
    hide HeadReadable, Delivered, Decrypted;
    ReadIsSlice(aes, high, first, windowed, shown, offset, size);
  }

  /** Otherwise the caller gets bare keystream, which is the plaintext only where the ciphertext is zero. */
  lemma UnreadableHead(aes: BlockCipher, high: seq<byte>, first: nat, windowed: bool, shown: seq<byte>,
      offset: nat, size: nat)
    requires |high| == 8 && offset + size <= |shown| && !HeadReadable(windowed, shown, offset, size)
    ensures Delivered(aes, high, first, windowed, shown, offset, size)
         == Decrypted(aes, high, first, shown)[offset..offset + size]
        <==> shown[offset..offset + size] == Zeros(size)
  {
    var iv := SeekCounter(high, first);
    var cipher := shown[offset..offset + size];
    CtrPassSlice(aes, iv, 0, shown, offset, offset + size);
    CtrPassInvolution(aes, iv, offset, cipher);
    CtrPassInvolution(aes, iv, offset, Zeros(size));
  }

  /** Exactly when a read is right. */
  lemma ReadIsSliceIff(aes: BlockCipher, high: seq<byte>, first: nat, windowed: bool, shown: seq<byte>,
      offset: nat, size: nat)
    requires |high| == 8 && offset + size <= |shown|
    ensures Delivered(aes, high, first, windowed, shown, offset, size)
         == Decrypted(aes, high, first, shown)[offset..offset + size]
       <==> HeadReadable(windowed, shown, offset, size) || shown[offset..offset + size] == Zeros(size)
  {
    hide Delivered, Decrypted, HeadReadable, Zeros;
    if HeadReadable(windowed, shown, offset, size) {
      ReadIsSlice(aes, high, first, windowed, shown, offset, size);
    } else {
      UnreadableHead(aes, high, first, windowed, shown, offset, size);
    }
  }

  /** Byte `j` of a read, in bits, for a request whose head block lies inside the window: the ciphertext byte at its
      place combined with one byte of one enciphered block, that of the big-endian number of its own block. */
  lemma ReadByteBits(aes: BlockCipher, high: seq<byte>, first: nat, windowed: bool, shown: seq<byte>,
      offset: nat, size: nat, j: nat, k: nat)
    requires |high| == 8 && offset + size <= |shown| && j < size && k < 8 && first + (offset + j) / 16 < U64_LIMIT
    requires !windowed || offset % 16 == 0 || offset - offset % 16 + 16 <= |shown|
    ensures Delivered(aes, high, first, windowed, shown, offset, size)[j] / Pow2(k) % 2 == 1
       <==> shown[offset + j] / Pow2(k) % 2
            != aes(high + BE(first + (offset + j) / 16, 8), (offset + j) % 16) / Pow2(k) % 2
  {
    hide Pow2, Xor, BE;
    assert HeadReadable(windowed, shown, offset, size);
    CounterCountsSectors(high, first, (offset + j) / 16);
    XorBit(shown[offset + j], aes(high + BE(first + (offset + j) / 16, 8), (offset + j) % 16), k);
  }

  /** ... and for any other request that byte of the enciphered block alone. */
  lemma UnreadableByte(aes: BlockCipher, high: seq<byte>, first: nat, shown: seq<byte>, offset: nat, size: nat, j: nat)
    requires |high| == 8 && offset + size <= |shown| && j < size && first + (offset + j) / 16 < U64_LIMIT
    requires offset % 16 != 0 && offset - offset % 16 + 16 > |shown|
    ensures Delivered(aes, high, first, true, shown, offset, size)[j]
         == aes(high + BE(first + (offset + j) / 16, 8), (offset + j) % 16)
  {
    hide Xor, BE;
    CounterCountsSectors(high, first, (offset + j) / 16);
    XorOfZero(aes(high + BE(first + (offset + j) / 16, 8), (offset + j) % 16));
  }

  /** A window of eight bytes has no whole block to read: its second byte comes out wrong. */
  lemma ShortWindowReadsWrong(aes: BlockCipher, high: seq<byte>, first: nat)
    requires |high| == 8
    ensures var shown := [0, 1, 0, 0, 0, 0, 0, 0];
      Delivered(aes, high, first, true, shown, 1, 1) != Decrypted(aes, high, first, shown)[1..2]
  {
    hide Delivered, Decrypted;
    var shown: seq<byte> := [0, 1, 0, 0, 0, 0, 0, 0];
    assert shown[1..2][0] != Zeros(1)[0];
    ReadIsSliceIff(aes, high, first, true, shown, 1, 1);
  }

  /** Splitting a read anywhere gives the same bytes. */
  lemma ReadSplits(aes: BlockCipher, high: seq<byte>, first: nat, windowed: bool, shown: seq<byte>,
      offset: nat, a: nat, b: nat)
    requires |high| == 8 && |shown| % BLOCK == 0 && offset + a + b <= |shown|
    ensures Delivered(aes, high, first, windowed, shown, offset, a + b)
         == Delivered(aes, high, first, windowed, shown, offset, a)
          + Delivered(aes, high, first, windowed, shown, offset + a, b)
  {
    hide Delivered, Decrypted;
    AlignedWindowRead(aes, high, first, windowed, shown, offset, a + b);
    AlignedWindowRead(aes, high, first, windowed, shown, offset, a);
    AlignedWindowRead(aes, high, first, windowed, shown, offset + a, b);
    SlicesJoin(Decrypted(aes, high, first, shown), offset, offset + a, offset + a + b);
  }

  /** What a writer would have stored: reading anywhere inverts encrypting everything. */
  lemma ReadInvertsEncryption(aes: BlockCipher, high: seq<byte>, first: nat, windowed: bool, plain: seq<byte>,
      offset: nat, size: nat)
    requires |high| == 8 && |plain| % BLOCK == 0 && offset + size <= |plain|
    ensures Delivered(aes, high, first, windowed, CtrPass(aes, SeekCounter(high, first), 0, plain), offset, size)
         == plain[offset..offset + size]
  {
    var shown := CtrPass(aes, SeekCounter(high, first), 0, plain);
    AlignedWindowRead(aes, high, first, windowed, shown, offset, size);
    CtrPassInvolution(aes, SeekCounter(high, first), 0, plain);
  }

  // ---- the head block ---------------------------------------------------------------------

  /** The decrypted block around `start`, after a fetch into a zeroed buffer. */
  ghost function HeadBlock(aes: BlockCipher, high: seq<byte>, first: nat, windowed: bool, shown: seq<byte>,
      start: nat): (r: seq<byte>)
    requires |high| == 8
    ensures |r| == BLOCK
  {
    CtrPass(aes, SeekCounter(high, first + start / BLOCK), 0,
      Splice(Zeros(BLOCK), 0, Fetched(windowed, shown, start, BLOCK)))
  }

  lemma HeadCipher(windowed: bool, shown: seq<byte>, offset: nat, size: nat, a: nat)
    requires offset + size <= |shown| && a == offset % BLOCK != 0
    ensures var n := Min(size, BLOCK - a);
      Splice(Zeros(BLOCK), 0, Fetched(windowed, shown, offset - a, BLOCK))[a..a + n]
        == Served(windowed, shown, offset, size)[0..n]
  {
  }

  lemma BlockStart(offset: nat, a: nat)
    requires a == offset % BLOCK
    ensures (offset - a) / BLOCK * BLOCK == offset - a && (offset - a) / BLOCK == offset / BLOCK
  {
  }

  lemma HeadIsDelivered(aes: BlockCipher, high: seq<byte>, first: nat, windowed: bool, shown: seq<byte>,
      offset: nat, size: nat, a: nat)
    requires |high| == 8 && first + offset / BLOCK + 1 < U64_LIMIT
    requires offset + size <= |shown| && a == offset % BLOCK != 0
    ensures var n := Min(size, BLOCK - a);
      HeadBlock(aes, high, first, windowed, shown, offset - a)[a..a + n]
        == Delivered(aes, high, first, windowed, shown, offset, size)[..n]
  {
    hide CtrPass, SeekCounter, Served, Fetched, Splice;
    var n, start, iv := Min(size, BLOCK - a), offset - a, SeekCounter(high, first);
    var cipher := Splice(Zeros(BLOCK), 0, Fetched(windowed, shown, start, BLOCK));
    HeadCipher(windowed, shown, offset, size, a);
    BlockStart(offset, a);
    SeekedSlice(aes, high, first, start / BLOCK, cipher);
    CtrPassSlice(aes, iv, start, cipher, a, a + n);
    CtrPassSlice(aes, iv, offset, Served(windowed, shown, offset, size), 0, n);
    var data := Delivered(aes, high, first, windowed, shown, offset, size);
    assert data[..n] == data[0..n];
  }

  /** Past the head block the rest of the request is aligned. */
  lemma RestIsDelivered(aes: BlockCipher, high: seq<byte>, first: nat, windowed: bool, shown: seq<byte>,
      offset: nat, size: nat, n: nat)
    requires |high| == 8 && offset + size <= |shown|
    requires n == BLOCK - offset % BLOCK && n < size
    ensures (offset + n) % BLOCK == 0
    ensures Delivered(aes, high, first, windowed, shown, offset, size)[n..size]
         == Delivered(aes, high, first, windowed, shown, offset + n, size - n)
  {
    CtrPassSlice(aes, SeekCounter(high, first), offset, shown[offset..offset + size], n, size);
    SliceOfSlice(shown, offset, offset + size, n, size - n);
  }

  lemma AlignedIsDelivered(aes: BlockCipher, high: seq<byte>, first: nat, windowed: bool, shown: seq<byte>,
      offset: nat, size: nat)
    requires |high| == 8 && first + |shown| / BLOCK + 1 < U64_LIMIT
    requires offset + size <= |shown| && offset % BLOCK == 0
    ensures Delivered(aes, high, first, windowed, shown, offset, size)
         == CtrPass(aes, SeekCounter(high, first + offset / BLOCK), 0, shown[offset..offset + size])
  {
    SeekedSlice(aes, high, first, offset / BLOCK, shown[offset..offset + size]);
  }

  // ---- the file object --------------------------------------------------------------------

  /** Processing from a freshly set counter is one counter-mode pass. */
  lemma FreshProcessIsCtrPass(keys: Cipher.Keys, c: Running, data: seq<byte>)
    requires c.used == 0 && Sound(c)
    ensures Cipher.Strides(Cipher.Ctr, keys, c, data).1 == CtrPass(keys.block, c.iv, 0, data)
  {
    Cipher.StridesAreOnePass(keys, c, data);
    UpdateIsCtrPass(keys.block, c.iv, 0, c, data);
  }

  class CtrFile {
    const encfile: Source
    const ctroffset: nat
    const decrypt: Cipher.AesCipher
    ghost const high: seq<byte>
    var ctr: seq<byte>

    ghost predicate Valid()
      reads this, decrypt, if encfile.Windowed? then {encfile.window, encfile.window.filesrc} else {encfile.file}
    {
      && decrypt.Valid() && decrypt.mode == Cipher.Ctr
      && |high| == 8 && |ctr| == BLOCK && ctr[..8] == high
      && ValidSource(encfile) && ctroffset + |Shown(encfile)| / BLOCK + 1 < U64_LIMIT
    }

    constructor (file: BackingFile, keys: Cipher.Keys, iv: seq<byte>, starts: nat, size: nat, isHuge: bool)
      requires |iv| == BLOCK && starts + |file.contents| + size < U64_LIMIT
      requires starts > 0 && size > 0 ==> starts + size <= |file.contents|
      ensures Valid() && high == iv[..8] && ctroffset == starts / BLOCK && fresh(decrypt) && fresh(decrypt.auxbuffer)
      ensures decrypt.keys == keys
      ensures Shown(encfile) == if starts > 0 && size > 0 then file.contents[starts..starts + size] else file.contents
    {
      var source := Whole(file);
      if starts > 0 && size > 0 {
        var window := new OffsetFile(file, starts, size, isHuge);
        source := Windowed(window);
      }
      encfile := source;
      ctroffset := starts / BLOCK;
      ctr := iv;
      high := iv[..8];
      decrypt := new Cipher.AesCipher(keys, Cipher.Ctr);
    }

    method UpdateCtr(offset: nat)
      requires Valid() && offset <= |Shown(encfile)|
      modifies `ctr, decrypt`running, decrypt`sectorsz
      ensures Valid() && decrypt.running.iv == SeekCounter(high, ctroffset + offset / BLOCK)
    {
      hide Shown, BE, ValidSource;
      assert offset / BLOCK <= |Shown(encfile)| / BLOCK;
      var sector := (offset / BLOCK + ctroffset) % U64_LIMIT;
      assert sector == ctroffset + offset / BLOCK;
      ctr := ctr[..8] + BE(sector, 8);
      decrypt.SetupIv(ctr, 0);
    }

    /** Decrypts `n` bytes in place from the counter just set. */
    method DecryptHere(dest: array<byte>, doff: nat, n: nat) returns (processed: nat)
      requires decrypt.Valid() && decrypt.mode == Cipher.Ctr
      requires doff + n <= dest.Length && dest != decrypt.auxbuffer
      modifies decrypt`running, decrypt`auxbuffer, dest, decrypt.auxbuffer
      ensures decrypt.Valid() && (decrypt.auxbuffer == old(decrypt.auxbuffer) || fresh(decrypt.auxbuffer))
      ensures processed == n
      ensures Stored(dest, doff, CtrPass(decrypt.keys.block, old(decrypt.running.iv), 0, old(dest[doff..doff + n])))
    {
      hide Splice;
      FreshProcessIsCtrPass(decrypt.keys, decrypt.running.(used := 0), dest[doff..doff + n]);
      hide Cipher.Strides, CtrPass;
      processed := decrypt.Process(dest, doff, dest, doff, n);
    }

    /** An aligned request: seek, read, decrypt where it lies. */
    method ReadAligned(dest: array<byte>, doff: nat, size: nat, offset: nat) returns (result: nat, processed: nat)
      requires Valid() && doff + size <= dest.Length && dest != decrypt.auxbuffer
      requires offset % BLOCK == 0 && offset + size <= |Shown(encfile)|
      modifies `ctr, decrypt, dest, decrypt.auxbuffer
      ensures Valid() && (decrypt.auxbuffer == old(decrypt.auxbuffer) || fresh(decrypt.auxbuffer))
      ensures result == processed == size
      ensures Stored(dest, doff,
        Delivered(decrypt.keys.block, high, ctroffset, encfile.Windowed?, Shown(encfile), offset, size))
    {
      hide Splice, SeekCounter, Fetched, CtrPass, Shown, ValidSource, Delivered;
      ghost var start, shown, aes := dest[..], Shown(encfile), decrypt.keys.block;
      AlignedIsDelivered(aes, high, ctroffset, encfile.Windowed?, shown, offset, size);
      UpdateCtr(offset);
      result := ReadSource(encfile, dest, doff, size, offset);
      SpliceHolds(start, doff, shown[offset..offset + size]);
      ghost var mid := dest[..];
      processed := DecryptHere(dest, doff, result);
      SpliceTwice(start, doff, shown[offset..offset + size],
        Delivered(aes, high, ctroffset, encfile.Windowed?, shown, offset, size));
    }

    /** The block around an unaligned offset, decrypted in a buffer of its own. */
    method ReadHead(startblock: nat) returns (buffer: array<byte>, processed: nat)
      requires Valid() && startblock % BLOCK == 0 && startblock <= |Shown(encfile)|
      modifies `ctr, decrypt, decrypt.auxbuffer
      ensures Valid() && (decrypt.auxbuffer == old(decrypt.auxbuffer) || fresh(decrypt.auxbuffer))
      ensures fresh(buffer) && buffer != decrypt.auxbuffer && processed == BLOCK
      ensures buffer[..]
           == HeadBlock(decrypt.keys.block, high, ctroffset, encfile.Windowed?, Shown(encfile), startblock)
    {
      buffer := new byte[BLOCK](_ => 0);
      assert buffer[..] == Zeros(BLOCK);
      hide Splice, SeekCounter, Fetched, CtrPass, Shown, ValidSource, HeadBlock;
      UpdateCtr(startblock);
      var got := ReadSource(encfile, buffer, 0, BLOCK, startblock);
      processed := DecryptHere(buffer, 0, BLOCK);
    }

    /** `size` bytes at `offset`; the recursion goes one level deep, to an aligned offset. */
    method ReadTypeImpl(dest: array<byte>, doff: nat, size: nat, offset: nat) returns (count: nat)
      requires Valid() && doff + size <= dest.Length && dest != decrypt.auxbuffer
      modifies `ctr, decrypt, dest, decrypt.auxbuffer
      ensures Valid() && (decrypt.auxbuffer == old(decrypt.auxbuffer) || fresh(decrypt.auxbuffer))
      ensures offset + size > |Shown(encfile)| ==> count == 0 && Stored(dest, doff, [])
      ensures offset + size <= |Shown(encfile)| ==> count == size && Stored(dest, doff,
        Delivered(decrypt.keys.block, high, ctroffset, encfile.Windowed?, Shown(encfile), offset, size))
      decreases offset % BLOCK, 1
    {
      hide Splice, Delivered, Shown, ValidSource;
      var alignment := offset % BLOCK;
      var whole := SourceSize(encfile);
      if offset + size > whole {
        SpliceNothing(dest[..], doff, []);
        return 0;
      }
      if alignment == 0 {
        var result, processed := ReadAligned(dest, doff, size, offset);
        if processed == result {
          return result;
        }
      }
      count := ReadThroughHead(dest, doff, size, offset, alignment);
    }

    /** An unaligned request: the tail of its first block, then the aligned rest. */
    method ReadThroughHead(dest: array<byte>, doff: nat, size: nat, offset: nat, alignment: nat) returns (count: nat)
      requires Valid() && doff + size <= dest.Length && dest != decrypt.auxbuffer
      requires offset + size <= |Shown(encfile)| && alignment == offset % BLOCK != 0
      modifies `ctr, decrypt, dest, decrypt.auxbuffer
      ensures Valid() && (decrypt.auxbuffer == old(decrypt.auxbuffer) || fresh(decrypt.auxbuffer))
      ensures count == size && Stored(dest, doff,
        Delivered(decrypt.keys.block, high, ctroffset, encfile.Windowed?, Shown(encfile), offset, size))
      decreases offset % BLOCK, 0
    {
      hide Splice, Delivered, HeadBlock, Shown, ValidSource;
      ghost var start, shown, aes, windowed := dest[..], Shown(encfile), decrypt.keys.block, encfile.Windowed?;
      ghost var data := Delivered(aes, high, ctroffset, windowed, shown, offset, size);
      BlockIndexBound(offset, size, |shown|);
      HeadIsDelivered(aes, high, ctroffset, windowed, shown, offset, size, alignment);
      SpliceNothing(start, doff, data);

      var padding := BLOCK - alignment;
      var buffer, decrypted := ReadHead(offset - alignment);
      if decrypted != 0 {
        if size + alignment < BLOCK {
          CopyBytes(dest, doff, buffer, alignment, size);
          return size;
        }
        CopyBytes(dest, doff, buffer, alignment, padding);
      }
      if size - padding != 0 {
        RestIsDelivered(aes, high, ctroffset, windowed, shown, offset, size, padding);
        SpliceRest(start, doff, data, padding);
        var rest := ReadTypeImpl(dest, doff + padding, size - padding, offset + padding);
        return padding + rest;
      }
      return size;
    }
  }

  lemma BlockIndexBound(offset: nat, size: nat, length: nat)
    requires offset + size <= length
    ensures offset / BLOCK <= length / BLOCK
  {
  }
}
