/** AES counter mode over any block function (section 6.5 and B.1 of NIST SP 800-38A). */
module Keystream {
  import opened Bytes

  const BLOCK := 16

  /** The block cipher under some fixed key: byte `i` of the encryption of a block. */
  type BlockCipher = (seq<byte>, nat) -> byte

  function Encrypted(aes: BlockCipher, block: seq<byte>): (r: seq<byte>)
    ensures |r| == BLOCK
  {
    seq(BLOCK, i requires 0 <= i < BLOCK => aes(block, i))
  }

  function Pow2(n: nat): (r: nat)
    ensures r > 0
  {
    if n == 0 then 1 else 2 * Pow2(n - 1)
  }

  /** Exclusive or of the `n` low bits. */
  function XorBits(a: nat, b: nat, n: nat): (r: nat)
    ensures r < Pow2(n)
  {
    if n == 0 then 0 else (a + b) % 2 + 2 * XorBits(a / 2, b / 2, n - 1)
  }

  lemma {:induction false} XorBitsCancel(a: nat, b: nat, n: nat)
    requires a < Pow2(n)
    ensures XorBits(XorBits(a, b, n), b, n) == a
  {
    if n > 0 {
      XorBitsCancel(a / 2, b / 2, n - 1);
      BitCancels(a, b, XorBits(a / 2, b / 2, n - 1));
    }
  }

  /** The powers that pick out the bits of a byte. */
  lemma Pow2Values()
    ensures Pow2(0) == 1 && Pow2(1) == 2 && Pow2(2) == 4 && Pow2(3) == 8
    ensures Pow2(4) == 16 && Pow2(5) == 32 && Pow2(6) == 64 && Pow2(7) == 128 && Pow2(8) == 256
  {
    assert Pow2(4) == 2 * Pow2(3) && Pow2(3) == 2 * Pow2(2) && Pow2(2) == 2 * Pow2(1);
    assert Pow2(8) == 2 * Pow2(7) && Pow2(7) == 2 * Pow2(6) && Pow2(6) == 2 * Pow2(5) && Pow2(5) == 2 * Pow2(4);
  }

  /** `a >> k`. */
  function Shifted(a: nat, k: nat): int {
    a / Pow2(k)
  }

  lemma ShiftedOnce(a: nat, k: nat)
    ensures Shifted(a, 0) == a && Shifted(a, k + 1) == Shifted(a / 2, k)
  {
    assert Pow2(0) == 1;
    DivDiv(a, 2, Pow2(k));
  }

  lemma XorBitsStep(a: nat, b: nat, n: nat)
    ensures XorBits(a, b, n + 1) % 2 == (a + b) % 2 && XorBits(a, b, n + 1) / 2 == XorBits(a / 2, b / 2, n)
  {
    XorBitsFirst(a, b, n);
    hide *;
    OneBit((a + b) % 2, XorBits(a / 2, b / 2, n));
  }

  lemma XorBitsFirst(a: nat, b: nat, n: nat)
    ensures XorBits(a, b, n + 1) == (a + b) % 2 + 2 * XorBits(a / 2, b / 2, n)
  {
    hide Pow2;
  }

  lemma OneBit(bit: nat, rest: nat)
    requires bit < 2
    ensures (bit + 2 * rest) % 2 == bit && (bit + 2 * rest) / 2 == rest
  {
  }

  /** Each bit of the result is the sum of the two bits, without a carry. */
  lemma {:induction false} XorBitsBit(a: nat, b: nat, n: nat, k: nat)
    requires k < n
    ensures Shifted(XorBits(a, b, n), k) % 2 == (Shifted(a, k) + Shifted(b, k)) % 2
  {
    hide *;
    var x := XorBits(a, b, n);
    XorBitsStep(a, b, n - 1);
    if k == 0 {
      ShiftedOnce(a, 0);
      ShiftedOnce(b, 0);
      ShiftedOnce(x, 0);
    } else {
      XorBitsBit(a / 2, b / 2, n - 1, k - 1);
      ShiftedOnce(a, k - 1);
      ShiftedOnce(b, k - 1);
      ShiftedOnce(x, k - 1);
    }
  }

  lemma BitCancels(a: nat, b: nat, rest: nat)
    ensures var x := (a + b) % 2 + 2 * rest; x / 2 == rest && (x + b) % 2 == a % 2
  {
  }

  function Xor(a: byte, b: byte): byte {
    assert Pow2(8) == 256 by {
      assert Pow2(8) == 16 * Pow2(4);
    }
    XorBits(a, b, 8)
  }

  /** A bit of the exclusive or is set exactly when the two bits differ. */
  lemma XorBit(a: byte, b: byte, k: nat)
    requires k < 8
    ensures Xor(a, b) / Pow2(k) % 2 == 1 <==> a / Pow2(k) % 2 != b / Pow2(k) % 2
  {
    hide Xor, XorBits, Pow2;
    XorIsXorBits(a, b);
    XorBitsBit(a, b, 8, k);
    BitsDiffer(Shifted(a, k), Shifted(b, k), Shifted(Xor(a, b), k));
  }

  lemma XorIsXorBits(a: byte, b: byte)
    ensures Xor(a, b) == XorBits(a, b, 8)
  {
  }

  lemma BitsDiffer(x: int, y: int, z: int)
    requires z % 2 == (x + y) % 2
    ensures z % 2 == 1 <==> x % 2 != y % 2
  {
  }

  lemma XorCancels(a: byte, b: byte)
    ensures Xor(Xor(a, b), b) == a
  {
    assert Pow2(8) == 16 * Pow2(4);
    XorBitsCancel(a, b, 8);
  }

  lemma {:induction false} XorBitsOfZero(b: nat, n: nat)
    requires b < Pow2(n)
    ensures XorBits(0, b, n) == b
  {
    if n > 0 {
      XorBitsOfZero(b / 2, n - 1);
    }
  }

  lemma XorOfZero(b: byte)
    ensures Xor(0, b) == b
  {
    Pow2Values();
    XorBitsOfZero(b, 8);
  }

  // ---- the counter ------------------------------------------------------------------------

  /** Adds one to a big-endian counter, carrying from the last byte and dropping the last carry. */
  function Increment(c: seq<byte>): (r: seq<byte>)
    ensures |r| == |c|
  {
    if c == [] then []
    else
      var init, last := c[..|c| - 1], c[|c| - 1];
      if last < 255 then init + [last + 1] else Increment(init) + [0]
  }

  function CounterAt(c: seq<byte>, k: nat): (r: seq<byte>)
    ensures |r| == |c|
  {
    if k == 0 then c else Increment(CounterAt(c, k - 1))
  }

  lemma {:induction false} IncrementValue(c: seq<byte>)
    ensures BEValue(Increment(c)) == if BEValue(c) + 1 < Pow256(|c|) then BEValue(c) + 1 else 0
  {
    if c != [] {
      var init, last := c[..|c| - 1], c[|c| - 1];
      var r := Increment(c);
      if last < 255 {
        assert r[..|r| - 1] == init;
      } else {
        IncrementValue(init);
        assert r[..|r| - 1] == Increment(init);
      }
    }
  }

  lemma {:induction false} CounterValue(c: seq<byte>, k: nat)
    requires BEValue(c) + k < Pow256(|c|)
    ensures BEValue(CounterAt(c, k)) == BEValue(c) + k
  {
    if k > 0 {
      CounterValue(c, k - 1);
      IncrementValue(CounterAt(c, k - 1));
    }
  }

  /** A counter whose low half is the sector number: no carry reaches the high half while the
      sector number stays below 2^64. */
  lemma {:induction false} CounterCountsSectors(high: seq<byte>, sector: nat, k: nat)
    requires |high| == 8 && sector + k < U64_LIMIT
    ensures CounterAt(high + BE(sector, 8), k) == high + BE(sector + k, 8)
  {
    Pow256Values();
    if k > 0 {
      CounterCountsSectors(high, sector, k - 1);
      NoCarry(high, sector + k - 1);
    }
  }

  lemma NoCarry(high: seq<byte>, sector: nat)
    requires |high| == 8 && sector + 1 < U64_LIMIT
    ensures Increment(high + BE(sector, 8)) == high + BE(sector + 1, 8)
  {
    Pow256Values();
    var c, d := high + BE(sector, 8), high + BE(sector + 1, 8);
    BEValueOfConcat(high, BE(sector, 8));
    BEValueOfConcat(high, BE(sector + 1, 8));
    BERoundTrip(sector, 8);
    BERoundTrip(sector + 1, 8);
    assert BEValue(d) == BEValue(c) + 1;
    IncrementValue(c);
    BEValueRoundTrip(Increment(c));
    BEValueRoundTrip(d);
  }

  // ---- the stream -------------------------------------------------------------------------

  /** Byte `i` of the keystream that starts at counter `iv`. */
  function KeyByte(aes: BlockCipher, iv: seq<byte>, i: nat): byte {
    Encrypted(aes, CounterAt(iv, i / BLOCK))[i % BLOCK]
  }

  /** `data`, found at keystream position `at`, combined with the keystream. */
  function CtrPass(aes: BlockCipher, iv: seq<byte>, at: nat, data: seq<byte>): (r: seq<byte>)
    ensures |r| == |data|
  {
    seq(|data|, j requires 0 <= j < |data| => Xor(data[j], KeyByte(aes, iv, at + j)))
  }

  lemma CtrPassInvolution(aes: BlockCipher, iv: seq<byte>, at: nat, data: seq<byte>)
    ensures CtrPass(aes, iv, at, CtrPass(aes, iv, at, data)) == data
  {
    forall j | 0 <= j < |data| ensures CtrPass(aes, iv, at, CtrPass(aes, iv, at, data))[j] == data[j] {
      XorCancels(data[j], KeyByte(aes, iv, at + j));
    }
  }

  // ---- the running cipher -----------------------------------------------------------------

  /** The state of a running counter mode: the next counter, the position in the current key
      block, and that block. */
  datatype Running = Running(iv: seq<byte>, used: nat, block: seq<byte>)

  /** One key byte taken: a fresh key block is made every 16 bytes. */
  function Refilled(aes: BlockCipher, c: Running): (d: Running) {
    if c.used == 0 then Running(Increment(c.iv), 0, Encrypted(aes, c.iv)) else c
  }

  function Advanced(aes: BlockCipher, c: Running): (d: Running)
  {
    var d := Refilled(aes, c);
    d.(used := if c.used == BLOCK - 1 then 0 else c.used + 1)
  }

  predicate Sound(c: Running) {
    c.used < BLOCK && |c.block| == BLOCK
  }

  /** One library update of the stream, byte by byte. */
  function Update(aes: BlockCipher, c: Running, input: seq<byte>): (r: (Running, seq<byte>))
    requires Sound(c)
    ensures |r.1| == |input| && Sound(r.0)
    decreases |input|
  {
    if input == [] then (c, [])
    else
      var rest := Update(aes, Advanced(aes, c), input[1..]);
      (rest.0, [Xor(input[0], Refilled(aes, c).block[c.used])] + rest.1)
  }

  /** `c` is the state after `p` bytes of the stream that started at `iv`. */
  ghost predicate Reached(aes: BlockCipher, iv: seq<byte>, p: nat, c: Running) {
    && c.used == p % BLOCK && |c.block| == BLOCK
    && c.iv == CounterAt(iv, (p + BLOCK - 1) / BLOCK)
    && (c.used != 0 ==> c.block == Encrypted(aes, CounterAt(iv, p / BLOCK)))
  }

  lemma ReachedNext(aes: BlockCipher, iv: seq<byte>, p: nat, c: Running)
    requires Reached(aes, iv, p, c)
    ensures Refilled(aes, c).block[c.used] == KeyByte(aes, iv, p)
    ensures Reached(aes, iv, p + 1, Advanced(aes, c))
  {
    if c.used == 0 {
      assert (p + 1 + BLOCK - 1) / BLOCK == p / BLOCK + 1;
    } else {
      assert (p + 1 + BLOCK - 1) / BLOCK == (p + BLOCK - 1) / BLOCK;
    }
  }

  lemma {:induction false} UpdateIsCtrPass(aes: BlockCipher, iv: seq<byte>, p: nat, c: Running, input: seq<byte>)
    requires Reached(aes, iv, p, c)
    ensures Update(aes, c, input).1 == CtrPass(aes, iv, p, input)
    ensures Reached(aes, iv, p + |input|, Update(aes, c, input).0)
    decreases |input|
  {
    if input != [] {
      ReachedNext(aes, iv, p, c);
      hide Refilled, Advanced, KeyByte, CtrPass, Reached;
      UpdateIsCtrPass(aes, iv, p + 1, Advanced(aes, c), input[1..]);
      CtrPassFirst(aes, iv, p, input);
    } else {
      assert p + |input| == p;
    }
  }

  lemma CtrPassFirst(aes: BlockCipher, iv: seq<byte>, p: nat, input: seq<byte>)
    requires input != []
    ensures CtrPass(aes, iv, p, input) == [Xor(input[0], KeyByte(aes, iv, p))] + CtrPass(aes, iv, p + 1, input[1..])
  {
    hide KeyByte, Xor;
    var whole, rest := CtrPass(aes, iv, p, input), CtrPass(aes, iv, p + 1, input[1..]);
    forall j | 0 < j < |input| ensures whole[j] == rest[j - 1] {
      assert p + j == p + 1 + (j - 1);
    }
  }

  /** Feeding a stream in two updates is feeding it in one. */
  lemma {:induction false} UpdateSplits(aes: BlockCipher, c: Running, a: seq<byte>, b: seq<byte>)
    requires Sound(c)
    ensures var first := Update(aes, c, a); var second := Update(aes, first.0, b);
            Update(aes, c, a + b) == (second.0, first.1 + second.1)
    decreases |a|
  {
    if a == [] {
      assert a + b == b;
      assert [] + Update(aes, c, b).1 == Update(aes, c, b).1;
    } else {
      var d := Advanced(aes, c);
      UpdateSplits(aes, d, a[1..], b);
      assert (a + b)[1..] == a[1..] + b && (a + b)[0] == a[0];
      var x := Xor(a[0], Refilled(aes, c).block[c.used]);
      var first := Update(aes, d, a[1..]);
      var second := Update(aes, first.0, b);
      assert [x] + (first.1 + second.1) == ([x] + first.1) + second.1;
    }
  }
}
