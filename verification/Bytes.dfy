/** Byte strings, whole pages, fixed-width integers in both byte orders, and the two ways a flat file or a buffer is
    written: in place, where the bytes have to fit, and at an offset, where a file grows and a gap reads as zeros. */
module Bytes {
  type byte = x: int | 0 <= x < 256

  const U64_LIMIT := 0x1_0000_0000_0000_0000
  const U32_LIMIT := 0x1_0000_0000
  const PAGE_SIZE := 0x1000

  function Min(a: int, b: int): int {
    if a < b then a else b
  }

  /** `align_up` to a whole number of pages. */
  function PageUp(n: nat): (r: nat)
    ensures n <= r < n + PAGE_SIZE && r % PAGE_SIZE == 0
  {
    (n + PAGE_SIZE - 1) / PAGE_SIZE * PAGE_SIZE
  }

  function Zeros(n: nat): (r: seq<byte>)
    ensures |r| == n
  {
    seq(n, _ => 0)
  }

  /** `s` with `data` stored at `at`: memcpy into a buffer that is long enough. */
  function Splice(s: seq<byte>, at: nat, data: seq<byte>): (r: seq<byte>)
    requires at + |data| <= |s|
    ensures |r| == |s|
  {
    s[..at] + data + s[at + |data|..]
  }

  lemma SliceOfSlice(s: seq<byte>, lo: nat, hi: nat, at: nat, n: nat)
    requires lo <= hi <= |s| && at + n <= hi - lo
    ensures s[lo..hi][at..at + n] == s[lo + at..lo + at + n]
  {
    var inner, outer := s[lo..hi][at..at + n], s[lo + at..lo + at + n];
    assert |inner| == n == |outer|;
    forall i | 0 <= i < n ensures inner[i] == outer[i] {
      assert inner[i] == s[lo..hi][at + i] == s[lo + at + i];
    }
  }

  lemma SlicesJoin(s: seq<byte>, lo: nat, mid: nat, hi: nat)
    requires lo <= mid <= hi <= |s|
    ensures s[lo..hi] == s[lo..mid] + s[mid..hi]
  {
  }

  lemma SpliceMore(s: seq<byte>, at: nat, data: seq<byte>, p: nat, n: nat)
    requires at + |data| <= |s| && p + n <= |data|
    ensures Splice(Splice(s, at, data[..p]), at + p, data[p..p + n]) == Splice(s, at, data[..p + n])
  {
  }

  lemma SpliceRest(s: seq<byte>, at: nat, data: seq<byte>, p: nat)
    requires at + |data| <= |s| && p <= |data|
    ensures Splice(Splice(s, at, data[..p]), at + p, data[p..|data|]) == Splice(s, at, data)
  {
  }

  lemma SpliceNothing(s: seq<byte>, at: nat, data: seq<byte>)
    requires at + |data| <= |s|
    ensures Splice(s, at, data[..0]) == s && data[..|data|] == data
  {
  }

  lemma SpliceTwice(s: seq<byte>, at: nat, first: seq<byte>, second: seq<byte>)
    requires |first| <= |second| && at + |second| <= |s|
    ensures Splice(Splice(s, at, first), at, second) == Splice(s, at, second)
  {
  }

  lemma SpliceHolds(s: seq<byte>, at: nat, data: seq<byte>)
    requires at + |data| <= |s|
    ensures Splice(s, at, data)[at..at + |data|] == data
  {
  }

  lemma SpliceKeepsTail(s: seq<byte>, at: nat, data: seq<byte>, lo: nat, hi: nat)
    requires at + |data| <= lo <= hi <= |s|
    ensures Splice(s, at, data)[lo..hi] == s[lo..hi]
  {
  }

  lemma SpliceKeepsHead(s: seq<byte>, at: nat, data: seq<byte>, lo: nat, hi: nat)
    requires lo <= hi <= at && at + |data| <= |s|
    ensures Splice(s, at, data)[lo..hi] == s[lo..hi]
  {
  }

  /** Since the earlier state, `data` was stored in `dest` at `at` and nothing else changed. */
  twostate predicate Stored(dest: array<byte>, at: nat, data: seq<byte>)
    reads dest
  {
    at + |data| <= dest.Length && dest[..] == Splice(old(dest[..]), at, data)
  }

  method CopyBytes(dest: array<byte>, at: nat, source: array<byte>, from: nat, size: nat)
    requires dest != source && at + size <= dest.Length && from + size <= source.Length
    modifies dest
    ensures Stored(dest, at, source[from..from + size])
  {
    forall i | 0 <= i < size {
      dest[at + i] := source[from + i];
    }
    assert dest[..] == Splice(old(dest[..]), at, source[from..from + size]);
  }

  /** `s` after a positioned write: the file grows, and a gap reads as zeros. */
  function Overwrite(s: seq<byte>, at: nat, data: seq<byte>): (r: seq<byte>)
    ensures data == [] ==> r == s
    ensures data != [] ==> |r| == (if |s| < at + |data| then at + |data| else |s|)
    ensures data != [] ==> r[at..at + |data|] == data
    ensures data != [] ==> forall i :: 0 <= i < at ==> r[i] == if i < |s| then s[i] else 0
    ensures data != [] ==> forall i :: at + |data| <= i < |s| ==> r[i] == s[i]
  {
    if data == [] then s
    else if |s| < at + |data| then Splice(s + Zeros(at + |data| - |s|), at, data)
    else Splice(s, at, data)
  }

  /** The characters before the first NUL. */
  function UpToNul(s: seq<byte>): (r: seq<byte>)
    ensures |r| <= |s| && r == s[..|r|] && 0 !in r
  {
    if s == [] || s[0] == 0 then [] else [s[0]] + UpToNul(s[1..])
  }

  lemma {:induction false} UpToNulOfName(name: seq<byte>, rest: seq<byte>)
    requires 0 !in name
    ensures UpToNul(name + [0] + rest) == name
  {
    var s := name + [0] + rest;
    if name != [] {
      assert s[1..] == name[1..] + [0] + rest;
      UpToNulOfName(name[1..], rest);
    }
  }

  lemma {:induction false} UpToNulOfAll(name: seq<byte>)
    requires 0 !in name
    ensures UpToNul(name) == name
  {
    if name != [] {
      UpToNulOfAll(name[1..]);
    }
  }

  function Tail(s: seq<byte>, at: nat): seq<byte> {
    if at <= |s| then s[at..] else []
  }

  /** A write that leaves no gap. */
  function Placed(s: seq<byte>, at: nat, data: seq<byte>): (r: seq<byte>)
    requires at <= |s|
    ensures at + |data| <= |r|
  {
    s[..at] + data + Tail(s, at + |data|)
  }

  lemma OverwriteInside(s: seq<byte>, at: nat, data: seq<byte>)
    requires at <= |s|
    ensures Overwrite(s, at, data) == Placed(s, at, data)
  {
    if data == [] {
      assert s[..at] + data == s[..at];
    } else if |s| < at + |data| {
      assert (s + Zeros(at + |data| - |s|))[..at] == s[..at];
    }
  }

  lemma PlacedMore(s: seq<byte>, at: nat, first: seq<byte>, second: seq<byte>)
    requires at <= |s|
    ensures Placed(Placed(s, at, first), at + |first|, second) == Placed(s, at, first + second)
  {
    var once := Placed(s, at, first);
    assert once[..at + |first|] == s[..at] + first;
    assert Tail(once, at + |first| + |second|) == Tail(s, at + |first + second|);
  }

  /** Two writes in a row are one. */
  lemma OverwriteMore(s: seq<byte>, at: nat, first: seq<byte>, second: seq<byte>)
    requires at <= |s|
    ensures Overwrite(Overwrite(s, at, first), at + |first|, second) == Overwrite(s, at, first + second)
  {
    hide *;
    OverwriteInside(s, at, first);
    OverwriteInside(s, at, first + second);
    OverwriteInside(Placed(s, at, first), at + |first|, second);
    PlacedMore(s, at, first, second);
  }

  function Pow256(n: nat): (r: nat)
    ensures r > 0
  {
    if n == 0 then 1 else 256 * Pow256(n - 1)
  }

  lemma Pow256Values()
    ensures Pow256(0) == 1 && Pow256(1) == 0x100 && Pow256(2) == 0x1_0000 && Pow256(3) == 0x100_0000
    ensures Pow256(4) == U32_LIMIT && Pow256(8) == U64_LIMIT
  {
    assert Pow256(5) == 256 * Pow256(4) && Pow256(4) == 256 * Pow256(3);
    assert Pow256(8) == 256 * Pow256(7) && Pow256(7) == 256 * Pow256(6) && Pow256(6) == 256 * Pow256(5);
  }

  /** Little-endian bytes of `n` in `width` bytes, and their value. */
  function LE(n: nat, width: nat): (r: seq<byte>)
    ensures |r| == width
  {
    if width == 0 then [] else [n % 256] + LE(n / 256, width - 1)
  }

  function LEValue(s: seq<byte>): (r: nat)
    ensures r < Pow256(|s|)
  {
    if s == [] then 0 else s[0] + 256 * LEValue(s[1..])
  }

  /** Four bytes, the lowest first, as a number. */
  function Word(a: int, b: int, c: int, d: int): int {
    a + 0x100 * b + 0x1_0000 * c + 0x100_0000 * d
  }

  lemma FourBytes(s: seq<byte>)
    requires |s| == 4
    ensures LEValue(s) == Word(s[0], s[1], s[2], s[3])
  {
    assert s[1..][1..] == s[2..] && s[2..][1..] == s[3..] && s[3..][1..] == [];
    assert LEValue(s[3..]) == s[3] && LEValue(s[2..]) == s[2] + 0x100 * LEValue(s[3..]);
    assert LEValue(s[1..]) == s[1] + 0x100 * LEValue(s[2..]);
  }

  lemma EightBytes(s: seq<byte>)
    requires |s| == 8
    ensures LEValue(s) == Word(s[0], s[1], s[2], s[3]) + U32_LIMIT * Word(s[4], s[5], s[6], s[7])
  {
    hide LEValue, Word, Pow256;
    Pow256Values();
    assert s == s[..4] + s[4..];
    LEValueOfConcat(s[..4], s[4..]);
    FourBytes(s[..4]);
    FourBytes(s[4..]);
  }

  lemma {:induction false} LERoundTrip(n: nat, width: nat)
    requires n < Pow256(width)
    ensures LEValue(LE(n, width)) == n
  {
    if width > 0 {
      LERoundTrip(n / 256, width - 1);
      assert LE(n, width)[1..] == LE(n / 256, width - 1);
    }
  }

  /** Dividing twice is dividing by the product. */
  lemma DivDiv(n: nat, a: nat, b: nat)
    requires a > 0 && b > 0
    ensures a * b > 0 && n / a / b == n / (a * b)
  {
    var x, r := DivisionParts(n, a);
    var q, t := DivisionParts(x, b);
    Quotients(n, a, b, x, r, q, t);
  }

  lemma DivisionParts(n: nat, a: nat) returns (q: nat, r: nat)
    requires a > 0
    ensures q == n / a && n == a * q + r && r < a
  {
    q, r := n / a, n % a;
  }

  lemma Quotients(n: nat, a: nat, b: nat, x: nat, r: nat, q: nat, t: nat)
    requires n == a * x + r && r < a && x == b * q + t && t < b
    ensures a * b > 0 && n / (a * b) == q
  {
    ProductAtLeast(a, b);
    Regroup(n, a, b, q, t, r);
    QuotientIs(n, a * b, q, a * t + r);
  }

  lemma Regroup(n: nat, a: nat, b: nat, q: nat, t: nat, r: nat)
    requires n == a * (b * q + t) + r && r < a && t < b
    ensures 0 <= a * t + r < a * b && n == (a * b) * q + (a * t + r)
  {
    assert a * (b * q + t) == (a * b) * q + a * t;
    assert a * b == a * t + a * (b - t);
    ProductAtLeast(a, b - t);
    ProductIsNat(a, t);
  }

  lemma ProductIsNat(a: nat, t: nat)
    ensures a * t >= 0
  {
  }

  lemma QuotientIs(n: nat, d: nat, q: nat, r: nat)
    requires d > 0 && n == d * q + r && r < d
    ensures n / d == q
  {
    var p := n / d;
    assert d * (q - p) == n % d - r by {
      assert d * (q - p) == d * q - d * p;
    }
    SmallProduct(d, q - p);
  }

  lemma SmallProduct(d: int, k: int)
    requires -d < d * k < d
    ensures k == 0
  {
    if k >= 1 {
      ProductAtLeast(d, k);
    } else if k <= -1 {
      ProductAtLeast(d, -k);
    }
  }

  /** Byte `i` of a little-endian number is its base-256 digit `i`. */
  lemma {:induction false} LEPosition(n: nat, width: nat, i: nat)
    requires i < width
    ensures LE(n, width)[i] == n / Pow256(i) % 256
  {
    if i > 0 {
      LEPosition(n / 256, width - 1, i - 1);
      DivDiv(n, 256, Pow256(i - 1));
    }
  }

  lemma DigitSplits(d: byte, x: nat)
    ensures (d + 256 * x) % 256 == d && (d + 256 * x) / 256 == x
  {
  }

  lemma {:induction false} LEValueRoundTrip(s: seq<byte>)
    ensures LE(LEValue(s), |s|) == s
  {
    if s != [] {
      LEValueRoundTrip(s[1..]);
      DigitSplits(s[0], LEValue(s[1..]));
      assert s == [s[0]] + s[1..];
    }
  }

  lemma {:induction false} LEValueOfConcat(a: seq<byte>, b: seq<byte>)
    ensures LEValue(a + b) == LEValue(a) + Pow256(|a|) * LEValue(b)
  {
    if a == [] {
      assert a + b == b;
    } else {
      assert (a + b)[1..] == a[1..] + b;
      LEValueOfConcat(a[1..], b);
      ShiftIn(a[0], LEValue(a[1..]), Pow256(|a| - 1), LEValue(b));
    }
  }

  lemma ShiftIn(d: nat, x: nat, p: nat, y: nat)
    ensures d + 256 * (x + p * y) == d + 256 * x + 256 * p * y
  {
    assert 256 * (p * y) == 256 * p * y;
  }

  /** The bytes of a number are those of its low part, then those of its high part. */
  lemma LEOfParts(low: nat, high: nat, m: nat, n: nat)
    requires low < Pow256(m) && high < Pow256(n)
    ensures LE(low + Pow256(m) * high, m + n) == LE(low, m) + LE(high, n)
  {
    var s := LE(low, m) + LE(high, n);
    LEValueOfConcat(LE(low, m), LE(high, n));
    LERoundTrip(low, m);
    LERoundTrip(high, n);
    LEValueRoundTrip(s);
  }

  /** Big-endian bytes of `n` in `width` bytes, and their value. */
  function BE(n: nat, width: nat): (r: seq<byte>)
    ensures |r| == width
  {
    if width == 0 then [] else BE(n / 256, width - 1) + [n % 256]
  }

  /** Byte `i` of a big-endian number is its base-256 digit, counted from the end. */
  lemma {:induction false} BEPosition(n: nat, width: nat, i: nat)
    requires i < width
    ensures BE(n, width)[i] == n / Pow256(width - 1 - i) % 256
  {
    if i < width - 1 {
      BEPosition(n / 256, width - 1, i);
      DivDiv(n, 256, Pow256(width - 2 - i));
    }
  }

  function BEValue(s: seq<byte>): (r: nat)
    ensures r < Pow256(|s|)
  {
    if s == [] then 0 else BEValue(s[..|s| - 1]) * 256 + s[|s| - 1]
  }

  lemma {:induction false} BERoundTrip(n: nat, width: nat)
    requires n < Pow256(width)
    ensures BEValue(BE(n, width)) == n
  {
    if width > 0 {
      BERoundTrip(n / 256, width - 1);
      assert BE(n, width)[..width - 1] == BE(n / 256, width - 1);
    }
  }

  lemma {:induction false} BEValueRoundTrip(s: seq<byte>)
    ensures BE(BEValue(s), |s|) == s
  {
    if s != [] {
      var init, last := s[..|s| - 1], s[|s| - 1];
      BEValueRoundTrip(init);
      DigitSplits(last, BEValue(init));
      assert s == init + [last];
    }
  }

  lemma {:induction false} BEValueOfConcat(a: seq<byte>, b: seq<byte>)
    ensures BEValue(a + b) == BEValue(a) * Pow256(|b|) + BEValue(b)
  {
    if b == [] {
      assert a + b == a;
    } else {
      var init, last := b[..|b| - 1], b[|b| - 1];
      assert (a + b)[..|a + b| - 1] == a + init;
      BEValueOfConcat(a, init);
      calc {
        BEValue(a + b);
        BEValue(a + init) * 256 + last;
        (BEValue(a) * Pow256(|init|) + BEValue(init)) * 256 + last;
        { ShiftOut(BEValue(a), Pow256(|init|), BEValue(init)); }
        BEValue(a) * Pow256(|b|) + (BEValue(init) * 256 + last);
      }
    }
  }

  lemma ShiftOut(x: nat, p: nat, y: nat)
    ensures (x * p + y) * 256 == x * (256 * p) + y * 256
  {
    calc {
      (x * p + y) * 256;
      x * p * 256 + y * 256;
      { assert x * p * 256 == x * (p * 256); }
      x * (256 * p) + y * 256;
    }
  }

  ghost predicate WholeUnits(n: int, unit: int) {
    unit > 0 && n % unit == 0
  }

  lemma WholeUnitsLeft(n: nat, unit: nat)
    requires n > 0 && WholeUnits(n, unit)
    ensures unit <= n && WholeUnits(n - unit, unit)
  {
    var q := n / unit;
    assert n == unit * q;
    assert q >= 1;
    ProductAtLeast(unit, q);
    assert unit * (q - 1) == unit * q - unit;
    MultipleHasNoRest(unit, q - 1);
  }

  /** `n` rounded up to whole units. */
  function WholeUp(n: nat, unit: nat): (r: nat)
    requires unit > 0
    ensures n <= r < n + unit
  {
    if n == 0 then 0 else if n <= unit then unit else unit + WholeUp(n - unit, unit)
  }

  lemma {:induction false} WholeUpFacts(n: nat, unit: nat)
    requires unit > 0
    ensures WholeUnits(WholeUp(n, unit), unit)
    ensures WholeUnits(n, unit) ==> WholeUp(n, unit) == n
    decreases n
  {
    if n > unit {
      WholeUpFacts(n - unit, unit);
      WholeUnitsMore(WholeUp(n - unit, unit), unit);
      if WholeUnits(n, unit) {
        WholeUnitsLeft(n, unit);
      }
    } else if 0 < n < unit && WholeUnits(n, unit) {
      WholeUnitsLeft(n, unit);
      assert false;
    }
  }

  lemma WholeUnitsMore(n: nat, unit: nat)
    requires WholeUnits(n, unit)
    ensures WholeUnits(n + unit, unit)
  {
    var q := n / unit;
    assert n == unit * q;
    assert unit * (q + 1) == unit * q + unit;
    MultipleHasNoRest(unit, q + 1);
  }

  lemma ProductAtLeast(a: int, b: int)
    requires a > 0 && b >= 1
    ensures a * b >= a
  {
    assert a * b == a + a * (b - 1);
  }

  lemma MultipleHasNoRest(unit: nat, k: nat)
    requires unit > 0
    ensures (unit * k) % unit == 0
  {
    var m := unit * k;
    var q, r := m / unit, m % unit;
    assert m == unit * q + r;
    assert unit * (k - q) == r by {
      assert unit * (k - q) == unit * k - unit * q;
    }
    assert unit * (k - q) == -(unit * (q - k));
    if k - q >= 1 {
      ProductAtLeast(unit, k - q);
    } else if q - k >= 1 {
      ProductAtLeast(unit, q - k);
    }
  }
}
