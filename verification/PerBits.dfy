/**
  Octets seen as bits, and numbers seen as bits: the vocabulary in which the
  aligned PER writer and reader are specified.  Octets are `bv8` and keep Go's
  shifts and masks; positions and lengths are unbounded naturals.
*/
module PerBits {
  type Byte = bv8
  type Bits = seq<bool>

  // ---------------------------------------------------------------- one octet

  function Mask(j: nat): (m: Byte)
    requires j < 8
  {
    if j == 0 then 0x80 else if j == 1 then 0x40 else if j == 2 then 0x20 else if j == 3 then 0x10
    else if j == 4 then 0x08 else if j == 5 then 0x04 else if j == 6 then 0x02 else 0x01
  }

  /** Bit `j` of an octet, counted from the most significant one. */
  predicate Bit(b: Byte, j: nat)
    requires j < 8
  {
    b & Mask(j) != 0
  }

  /** Go's `b << k` on a `uint8`; a shift by 8 gives 0. */
  function Shl(b: Byte, k: nat): (r: Byte)
    requires k <= 8
  {
    if k == 0 then b else if k == 1 then b << 1 else if k == 2 then b << 2 else if k == 3 then b << 3
    else if k == 4 then b << 4 else if k == 5 then b << 5 else if k == 6 then b << 6 else if k == 7 then b << 7
    else 0
  }

  /** Go's `b >> k` on a `uint8`; a shift by 8 gives 0. */
  function Shr(b: Byte, k: nat): (r: Byte)
    requires k <= 8
  {
    if k == 0 then b else if k == 1 then b >> 1 else if k == 2 then b >> 2 else if k == 3 then b >> 3
    else if k == 4 then b >> 4 else if k == 5 then b >> 5 else if k == 6 then b >> 6 else if k == 7 then b >> 7
    else 0
  }

  lemma ShlBit(b: Byte, k: nat, j: nat)
    requires k <= 8 && j < 8
    ensures Bit(Shl(b, k), j) == (j + k < 8 && Bit(b, j + k))
  {
  }

  lemma ShrBit(b: Byte, k: nat, j: nat)
    requires k <= 8 && j < 8
    ensures Bit(Shr(b, k), j) == (j >= k && Bit(b, j - k))
  {
  }

  lemma OrBit(a: Byte, b: Byte, j: nat)
    requires j < 8
    ensures Bit(a | b, j) == (Bit(a, j) || Bit(b, j))
  {
  }

  lemma AndBit(a: Byte, b: Byte, j: nat)
    requires j < 8
    ensures Bit(a & b, j) == (Bit(a, j) && Bit(b, j))
  {
  }

  lemma ZeroBit(j: nat)
    requires j < 8
    ensures !Bit(0, j)
  {
  }

  /** `0xff << (8 - k)` keeps the first `k` bits, for `k` in 1..8. */
  lemma TopMaskBit(k: nat, j: nat)
    requires 1 <= k <= 8 && j < 8
    ensures Bit(Shl(0xff, 8 - k), j) == (j < k)
  {
    ShlBit(0xff, 8 - k, j);
  }

  lemma SameByte(a: Byte, b: Byte)
    requires forall j :: 0 <= j < 8 ==> Bit(a, j) == Bit(b, j)
    ensures a == b
  {
    assert Bit(a, 0) == Bit(b, 0) && Bit(a, 1) == Bit(b, 1) && Bit(a, 2) == Bit(b, 2) && Bit(a, 3) == Bit(b, 3);
    assert Bit(a, 4) == Bit(b, 4) && Bit(a, 5) == Bit(b, 5) && Bit(a, 6) == Bit(b, 6) && Bit(a, 7) == Bit(b, 7);
  }

  function BitIf(on: bool, m: Byte): (b: Byte) {
    if on then m else 0
  }

  /** The octet with the given bits, most significant first. */
  function PackByte(bits: Bits): (b: Byte)
    requires |bits| == 8
  {
    BitIf(bits[0], 0x80) | BitIf(bits[1], 0x40) | BitIf(bits[2], 0x20) | BitIf(bits[3], 0x10)
    | BitIf(bits[4], 0x08) | BitIf(bits[5], 0x04) | BitIf(bits[6], 0x02) | BitIf(bits[7], 0x01)
  }

  lemma PackByteBit(bits: Bits, j: nat)
    requires |bits| == 8 && j < 8
    ensures Bit(PackByte(bits), j) == bits[j]
  {
  }

  // ------------------------------------------------------- octet strings as bits

  function BytesToBits(bytes: seq<Byte>): (bits: Bits)
    ensures |bits| == 8 * |bytes|
  {
    seq(8 * |bytes|, i requires 0 <= i < 8 * |bytes| => Bit(bytes[i / 8], i % 8))
  }

  lemma BytesToBitsAt(bytes: seq<Byte>, k: nat, j: nat)
    requires k < |bytes| && j < 8
    ensures BytesToBits(bytes)[8 * k + j] == Bit(bytes[k], j)
  {
    assert (8 * k + j) / 8 == k && (8 * k + j) % 8 == j;
  }

  lemma BytesToBitsConcat(a: seq<Byte>, b: seq<Byte>)
    ensures BytesToBits(a + b) == BytesToBits(a) + BytesToBits(b)
  {
    var whole, parts := BytesToBits(a + b), BytesToBits(a) + BytesToBits(b);
    forall i | 0 <= i < |whole| ensures whole[i] == parts[i] {
      if i >= 8 * |a| {
        assert i / 8 - |a| == (i - 8 * |a|) / 8;
      }
    }
  }

  lemma BytesToBitsSlice(bytes: seq<Byte>, lo: nat, hi: nat)
    requires lo <= hi <= |bytes|
    ensures BytesToBits(bytes[lo..hi]) == BytesToBits(bytes)[8 * lo..8 * hi]
  {
    var slice, part := BytesToBits(bytes[lo..hi]), BytesToBits(bytes)[8 * lo..8 * hi];
    forall i | 0 <= i < |slice| ensures slice[i] == part[i] {
      assert (8 * lo + i) / 8 == lo + i / 8;
    }
  }

  lemma BytesToBitsInjective(a: seq<Byte>, b: seq<Byte>)
    requires BytesToBits(a) == BytesToBits(b)
    ensures a == b
  {
    assert |a| == |b|;
    forall k | 0 <= k < |a| ensures a[k] == b[k] {
      forall j | 0 <= j < 8 ensures Bit(a[k], j) == Bit(b[k], j) {
        BytesToBitsAt(a, k, j);
        BytesToBitsAt(b, k, j);
      }
      SameByte(a[k], b[k]);
    }
  }

  /** Octets holding the given bits; the reader of whole octets uses it to return them. */
  function PackBytes(bits: Bits): (bytes: seq<Byte>)
    requires |bits| % 8 == 0
    ensures 8 * |bytes| == |bits|
  {
    if bits == [] then [] else [PackByte(bits[..8])] + PackBytes(bits[8..])
  }

  lemma {:induction false} UnpackPacked(bits: Bits)
    requires |bits| % 8 == 0
    ensures BytesToBits(PackBytes(bits)) == bits
  {
    if bits == [] {
    } else {
      UnpackPacked(bits[8..]);
      var head := [PackByte(bits[..8])];
      BytesToBitsConcat(head, PackBytes(bits[8..]));
      forall j | 0 <= j < 8 ensures BytesToBits(head)[j] == bits[j] {
        PackByteBit(bits[..8], j);
      }
      assert bits == bits[..8] + bits[8..];
      assert BytesToBits(head) == bits[..8];
    }
  }

  lemma PackUnpacked(bytes: seq<Byte>)
    ensures PackBytes(BytesToBits(bytes)) == bytes
  {
    UnpackPacked(BytesToBits(bytes));
    BytesToBitsInjective(PackBytes(BytesToBits(bytes)), bytes);
  }

  // -------------------------------------------------------------------- padding

  function Zeros(n: nat): (z: Bits)
    ensures |z| == n && forall i :: 0 <= i < n ==> !z[i]
  {
    seq(n, _ => false)
  }

  /** Octets needed for `n` bits, `(n + 7) >> 3`. */
  function OctetsFor(n: nat): (k: nat)
    ensures n <= 8 * k < n + 8
  {
    (n + 7) / 8
  }

  /** Bits missing up to the next octet boundary. */
  function PadLen(n: nat): (p: nat)
    ensures p < 8 && (n + p) % 8 == 0
  {
    if n % 8 == 0 then 0 else 8 - n % 8
  }

  function Aligned(w: Bits): (r: Bits)
    ensures |r| % 8 == 0 && w <= r && |r| == |w| + PadLen(|w|)
    ensures |w| % 8 == 0 ==> r == w
  {
    w + Zeros(PadLen(|w|))
  }

  /** A bit string in whole octets, the last one filled up with zeros. */
  function InOctets(bits: Bits): (r: Bits)
    ensures bits <= r && |r| == 8 * OctetsFor(|bits|)
  {
    Aligned(bits)
  }

  // ------------------------------------------------------------ numbers as bits

  function Pow2(n: nat): (p: nat)
    ensures p >= 1
  {
    if n == 0 then 1 else 2 * Pow2(n - 1)
  }

  lemma {:induction false} Pow2Add(m: nat, n: nat)
    ensures Pow2(m + n) == Pow2(m) * Pow2(n)
  {
    if m == 0 {
    } else {
      Pow2Add(m - 1, n);
      assert Pow2(m + n) == 2 * Pow2(m + n - 1);
      assert Pow2(m) * Pow2(n) == 2 * (Pow2(m - 1) * Pow2(n)) by {
        assert Pow2(m) == 2 * Pow2(m - 1);
      }
    }
  }

  lemma {:induction false} Pow2Monotone(m: nat, n: nat)
    requires m <= n
    ensures Pow2(m) <= Pow2(n)
  {
    if m < n {
      Pow2Monotone(m, n - 1);
    }
  }

  lemma Pow2Values()
    ensures Pow2(1) == 2 && Pow2(2) == 4 && Pow2(3) == 8 && Pow2(4) == 16 && Pow2(5) == 32 && Pow2(6) == 64
    ensures Pow2(7) == 128 && Pow2(8) == 256 && Pow2(16) == 65536 && Pow2(24) == 0x100_0000
    ensures Pow2(32) == 0x1_0000_0000 && Pow2(40) == 0x100_0000_0000 && Pow2(48) == 0x1_0000_0000_0000
    ensures Pow2(56) == 0x100_0000_0000_0000 && Pow2(64) == 0x1_0000_0000_0000_0000
  {
    assert Pow2(8) == 256;
    Pow2Add(8, 8);
    Pow2Add(16, 8);
    Pow2Add(24, 8);
    Pow2Add(32, 8);
    Pow2Add(40, 8);
    Pow2Add(48, 8);
    Pow2Add(56, 8);
  }

  /** The low `n` bits of `v`, most significant first. */
  function BitsOf(v: nat, n: nat): (bits: Bits)
    ensures |bits| == n
  {
    if n == 0 then [] else BitsOf(v / 2, n - 1) + [v % 2 == 1]
  }

  /** The number a bit string stands for. */
  function ValueOf(bits: Bits): (v: nat)
    ensures v < Pow2(|bits|)
  {
    if bits == [] then 0
    else 2 * ValueOf(bits[..|bits| - 1]) + (if bits[|bits| - 1] then 1 else 0)
  }

  lemma HalfBelow(v: nat, p: nat)
    requires v < 2 * p
    ensures v / 2 < p && v == 2 * (v / 2) + v % 2
  {
  }

  lemma {:induction false} ValueOfBitsOf(v: nat, n: nat)
    requires v < Pow2(n)
    ensures ValueOf(BitsOf(v, n)) == v
  {
    hide BitsOf, ValueOf;
    if n == 0 {
      NoBits(v);
    } else {
      HalfBelow(v, Pow2(n - 1));
      ValueOfBitsOf(v / 2, n - 1);
      LastBitOf(v, n);
    }
  }

  lemma NoBits(v: nat)
    ensures ValueOf(BitsOf(v, 0)) == 0 && Pow2(0) == 1
  {
  }

  lemma LastBitOf(v: nat, n: nat)
    requires n >= 1
    ensures ValueOf(BitsOf(v, n)) == 2 * ValueOf(BitsOf(v / 2, n - 1)) + v % 2
  {
    var bits := BitsOf(v, n);
    assert bits[..n - 1] == BitsOf(v / 2, n - 1);
    assert v % 2 == if bits[n - 1] then 1 else 0;
  }

  lemma {:induction false} BitsOfValueOf(bits: Bits)
    ensures BitsOf(ValueOf(bits), |bits|) == bits
  {
    if bits == [] {
    } else {
      var front := bits[..|bits| - 1];
      BitsOfValueOf(front);
      assert ValueOf(bits) / 2 == ValueOf(front);
      assert bits == front + [bits[|bits| - 1]];
    }
  }

  lemma MulAtLeast(k: int, d: int)
    requires k >= 1 && d >= 1
    ensures k * d >= d
  {
  }

  lemma DivUnique(v: int, d: int, q: int, r: int)
    requires d >= 1 && 0 <= r < d && v == q * d + r
    ensures v / d == q && v % d == r
  {
    var q', r' := v / d, v % d;
    assert v == q' * d + r';
    assert (q - q') * d == r' - r && (q' - q) * d == r - r';
    if q > q' {
      MulAtLeast(q - q', d);
    } else if q < q' {
      MulAtLeast(q' - q, d);
    }
  }

  /** The bits of a number above and below bit `n`. */
  lemma {:induction false} BitsOfSum(high: nat, low: nat, m: nat, n: nat)
    ensures BitsOf(high * Pow2(n) + low % Pow2(n), m + n) == BitsOf(high, m) + BitsOf(low, n)
    decreases n
  {
    if n == 0 {
      assert BitsOf(low, 0) == [];
    } else {
      var half, p := high * Pow2(n - 1), Pow2(n - 1);
      var v := high * Pow2(n) + low % Pow2(n);
      BitsOfSum(high, low / 2, m, n - 1);
      HalfMod(low, p);
      assert v == 2 * half + low % (2 * p);
      assert v / 2 == half + (low / 2) % p;
      assert v % 2 == low % 2;
      assert BitsOf(v, m + n) == BitsOf(v / 2, m + (n - 1)) + [v % 2 == 1];
    }
  }

  lemma HalfMod(v: nat, p: nat)
    requires p >= 1
    ensures v % (2 * p) == 2 * (v / 2 % p) + v % 2
  {
    var q, r := v / 2 / p, v / 2 % p;
    assert v / 2 == q * p + r;
    assert v == q * (2 * p) + (2 * r + v % 2) by {
      assert q * (2 * p) == 2 * (q * p);
    }
    DivUnique(v, 2 * p, q, 2 * r + v % 2);
  }

  lemma DivMod(v: nat, d: nat)
    requires d >= 1
    ensures v / d >= 0 && 0 <= v % d < d && v == v / d * d + v % d
  {
  }

  /** Go's `v >> n` on an unsigned number. */
  function ShiftRight(v: nat, n: nat): (h: nat)
    ensures h * Pow2(n) <= v < h * Pow2(n) + Pow2(n)
  {
    DivMod(v, Pow2(n));
    v / Pow2(n)
  }

  lemma BitsOfSplit(v: nat, m: nat, n: nat)
    ensures BitsOf(v, m + n) == BitsOf(ShiftRight(v, n), m) + BitsOf(v, n)
  {
    var p := Pow2(n);
    DivMod(v, p);
    BitsOfSum(ShiftRight(v, n), v, m, n);
  }

  /** A number below `2^n` shifts out completely, and only such a number does. */
  lemma ShiftedOut(v: nat, n: nat)
    ensures ShiftRight(v, n) == 0 <==> v < Pow2(n)
  {
    var h := ShiftRight(v, n);
    if h >= 1 {
      MulAtLeast(h, Pow2(n));
    }
  }

  lemma MulMonotone(x: int, y: int, a: int)
    requires x <= y && a >= 0
    ensures x * a <= y * a
  {
  }

  lemma RegroupDivisions(v: int, a: int, b: int, x: int, y: int, r: int, s: int)
    requires v == x * a + r && x == y * b + s
    ensures v == y * (a * b) + (s * a + r)
  {
  }

  lemma DivTwice(v: nat, a: nat, b: nat)
    requires a >= 1 && b >= 1
    ensures v / a >= 0 && a * b >= 1 && v / a / b == v / (a * b)
  {
    DivMod(v, a);
    var x: nat := v / a;
    DivMod(x, b);
    var y, r, s := x / b, v % a, x % b;
    RegroupDivisions(v, a, b, x, y, r, s);
    MulMonotone(s, b - 1, a);
    MulAtLeast(a, b);
    assert (b - 1) * a == a * b - a;
    assert 0 <= s * a;
    DivUnique(v, a * b, y, s * a + r);
  }

  lemma ShiftRightTwice(v: nat, m: nat, n: nat)
    ensures ShiftRight(ShiftRight(v, m), n) == ShiftRight(v, m + n)
  {
    var a, b := Pow2(m), Pow2(n);
    Pow2Add(m, n);
    DivTwice(v, a, b);
  }

  lemma ValueOfPush(bits: Bits, b: bool)
    ensures ValueOf(bits + [b]) == 2 * ValueOf(bits) + (if b then 1 else 0)
  {
    assert (bits + [b])[..|bits|] == bits;
  }

  lemma {:induction false} ValueOfConcat(a: Bits, b: Bits)
    ensures ValueOf(a + b) == ValueOf(a) * Pow2(|b|) + ValueOf(b)
  {
    if b == [] {
      assert a + b == a;
    } else {
      var front, last := b[..|b| - 1], b[|b| - 1];
      ValueOfConcat(a, front);
      var p := Pow2(|front|);
      assert Pow2(|b|) == 2 * p;
      hide ValueOf, Pow2;
      assert a + b == (a + front) + [last] && b == front + [last];
      ValueOfPush(a + front, last);
      ValueOfPush(front, last);
      DoubleProduct(ValueOf(a), p);
    }
  }

  lemma DoubleProduct(x: int, y: int)
    ensures x * (2 * y) == 2 * (x * y)
  {
  }

  lemma {:induction false} BitsOfZero(n: nat)
    ensures BitsOf(0, n) == Zeros(n)
  {
    if n == 0 {
    } else {
      BitsOfZero(n - 1);
      assert Zeros(n) == Zeros(n - 1) + [false];
    }
  }

  lemma {:induction false} ValueOfZeros(bits: Bits)
    ensures ValueOf(bits) == 0 <==> bits == Zeros(|bits|)
  {
    if bits == [] {
    } else {
      var front := bits[..|bits| - 1];
      ValueOfZeros(front);
      assert bits == front + [bits[|bits| - 1]];
      assert Zeros(|bits|) == Zeros(|front|) + [false];
    }
  }

  /** Shifting left appends zero bits. */
  lemma {:induction false} BitsOfShifted(v: nat, m: nat, n: nat)
    ensures BitsOf(v * Pow2(n), m + n) == BitsOf(v, m) + Zeros(n)
  {
    if n == 0 {
      assert Zeros(0) == [];
    } else {
      BitsOfShifted(v, m, n - 1);
      assert v * Pow2(n) == 2 * (v * Pow2(n - 1));
      assert Zeros(n) == Zeros(n - 1) + [false];
    }
  }

  /** `byte(x & 0xff)` for a number `x`. */
  function ByteOf(x: nat): (b: Byte) {
    PackByte(BitsOf(x, 8))
  }

  /** `uint64(b)` for an octet `b`. */
  function UintOf(b: Byte): (n: nat)
    ensures n < 256
  {
    Pow2Values();
    ValueOf(BytesToBits([b]))
  }

  lemma ByteOfBits(x: nat)
    ensures BytesToBits([ByteOf(x)]) == BitsOf(x, 8)
  {
    forall j | 0 <= j < 8 ensures BytesToBits([ByteOf(x)])[j] == BitsOf(x, 8)[j] {
      PackByteBit(BitsOf(x, 8), j);
    }
  }
}
