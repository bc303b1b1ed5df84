/** `GetBitString` and `GetBitsValue`: cutting bits out of octets at any bit offset. */
module PerBitString {
  import opened Wrappers
  import opened PerBits
  import opened PerSpec

  /** Octet `k` of the source shifted left by `offset` bits, filled from the next octet. */
  function Joined(src: seq<Byte>, k: nat, offset: nat): (b: Byte)
    requires k + 1 < |src| && offset < 8
  {
    Shl(src[k], offset) | Shr(src[k + 1], 8 - offset)
  }

  lemma JoinedOctets(a: Byte, b: Byte, offset: nat, j: nat)
    requires offset < 8 && j < 8
    ensures Bit(Shl(a, offset) | Shr(b, 8 - offset), j) ==
            if offset + j < 8 then Bit(a, offset + j) else Bit(b, offset + j - 8)
  {
    hide Bit, Shl, Shr;
    OrBit(Shl(a, offset), Shr(b, 8 - offset), j);
    ShlBit(a, offset, j);
    ShrBit(b, 8 - offset, j);
  }

  lemma JoinedBit(src: seq<Byte>, k: nat, offset: nat, j: nat)
    requires k + 1 < |src| && offset < 8 && j < 8
    ensures Bit(Joined(src, k, offset), j) == BytesToBits(src)[8 * k + offset + j]
  {
    hide Bit, Shl, Shr, BytesToBits;
    JoinedOctets(src[k], src[k + 1], offset, j);
    if offset + j < 8 {
      BytesToBitsAt(src, k, offset + j);
    } else {
      BytesToBitsAt(src, k + 1, offset + j - 8);
    }
  }

  lemma LastBit(src: seq<Byte>, k: nat, offset: nat, j: nat)
    requires k < |src| && offset + j < 8
    ensures Bit(Shl(src[k], offset), j) == BytesToBits(src)[8 * k + offset + j]
  {
    hide Bit, Shl, BytesToBits;
    ShlBit(src[k], offset, j);
    BytesToBitsAt(src, k, offset + j);
  }

  /** `dst` holds the `n` bits of `src` from `offset` on, left-aligned and padded with zeros. */
  ghost predicate Cut(src: seq<Byte>, offset: nat, n: nat, dst: seq<Byte>)
    requires offset + n <= 8 * |src|
  {
    && |dst| == OctetsFor(n)
    && forall i :: 0 <= i < 8 * |dst| ==> BytesToBits(dst)[i] == (i < n && BytesToBits(src)[offset + i])
  }

  /** The octets before masking: all `n` bits are in place. */
  ghost predicate Shifted(src: seq<Byte>, offset: nat, n: nat, dst: seq<Byte>)
    requires offset < 8 && 1 <= n && offset + n <= 8 * |src|
  {
    && |dst| == OctetsFor(n)
    && var count := OctetsFor(offset + n);
       && (forall k :: 0 <= k < count - 1 ==> dst[k] == Joined(src, k, offset))
       && (count == |dst| ==> dst[count - 1] == Shl(src[count - 1], offset))
  }

  lemma ShiftedBit(src: seq<Byte>, offset: nat, n: nat, dst: seq<Byte>, k: nat, j: nat)
    requires offset < 8 && 1 <= n && offset + n <= 8 * |src| && Shifted(src, offset, n, dst)
    requires k < |dst| && j < 8 && 8 * k + j < n
    ensures Bit(dst[k], j) == BytesToBits(src)[offset + 8 * k + j]
  {
    hide Bit, Shl, Joined, BytesToBits;
    if k < OctetsFor(offset + n) - 1 {
      JoinedBit(src, k, offset, j);
    } else {
      LastBit(src, k, offset, j);
    }
  }

  lemma MaskedIsCut(src: seq<Byte>, offset: nat, n: nat, dst: seq<Byte>, dst': seq<Byte>, mask: Byte)
    requires offset < 8 && 1 <= n && offset + n <= 8 * |src| && Shifted(src, offset, n, dst)
    requires mask == if n % 8 == 0 then 0xff else Shl(0xff, 8 - n % 8)
    requires dst' == dst[|dst| - 1 := dst[|dst| - 1] & mask]
    ensures Cut(src, offset, n, dst')
  {
    assert |dst| == OctetsFor(n);
    hide Bit, Shl, Shifted, BytesToBits, OctetsFor;
    forall i | 0 <= i < 8 * |dst'| ensures BytesToBits(dst')[i] == (i < n && BytesToBits(src)[offset + i]) {
      var k, j := i / 8, i % 8;
      assert i == 8 * k + j;
      BytesToBitsAt(dst', k, j);
      MaskedBit(n, dst, dst', mask, k, j);
      if i < n {
        ShiftedBit(src, offset, n, dst, k, j);
      }
    }
  }

  lemma MaskedBit(n: nat, dst: seq<Byte>, dst': seq<Byte>, mask: Byte, k: nat, j: nat)
    requires 1 <= n && |dst| == OctetsFor(n) && k < |dst| && j < 8
    requires mask == if n % 8 == 0 then 0xff else Shl(0xff, 8 - n % 8)
    requires dst' == dst[|dst| - 1 := dst[|dst| - 1] & mask]
    ensures Bit(dst'[k], j) == (8 * k + j < n && Bit(dst[k], j))
  {
    hide Bit, Shl;
    var last := |dst| - 1;
    var keep := if n % 8 == 0 then 8 else n % 8;
    assert n == 8 * last + keep;
    if k == last {
      AndBit(dst[last], mask, j);
      TopMaskBit(keep, j);
      ZeroShift();
    }
  }

  lemma ZeroShift()
    ensures Shl(0xff, 0) == 0xff
  {
  }

  /** Bits behind an offset reach into one octet more at most. */
  lemma OctetsTouched(offset: nat, n: nat, octets: nat)
    requires offset < 8 && 1 <= n && offset + n <= 8 * octets
    ensures 1 <= OctetsFor(n) <= OctetsFor(offset + n) <= octets && OctetsFor(offset + n) <= OctetsFor(n) + 1
  {
  }

  /** `GetBitString`; `ok` is false for the overflow error and for the panic on no bits. */
  method GetBitString(src: seq<Byte>, bitsOffset: nat, numBits: nat) returns (ok: bool, dstBytes: seq<Byte>)
    requires bitsOffset < 8 && (src == [] ==> bitsOffset == 0)
    ensures ok <==> numBits > 0 && bitsOffset + numBits <= 8 * |src|
    ensures ok ==> Cut(src, bitsOffset, numBits, dstBytes)
  {
    hide Shl, Bit, BytesToBits, Cut, Shifted, OctetsFor;
    var bitsLeft := 8 * |src| - bitsOffset;
    if numBits > bitsLeft || numBits == 0 {
      return false, [];
    }
    var numBitsMask: Byte := 0xff;
    if numBits % 8 != 0 {
      numBitsMask := Shl(numBitsMask, 8 - numBits % 8);
    }
    var dst := ShiftOctets(src, bitsOffset, numBits);
    OctetsTouched(bitsOffset, numBits, |src|);
    ghost var before := dst[..];
    dst[dst.Length - 1] := dst[dst.Length - 1] & numBitsMask;
    MaskedIsCut(src, bitsOffset, numBits, before, dst[..], numBitsMask);
    return true, dst[..];
  }

  /** The loop of `GetBitString` over the octets that the bits touch, before the last one is masked. */
  method ShiftOctets(src: seq<Byte>, bitsOffset: nat, numBits: nat) returns (dst: array<Byte>)
    requires bitsOffset < 8 && 1 <= numBits && bitsOffset + numBits <= 8 * |src|
    ensures fresh(dst) && dst.Length == OctetsFor(numBits) && Shifted(src, bitsOffset, numBits, dst[..])
  {
    hide Shl, Shr, OctetsFor;
    OctetsTouched(bitsOffset, numBits, |src|);
    var byteLen := OctetsFor(bitsOffset + numBits);
    var numBitsByteLen := OctetsFor(numBits);
    dst := new Byte[numBitsByteLen](_ => 0);
    var i := 1;
    while i < byteLen
      invariant 1 <= i <= byteLen
      invariant forall k :: 0 <= k < i - 1 ==> dst[k] == Joined(src, k, bitsOffset)
    {
      dst[i - 1] := Shl(src[i - 1], bitsOffset) | Shr(src[i], 8 - bitsOffset);
      i := i + 1;
    }
    if byteLen == numBitsByteLen {
      dst[byteLen - 1] := Shl(src[byteLen - 1], bitsOffset);
    }
  }

  // -------------------------------------------------------------------- values

  lemma CutBits(src: seq<Byte>, offset: nat, n: nat, dst: seq<Byte>)
    requires offset + n <= 8 * |src| && Cut(src, offset, n, dst)
    ensures |dst| == OctetsFor(n) && BytesToBits(dst)[..n] == BytesToBits(src)[offset..offset + n]
  {
    hide BytesToBits;
  }

  /** Appending bits to a number kept modulo 2^64. */
  lemma ShiftInMod(bits: Bits, more: Bits, v: nat)
    requires v == ValueOf(bits) % TWO64
    ensures (v * Pow2(|more|) + ValueOf(more)) % TWO64 == ValueOf(bits + more) % TWO64
  {
    ValueOfConcat(bits, more);
    var x, p, y := ValueOf(bits), Pow2(|more|), ValueOf(more);
    DivMod(x, TWO64);
    var q := x / TWO64;
    assert x == q * TWO64 + v;
    CongruentStep(q, v, p, y, TWO64);
  }

  lemma CongruentStep(q: int, v: int, p: int, y: int, m: int)
    requires m >= 1
    ensures ((q * m + v) * p + y) % m == (v * p + y) % m
  {
    var z := v * p + y;
    assert (q * m + v) * p + y == (q * p) * m + z by {
      assert (q * m) * p == (q * p) * m;
    }
    var d, r := z / m, z % m;
    assert z == d * m + r;
    assert (q * p) * m + z == (q * p + d) * m + r;
    DivUnique((q * p) * m + z, m, q * p + d, r);
  }

  lemma OctetShiftsIn(dst: seq<Byte>, i: nat, v: nat)
    requires i < |dst| && v == ValueOf(BytesToBits(dst)[..8 * i]) % TWO64
    ensures (v * 256 + UintOf(dst[i])) % TWO64 == ValueOf(BytesToBits(dst)[..8 * (i + 1)]) % TWO64
  {
    hide BytesToBits, Pow2, ValueOf;
    var bits := BytesToBits(dst);
    BytesToBitsSlice(dst, i, i + 1);
    assert dst[i..i + 1] == [dst[i]];
    assert bits[..8 * (i + 1)] == bits[..8 * i] + bits[8 * i..8 * (i + 1)];
    Pow2Values();
    ShiftInMod(bits[..8 * i], bits[8 * i..8 * (i + 1)], v);
  }

  /** The leading `k` bits of an octet, as `b >> (8 - k)` gives them. */
  lemma TopBits(b: Byte, k: nat)
    requires 1 <= k <= 8
    ensures UintOf(Shr(b, 8 - k)) == ValueOf(BytesToBits([b])[..k])
  {
    hide BytesToBits, Bit, Shr, ValueOf;
    var top, low := BytesToBits([b])[..k], BytesToBits([Shr(b, 8 - k)]);
    forall j | 0 <= j < 8 ensures low[j] == (j >= 8 - k && top[j - (8 - k)]) {
      ShrBit(b, 8 - k, j);
      BytesToBitsAt([Shr(b, 8 - k)], 0, j);
      if j >= 8 - k {
        BytesToBitsAt([b], 0, j - (8 - k));
      }
    }
    assert low == Zeros(8 - k) + top;
    ValueOfConcat(Zeros(8 - k), top);
    ValueOfZeros(Zeros(8 - k));
  }

  /** `GetBitsValue`: the number is kept in a `uint64`. */
  method GetBitsValue(src: seq<Byte>, bitsOffset: nat, numBits: nat) returns (ok: bool, value: nat)
    requires bitsOffset < 8 && (src == [] ==> bitsOffset == 0)
    ensures ok <==> numBits > 0 && bitsOffset + numBits <= 8 * |src|
    ensures ok ==> value == ValueOf(BytesToBits(src)[bitsOffset..bitsOffset + numBits]) % TWO64
  {
    hide BytesToBits, ValueOf, Shr, UintOf, Cut, OctetsFor;
    value := 0;
    var dstBytes;
    ok, dstBytes := GetBitString(src, bitsOffset, numBits);
    if !ok {
      return;
    }
    CutBits(src, bitsOffset, numBits, dstBytes);
    ghost var bits := BytesToBits(dstBytes);
    assert bits[..0] == [];
    var i, j := 0, numBits;
    while j >= 8
      invariant 0 <= i && 0 <= j && 8 * i + j == numBits
      invariant value == ValueOf(bits[..8 * i]) % TWO64
    {
      OctetShiftsIn(dstBytes, i, value);
      value := (value * 256 + UintOf(dstBytes[i])) % TWO64;
      i, j := i + 1, j - 8;
    }
    var numBitsOff := numBits % 8;
    DivUnique(numBits, 8, i, j);
    if numBitsOff != 0 {
      ghost var rest := bits[8 * i..8 * i + numBitsOff];
      LastOctet(dstBytes, i, numBitsOff);
      ShiftInMod(bits[..8 * i], rest, value);
      assert bits[..8 * i] + rest == bits[..numBits];
      value := (value * Pow2(numBitsOff) + UintOf(Shr(dstBytes[|dstBytes| - 1], 8 - numBitsOff))) % TWO64;
    }
  }

  lemma LastOctet(dst: seq<Byte>, i: nat, k: nat)
    requires i + 1 == |dst| && 1 <= k < 8
    ensures UintOf(Shr(dst[i], 8 - k)) == ValueOf(BytesToBits(dst)[8 * i..8 * i + k])
  {
    hide BytesToBits, ValueOf, Shr, UintOf;
    TopBits(dst[i], k);
    BytesToBitsSlice(dst, i, i + 1);
    assert dst[i..i + 1] == [dst[i]];
    assert BytesToBits(dst)[8 * i..8 * (i + 1)][..k] == BytesToBits(dst)[8 * i..8 * i + k];
  }

  /** "for i = 1; i <= 8" until `1 << i` reaches the range. */
  method RangeBitsLoop(range: int) returns (i: nat)
    ensures i == BitsForRange(range)
  {
    i := 1;
    while i <= 8
      invariant 1 <= i <= 9 && BitsForRangeFrom(range, i) == BitsForRange(range)
    {
      if Pow2(i) >= range {
        break;
      }
      i := i + 1;
    }
  }
}
