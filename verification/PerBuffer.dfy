/** The writer's octets and bit offset, seen as the bits written so far. */
module PerBuffer {
  import opened PerBits
  import opened PerSpec
  import opened PerBitString

  /** Bits written when `offset` bits of the last octet are in use, 0 meaning all of them. */
  function BitLen(bytes: seq<Byte>, offset: nat): (n: nat)
    requires offset < 8 && (offset > 0 ==> |bytes| > 0)
  {
    if offset == 0 then 8 * |bytes| else 8 * |bytes| - 8 + offset
  }

  /**
    A buffer stands for the bits `w`: it holds exactly those and zeros behind them, but for the
    bits at `marks`, which are set whatever was to be there.
  */
  ghost predicate Stands(bytes: seq<Byte>, offset: nat, w: Bits, marks: set<nat>) {
    && offset < 8 && (offset > 0 ==> |bytes| > 0) && |w| == BitLen(bytes, offset)
    && (forall m :: m in marks ==> m < 8 * |bytes|)
    && forall i :: 0 <= i < 8 * |bytes| ==> BytesToBits(bytes)[i] == ((i < |w| && w[i]) || i in marks)
  }

  lemma StandsShape(bytes: seq<Byte>, offset: nat, w: Bits, marks: set<nat>)
    requires Stands(bytes, offset, w, marks)
    ensures |w| % 8 == offset && OctetsFor(|w|) == |bytes|
  {
    hide BytesToBits;
  }

  /** Forgetting the offset is aligning. */
  lemma StandsForgotten(bytes: seq<Byte>, offset: nat, w: Bits, marks: set<nat>)
    requires Stands(bytes, offset, w, marks)
    ensures Stands(bytes, 0, Aligned(w), marks)
  {
    hide BytesToBits, PadLen;
    StandsShape(bytes, offset, w, marks);
    AlignedSize(w, |bytes|);
  }

  lemma AlignedSize(w: Bits, n: nat)
    requires n == OctetsFor(|w|)
    ensures |Aligned(w)| == 8 * n
  {
  }

  /** The octets of a buffer are its padded bits, smeared. */
  lemma StandsOctets(bytes: seq<Byte>, offset: nat, w: Bits, marks: set<nat>)
    requires Stands(bytes, offset, w, marks)
    ensures BytesToBits(bytes) == Smeared(Aligned(w), marks)
  {
    hide BytesToBits, PadLen;
    StandsForgotten(bytes, offset, w, marks);
  }

  /** The bits of `after` are those written before, then `n` bits of `data`, then zeros, but for the marks. */
  ghost predicate Extended(w: Bits, marks: set<nat>, data: Bits, n: nat, after: seq<Byte>) {
    && n <= |data| && |after| == OctetsFor(|w| + n)
    && forall i :: 0 <= i < 8 * |after| ==>
         BytesToBits(after)[i] == ((if i < |w| then w[i] else i - |w| < n && data[i - |w|]) || i in marks)
  }

  /** After `n` more bits of `data`. */
  lemma StandsAfter(bytes: seq<Byte>, offset: nat, w: Bits, marks: set<nat>, data: Bits, n: nat, after: seq<Byte>)
    requires Stands(bytes, offset, w, marks) && Extended(w, marks, data, n, after)
    ensures Stands(after, (n % 8 + offset) % 8, w + data[..n], marks)
  {
    hide BytesToBits, OctetsFor;
    StandsShape(bytes, offset, w, marks);
    MoreOctets(|w|, n);
    LengthsAgree(|w| + n, |after|, (n % 8 + offset) % 8);
  }

  lemma MoreOctets(m: nat, n: nat)
    ensures OctetsFor(m + n) >= OctetsFor(m)
    ensures (n % 8 + m % 8) % 8 == (m + n) % 8
  {
    var x := n % 8 + m % 8;
    DivUnique(m + n, 8, m / 8 + n / 8 + x / 8, x % 8);
  }

  lemma LengthsAgree(total: nat, octets: nat, offset: nat)
    requires octets == OctetsFor(total) && offset == total % 8
    ensures offset > 0 ==> octets > 0
    ensures total == if offset == 0 then 8 * octets else 8 * octets - 8 + offset
  {
  }

  // ------------------------------------------------------- the three ways to append

  /** On an octet boundary the octets are appended as they are; set bits behind the `n` in use are marks. */
  lemma StandsWhole(bytes: seq<Byte>, w: Bits, marks: set<nat>, src: seq<Byte>, n: nat)
    requires Stands(bytes, 0, w, marks) && |src| == OctetsFor(n)
    ensures n <= 8 * |src|
    ensures Stands(bytes + src, n % 8, w + BytesToBits(src)[..n], marks + TailMarks(|w|, BytesToBits(src), n))
  {
    hide BytesToBits;
    OctetsAdd(bytes, n);
    LengthsAgree(|w| + n, |bytes + src|, n % 8);
    BytesToBitsConcat(bytes, src);
  }

  lemma OctetsAdd(bytes: seq<Byte>, n: nat)
    ensures OctetsFor(8 * |bytes| + n) == |bytes| + OctetsFor(n) && (8 * |bytes| + n) % 8 == n % 8
  {
  }

  /** `Extended` stated octet by octet: `last` is rewritten to `joined` and `more` follows it. */
  lemma ExtendedByOctets(bytes: seq<Byte>, offset: nat, w: Bits, marks: set<nat>, data: Bits, n: nat, joined: Byte,
                         more: seq<Byte>)
    requires Stands(bytes, offset, w, marks) && 1 <= offset && n <= |data| && 1 + |more| == OctetsFor(offset + n)
    requires forall j :: 0 <= j < 8 ==>
               Bit(joined, j) == (Bit(bytes[|bytes| - 1], j) || (offset <= j < offset + n && data[j - offset]))
    requires forall k, j :: 0 <= k < |more| && 0 <= j < 8 ==>
               Bit(more[k], j) == (8 + 8 * k + j < offset + n && data[8 + 8 * k + j - offset])
    ensures Extended(w, marks, data, n, bytes[|bytes| - 1 := joined] + more)
  {
    hide Bit, BytesToBits;
    var last := |bytes| - 1;
    var after := bytes[last := joined] + more;
    OctetsAdd(bytes[..last], offset + n);
    forall i | 0 <= i < 8 * |after|
      ensures BytesToBits(after)[i] == ((if i < |w| then w[i] else i - |w| < n && data[i - |w|]) || i in marks)
    {
      var k, j := i / 8, i % 8;
      assert i == 8 * k + j;
      BytesToBitsAt(after, k, j);
      if k <= last {
        BytesToBitsAt(bytes, k, j);
      } else {
        assert after[k] == more[k - last - 1];
      }
    }
  }

  /** Few bits go into the free bits of the last octet. */
  lemma AppendInto(bytes: seq<Byte>, offset: nat, w: Bits, marks: set<nat>, src: seq<Byte>, n: nat)
    requires Stands(bytes, offset, w, marks) && 1 <= offset && 1 <= n <= 8 - offset && |src| == 1
    requires forall i :: n <= i < 8 ==> !BytesToBits(src)[i]
    ensures var last := |bytes| - 1;
            Extended(w, marks, BytesToBits(src), n, bytes[last := bytes[last] | Shr(src[0], offset)])
  {
    hide Bit, Shr, BytesToBits, Extended;
    var b := bytes[|bytes| - 1];
    var joined := b | Shr(src[0], offset);
    forall j | 0 <= j < 8
      ensures Bit(joined, j) == (Bit(b, j) || (offset <= j < offset + n && BytesToBits(src)[j - offset]))
    {
      JoinedBit(b, offset, src, n, j);
    }
    ExtendedByOctets(bytes, offset, w, marks, BytesToBits(src), n, joined, []);
    assert bytes[|bytes| - 1 := joined] + [] == bytes[|bytes| - 1 := joined];
  }

  lemma JoinedBit(b: Byte, offset: nat, src: seq<Byte>, n: nat, j: nat)
    requires 1 <= offset && 1 <= n <= 8 - offset && |src| == 1 && j < 8
    requires forall i :: n <= i < 8 ==> !BytesToBits(src)[i]
    ensures Bit(b | Shr(src[0], offset), j)
         == (Bit(b, j) || (offset <= j < offset + n && BytesToBits(src)[j - offset]))
  {
    hide Bit, Shr, BytesToBits;
    OrBit(b, Shr(src[0], offset), j);
    ShrBit(src[0], offset, j);
    if j >= offset {
      BytesToBitsAt(src, 0, j - offset);
    }
  }

  /** More bits are shifted first, behind a zero octet that makes room for the offset. */
  lemma AppendShifted(bytes: seq<Byte>, offset: nat, w: Bits, marks: set<nat>, src: seq<Byte>, n: nat,
                      shifted: seq<Byte>)
    requires Stands(bytes, offset, w, marks) && 1 <= offset && 8 - offset < n <= 8 * |src|
    requires Cut([0] + src, 8 - offset, offset + n, shifted)
    ensures var last := |bytes| - 1;
            && |shifted| > 0
            && Extended(w, marks, BytesToBits(src), n, bytes[last := bytes[last] | shifted[0]] + shifted[1..])
  {
    hide Bit, BytesToBits, Extended;
    var b, data := bytes[|bytes| - 1], BytesToBits(src);
    var joined := b | shifted[0];
    forall j | 0 <= j < 8
      ensures Bit(joined, j) == (Bit(b, j) || (offset <= j < offset + n && data[j - offset]))
    {
      OrBit(b, shifted[0], j);
      ShiftedInBit(offset, src, n, shifted, 0, j);
    }
    forall k, j | 0 <= k < |shifted[1..]| && 0 <= j < 8
      ensures Bit(shifted[1..][k], j) == (8 + 8 * k + j < offset + n && data[8 + 8 * k + j - offset])
    {
      ShiftedInBit(offset, src, n, shifted, k + 1, j);
    }
    ExtendedByOctets(bytes, offset, w, marks, data, n, joined, shifted[1..]);
  }

  lemma ShiftedInBit(offset: nat, src: seq<Byte>, n: nat, shifted: seq<Byte>, k: nat, j: nat)
    requires 1 <= offset < 8 && 8 - offset < n <= 8 * |src|
    requires Cut([0] + src, 8 - offset, offset + n, shifted) && k < |shifted| && j < 8
    ensures var i := 8 * k + j - offset;
            Bit(shifted[k], j) == (0 <= i < n && BytesToBits(src)[i])
  {
    hide Bit, BytesToBits;
    BytesToBitsAt(shifted, k, j);
    var i := 8 * k + j - offset;
    BytesToBitsConcat([0], src);
    if i < 0 {
      BytesToBitsAt([0], 0, 8 + i);
      ZeroBit(8 + i);
    }
  }
}
