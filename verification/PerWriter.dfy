/** `perRawBitData`: the writer, method by method, against the bits it must have written. */
module PerWriter {
  import opened Wrappers
  import opened PerBits
  import opened PerSpec
  import opened PerBitString
  import opened PerBuffer
  import opened PerStrings
  import opened PerSizes
  import opened PerSchema
  import opened PerRemnants

  /** A call succeeded exactly when the specification does, and then wrote what it says. */
  ghost predicate Outcome(ok: bool, now: Bits, spec: Option<Bits>) {
    ok == spec.Some? && (ok ==> now == spec.value)
  }

  ghost predicate ZeroTail(bits: Bits, n: nat) {
    forall i :: n <= i < |bits| ==> !bits[i]
  }

  // ------------------------------------------------------- building a value's octets

  /** `byte((v << (8 - r)) & 0xff)`: the low `r` bits of `v` in the top of an octet. */
  function LowBitsOctet(v: nat, r: nat): (b: Byte)
    requires 1 <= r <= 8
  {
    ByteOf(v * Pow2(8 - r))
  }

  lemma PlaceFirst(v: nat, r: nat)
    requires 1 <= r <= 8
    ensures BytesToBits([LowBitsOctet(v, r)]) == BitsOf(v, r) + Zeros(8 - r)
  {
    hide BytesToBits, BitsOf, ByteOf, Pow2;
    ByteOfBits(v * Pow2(8 - r));
    BitsOfShifted(v, r, 8 - r);
  }

  lemma PlaceNext(v: nat, m: nat, rest: seq<Byte>, pad: nat)
    requires BytesToBits(rest) == BitsOf(v, m) + Zeros(pad)
    ensures BytesToBits([ByteOf(ShiftRight(v, m))] + rest) == BitsOf(v, m + 8) + Zeros(pad)
  {
    hide BytesToBits, BitsOf, ByteOf;
    BytesToBitsConcat([ByteOf(ShiftRight(v, m))], rest);
    ByteOfBits(ShiftRight(v, m));
    BitsOfSplit(v, 8, m);
  }

  function ZeroBytes(n: nat): (zeros: seq<Byte>)
    ensures |zeros| == n && forall k :: 0 <= k < n ==> zeros[k] == 0
  {
    seq(n, _ => 0)
  }

  lemma {:induction false} ZeroOctets(zeros: seq<Byte>)
    requires forall k :: 0 <= k < |zeros| ==> zeros[k] == 0
    ensures BytesToBits(zeros) == Zeros(8 * |zeros|)
  {
    hide Bit;
    forall i | 0 <= i < 8 * |zeros| ensures !BytesToBits(zeros)[i] {
      ZeroBit(i % 8);
    }
  }

  lemma PlacedAll(v: nat, m: nat, zeros: seq<Byte>, rest: seq<Byte>, pad: nat)
    requires BytesToBits(rest) == BitsOf(v, m) + Zeros(pad) && v < Pow2(m)
    requires forall k :: 0 <= k < |zeros| ==> zeros[k] == 0
    ensures BytesToBits(zeros + rest) == BitsOf(v, m + 8 * |zeros|) + Zeros(pad)
  {
    hide BytesToBits, BitsOf, Pow2, ShiftRight;
    BytesToBitsConcat(zeros, rest);
    ZeroOctets(zeros);
    ShiftedOut(v, m);
    BitsOfSplit(v, 8 * |zeros|, m);
    BitsOfZero(8 * |zeros|);
  }

  class RawBitData {
    var bytes: seq<Byte>
    var bitsOffset: nat

    /** The bits that are to be there, and where the buffer holds set bits whatever is to be there. */
    ghost var written: Bits
    ghost var marks: set<nat>

    ghost predicate Valid()
      reads this
    {
      Stands(bytes, bitsOffset, written, marks)
    }

    /** The bits written so far. */
    ghost function Bits(): (w: Bits)
      reads this
    {
      written
    }

    constructor ()
      ensures Valid() && Bits() == [] && bytes == [] && marks == {}
    {
      bytes, bitsOffset := [], 0;
      written, marks := [], {};
    }

    method AppendAlignBits()
      requires Valid()
      modifies this
      ensures marks == old(marks)
      ensures Valid() && Bits() == Aligned(old(Bits())) && bitsOffset == 0 && bytes == old(bytes)
    {
      hide Stands;
      StandsForgotten(bytes, bitsOffset, written, marks);
      bitsOffset := 0;
      written := Aligned(written);
    }

    /** Appends exactly the first `numBits` bits of `src`; the bits after them must be zero. */
    method PutBitString(src: seq<Byte>, numBits: nat) returns (ok: bool)
      requires Valid() && numBits <= 8 * |src|
      requires forall i :: numBits <= i < 8 * OctetsFor(numBits) ==> !BytesToBits(src)[i]
      modifies this
      ensures marks == old(marks)
      ensures Valid() && Outcome(ok, Bits(), PutString(old(Bits()), BytesToBits(src)[..numBits]))
    {
      hide BytesToBits, Stands, Extended, Cut, Shr, TailMarks, OctetsFor;
      ghost var w := Bits();
      EnoughOctets(numBits, |src|);
      var data := src[..OctetsFor(numBits)];
      StandsShape(bytes, bitsOffset, w, marks);
      assert BytesToBits(data) == BytesToBits(src)[..8 * |data|] by {
        BytesToBitsSlice(src, 0, |data|);
      }
      assert BytesToBits(data)[..numBits] == BytesToBits(src)[..numBits];
      if bitsOffset == 0 {
        StandsWhole(bytes, w, marks, data, numBits);
        NoTailMarks(|w|, BytesToBits(data), numBits);
        assert marks + {} == marks;
        bytes, bitsOffset := bytes + data, numBits % 8;
        written := w + BytesToBits(data)[..numBits];
        return true;
      }
      if numBits == 0 {
        return false; // Go indexes the empty slice and panics
      }
      OffsetInUse(bytes, bitsOffset, w, marks);
      ghost var before, offset := bytes, bitsOffset;
      var bitsLeft := 8 - bitsOffset;
      var current := |bytes| - 1;
      if numBits <= bitsLeft {
        OneOctet(numBits);
        AppendInto(bytes, bitsOffset, w, marks, data, numBits);
        bytes := bytes[current := bytes[current] | Shr(data[0], bitsOffset)];
      } else {
        var got, shifted := GetBitString([0] + data, bitsLeft, bitsOffset + numBits);
        AppendShifted(bytes, bitsOffset, w, marks, data, numBits, shifted);
        bytes := bytes[current := bytes[current] | shifted[0]] + shifted[1..];
      }
      bitsOffset := (numBits % 8 + bitsOffset) % 8;
      StandsAfter(before, offset, w, marks, BytesToBits(data), numBits, bytes);
      written := w + BytesToBits(data)[..numBits];
      return true;
    }

    /** Appends the big-endian bits of a number, and only if it has no more than `numBits`. */
    method PutBitsValue(value: nat, numBits: nat) returns (ok: bool)
      requires Valid()
      modifies this
      ensures marks == old(marks)
      ensures Valid() && Outcome(ok, Bits(), PutValue(old(Bits()), value, numBits))
    {
      hide BytesToBits, Stands, BitsOf, Pow2;
      if numBits == 0 {
        return true;
      }
      var temp;
      ok, temp := ValueOctets(value, numBits);
      if ok {
        PaddedString(temp, BitsOf(value, numBits), 8 * |temp| - numBits);
        ok := PutBitString(temp, numBits);
      }
    }

    method AppendConstraintValue(valueRange: int, value: nat) returns (ok: bool)
      requires Valid()
      modifies this
      ensures marks == old(marks)
      ensures Valid() && Outcome(ok, Bits(), PutConstrained(old(Bits()), valueRange, value))
    {
      hide PutValue, Aligned, BitsForRange;
      var bytes := 0;
      if valueRange <= 255 {
        if valueRange < 0 {
          return false;
        }
        var i := RangeBitsLoop(valueRange);
        ok := PutBitsValue(value, i);
        return;
      } else if valueRange == 256 {
        bytes := 1;
      } else if valueRange <= 65536 {
        bytes := 2;
      } else {
        return false;
      }
      AppendAlignBits();
      ok := PutBitsValue(value, 8 * bytes);
    }

    /** A length determinant. */
    method AppendLength(sizeRange: int, value: nat) returns (ok: bool)
      requires Valid()
      modifies this
      ensures marks == old(marks)
      ensures Valid() && Outcome(ok, Bits(), PutLength(old(Bits()), sizeRange, value))
    {
      hide PutValue, Aligned, PutConstrained, WithTopBits;
      if sizeRange <= 65536 && sizeRange > 0 {
        ok := AppendConstraintValue(sizeRange, value);
        return;
      }
      AppendAlignBits();
      if value <= 127 {
        ok := PutBitsValue(value, 8);
      } else if value <= 16383 {
        ok := PutBitsValue(0x8000 + value, 16);
      } else {
        ok := PutBitsValue(WithTopBits(value / 16384), 8);
      }
    }

    /** Appends octets on an octet boundary, `n` bits of which are in use; the others stay as they are. */
    method AppendOctets(data: seq<Byte>, n: nat)
      requires Valid() && |data| == OctetsFor(n)
      modifies this
      ensures marks == old(marks) + TailMarks(|Aligned(old(Bits()))|, BytesToBits(data), n)
      ensures Valid() && n <= 8 * |data| && Bits() == Aligned(old(Bits())) + BytesToBits(data)[..n]
    {
      hide BytesToBits, Stands, Aligned, TailMarks;
      AppendAlignBits();
      StandsWhole(bytes, written, marks, data, n);
      marks := marks + TailMarks(|written|, BytesToBits(data), n);
      bytes, bitsOffset, written := bytes + data, n % 8, written + BytesToBits(data)[..n];
    }

    /**
      The loop shared by bit strings, octet strings and open types.  `data` are the octets up
      to the capacity of the slice.
    */
    method AppendFragments(data: seq<Byte>, unit: nat, sizeRange: int, lb: nat, length: nat) returns (ok: bool)
      requires Valid() && (unit == 1 || unit == 8)
      modifies this
      ensures Valid()
      ensures Outcome(ok, Bits(), PutFragments(old(Bits()), unit, sizeRange, lb, BytesToBits(data), length))
      ensures ok ==>
                marks == old(marks) + FragmentMarks(old(Bits()), unit, sizeRange, lb, BytesToBits(data), length)
    {
      hide PutFragments, FragmentMarks, PutLength, Aligned, BytesToBits, FragmentSize, Scale, OctetsFor, Stands;
      hide TailMarks;
      var rawLength: nat := length;
      var byteOffset: nat := 0;
      ghost var all := PutFragments(Bits(), unit, sizeRange, lb, BytesToBits(data), rawLength);
      ghost var left := FragmentMarks(Bits(), unit, sizeRange, lb, BytesToBits(data), rawLength);
      assert data[0..] == data;
      while true
        invariant Valid() && byteOffset <= |data| && marks == old(marks)
        invariant PutFragments(Bits(), unit, sizeRange, lb, BytesToBits(data[byteOffset..]), rawLength) == all
        invariant FragmentMarks(Bits(), unit, sizeRange, lb, BytesToBits(data[byteOffset..]), rawLength) == left
        decreases |data| - byteOffset
      {
        ghost var w, rest := Bits(), data[byteOffset..];
        var part := FragmentPart(rawLength);
        FragmentTurn(w, unit, sizeRange, lb, rest, rawLength);
        ok := AppendLength(sizeRange, part);
        if !ok {
          return;
        }
        var n := part + lb;
        if n == 0 {
          return true;
        }
        var sizes := OctetsFor(Scale(unit, n));
        SomeOctets(unit, n);
        if byteOffset + sizes > |data| {
          return false; // Go slices beyond the capacity and panics
        }
        var chunk := data[byteOffset..byteOffset + sizes];
        assert chunk == rest[..sizes];
        if rawLength - part > 0 {
          AllOctets(chunk);
          NoTailMarks(|Aligned(Bits())|, BytesToBits(chunk), 8 * sizes);
          AppendOctets(chunk, 8 * sizes);
          assert data[byteOffset + sizes..] == rest[sizes..];
          rawLength := rawLength - part;
          byteOffset := byteOffset + sizes;
        } else {
          AppendOctets(chunk, Scale(unit, n));
          return true;
        }
      }
    }

    /** One extension or presence bit. */
    method AppendFlag(bit: bool)
      requires Valid()
      modifies this
      ensures marks == old(marks)
      ensures Valid() && Bits() == old(Bits()) + [bit]
    {
      hide Stands, BitsOf, Pow2;
      OneBit(bit);
      var ok := PutBitsValue(if bit then 1 else 0, 1);
    }

    /**
      BIT STRING and OCTET STRING share everything but the unit of their lengths.  `extra` are
      octets of the slice that the string does not need, `spare` those up to its capacity.
    */
    method AppendSized(data: seq<Byte>, extra: seq<Byte>, spare: seq<Byte>, unit: nat, length: nat, extensive: bool,
                       lb: Option<nat>, ub: Option<nat>)
      returns (ok: bool)
      requires Valid() && (unit == 1 || unit == 8) && (unit == 8 ==> extra == [])
      requires length < TWO64 && |data| == OctetsFor(Scale(unit, length)) && (lb.Some? ==> lb.value < TWO63)
      requires ZeroTail(BytesToBits(data), Scale(unit, length))
      modifies this
      ensures Valid()
      ensures Outcome(ok, Bits(), PutSized(old(Bits()), unit, BytesToBits(data), BytesToBits(extra), BytesToBits(spare),
                                           length, extensive, lb, ub))
      ensures ok ==>
                marks == old(marks) + SizedMarks(old(Bits()), unit, BytesToBits(data), BytesToBits(extra),
                                                 BytesToBits(spare), length, extensive, lb, ub)
    {
      hide PutFragments, PutFixed, BytesToBits, OctetsFor, ZeroTail, Stands, FragmentMarks, FixedMarks;
      var low: nat, high: int, sizeRange: int := 0, -1, -1;
      if lb.Some? {
        low := lb.value;
        if ub.Some? {
          high := ub.value;
          if length <= high {
            sizeRange := high - low + 1;
          } else if !extensive {
            return false;
          }
          if extensive {
            if sizeRange == -1 {
              AppendFlag(true);
              low := 0;
            } else {
              AppendFlag(false);
            }
          }
        }
      }
      if high > 65535 {
        sizeRange := -1;
      }
      if sizeRange == 1 {
        ok := AppendFixed(data, extra, unit, length, high);
        return;
      }
      JoinedBits(data, extra, spare);
      ok := AppendFragments(data + extra + spare, unit, sizeRange, low, Minus64(length, low));
    }

    /** The part of both for strings of fixed size. */
    method AppendFixed(data: seq<Byte>, extra: seq<Byte>, unit: nat, length: nat, size: nat) returns (ok: bool)
      requires Valid() && (unit == 1 || unit == 8) && |data| == OctetsFor(Scale(unit, length))
      requires ZeroTail(BytesToBits(data), Scale(unit, length))
      modifies this
      ensures Valid()
      ensures Outcome(ok, Bits(), PutFixed(old(Bits()), unit, BytesToBits(data), BytesToBits(extra), length, size))
      ensures ok ==>
                marks == old(marks) + FixedMarks(old(Bits()), unit, BytesToBits(data), BytesToBits(extra), length)
    {
      hide Aligned, BytesToBits, OctetsFor, PutString, ZeroTail, Stands, TailMarks, WholeSlice;
      if OctetsFor(Scale(unit, length)) > 2 {
        if length != size {
          return false;
        }
        SliceBits(data, extra, unit, length);
        AppendOctets(data + extra, Scale(unit, length) + 8 * |extra|);
        return true;
      }
      if unit == 8 && length != size {
        return false;
      }
      TailOfString(BytesToBits(data), Scale(unit, length));
      ok := PutBitString(data, Scale(unit, length));
    }

    /** The octets must be as many as the bits need or more; what the last one holds after them is masked away. */
    method AppendBitString(bytes: seq<Byte>, spare: seq<Byte>, bitsLength: nat, extensive: bool,
                           lb: Option<nat>, ub: Option<nat>)
      returns (ok: bool)
      requires Valid() && |bytes| >= OctetsFor(bitsLength) && bitsLength < TWO64 && (lb.Some? ==> lb.value < TWO63)
      modifies this
      ensures Valid()
      ensures Outcome(ok, Bits(), PutSized(old(Bits()), 1, InOctets(BytesToBits(bytes)[..bitsLength]),
                                           BytesToBits(bytes[OctetsFor(bitsLength)..]), BytesToBits(spare), bitsLength,
                                           extensive, lb, ub))
      ensures ok ==>
                marks == old(marks) + SizedMarks(old(Bits()), 1, InOctets(BytesToBits(bytes)[..bitsLength]),
                                                 BytesToBits(bytes[OctetsFor(bitsLength)..]), BytesToBits(spare),
                                                 bitsLength, extensive, lb, ub)
    {
      hide PutSized, SizedMarks, BytesToBits, Aligned, Shl;
      var sizes := OctetsFor(bitsLength);
      var needed := bytes[..sizes];
      var data := needed;
      var shift := 8 - bitsLength % 8;
      if shift != 8 {
        data := data[sizes - 1 := data[sizes - 1] & Shl(0xff, shift)];
      }
      MaskedString(needed, bitsLength, data);
      BytesToBitsSlice(bytes, 0, sizes);
      assert BytesToBits(needed)[..bitsLength] == BytesToBits(bytes)[..bitsLength];
      ok := AppendSized(data, bytes[sizes..], spare, 1, bitsLength, extensive, lb, ub);
    }

    method AppendOctetString(bytes: seq<Byte>, spare: seq<Byte>, extensive: bool, lb: Option<nat>, ub: Option<nat>)
      returns (ok: bool)
      requires Valid() && |bytes| < TWO64 && (lb.Some? ==> lb.value < TWO63)
      modifies this
      ensures ok ==> marks == old(marks)
      ensures Valid()
      ensures Outcome(ok, Bits(), PutSized(old(Bits()), 8, BytesToBits(bytes), [], BytesToBits(spare), |bytes|,
                                           extensive, lb, ub))
    {
      hide PutSized, SizedMarks, BytesToBits;
      OctetStringLeavesNothing(Bits(), BytesToBits(bytes), BytesToBits(spare), |bytes|, extensive, lb, ub);
      AllOctets(bytes);
      assert BytesToBits([]) == [];
      ok := AppendSized(bytes, [], spare, 8, |bytes|, extensive, lb, ub);
    }

    /** The octet count, one octet, and then the octets of `field`. */
    method AppendCounted(rawLength: nat, field: nat) returns (ok: bool)
      requires Valid() && rawLength >= 1
      modifies this
      ensures marks == old(marks)
      ensures Valid()
      ensures Outcome(ok, Bits(), PutValue(Aligned(old(Bits())) + BitsOf(rawLength, 8), field, 8 * rawLength))
    {
      hide Stands, BitsOf, Aligned, BytesToBits, PutValue, ByteOf, TailMarks;
      AllOctets([ByteOf(rawLength)]);
      NoTailMarks(|Aligned(Bits())|, BytesToBits([ByteOf(rawLength)]), 8);
      AppendOctets([ByteOf(rawLength)], 8);
      ByteOfBits(rawLength);
      assert BitsOf(rawLength, 8)[..8] == BitsOf(rawLength, 8);
      AppendAlignBits();
      AlignedTwice(old(Bits()), BitsOf(rawLength, 8));
      ok := PutBitsValue(field, 8 * rawLength);
    }

    method AppendInteger(value: Int64, extensive: bool, lb: Option<Int64>, ub: Option<Int64>) returns (ok: bool)
      requires Valid()
      modifies this
      ensures marks == old(marks)
      ensures Valid() && Outcome(ok, Bits(), PutInteger(old(Bits()), value, extensive, lb, ub))
    {
      hide PutIntegerBody, Wrap64, Stands;
      var low: Int64, valueRange: int := 0, 0;
      if lb.Some? {
        low := lb.value;
        if value < low {
          return false;
        }
        if ub.Some? {
          var high := ub.value;
          if value <= high {
            valueRange := Wrap64(high - low + 1);
          } else if !extensive {
            return false;
          }
          if extensive {
            if valueRange == 0 {
              valueRange := -1;
              AppendFlag(true);
            } else {
              AppendFlag(false);
            }
          }
        }
      } else {
        valueRange := -1;
      }
      ok := AppendIntegerBody(value, low, valueRange);
    }

    /** The second half of `appendInteger`, after the extension bit. */
    method AppendIntegerBody(value: Int64, low: Int64, valueRange: int) returns (ok: bool)
      requires Valid() && (valueRange >= 0 ==> low <= value)
      modifies this
      ensures marks == old(marks)
      ensures Valid() && Outcome(ok, Bits(), PutIntegerBody(old(Bits()), value, low, valueRange))
    {
      hide PutConstrained, PutOctetCounted, PutWide, Stands;
      if valueRange == 1 {
        return true;
      }
      if valueRange <= 0 {
        ok := AppendOctetCounted(value, low, valueRange < 0);
      } else if valueRange <= 65536 {
        ok := AppendConstraintValue(valueRange, value - low);
      } else {
        ok := AppendWide(value, low, valueRange - 1);
      }
    }

    /** The tail of `appendInteger` for unconstrained and semi-constrained numbers. */
    method AppendOctetCounted(value: Int64, low: Int64, signed: bool) returns (ok: bool)
      requires Valid() && (!signed ==> low <= value)
      modifies this
      ensures marks == old(marks)
      ensures Valid() && Outcome(ok, Bits(), PutOctetCounted(old(Bits()), value, low, signed))
    {
      hide PutValue, OctetCount, Aligned, BitsOf, Pow2;
      var rawLength := OctetLoop(Magnitude(value) / 128);
      var field := if signed then value % Pow2(8 * rawLength) else value - low;
      ok := AppendCounted(rawLength, field);
    }

    /** The tail of `appendInteger` for ranges above 65536. */
    method AppendWide(value: Int64, low: Int64, range: nat) returns (ok: bool)
      requires Valid() && low <= value
      modifies this
      ensures marks == old(marks)
      ensures Valid() && Outcome(ok, Bits(), PutWide(old(Bits()), value, low, range))
    {
      hide PutValue, OctetCount, WriterRangeOctets, BitsForRange, Aligned;
      var rawLength := OctetLoop(Magnitude(value) / 256);
      var byteLen := WriterRangeLoop(range);
      var i := RangeBitsLoop(byteLen);
      ok := PutBitsValue(rawLength - 1, i);
      if !ok {
        return;
      }
      AppendAlignBits();
      ok := PutBitsValue(value - low, 8 * rawLength);
    }

    method AppendEnumerated(value: Uint64, extensive: bool, lb: Option<Int64>, ub: Option<Int64>) returns (ok: bool)
      requires Valid()
      modifies this
      ensures marks == old(marks)
      ensures Valid() && Outcome(ok, Bits(), PutEnumerated(old(Bits()), value, extensive, lb, ub))
    {
      hide PutConstrained, Wrap64, Stands;
      if lb.None? || ub.None? {
        return false;
      }
      var signedValue := Wrap64(value);
      if signedValue > ub.value || signedValue < lb.value {
        return false;
      }
      if extensive {
        AppendFlag(false);
      }
      var valueRange := Wrap64(ub.value - lb.value + 1);
      if valueRange > 1 {
        ok := AppendConstraintValue(valueRange, value);
        return;
      }
      return true;
    }

    method AppendChoiceIndex(present: nat, extensive: bool, ub: Option<Int64>) returns (ok: bool)
      requires Valid() && present >= 1
      modifies this
      ensures marks == old(marks)
      ensures Valid() && Outcome(ok, Bits(), PutChoiceIndex(old(Bits()), present, extensive, ub))
    {
      hide PutConstrained, Wrap64, Stands;
      var rawChoice := present - 1;
      if ub.None? || ub.value < 0 || (extensive && rawChoice > ub.value) {
        return false;
      }
      ok := AppendConstraintValue(Wrap64(ub.value + 1), rawChoice);
    }

    /** The first half of `parseSequenceOf`: the element count. */
    method AppendCount(numElements: nat, extensive: bool, lb: Option<nat>, ub: Option<nat>) returns (ok: bool)
      requires Valid()
      modifies this
      ensures marks == old(marks)
      ensures Valid() && Outcome(ok, Bits(), PutCount(old(Bits()), numElements, extensive, lb, ub))
    {
      hide PutConstrained, Aligned, BitsOf, BytesToBits, ByteOf, Stands, TailMarks;
      var low: nat, high: int, sizeRange: int := 0, -1, -1;
      if lb.Some? && lb.value < 65536 {
        low := lb.value;
      }
      if ub.Some? && ub.value < 65536 {
        high := ub.value;
        if extensive {
          if numElements > high {
            AppendFlag(true);
          } else {
            AppendFlag(false);
            sizeRange := high - low + 1;
          }
        } else if numElements > high {
          return false;
        } else {
          sizeRange := high - low + 1;
        }
      }
      if numElements < low {
        return false;
      } else if sizeRange == 1 {
        return numElements == high;
      } else if sizeRange > 0 {
        ok := AppendConstraintValue(sizeRange, numElements - low);
        return;
      }
      AllOctets([ByteOf(numElements)]);
      ByteOfBits(numElements);
      NoTailMarks(|Aligned(Bits())|, BytesToBits([ByteOf(numElements)]), 8);
      AppendOctets([ByteOf(numElements)], 8);
      assert BitsOf(numElements, 8)[..8] == BitsOf(numElements, 8);
      return true;
    }

    // ------------------------------------------------------------------ makeField

    /**
      `makeField`: writes exactly what `Encode` says, or fails exactly when it does, and leaves
      the remnants of slices that `Marks` says.
    */
    method MakeField(schema: Schema, v: Value, ref: Option<Int64>) returns (ok: bool)
      requires Valid()
      modifies this
      ensures Valid() && Outcome(ok, Bits(), Encode(schema, v, ref, old(Bits())))
      ensures ok ==> marks == old(marks) + Marks(schema, v, ref, old(Bits()))
      decreases schema, 0
    {
      hide Encode, Stands, Marks;
      match schema
      case SequenceOf(_, _, _, _) =>
        ok := MakeSequenceOf(schema, v, ref);
      case Sequence(ext, fields) =>
        ok := false;
        NotAStruct(schema, v, ref, Bits());
        if v.VStruct? && |fields| == |v.fields| {
          ok := MakeStruct(ext, fields, v.fields);
        }
      case Choice(_, _, _) =>
        ok := MakeChoice(schema, v, ref);
      case OpenType(_, cases) =>
        ok := false;
        WrongCase(schema, v, ref, Bits());
        NoMarksOutside(schema, v, ref, Bits());
        if Selected(schema, v, ref) {
          ok := MakeOpenType(cases[v.present - 1].schema, v.v);
        }
      case _ =>
        ok := MakeLeaf(schema, v, ref);
    }

    /** The cases of `makeField` without nested fields. */
    method MakeLeaf(schema: Schema, v: Value, ref: Option<Int64>) returns (ok: bool)
      requires Valid() && !schema.SequenceOf? && !schema.Sequence? && !schema.Choice? && !schema.OpenType?
      modifies this
      ensures Valid() && Outcome(ok, Bits(), Encode(schema, v, ref, old(Bits())))
      ensures ok ==> marks == old(marks) + Marks(schema, v, ref, old(Bits()))
    {
      hide PutInteger, PutEnumerated, EncodeSized, SizedMarks, Stands, BytesToBits, InOctets;
      ok := false;
      match schema
      case Boolean =>
        if v.VBool? {
          AppendFlag(v.b);
          ok := true;
        }
      case Integer(ext, lb, ub) =>
        if v.VInt? {
          ok := AppendInteger(v.i, ext, lb, ub);
        }
      case Enumerated(ext, lb, ub) =>
        if v.VEnum? {
          ok := AppendEnumerated(v.e, ext, lb, ub);
        }
      case BitStr(ext, lb, ub) =>
        if v.VBits? {
          ok := MakeBits(v, ext, lb, ub);
        }
      case OctetStr(ext, lb, ub) =>
        if v.VOctets? {
          ok := MakeOctets(v.octets, v.spare, ext, lb, ub);
        }
    }

    method MakeSequenceOf(schema: Schema, v: Value, ghost ref: Option<Int64>) returns (ok: bool)
      requires Valid() && schema.SequenceOf?
      modifies this
      ensures Valid() && Outcome(ok, Bits(), Encode(schema, v, ref, old(Bits())))
      ensures ok ==> marks == old(marks) + Marks(schema, v, ref, old(Bits()))
      decreases schema.elem, 2
    {
      hide PutCount, EncodeElems, ElemMarks, Stands;
      ok := false;
      if v.VList? {
        ok := AppendCount(|v.elems|, schema.ext, schema.lb, schema.ub);
        if ok {
          ok := MakeElems(schema.elem, v.elems);
        }
      }
    }

    method MakeChoice(schema: Schema, v: Value, ghost ref: Option<Int64>) returns (ok: bool)
      requires Valid() && schema.Choice?
      modifies this
      ensures Valid() && Outcome(ok, Bits(), Encode(schema, v, ref, old(Bits())))
      ensures ok ==> marks == old(marks) + Marks(schema, v, ref, old(Bits()))
      decreases schema.alts, 0
    {
      hide PutChoiceIndex, Stands;
      ok := false;
      if v.VChoice? && 1 <= v.present <= |schema.alts| {
        if schema.ext {
          AppendFlag(false);
        }
        ok := AppendChoiceIndex(v.present, schema.ext, schema.vub);
        if ok {
          ok := MakeField(schema.alts[v.present - 1], v.v, None);
        }
      }
    }

    /** A `BitString` value carries its bits in octets; only the first `BitLength` bits count. */
    method MakeBits(v: Value, ext: bool, lb: Option<nat>, ub: Option<nat>) returns (ok: bool)
      requires Valid() && v.VBits?
      modifies this
      ensures Valid() && Outcome(ok, Bits(), EncodeSized(old(Bits()), 1, InOctets(v.bits), BytesToBits(v.extra),
                                                         BytesToBits(v.spare), |v.bits|, ext, lb, ub))
      ensures ok ==> marks == old(marks) + Marks(BitStr(ext, lb, ub), v, None, old(Bits()))
    {
      hide PutSized, SizedMarks, Stands, BytesToBits, InOctets, PackBytes, OctetsFor;
      var bits := v.bits;
      if |bits| < TWO64 && (lb.Some? ==> lb.value < TWO63) {
        var packed := PackBytes(InOctets(bits));
        UnpackPacked(InOctets(bits));
        var bytes := packed + v.extra;
        BytesToBitsConcat(packed, v.extra);
        assert BytesToBits(bytes)[..|bits|] == bits;
        assert bytes[OctetsFor(|bits|)..] == v.extra;
        ok := AppendBitString(bytes, v.spare, |bits|, ext, lb, ub);
      } else {
        ok := false;
      }
    }

    method MakeOctets(octets: seq<Byte>, spare: seq<Byte>, ext: bool, lb: Option<nat>, ub: Option<nat>)
      returns (ok: bool)
      requires Valid()
      modifies this
      ensures ok ==> marks == old(marks)
      ensures Valid() && Outcome(ok, Bits(), EncodeSized(old(Bits()), 8, BytesToBits(octets), [], BytesToBits(spare),
                                                         |octets|, ext, lb, ub))
    {
      hide PutSized, Stands, BytesToBits;
      if |octets| < TWO64 && (lb.Some? ==> lb.value < TWO63) {
        ok := AppendOctetString(octets, spare, ext, lb, ub);
      } else {
        ok := false;
      }
    }

    /** The element loop of `parseSequenceOf`. */
    method MakeElems(elem: Schema, vs: seq<Value>) returns (ok: bool)
      requires Valid()
      modifies this
      ensures Valid() && Outcome(ok, Bits(), EncodeElems(elem, vs, old(Bits())))
      ensures ok ==> marks == old(marks) + ElemMarks(elem, vs, old(Bits()))
      decreases elem, 1
    {
      hide Encode, EncodeElems, Marks, ElemMarks, Stands;
      var i := 0;
      ghost var all := EncodeElems(elem, vs, Bits());
      ghost var left := marks + ElemMarks(elem, vs, Bits());
      assert vs[0..] == vs;
      while i < |vs|
        invariant Valid() && 0 <= i <= |vs| && EncodeElems(elem, vs[i..], Bits()) == all
        invariant marks + ElemMarks(elem, vs[i..], Bits()) == left
      {
        ElemTurn(elem, vs, i, Bits());
        ok := MakeField(elem, vs[i], None);
        if !ok {
          return;
        }
        i := i + 1;
      }
      assert vs[i..] == [];
      NoElems(elem, Bits());
      ok := true;
    }

    /** SEQUENCE: extension bit, presence bits, then the fields that are there. */
    method MakeStruct(ext: bool, fields: seq<Field>, vals: seq<Option<Value>>) returns (ok: bool)
      requires Valid() && |fields| == |vals|
      modifies this
      ensures Valid() && Outcome(ok, Bits(), Encode(Sequence(ext, fields), VStruct(vals), None, old(Bits())))
      ensures ok ==> marks == old(marks) + Marks(Sequence(ext, fields), VStruct(vals), None, old(Bits()))
      decreases fields, |fields| + 2
    {
      hide PutValue, EncodeFields, FieldMarks, PresenceBits, ValueOf, Stands;
      if ext {
        AppendFlag(false);
      }
      var optionalCount, optionalPresents;
      ok, optionalCount, optionalPresents := ScanPresence(fields, vals);
      if !ok {
        return;
      }
      if optionalCount > 0 {
        ok := PutBitsValue(optionalPresents, optionalCount);
        if !ok {
          return;
        }
      } else {
        NothingToPut(Bits(), optionalPresents);
      }
      ok := MakeFields(fields, vals, optionalPresents, optionalCount);
    }

    /** The field loop of a SEQUENCE. */
    method MakeFields(fields: seq<Field>, vals: seq<Option<Value>>, presents: nat, count: nat) returns (ok: bool)
      requires Valid() && |fields| == |vals|
      modifies this
      ensures Valid() && Outcome(ok, Bits(), EncodeFields(fields, vals, 0, presents, count, old(Bits())))
      ensures ok ==> marks == old(marks) + FieldMarks(fields, vals, 0, presents, count, old(Bits()))
      decreases fields, |fields| + 1
    {
      hide Encode, Stands, TestBit, LookupRef, Marks;
      var i, optionalCount := 0, count;
      ghost var all := EncodeFields(fields, vals, 0, presents, count, Bits());
      ghost var left := marks + FieldMarks(fields, vals, 0, presents, count, Bits());
      while i < |fields|
        invariant Valid() && 0 <= i <= |fields| && 0 <= optionalCount
        invariant EncodeFields(fields, vals, i, presents, optionalCount, Bits()) == all
        invariant marks + FieldMarks(fields, vals, i, presents, optionalCount, Bits()) == left
      {
        var f := fields[i];
        var skip := false;
        ghost var before := optionalCount;
        if f.optional && optionalCount > 0 {
          optionalCount := optionalCount - 1;
          skip := !TestBit(presents, optionalCount);
        }
        FieldTurn(fields, vals, i, presents, before, Bits());
        if !skip {
          var ref := None;
          if f.schema.OpenType? {
            ref := LookupRef(fields, vals[..i], f.schema.refName);
            if ref.None? {
              return false;
            }
          }
          if vals[i].None? {
            return false;
          }
          ok := MakeField(f.schema, vals[i].value, ref);
          if !ok {
            return;
          }
        }
        i := i + 1;
      }
      ok := true;
    }

    /** An open type is encoded on its own and wrapped like an octet string, remnants included. */
    method MakeOpenType(schema: Schema, x: Value) returns (ok: bool)
      requires Valid()
      modifies this
      ensures Valid() && Outcome(ok, Bits(), Wrapped(schema, x, old(Bits()))) && (ok ==> marks == old(marks))
      decreases schema, 1
    {
      hide Encode, PutFragments, FragmentMarks, Stands, BytesToBits, Aligned, Marks, OctetsFor;
      var inner := new RawBitData();
      ok := inner.MakeField(schema, x, None);
      if !ok {
        return;
      }
      ghost var w, data := Bits(), BytesToBits(inner.bytes);
      assert inner.marks == Marks(schema, x, None, []);
      StandsShape(inner.bytes, inner.bitsOffset, inner.written, inner.marks);
      StandsOctets(inner.bytes, inner.bitsOffset, inner.written, inner.marks);
      OctetsLeaveNothing(w, -1, 0, data, |inner.bytes|);
      ok := AppendFragments(inner.bytes, 8, -1, 0, |inner.bytes|);
      if ok {
        FragmentsEndAligned(w, data, |inner.bytes|, Bits());
        AppendAlignBits();
      }
    }
  }

  /** What `Encode` says of an open type, its reference apart. */
  ghost function Wrapped(schema: Schema, x: Value, w: Bits): (r: Option<Bits>) {
    match Encode(schema, x, None, [])
    case None => None
    case Some(inner) =>
      PutFragments(w, 8, -1, 0, Smeared(InOctets(inner), Marks(schema, x, None, [])), OctetsFor(|inner|))
  }

  /** `MarshalWithParams`. */
  method MarshalValue(schema: Schema, v: Value, ref: Option<Int64>) returns (r: Option<seq<Byte>>)
    ensures r == Marshal(schema, v, ref)
  {
    hide Encode, Stands, Marshal, Marks;
    var pd := new RawBitData();
    var ok := pd.MakeField(schema, v, ref);
    MarshalOutcome(schema, v, ref, ok, pd.bytes, pd.bitsOffset, pd.written, pd.marks);
    if !ok {
      return None;
    }
    r := Some(if pd.bytes == [] then [0] else pd.bytes);
  }

  /** The buffer is the packed, padded encoding with its remnants. */
  lemma MarshalOutcome(schema: Schema, v: Value, ref: Option<Int64>, ok: bool, bytes: seq<Byte>, offset: nat,
                       w: Bits, marks: set<nat>)
    requires Stands(bytes, offset, w, marks) && Outcome(ok, w, Encode(schema, v, ref, []))
    requires ok ==> marks == Marks(schema, v, ref, [])
    ensures Marshal(schema, v, ref) == if ok then Some(if bytes == [] then [0] else bytes) else None
  {
    hide Encode, Marshal, Marks, Stands, BytesToBits, PackBytes, Aligned;
    MarshalIs(schema, v, ref);
    if ok {
      StandsShape(bytes, offset, w, marks);
      NoOctets(|w|);
      StandsOctets(bytes, offset, w, marks);
      UnpackPacked(Smeared(Aligned(w), marks));
      BytesToBitsInjective(PackBytes(Smeared(Aligned(w), marks)), bytes);
    }
  }

  lemma MarshalIs(schema: Schema, v: Value, ref: Option<Int64>)
    ensures Marshal(schema, v, ref) ==
            match Encode(schema, v, ref, [])
            case None => None
            case Some(w) => Some(if w == [] then [0] else PackBytes(Smeared(Aligned(w), Marks(schema, v, ref, []))))
  {
    hide Encode, Marks, PackBytes, Aligned;
  }

  lemma NoOctets(n: nat)
    ensures OctetsFor(n) == 0 <==> n == 0
  {
  }

  /** One turn of `EncodeElems` and `ElemMarks`. */
  lemma ElemTurn(elem: Schema, vs: seq<Value>, i: nat, w: Bits)
    requires i < |vs|
    ensures var one := Encode(elem, vs[i], None, w);
            && (one.None? ==> EncodeElems(elem, vs[i..], w) == None)
            && (one.Some? ==>
                  && EncodeElems(elem, vs[i..], w) == EncodeElems(elem, vs[i + 1..], one.value)
                  && ElemMarks(elem, vs[i..], w) == Marks(elem, vs[i], None, w)
                                                    + ElemMarks(elem, vs[i + 1..], one.value))
  {
    hide Encode, Marks;
    assert vs[i..][0] == vs[i] && vs[i..][1..] == vs[i + 1..];
  }

  lemma NoElems(elem: Schema, w: Bits)
    ensures EncodeElems(elem, [], w) == Some(w) && ElemMarks(elem, [], w) == {}
  {
  }

  lemma NotAStruct(schema: Schema, v: Value, ref: Option<Int64>, w: Bits)
    requires schema.Sequence?
    ensures !v.VStruct? || |schema.fields| != |v.fields| ==> Encode(schema, v, ref, w) == None
    ensures v.VStruct? ==> Encode(schema, v, ref, w) == Encode(schema, v, None, w)
    ensures v.VStruct? ==> Marks(schema, v, ref, w) == Marks(schema, v, None, w)
  {
    hide EncodeFields, FieldMarks, PutValue, PresenceBits, ValueOf;
  }

  lemma WrongCase(schema: Schema, v: Value, ref: Option<Int64>, w: Bits)
    requires schema.OpenType?
    ensures !Selected(schema, v, ref) ==> Encode(schema, v, ref, w) == None
    ensures Selected(schema, v, ref) ==>
              Encode(schema, v, ref, w) == Wrapped(schema.cases[v.present - 1].schema, v.v, w)
  {
    hide PutFragments, Smeared, OctetsFor, Marks, EncodeElems, EncodeFields, EncodeSized;
  }

  /** The alternative of an open type is the one that the reference value asks for. */
  predicate Selected(schema: Schema, v: Value, ref: Option<Int64>)
    requires schema.OpenType?
  {
    v.VChoice? && 1 <= v.present <= |schema.cases| && ref.Some? && schema.cases[v.present - 1].ref == ref
  }

  lemma NoMarksOutside(schema: Schema, v: Value, ref: Option<Int64>, w: Bits)
    requires schema.OpenType?
    ensures Marks(schema, v, ref, w) == {}
  {
  }

  lemma NothingToPut(w: Bits, v: nat)
    ensures PutValue(w, v, 0) == Some(w)
  {
  }

  /** The first loop over the fields: counts the optional ones and collects their presence bits. */
  method ScanPresence(fields: seq<Field>, vals: seq<Option<Value>>) returns (ok: bool, count: nat, presents: nat)
    requires |fields| == |vals|
    ensures ok == MandatoryPresent(fields, vals)
    ensures ok
            ==> count == |PresenceBits(fields, vals, 0)| && presents == ValueOf(PresenceBits(fields, vals, 0)) % TWO64
  {
    hide ValueOf, Pow2;
    count, presents := 0, 0;
    ghost var bits: Bits := [];
    assert ValueOf([]) % TWO64 == 0 by {
      EmptyValue();
    }
    var i := 0;
    while i < |fields|
      invariant 0 <= i <= |fields| && count == |bits|
      invariant PresenceBits(fields, vals, 0) == bits + PresenceBits(fields, vals, i)
      invariant presents == ValueOf(bits) % TWO64
      invariant forall k :: 0 <= k < i && !fields[k].optional ==> vals[k].Some?
    {
      if fields[i].optional {
        ghost var bit := vals[i].Some?;
        AppendPresence(bits, bit, presents);
        count := count + 1;
        presents := (2 * presents + (if vals[i].Some? then 1 else 0)) % TWO64;
        bits := bits + [bit];
      } else if vals[i].None? {
        return false, 0, 0;
      }
      i := i + 1;
    }
    assert bits + [] == bits;
    ok := true;
  }

  lemma EmptyValue()
    ensures ValueOf([]) == 0
  {
  }

  lemma AppendPresence(bits: Bits, bit: bool, v: nat)
    requires v == ValueOf(bits) % TWO64
    ensures (2 * v + (if bit then 1 else 0)) % TWO64 == ValueOf(bits + [bit]) % TWO64
  {
    ShiftInMod(bits, [bit], v);
  }

  /** One turn of `EncodeFields`. */
  lemma FieldTurn(fields: seq<Field>, vals: seq<Option<Value>>, i: nat, presents: nat, remaining: nat, w: Bits)
    requires i < |fields| == |vals|
    ensures var f := fields[i];
            var counted := f.optional && remaining > 0;
            var rest := if counted then remaining - 1 else remaining;
            var ref := if f.schema.OpenType? then LookupRef(fields, vals[..i], f.schema.refName) else None;
            EncodeFields(fields, vals, i, presents, remaining, w) ==
            if counted && !TestBit(presents, rest) then EncodeFields(fields, vals, i + 1, presents, rest, w)
            else if vals[i].None? || (f.schema.OpenType? && ref.None?) then None
            else
              var one := Encode(f.schema, vals[i].value, ref, w);
              if one.None? then None else EncodeFields(fields, vals, i + 1, presents, rest, one.value)
    ensures var f := fields[i];
            var counted := f.optional && remaining > 0;
            var rest := if counted then remaining - 1 else remaining;
            var ref := if f.schema.OpenType? then LookupRef(fields, vals[..i], f.schema.refName) else None;
            var all := FieldMarks(fields, vals, i, presents, remaining, w);
            if counted && !TestBit(presents, rest) then all == FieldMarks(fields, vals, i + 1, presents, rest, w)
            else vals[i].Some? ==>
              var one := Encode(f.schema, vals[i].value, ref, w);
              one.Some? ==>
                all == Marks(f.schema, vals[i].value, ref, w)
                       + FieldMarks(fields, vals, i + 1, presents, rest, one.value)
  {
    hide Encode, Marks, TestBit, LookupRef;
  }

  /** Octets behind an unconstrained length end on an octet boundary. */
  lemma {:induction false} FragmentsEndAligned(w: Bits, data: Bits, raw: nat, w': Bits)
    requires PutFragments(w, 8, -1, 0, data, raw) == Some(w')
    ensures |w'| % 8 == 0
    decreases |data|
  {
    hide Aligned, FragmentSize, OctetsFor, PutLength, Scale;
    var part := FragmentSize(raw);
    var w1 := PutLength(w, -1, part).value;
    assert |w1| % 8 == 0 by {
      LengthEndsAligned(w, part, w1);
    }
    var take := 8 * OctetsFor(Scale(8, part));
    if 0 < part < raw && take <= |data| {
      SomeOctets(8, part);
      FragmentsEndAligned(Aligned(w1) + data[..take], data[take..], raw - part, w');
    } else if 0 < part && take <= |data| {
      EndsAligned(Aligned(w1), data[..Scale(8, part)]);
    }
  }

  lemma EndsAligned(w: Bits, bits: Bits)
    requires |w| % 8 == 0 && |bits| % 8 == 0
    ensures |w + bits| % 8 == 0
  {
  }

  lemma LengthEndsAligned(w: Bits, v: nat, w1: Bits)
    requires v <= 65536 && PutLength(w, -1, v) == Some(w1)
    ensures |w1| % 8 == 0
  {
    hide PutLength, Aligned, LengthBits;
    LengthForm(w, v);
    EndsAligned(Aligned(w), LengthBits(v));
  }

  lemma OneBit(bit: bool)
    ensures var v := if bit then 1 else 0; v < Pow2(1) && BitsOf(v, 1) == [bit]
  {
  }

  lemma TailOfString(bits: Bits, n: nat)
    requires ZeroTail(bits, n) && |bits| == 8 * OctetsFor(n)
    ensures forall i :: n <= i < 8 * OctetsFor(n) ==> !bits[i]
  {
  }

  lemma AlignedTwice(w: Bits, bits: Bits)
    requires |bits| % 8 == 0
    ensures Aligned(Aligned(w) + bits) == Aligned(w) + bits
  {
    hide PadLen;
    MultiplesAdd(|Aligned(w)|, |bits|);
  }

  lemma MultiplesAdd(m: nat, n: nat)
    requires m % 8 == 0 && n % 8 == 0
    ensures (m + n) % 8 == 0
  {
  }

  /** Masking the last octet clears exactly the bits that do not count. */
  lemma MaskedString(bytes: seq<Byte>, n: nat, data: seq<Byte>)
    requires |bytes| == OctetsFor(n)
    requires data == if n % 8 == 0 then bytes
                     else bytes[|bytes| - 1 := bytes[|bytes| - 1] & Shl(0xff, 8 - n % 8)]
    ensures |data| == |bytes| && BytesToBits(data) == Aligned(BytesToBits(bytes)[..n])
    ensures ZeroTail(BytesToBits(data), n)
  {
    hide Bit, Shl, BytesToBits;
    var kept := BytesToBits(bytes)[..n];
    var bits := BytesToBits(data);
    assert |Aligned(kept)| == |bits|;
    forall i | 0 <= i < |bits| ensures bits[i] == Aligned(kept)[i] {
      var k, j := i / 8, i % 8;
      assert i == 8 * k + j;
      BytesToBitsAt(data, k, j);
      BytesToBitsAt(bytes, k, j);
      if n % 8 != 0 {
        MaskedBit(n, bytes, data, Shl(0xff, 8 - n % 8), k, j);
      }
    }
  }

  /** "for n = 1; ...; n++ { if u == 0 break; u >>= 8 }". */
  method OctetLoop(u: nat) returns (n: nat)
    ensures n == OctetCount(u)
  {
    n := 1;
    var rest := u;
    while rest != 0
      invariant n >= 1 && OctetCount(u) == n - 1 + OctetCount(rest)
      decreases rest
    {
      rest := rest / 256;
      n := n + 1;
    }
  }

  method WriterRangeLoop(r: nat) returns (n: nat)
    ensures n == WriterRangeOctets(r)
  {
    n := 1;
    var rest := r / 256;
    while rest > 1
      invariant n >= 1
      invariant WriterRangeOctets(r) == if rest <= 1 then n else n + WriterRangeOctets(rest)
      decreases rest
    {
      rest := rest / 256;
      n := n + 1;
    }
  }

  method FragmentPart(rawLength: nat) returns (part: nat)
    ensures part == FragmentSize(rawLength)
  {
    if rawLength > 65536 {
      part := 65536;
    } else if rawLength >= 16384 {
      part := rawLength / 16384 % 4 * 16384;
    } else {
      part := rawLength;
    }
  }

  // ------------------------------------------------------------- the fragment loop

  lemma SomeOctets(unit: nat, n: nat)
    requires n > 0
    ensures OctetsFor(Scale(unit, n)) > 0
  {
  }

  lemma AllOctets(chunk: seq<Byte>)
    ensures |chunk| == OctetsFor(8 * |chunk|) && ZeroTail(BytesToBits(chunk), 8 * |chunk|)
    ensures BytesToBits(chunk)[..8 * |chunk|] == BytesToBits(chunk)
  {
  }

  lemma JoinedBits(data: seq<Byte>, extra: seq<Byte>, spare: seq<Byte>)
    ensures BytesToBits(data + extra + spare) == BytesToBits(data) + BytesToBits(extra) + BytesToBits(spare)
  {
    hide BytesToBits;
    BytesToBitsConcat(data + extra, spare);
    BytesToBitsConcat(data, extra);
  }

  lemma SliceBits(data: seq<Byte>, extra: seq<Byte>, unit: nat, length: nat)
    requires (unit == 1 || unit == 8) && |data| == OctetsFor(Scale(unit, length))
    ensures var n := Scale(unit, length) + 8 * |extra|;
            && |data + extra| == OctetsFor(n) && n <= 8 * |data + extra|
            && BytesToBits(data + extra)[..n] == WholeSlice(unit, BytesToBits(data), BytesToBits(extra), length)
            && BytesToBits(data + extra) == BytesToBits(data) + BytesToBits(extra)
  {
    hide BytesToBits;
    BytesToBitsConcat(data, extra);
  }

  /** One turn of `PutFragments` on octets instead of bits. */
  lemma FragmentTurn(w: Bits, unit: nat, sizeRange: int, lb: nat, rest: seq<Byte>, raw: nat)
    requires unit == 1 || unit == 8
    ensures var part := FragmentSize(raw);
            var length := PutLength(w, sizeRange, part);
            var sizes := OctetsFor(Scale(unit, part + lb));
            PutFragments(w, unit, sizeRange, lb, BytesToBits(rest), raw) ==
            if length.None? then None
            else if part + lb == 0 then length
            else if sizes > |rest| then None
            else if part < raw then
              PutFragments(Aligned(length.value) + BytesToBits(rest[..sizes]), unit, sizeRange, lb,
                           BytesToBits(rest[sizes..]), raw - part)
            else Some(Aligned(length.value) + BytesToBits(rest[..sizes])[..Scale(unit, part + lb)])
    ensures var part := FragmentSize(raw);
            var length := PutLength(w, sizeRange, part);
            var sizes := OctetsFor(Scale(unit, part + lb));
            FragmentMarks(w, unit, sizeRange, lb, BytesToBits(rest), raw) ==
            if length.None? || part + lb == 0 || sizes > |rest| then {}
            else if part < raw then
              FragmentMarks(Aligned(length.value) + BytesToBits(rest[..sizes]), unit, sizeRange, lb,
                            BytesToBits(rest[sizes..]), raw - part)
            else TailMarks(|Aligned(length.value)|, BytesToBits(rest[..sizes]), Scale(unit, part + lb))
  {
    hide PutLength, Aligned, FragmentSize, BytesToBits, Scale, OctetsFor, TailMarks;
    var sizes := OctetsFor(Scale(unit, FragmentSize(raw) + lb));
    if sizes <= |rest| {
      BytesToBitsSlice(rest, 0, sizes);
      BytesToBitsSlice(rest, sizes, |rest|);
      assert rest[0..sizes] == rest[..sizes] && rest[sizes..|rest|] == rest[sizes..];
      var bits := BytesToBits(rest);
      assert bits[0..8 * sizes] == bits[..8 * sizes] && bits[8 * sizes..8 * |rest|] == bits[8 * sizes..];
      assert bits[..8 * sizes][..Scale(unit, FragmentSize(raw) + lb)] == bits[..Scale(unit, FragmentSize(raw) + lb)];
    }
  }

  /** The octets of a number, produced from the last one to the first; fails when the number does not fit. */
  method ValueOctets(value: nat, numBits: nat) returns (ok: bool, octets: seq<Byte>)
    requires numBits > 0
    ensures ok <==> value < Pow2(numBits)
    ensures ok ==> |octets| == OctetsFor(numBits)
                   && BytesToBits(octets) == BitsOf(value, numBits) + Zeros(8 * |octets| - numBits)
  {
    hide BytesToBits, BitsOf, Pow2, ByteOf, ShiftRight, Zeros, LowBitsOctet, OctetsFor;
    var count := OctetsFor(numBits);
    var bitOff := if numBits % 8 == 0 then 8 else numBits % 8;
    LastOctetBits(numBits);
    ghost var pad := 8 - bitOff;
    octets := [LowBitsOctet(value, bitOff)];
    PlaceFirst(value, bitOff);
    var left := ShiftRight(value, bitOff);
    ghost var m := bitOff;
    while left > 0
      invariant 1 <= |octets| <= count && m == 8 * (|octets| - 1) + bitOff
      invariant left == ShiftRight(value, m)
      invariant BytesToBits(octets) == BitsOf(value, m) + Zeros(pad)
      decreases count - |octets|
    {
      if |octets| == count {
        ShiftedOut(value, numBits);
        return false, [];
      }
      PlaceNext(value, m, octets, pad);
      Shift8(value, m);
      octets := [ByteOf(left)] + octets;
      left, m := left / 256, m + 8;
    }
    var zeros := ZeroBytes(count - |octets|);
    ValuePlaced(value, m, zeros, octets, pad, numBits);
    octets := zeros + octets;
    ok := true;
  }

  lemma LastOctetBits(n: nat)
    ensures n > 0 ==> n == 8 * (OctetsFor(n) - 1) + (if n % 8 == 0 then 8 else n % 8)
  {
  }

  lemma ValuePlaced(v: nat, m: nat, zeros: seq<Byte>, rest: seq<Byte>, pad: nat, n: nat)
    requires BytesToBits(rest) == BitsOf(v, m) + Zeros(pad) && ShiftRight(v, m) == 0 && n == m + 8 * |zeros|
    requires forall k :: 0 <= k < |zeros| ==> zeros[k] == 0
    ensures v < Pow2(n) && BytesToBits(zeros + rest) == BitsOf(v, n) + Zeros(pad)
  {
    hide BytesToBits, BitsOf, Pow2, ShiftRight;
    ShiftedOut(v, m);
    PlacedAll(v, m, zeros, rest, pad);
    Pow2Monotone(m, n);
  }

  lemma PaddedString(bytes: seq<Byte>, bits: Bits, pad: nat)
    requires BytesToBits(bytes) == bits + Zeros(pad)
    ensures BytesToBits(bytes)[..|bits|] == bits
    ensures forall i :: |bits| <= i < 8 * |bytes| ==> !BytesToBits(bytes)[i]
  {
    hide BytesToBits;
  }

  lemma OffsetInUse(bytes: seq<Byte>, offset: nat, w: Bits, marks: set<nat>)
    requires Stands(bytes, offset, w, marks)
    ensures offset < 8 && (offset > 0 ==> |bytes| > 0)
  {
    hide BytesToBits;
  }

  lemma EnoughOctets(n: nat, octets: nat)
    requires n <= 8 * octets
    ensures n <= 8 * OctetsFor(n) && OctetsFor(n) <= octets
  {
  }

  lemma OneOctet(n: nat)
    requires 1 <= n <= 8
    ensures OctetsFor(n) == 1
  {
  }

  lemma Shift8(v: nat, m: nat)
    ensures ShiftRight(v, m) / 256 == ShiftRight(v, m + 8)
  {
    Pow2Values();
    ShiftRightTwice(v, m, 8);
  }
}
