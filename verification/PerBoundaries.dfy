/** Inputs on which the code does not read back what it wrote, each outside a stated hypothesis. */
module PerBoundaries {
  import opened Wrappers
  import opened PerBits
  import opened PerSpec
  import opened PerPrimitives
  import opened PerStrings
  import opened PerSizes
  import opened PerAcceptance
  import opened PerIntegers
  import opened PerSchema

  lemma FixedInteger(x: Int64, w: Bits, s: Bits)
    requires |w| <= |s| && |s| % 8 == 0
    ensures PutInteger(w, x, false, Some(x), Some(x)) == Some(w)
    ensures GetInteger(s, |w|, false, Some(x), Some(x)) == Got(x, |w|)
  {
    hide PutOctetCounted, PutConstrained, PutWide, GetOctetCounted, GetConstrained, GetWide;
    NoWrap(1);
  }

  /** A single-valued INTEGER takes no bits, and is read back exactly when data are left. */
  lemma FixedIntegerNeedsRoom(x: Int64, ref: Option<Int64>, w: Bits, s: Bits)
    requires w <= s && |s| % 8 == 0
    ensures Encode(Integer(false, Some(x), Some(x)), VInt(x), ref, w) == Some(w)
    ensures Decode(Integer(false, Some(x), Some(x)), ref, s, |w|) == Got(VInt(x), |w|) <==> |w| < |s|
  {
    hide PutInteger, GetInteger, EncodeElems, EncodeFields, DecodeElems, DecodeFields, PutEnumerated, EncodeSized,
    PutFragments, GetSized, GetCount, GetFragments, GetChoiceIndex, GetEnumerated, PutCount, PutChoiceIndex, GetValue;
    FixedInteger(x, w, s);
  }

  /** 256 in the range 0..65536 is accepted at every offset and never read back. */
  lemma NarrowBandLosesValues(w: Bits, s: Bits, w': Bits)
    requires PutInteger(w, 256, false, Some(0), Some(0x1_0000)) == Some(w') && w' <= s && |s| % 8 == 0
    ensures GetInteger(s, |w|, false, Some(0), Some(0x1_0000)) != Got(256, |w'|)
  {
    assert OctetCount(1) == 2;
    IntegerExact(w, 256, false, Some(0), Some(0x1_0000), w', s);
  }

  lemma NarrowBandAccepts(w: Bits)
    ensures PutInteger(w, 256, false, Some(0), Some(0x1_0000)).Some?
  {
    hide BitsForRange, WriterRangeOctets, OctetCount, PutWide;
    NoWrap(0x1_0001);
    assert PutWide(w, 256, 0, 0x1_0000).Some? by {
      NarrowBandField(w);
    }
  }

  lemma NarrowBandField(w: Bits)
    ensures PutWide(w, 256, 0, 0x1_0000).Some?
  {
    hide BitsForRange, Pow2, BitsOf, Aligned;
    assert OctetCount(1) == 2;
    assert WriterRangeOctets(0x1_0000) == 2 by {
      assert WriterRangeOctets(0x100) == 1;
    }
    FieldWidths();
    Pow2Values();
  }

  /**
    An extensible OCTET STRING without bounds: the writer leaves out the bit that the reader
    expects.  It comes back exactly off an octet boundary, where that bit is padding.
  */
  lemma ExtensionBitExact(v: Value, ref: Option<Int64>, w: Bits, w': Bits, s: Bits)
    requires v.VOctets? && Encode(OctetStr(true, None, None), v, ref, w) == Some(w') && w' <= s && |s| % 8 == 0
    ensures |w| < |s| && (Decode(OctetStr(true, None, None), ref, s, |w|) == Got(Plain(v), |w'|)
                          <==> |w| % 8 != 0 && FragmentsSurvive(false, 0, |v.octets|))
  {
    hide PutSized, GetSized, BytesToBits, PackBytes, FragmentsSurvive, GetFlag;
    UnboundedGrows(w, BytesToBits(v.octets), BytesToBits(v.spare), |v.octets|, w');
    StringExact(v, true, None, None, ref, w, w', s);
    assert SizeSurvives(8, |v.octets|, true, true, None, None, |w|)
      <==> |w| % 8 != 0 && FragmentsSurvive(false, 0, |v.octets|);
  }

  lemma UnboundedGrows(w: Bits, data: Bits, spare: Bits, len: nat, w': Bits)
    requires |data| == 8 * OctetsFor(Scale(8, len)) && len < TWO64
    requires PutSized(w, 8, data, [], spare, len, true, None, None) == Some(w')
    ensures |w| < |w'|
  {
    hide OctetsFor, Scale;
  }

  /** One such string at the start of a message. */
  lemma ExtensionBitMissing()
    ensures Encode(OctetStr(true, None, None), VOctets([], []), None, []) == Some(BitsOf(0, 8))
    ensures Decode(OctetStr(true, None, None), None, BitsOf(0, 8), 0).Fail?
  {
    var s := BitsOf(0, 8);
    BitsOfZero(8);
    MissingBitWritten(s);
    MissingBitRead(s);
  }

  lemma MissingBitWritten(s: Bits)
    requires s == BitsOf(0, 8)
    ensures Encode(OctetStr(true, None, None), VOctets([], []), None, []) == Some(s)
  {
    hide PutFragments, BitsOf, BytesToBits;
    assert BytesToBits([]) == [];
    assert Aligned([]) == [] && [] + s == s;
    EmptyFragment([], 8, [], 0, s);
  }

  lemma MissingBitRead(s: Bits)
    requires s == Zeros(8)
    ensures Decode(OctetStr(true, None, None), None, s, 0).Fail?
  {
    hide ValueOf, Zeros;
    assert GetFlag(s, 0, true) == Got(false, 1);
    assert s[1..8] == Zeros(7);
    assert GetAlign(s, 1) == Got((), 8);
    assert GetLength(s, 1, -1) == Fail(8);
  }

  /** An OCTET STRING as a whole field. */
  lemma StringExact(v: Value, ext: bool, lb: Option<nat>, ub: Option<nat>, ref: Option<Int64>, w: Bits, w': Bits,
                    s: Bits)
    requires v.VOctets?
    requires Encode(OctetStr(ext, lb, ub), v, ref, w) == Some(w') && w' <= s && |s| % 8 == 0 && |w| < |s|
    ensures Decode(OctetStr(ext, lb, ub), ref, s, |w|) == Got(Plain(v), |w'|)
            <==> SizeSurvives(8, |v.octets|, true, ext, lb, ub, |w|)
  {
    hide PutSized, GetSized, BytesToBits, PackBytes, SizeSurvives, GetFlag;
    var data := BytesToBits(v.octets);
    SizedExact(w, 8, data, [], BytesToBits(v.spare), |v.octets|, ext, lb, ub, w', s);
    assert data[..8 * |v.octets|] == data;
    var flag := GetFlag(s, |w|, ext);
    OctetsDecoded(GetSized(s, flag.pos, 8, flag.value, lb, ub), v.octets, |w'|);
  }

  lemma OctetsDecoded(r: Read<Bits>, octets: seq<Byte>, pos: nat)
    requires r.Got? ==> |r.value| % 8 == 0
    ensures DecodedOctets(r) == Got(VOctets(octets, []), pos) <==> r == Got(BytesToBits(octets), pos)
  {
    hide BytesToBits, PackBytes;
    if r.Got? {
      UnpackPacked(r.value);
      PackUnpacked(octets);
    }
  }

  // ------------------------------------------------ the status of a data radio bearer

  /** A BIT STRING with the bounds 1..131072. */
  const StatusBitmap: Schema := BitStr(false, Some(1), Some(131072))

  /** The octets of a BIT STRING up to the capacity of its slice. */
  function Capacity(v: Value): (octets: nat)
    requires v.VBits?
  {
    OctetsFor(|v.bits|) + |v.extra| + |v.spare|
  }

  lemma StatusBitmapIs(v: Value, ref: Option<Int64>, w: Bits) returns (data: Bits)
    requires v.VBits? && 1 <= |v.bits| <= 131072
    ensures |data| == 8 * Capacity(v)
    ensures Encode(StatusBitmap, v, ref, w) == PutFragments(w, 1, -1, 1, data, |v.bits| - 1)
  {
    hide PutFragments, BytesToBits, OctetsFor;
    data := InOctets(v.bits) + BytesToBits(v.extra) + BytesToBits(v.spare);
  }

  /** It is written if and only if its fragments, one bit longer each than announced, fit into the slice. */
  lemma StatusBitmapAccepted(v: Value, ref: Option<Int64>, w: Bits)
    requires v.VBits? && 1 <= |v.bits| <= 131072
    ensures Encode(StatusBitmap, v, ref, w).Some? <==> Capacity(v) >= Need(1, 1, |v.bits| - 1) && |v.bits| != 65537
  {
    hide PutFragments, Encode, Capacity, Need;
    var data := StatusBitmapIs(v, ref, w);
    FragmentsAccepted(w, 1, 1, data, |v.bits| - 1);
  }

  /** With two octets to spare, every length but 65537 is written. */
  lemma StatusBitmapWithSpare(v: Value, ref: Option<Int64>, w: Bits)
    requires v.VBits? && 1 <= |v.bits| <= 131072 && |v.extra| + |v.spare| >= 2
    ensures Encode(StatusBitmap, v, ref, w).Some? <==> |v.bits| != 65537
  {
    hide Encode, Need, OctetsFor;
    StatusBitmapAccepted(v, ref, w);
    if |v.bits| != 65537 {
      NeedInTwoBlocks(|v.bits| - 1);
    }
  }

  lemma NeedInOneBlock(raw: nat)
    requires raw < 65536
    ensures Need(1, 1, raw) <= OctetsFor(raw + 1) + 1
  {
    FragmentShape(raw);
    var part := FragmentSize(raw);
    if 0 < part < raw {
      assert raw - part < 16384;
      assert Need(1, 1, raw - part) == OctetsFor(raw - part + 1);
    }
  }

  lemma NeedInTwoBlocks(raw: nat)
    requires raw < 131072 && raw != 65536
    ensures Need(1, 1, raw) <= OctetsFor(raw + 1) + 2
  {
    if raw < 65536 {
      NeedInOneBlock(raw);
    } else {
      NeedInOneBlock(raw - 65536);
      assert OctetsFor(raw + 1) == 8192 + OctetsFor(raw - 65536 + 1);
    }
  }

  /** Without any, one fragment must do: up to 16384 bits, and at three lengths above. */
  lemma StatusBitmapWithoutSpare(bits: Bits, ref: Option<Int64>, w: Bits)
    requires 1 <= |bits| <= 131072
    ensures Encode(StatusBitmap, VBits(bits, [], []), ref, w).Some?
            <==> |bits| <= 16384 || |bits| == 16385 || |bits| == 32769 || |bits| == 49153
  {
    hide PutFragments, Encode, FragmentSize, OctetsFor;
    var raw := |bits| - 1;
    var data := StatusBitmapIs(VBits(bits, [], []), ref, w);
    FragmentShape(raw);
    if FragmentSize(raw) == raw {
      LengthForm(w, raw);
      WriterLastTurn(w, 1, -1, 1, data, raw, PutLength(w, -1, raw).value);
    } else {
      ManyFragmentsNeedNoBound(w, 1, -1, 1, data, raw);
    }
  }

  /** Beyond 16384 bits, whatever is written is never read back. */
  lemma StatusBitmapLost(v: Value, ref: Option<Int64>, w: Bits, w': Bits, s: Bits)
    requires v.VBits? && 16384 < |v.bits| <= 131072
    requires Encode(StatusBitmap, v, ref, w) == Some(w') && w' <= s && |s| % 8 == 0 && |w| < |s|
    ensures Decode(StatusBitmap, ref, s, |w|) != Got(Plain(v), |w'|)
  {
    hide PutSized, GetSized, BytesToBits, Aligned;
    SizedExact(w, 1, InOctets(v.bits), BytesToBits(v.extra), BytesToBits(v.spare), |v.bits|, false, Some(1),
               Some(131072), w', s);
    assert InOctets(v.bits)[..|v.bits|] == v.bits;
  }

  /** For one, 16385 bits that fill their slice: accepted at every offset, and lost whatever follows. */
  lemma StatusBitmapWitness(bits: Bits, ref: Option<Int64>, w: Bits, rest: Bits)
    requires |bits| == 16385
    ensures Encode(StatusBitmap, VBits(bits, [], []), ref, w).Some?
    ensures var w' := Encode(StatusBitmap, VBits(bits, [], []), ref, w).value;
            |w' + rest| % 8 == 0 && |w| < |w' + rest| ==>
              Decode(StatusBitmap, ref, w' + rest, |w|) != Got(VBits(bits, [], []), |w'|)
  {
    hide Encode, Decode;
    StatusBitmapWithoutSpare(bits, ref, w);
    var w' := Encode(StatusBitmap, VBits(bits, [], []), ref, w).value;
    if |w' + rest| % 8 == 0 && |w| < |w' + rest| {
      StatusBitmapLost(VBits(bits, [], []), ref, w, w', w' + rest);
    }
  }

  /** A fixed size of up to 16 bits is not enforced: any shorter string but the empty one goes out and is lost. */
  lemma ShortFixedStringAccepted(w: Bits, bits: Bits, size: nat)
    requires 1 <= |bits| <= size <= 16
    ensures PutSized(w, 1, InOctets(bits), [], [], |bits|, false, Some(size), Some(size)) == Some(w + bits)
    ensures SizeSurvives(1, |bits|, true, false, Some(size), Some(size), |w|) <==> |bits| == size
  {
    hide PutFragments, Aligned, FragmentsSurvive, FieldEnd, WholeSlice, PadLen, InOctets;
    ShortString(bits);
  }

  lemma ShortString(bits: Bits)
    requires 1 <= |bits| <= 16
    ensures OctetsFor(Scale(1, |bits|)) <= 2 && |bits| <= |InOctets(bits)| && InOctets(bits)[..Scale(1, |bits|)] == bits
  {
  }

  /** The longest fragment of all: 65536 octets are announced as none and dropped. */
  lemma FullBlockDropped(w: Bits, data: Bits)
    ensures PutFragments(w, 8, -1, 0, data, 65536) == Some(Aligned(w) + Zeros(8))
  {
    hide PutFragments, Aligned;
    BitsOfZero(8);
    EmptyFragment(w, 8, data, 65536, Aligned(w) + Zeros(8));
  }
}
