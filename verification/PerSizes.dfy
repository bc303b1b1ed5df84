/**
  Exactly which BIT STRING and OCTET STRING values are read back, the extension bit and
  the bounds that only one side looks at included.
*/
module PerSizes {
  import opened Wrappers
  import opened PerBits
  import opened PerSpec
  import opened PerPrimitives
  import opened PerStrings

  // ----------------------------------------- an extension bit that was never written

  /** The octets of an unconstrained length determinant of at most 65536. */
  function LengthBits(v: nat): (bits: Bits) {
    if v <= 127 then BitsOf(v, 8) else if v <= 16383 then BitsOf(0x8000 + v, 16) else BitsOf(0xc0 + v / 16384, 8)
  }

  lemma LengthForm(w: Bits, v: nat)
    requires v <= 65536
    ensures PutLength(w, -1, v) == Some(Aligned(w) + LengthBits(v))
    ensures |LengthBits(v)| == if 128 <= v <= 16383 then 16 else 8
  {
    hide BitsOf, Aligned, Pow2;
    Pow2Values();
  }

  /** Off an octet boundary the reader takes a padding bit for the extension bit. */
  lemma PaddingAsFlag(w: Bits, s: Bits)
    requires |w| % 8 != 0 && Aligned(w) <= s && |s| % 8 == 0
    ensures GetFlag(s, |w|, true) == Got(false, |w| + 1)
    ensures |w| + 1 + PadLen(|w| + 1) == |w| + PadLen(|w|) == |Aligned(w)|
    ensures GetAlign(s, |w|).Got? && GetAlign(s, |w| + 1).Got?
  {
    PadStep(|w|);
    hide PadLen;
    var pad := PadLen(|w|);
    AlignReadsBack(w, s);
    assert s[|w|..|w| + pad] == Zeros(pad);
    assert s[|w|] == s[|w|..|w| + pad][0] == false;
    assert s[|w| + 1..|w| + pad] == s[|w|..|w| + pad][1..] == Zeros(pad - 1);
  }

  lemma PadStep(n: nat)
    requires n % 8 != 0
    ensures PadLen(n) == PadLen(n + 1) + 1
  {
  }

  lemma PadAfterBoundary(n: nat)
    requires n % 8 == 0
    ensures PadLen(n) == 0 && PadLen(n + 1) == 7
  {
  }

  /** Off a boundary, reading from behind the supposed extension bit makes no difference. */
  lemma PaddingFlagHarmless(w: Bits, unit: nat, low: nat, data: Bits, raw: nat, w': Bits, s: Bits)
    requires (unit == 1 || unit == 8) && |w| % 8 != 0
    requires PutFragments(w, unit, -1, low, data, raw) == Some(w') && w' <= s && |s| % 8 == 0
    ensures GetFlag(s, |w|, true) == Got(false, |w| + 1)
    ensures GetFragments(s, |w| + 1, unit, -1, low) == GetFragments(s, |w|, unit, -1, low)
  {
    hide PutFragments, GetFragments, PutLength, Aligned, GetFlag, GetAlign, FragmentSize, LengthBits, PadLen;
    var part := FragmentSize(raw);
    LengthForm(w, part);
    LengthIsPrefix(w, unit, -1, low, data, raw, Aligned(w) + LengthBits(part), w');
    PaddingAsFlag(w, s);
    AlignFirst(s, |w|, unit, low);
    AlignFirst(s, |w| + 1, unit, low);
  }

  /** The octet at a boundary whose last seven bits pass for padding. */
  lemma SevenZeros(s: Bits, p: nat)
    requires p % 8 == 0 && p + 8 <= |s| && |s| % 8 == 0 && GetAlign(s, p + 1).Got?
    ensures ValueOf(s[p..p + 8]) == if s[p] then 128 else 0
  {
    PadAfterBoundary(p);
    hide PadLen;
    var bits := s[p..p + 8];
    assert s[p + 1..p + 8] == Zeros(7);
    assert bits == [s[p]] + Zeros(7);
    ValueOfConcat([s[p]], Zeros(7));
    OneBitValue(s[p]);
    ValueOfZeros(Zeros(7));
    Pow2Values();
  }

  /** The first octet of a length determinant. */
  lemma FirstLengthOctet(w: Bits, v: nat, s: Bits)
    requires |w| % 8 == 0 && v <= 65536 && w + LengthBits(v) <= s
    ensures |w| + 8 <= |s|
    ensures ValueOf(s[|w|..|w| + 8]) ==
            if v <= 127 then v else if v <= 16383 then 128 + v / 256 else 192 + v / 16384
    ensures 128 <= v <= 16383 ==> |w| + 16 <= |s| && ValueOf(s[|w| + 8..|w| + 16]) == v % 256
  {
    hide BitsOf, ValueOf, LengthBits;
    var bits := LengthBits(v);
    LengthOctets(v);
    assert s[|w|..|w| + |bits|] == bits;
    assert s[|w|..|w| + 8] == bits[..8];
    if 128 <= v <= 16383 {
      assert s[|w| + 8..|w| + 16] == bits[8..];
    }
  }

  /** The octets of a length determinant as numbers. */
  lemma LengthOctets(v: nat)
    requires v <= 65536
    ensures |LengthBits(v)| == if 128 <= v <= 16383 then 16 else 8
    ensures ValueOf(LengthBits(v)[..8]) ==
            if v <= 127 then v else if v <= 16383 then 128 + v / 256 else 192 + v / 16384
    ensures 128 <= v <= 16383 ==> ValueOf(LengthBits(v)[8..]) == v % 256
  {
    if 128 <= v <= 16383 {
      TwoLengthOctets(v);
    } else {
      hide ValueOf, BitsOf, Pow2;
      var octet := if v <= 127 then v else 192 + v / 16384;
      Pow2Values();
      ValueOfBitsOf(octet, 8);
      assert LengthBits(v)[..8] == BitsOf(octet, 8);
    }
  }

  lemma TwoLengthOctets(v: nat)
    requires 128 <= v <= 16383
    ensures |LengthBits(v)| == 16
    ensures ValueOf(LengthBits(v)[..8]) == 128 + v / 256 && ValueOf(LengthBits(v)[8..]) == v % 256
  {
    hide ValueOf, BitsOf, Pow2, ShiftRight;
    BitsOfSplit(0x8000 + v, 8, 8);
    SplitOctets(v);
    Pow2Values();
    var high, low := BitsOf(ShiftRight(0x8000 + v, 8), 8), BitsOf(0x8000 + v, 8);
    assert LengthBits(v)[..8] == high && LengthBits(v)[8..] == low;
    BitsOfMod(0x8000 + v, 8);
    ValueOfBitsOf(128 + v / 256, 8);
    ValueOfBitsOf(v % 256, 8);
  }

  lemma SplitOctets(v: nat)
    requires 128 <= v <= 16383
    ensures ShiftRight(0x8000 + v, 8) == 128 + v / 256 && (0x8000 + v) % 256 == v % 256
  {
    Pow2Values();
  }

  /** Where the writer ends when one fragment is all there is. */
  lemma OneFragmentEnd(w: Bits, unit: nat, low: nat, data: Bits, raw: nat, w': Bits)
    requires (unit == 1 || unit == 8) && raw < 16384
    requires PutFragments(w, unit, -1, low, data, raw) == Some(w')
    ensures |w'| == (if raw + low == 0 then |Aligned(w)| + |LengthBits(raw)|
                     else |Aligned(Aligned(w) + LengthBits(raw))| + Scale(unit, raw + low))
  {
    hide Aligned, OctetsFor, Scale, LengthBits, PutLength;
    LengthForm(w, raw);
  }

  lemma StaysAligned(w: Bits, bits: Bits)
    requires |w| % 8 == 0 && |bits| % 8 == 0
    ensures Aligned(w) == w && Aligned(w + bits) == w + bits
  {
  }

  /** Where the writer ends with a size masked to 0. */
  lemma MaskedEnd(w: Bits, unit: nat, low: nat, data: Bits, w': Bits)
    requires (unit == 1 || unit == 8) && PutFragments(w, unit, -1, low, data, 65536) == Some(w')
    ensures low == 0 && |w'| == |Aligned(w)| + 8
  {
    hide Aligned, OctetsFor, Scale, PutFragments, LengthBits, PutLength;
    if low > 0 {
      MaskedSizeFails(w, unit, -1, low, data);
    }
    LengthForm(w, 0);
    EmptyFragment(w, unit, data, 65536, Aligned(w) + LengthBits(0));
  }

  /**
    On an octet boundary the reader takes the first bit of the length for the extension
    bit, and no string at all is read back.
  */
  lemma StolenFlagLoses(w: Bits, unit: nat, low: nat, data: Bits, len: nat, w': Bits, s: Bits)
    requires (unit == 1 || unit == 8) && |w| % 8 == 0 && len < TWO64 && low < TWO63
    requires PutFragments(w, unit, -1, low, data, Minus64(len, low)) == Some(w') && w' <= s && |s| % 8 == 0
    ensures |w| < |s|
    ensures var r := GetFragments(s, |w| + 1, unit, -1, if s[|w|] then 0 else low);
            !(r.Got? && r.pos == |w'| && r.value.units == len)
  {
    hide PutFragments, GetFragments, PutLength, Aligned, GetAlign, FragmentSize, LengthBits, PadLen, Scale,
    StolenLength;
    var raw := Minus64(len, low);
    var part := FragmentSize(raw);
    FragmentShape(raw);
    LengthForm(w, part);
    StaysAligned(w, LengthBits(part));
    LengthIsPrefix(w, unit, -1, low, data, raw, w + LengthBits(part), w');
    StolenOctet(w, part, s);
    PadAfterBoundary(|w|);
    var lo := if s[|w|] then 0 else low;
    AlignFirst(s, |w| + 1, unit, lo);
    if GetAlign(s, |w| + 1).Got? {
      StolenRest(w, unit, low, lo, data, len, w', s);
    }
  }

  lemma StolenRest(w: Bits, unit: nat, low: nat, lo: nat, data: Bits, len: nat, w': Bits, s: Bits)
    requires (unit == 1 || unit == 8) && |w| % 8 == 0 && len < TWO64 && low < TWO63 && |w| + 8 <= |s| && |s| % 8 == 0
    requires StolenLength(FragmentSize(Minus64(len, low)), |w| + 8 < |s| && s[|w| + 8])
    requires PutFragments(w, unit, -1, low, data, Minus64(len, low)) == Some(w')
    ensures var r := GetFragments(s, |w| + 8, unit, -1, lo); !(r.Got? && r.pos == |w'| && r.value.units == len)
  {
    hide PutFragments, GetFragments, FragmentSize, StolenLength, Scale;
    var raw := Minus64(len, low);
    FragmentsCost(s, |w| + 8, unit, lo);
    WriterEnd(w, unit, low, data, raw, FragmentSize(raw), w', s);
    assert raw == FragmentSize(raw) ==> len == raw + low;
  }

  /** The lengths whose first octet can pass for an extension bit and padding. */
  predicate StolenLength(part: nat, next: bool) {
    part == 0 || (128 <= part <= 255 && next)
  }

  lemma StolenOctet(w: Bits, part: nat, s: Bits)
    requires |w| % 8 == 0 && part <= 65536 && w + LengthBits(part) <= s && |s| % 8 == 0
    requires part >= 16384 ==> part % 16384 == 0
    ensures |w| + 8 <= |s|
    ensures GetAlign(s, |w| + 1).Got? ==> StolenLength(part, |w| + 8 < |s| && s[|w| + 8])
  {
    hide GetAlign, LengthBits, ValueOf;
    FirstLengthOctet(w, part, s);
    if GetAlign(s, |w| + 1).Got? {
      SevenZeros(s, |w|);
      if part >= 128 {
        SecondOctetIsLarge(s, |w| + 8);
      }
    }
  }

  /** The writer ends before the place that the reader could reach with as many units. */
  lemma WriterEnd(w: Bits, unit: nat, low: nat, data: Bits, raw: nat, part: nat, w': Bits, s: Bits)
    requires (unit == 1 || unit == 8) && |w| % 8 == 0 && part == FragmentSize(raw)
    requires StolenLength(part, |w| + 8 < |s| && s[|w| + 8])
    requires PutFragments(w, unit, -1, low, data, raw) == Some(w')
    ensures part <= 255 && (raw == part || (low == 0 && |w'| == |w| + 8))
    ensures raw == part ==> |w'| == |w| + (if part == 0 then 8 else 16) + Scale(unit, part + low)
    ensures part != 0 ==> |w| + 8 < |s| && s[|w| + 8]
  {
    hide PutFragments, PutLength, FragmentSize, LengthBits, Aligned, Scale;
    FragmentShape(raw);
    assert part <= 255;
    if part == 0 && raw != 0 {
      MaskedSize(raw);
      MaskedEnd(w, unit, low, data, w');
      StaysAligned(w, []);
    } else {
      OneFragmentEnd(w, unit, low, data, raw, w');
      LengthForm(w, raw);
      StaysAligned(w, LengthBits(raw));
      ScaleOfZero(unit);
    }
  }

  lemma SecondOctetIsLarge(s: Bits, p: nat)
    requires p + 8 <= |s| && ValueOf(s[p..p + 8]) >= 128
    ensures s[p]
  {
    hide ValueOf;
    TopBitIsLarge(s, p);
    ValueBelow(s[p..p + 8]);
    Pow2Values();
  }

  // --------------------------------------------- an upper bound without a lower one

  /** Where the reader's constrained field begins and ends. */
  function FieldStart(p: nat, range: nat): (q: nat) {
    if range <= 255 then p else p + PadLen(p)
  }

  function FieldEnd(p: nat, range: nat): (q: nat) {
    FieldStart(p, range) + if range <= 255 then BitsForRange(range) else if range == 256 then 8 else 16
  }

  lemma FieldWidth(range: nat)
    requires 1 <= range <= 255
    ensures 1 <= BitsForRange(range) <= 8
  {
  }

  lemma FieldRead(s: Bits, p: nat, range: nat)
    requires 1 <= range <= 65536 && p <= |s| && |s| % 8 == 0
    ensures var r := GetConstrained(s, p, range);
            var start, end := FieldStart(p, range), FieldEnd(p, range);
            r.Got? ==> start <= end == r.pos <= |s| && r.value == ValueOf(s[start..end])
  {
    hide BitsForRange, GetAlign, GetValue, PadLen;
    if range <= 255 {
      FieldWidth(range);
    }
    var start, end := FieldStart(p, range), FieldEnd(p, range);
    if end <= |s| {
      ReadNumber(s, start, end - start);
    }
  }

  lemma ReadNumber(s: Bits, p: nat, n: nat)
    requires 1 <= n <= 16 && p + n <= |s|
    ensures GetValue(s, p, n) == Got(ValueOf(s[p..p + n]), p + n)
  {
    hide ValueOf, Pow2;
    ValueBelow(s[p..p + n]);
    Pow2Monotone(n, 16);
    Pow2Values();
  }

  /** The reader takes one fragment under a constrained length. */
  lemma ConstrainedRead(s: Bits, p: nat, unit: nat, range: nat)
    requires (unit == 1 || unit == 8) && 1 <= range <= 65536 && p <= |s| && |s| % 8 == 0
    ensures var c := GetConstrained(s, p, range);
            var r := GetFragments(s, p, unit, range, 0);
            && (c.Fail? ==> r.Fail?)
            && (c.Got? && c.value == 0 ==> r == Got(Collected([], 0), c.pos))
            && (c.Got? && c.value > 0 ==>
                  var chunk := GetChunk(s, c.pos, unit, c.value);
                  r == if chunk.Fail? then Fail(chunk.pos) else Got(Collected(chunk.value, c.value), chunk.pos))
  {
    hide GetConstrained, GetChunk, Scale;
  }

  lemma ChunkPlace(s: Bits, p: nat, unit: nat, n: nat)
    requires (unit == 1 || unit == 8) && p <= |s| && |s| % 8 == 0
    ensures var r := GetChunk(s, p, unit, n); r.Got? ==> r.pos == p + PadLen(p) + Scale(unit, n)
  {
  }

  /** The reader starts at the writer's position or behind a zero bit that passes for the extension bit. */
  predicate Behind(w: Bits, p: nat, s: Bits) {
    p == |w| <= |s| || (p == |w| + 1 <= |s| && !s[|w|])
  }

  lemma {:induction false} LeadingZeros(bits: Bits, n: nat)
    requires n <= |bits| && bits[..n] == Zeros(n)
    ensures ValueOf(bits) == ValueOf(bits[n..])
  {
    hide ValueOf;
    assert bits == Zeros(n) + bits[n..];
    ValueOfConcat(Zeros(n), bits[n..]);
    ValueOfZeros(Zeros(n));
  }

  /** What a field holds that ends inside or at the end of the octet at the boundary `a`. */
  lemma FieldValue(w: Bits, p: nat, q: nat, s: Bits)
    requires Aligned(w) <= s && |s| % 8 == 0 && Behind(w, p, s)
    requires p <= q && |Aligned(w)| < q <= |s|
    ensures ValueOf(s[p..q]) == ValueOf(s[|Aligned(w)|..q])
  {
    hide ValueOf, PadLen, Behind;
    var a := |Aligned(w)|;
    if p <= a {
      ZerosBefore(w, p, s);
      assert s[p..q][..a - p] == s[p..a];
      assert s[p..q][a - p..] == s[a..q];
      LeadingZeros(s[p..q], a - p);
    } else {
      AfterBoundary(w, p, s);
      assert s[a..q][..1] == Zeros(1);
      assert s[a..q][1..] == s[p..q];
      LeadingZeros(s[a..q], 1);
    }
  }

  lemma ZerosBefore(w: Bits, p: nat, s: Bits)
    requires Aligned(w) <= s && Behind(w, p, s) && p <= |Aligned(w)|
    ensures s[p..|Aligned(w)|] == Zeros(|Aligned(w)| - p)
  {
    hide PadLen;
    var a := |Aligned(w)|;
    assert s[..a] == Aligned(w);
    assert s[p..a] == Aligned(w)[p..];
  }

  lemma AfterBoundary(w: Bits, p: nat, s: Bits)
    requires Aligned(w) <= s && Behind(w, p, s) && p > |Aligned(w)|
    ensures |w| == |Aligned(w)| && p == |w| + 1 && !s[|w|]
  {
  }

  lemma BehindAligned(w: Bits, p: nat, s: Bits)
    requires Aligned(w) <= s && |s| % 8 == 0 && Behind(w, p, s) && p <= |Aligned(w)|
    ensures p + PadLen(p) == |Aligned(w)| && GetAlign(s, p).Got?
  {
    ZerosBefore(w, p, s);
    SameBoundary(|w|, p);
  }

  lemma SameBoundary(m: nat, p: nat)
    requires m <= p <= m + PadLen(m)
    ensures p + PadLen(p) == m + PadLen(m)
  {
  }

  lemma FieldFound(s: Bits, p: nat, range: nat)
    requires 1 <= range <= 65536 && p <= |s| && |s| % 8 == 0 && FieldEnd(p, range) <= |s|
    requires range >= 256 ==> GetAlign(s, p).Got?
    ensures GetConstrained(s, p, range).Got?
  {
    hide BitsForRange, PadLen, ValueOf;
    if range <= 255 {
      FieldWidth(range);
    }
  }

  /** A field that ends inside the octet misses at least its last bit. */
  lemma HalfOctet(s: Bits, a: nat, q: nat)
    requires a < q < a + 8 <= |s|
    ensures ValueOf(s[a..a + 8]) >= 2 * ValueOf(s[a..q])
  {
    hide ValueOf;
    assert s[a..a + 8] == s[a..q] + s[q..a + 8];
    ValueOfConcat(s[a..q], s[q..a + 8]);
    Pow2Monotone(1, a + 8 - q);
    Pow2Values();
    AtLeastTwice(ValueOf(s[a..q]), Pow2(a + 8 - q));
  }

  lemma AtLeastTwice(x: nat, y: nat)
    requires y >= 2
    ensures x * y >= 2 * x
  {
  }

  /** What the writer leaves for a length below 128: the length octet at the boundary and the string. */
  lemma ShortWritten(w: Bits, unit: nat, data: Bits, len: nat, w1: Bits, w': Bits, s: Bits)
    requires (unit == 1 || unit == 8) && len < 128 && |data| >= 8 * OctetsFor(Scale(unit, len))
    requires PutFragments(w, unit, -1, 0, data, len) == Some(w') && w' <= s && |s| % 8 == 0
    requires w1 == Aligned(w) + LengthBits(len)
    ensures |w1| == |Aligned(w)| + 8 && w1 <= s && Aligned(w) <= s && ValueOf(s[|Aligned(w)|..|w1|]) == len
    ensures w' == if len == 0 then w1 else Aligned(w1) + data[..Scale(unit, len)]
    ensures |w'| == |w1| + Scale(unit, len)
  {
    hide PutFragments, PutLength, OctetsFor, Scale, Aligned, LengthBits, ValueOf, FragmentSize;
    LengthForm(w, len);
    FragmentShape(len);
    WriterLastTurn(w, unit, -1, 0, data, len, w1);
    StaysAligned(Aligned(w), LengthBits(len));
    ScaleOfZero(unit);
    LengthIsPrefix(w, unit, -1, 0, data, len, w1, w');
    ShortLengthOctet(w, len, w1, w', s);
  }

  lemma ShortLengthOctet(w: Bits, len: nat, w1: Bits, w': Bits, s: Bits)
    requires len < 128 && w1 == Aligned(w) + LengthBits(len) && w1 <= w' <= s && |w1| == |Aligned(w)| + 8
    ensures w1 <= s && Aligned(w) <= s && ValueOf(s[|Aligned(w)|..|w1|]) == len
  {
    hide Aligned, LengthBits, ValueOf;
    assert w1 <= s;
    FirstLengthOctet(Aligned(w), len, s);
  }

  lemma UpperOnlyShort(w: Bits, unit: nat, data: Bits, len: nat, ub: nat, p: nat, w': Bits, s: Bits)
    requires (unit == 1 || unit == 8) && len < 128 && |data| >= 8 * OctetsFor(Scale(unit, len)) && 1 <= ub <= 65535
    requires PutFragments(w, unit, -1, 0, data, len) == Some(w') && w' <= s && |s| % 8 == 0 && Behind(w, p, s)
    ensures Trimmed(GetFragments(s, p, unit, ub + 1, 0), unit) == Got(data[..Scale(unit, len)], |w'|)
            <==> FieldEnd(p, ub + 1) == |Aligned(w)| + 8
  {
    hide PutFragments, GetFragments, GetConstrained, GetChunk, GetAlign, OctetsFor, Scale, Aligned, LengthBits, ValueOf;
    hide FieldEnd, FieldStart, Trimmed, PadLen, Behind;
    var w1 := Aligned(w) + LengthBits(len);
    ShortWritten(w, unit, data, len, w1, w', s);
    var a, end := |Aligned(w)|, FieldEnd(p, ub + 1);
    BehindInside(w, p, s);
    ConstrainedRead(s, p, unit, ub + 1);
    TrimmedUnits(GetFragments(s, p, unit, ub + 1, 0), unit, data, len, |w'|);
    FieldRead(s, p, ub + 1);
    var c := GetConstrained(s, p, ub + 1);
    if end == a + 8 {
      FieldIsLength(w, p, ub + 1, s);
      LastChunk(w1, unit, data, len, w', s);
      ScaleOfZero(unit);
    } else if c.Got? && c.value == len {
      ScaleOfZero(unit);
      ChunkPlace(s, c.pos, unit, len);
      if len > 0 && end + PadLen(end) == a + 8 {
        FieldTooShort(w, p, ub + 1, len, s);
      }
    }
  }

  lemma BehindInside(w: Bits, p: nat, s: Bits)
    requires Behind(w, p, s)
    ensures |w| <= p <= |s| && p <= |w| + 1
  {
  }

  /** A field that ends with the length octet holds the length. */
  lemma FieldIsLength(w: Bits, p: nat, range: nat, s: Bits)
    requires 1 <= range <= 65536 && Aligned(w) <= s && |s| % 8 == 0 && Behind(w, p, s)
    requires FieldEnd(p, range) == |Aligned(w)| + 8 <= |s|
    ensures p <= |s| && GetConstrained(s, p, range).Got?
    ensures GetConstrained(s, p, range).value == ValueOf(s[|Aligned(w)|..|Aligned(w)| + 8])
  {
    hide GetConstrained, GetAlign, Aligned, ValueOf, PadLen, Behind, BitsForRange;
    var a := |Aligned(w)|;
    BehindInside(w, p, s);
    PaddedLength(w);
    if range >= 256 {
      assert p <= a;
      BehindAligned(w, p, s);
    } else {
      FieldValue(w, p, a + 8, s);
    }
    FieldFound(s, p, range);
    FieldRead(s, p, range);
  }

  lemma PaddedLength(w: Bits)
    ensures |w| <= |Aligned(w)| < |w| + 8
  {
  }

  /** A field that ends inside the length octet holds less than a positive length. */
  lemma FieldTooShort(w: Bits, p: nat, range: nat, len: nat, s: Bits)
    requires 1 <= range <= 65536 && Aligned(w) <= s && |s| % 8 == 0 && Behind(w, p, s) && len > 0
    requires |Aligned(w)| + 8 <= |s| && ValueOf(s[|Aligned(w)|..|Aligned(w)| + 8]) == len
    requires FieldEnd(p, range) != |Aligned(w)| + 8 && FieldEnd(p, range) <= |s| && p <= |s|
    requires FieldEnd(p, range) + PadLen(FieldEnd(p, range)) == |Aligned(w)| + 8
    ensures FieldStart(p, range) <= FieldEnd(p, range) && ValueOf(s[FieldStart(p, range)..FieldEnd(p, range)]) != len
  {
    hide Aligned, ValueOf, Behind, BitsForRange;
    var a, end := |Aligned(w)|, FieldEnd(p, range);
    if range <= 255 {
      FieldWidth(range);
      EndsInside(a, end);
      FieldValue(w, p, end, s);
      HalfOctet(s, a, end);
    } else {
      WholeFieldEnds(p, range);
    }
  }

  lemma EndsInside(a: nat, end: nat)
    requires a % 8 == 0 && end != a + 8 && end + PadLen(end) == a + 8
    ensures a < end < a + 8
  {
  }

  lemma WholeFieldEnds(p: nat, range: nat)
    requires range >= 256
    ensures FieldEnd(p, range) % 8 == 0 && PadLen(FieldEnd(p, range)) == 0
  {
    hide PadLen;
    NextBoundary(p + PadLen(p));
  }

  lemma NextBoundary(a: nat)
    requires a % 8 == 0
    ensures (a + 8) % 8 == 0 && (a + 16) % 8 == 0 && PadLen(a + 8) == 0 && PadLen(a + 16) == 0
  {
  }

  /** What the writer leaves first for a length of 128 and more. */
  lemma LongWritten(w: Bits, unit: nat, data: Bits, len: nat, w': Bits, s: Bits)
    requires (unit == 1 || unit == 8) && 128 <= len < 65536
    requires PutFragments(w, unit, -1, 0, data, len) == Some(w') && w' <= s && |s| % 8 == 0
    ensures var part := FragmentSize(len);
            var a := |Aligned(w)|;
            && Aligned(w) <= s && a + 8 <= |s| && part >= 128 && s[a]
            && ValueOf(s[a..a + 8]) == (if len < 16384 then 128 + len / 256 else 192 + part / 16384)
            && (len < 16384 ==> |w'| == a + 16 + Scale(unit, len) && ValueOf(s[a + 8..a + 16]) == len % 256)
  {
    hide PutFragments, PutLength, OctetsFor, Scale, Aligned, LengthBits, ValueOf;
    var part := FragmentSize(len);
    LengthForm(w, part);
    LengthIsPrefix(w, unit, -1, 0, data, len, Aligned(w) + LengthBits(part), w');
    FirstLengthOctet(Aligned(w), part, s);
    SecondOctetIsLarge(s, |Aligned(w)|);
    if len < 16384 {
      OneFragmentEnd(w, unit, 0, data, len, w');
      StaysAligned(Aligned(w), LengthBits(len));
    }
  }

  /** A fragmented length that is read as a 16-bit number happens to be right only behind a longer header. */
  lemma FragmentedEnd(w: Bits, unit: nat, data: Bits, len: nat, w': Bits)
    requires (unit == 1 || unit == 8) && 49152 + 768 <= len < 65536 && |data| >= 8 * OctetsFor(Scale(unit, len))
    requires PutFragments(w, unit, -1, 0, data, len) == Some(w')
    ensures |w'| == |Aligned(w)| + 24 + Scale(unit, len)
  {
    hide PutFragments, PutLength, OctetsFor, Aligned, LengthBits, Scale, FragmentSize;
    var part, rest := 49152, len - 49152;
    var take := Scale(unit, part);
    FragmentRest(unit, part, len);
    var w2 := FirstFragment(w, unit, data, len, w');
    OneFragmentEnd(w2, unit, 0, data[take..], rest, w');
    LengthForm(w2, rest);
    StaysAligned(w2, LengthBits(rest));
    ScaleAdds(unit, part, rest);
  }

  lemma FirstFragment(w: Bits, unit: nat, data: Bits, len: nat, w': Bits) returns (w2: Bits)
    requires (unit == 1 || unit == 8) && 49152 + 768 <= len < 65536 && |data| >= 8 * OctetsFor(Scale(unit, len))
    requires PutFragments(w, unit, -1, 0, data, len) == Some(w')
    ensures Scale(unit, 49152) <= |data| && |w2| % 8 == 0 && |w2| == |Aligned(w)| + 8 + Scale(unit, 49152)
    ensures PutFragments(w2, unit, -1, 0, data[Scale(unit, 49152)..], len - 49152) == Some(w')
  {
    hide PutFragments, PutLength, OctetsFor, Aligned, LengthBits, Scale, FragmentSize;
    var part := 49152;
    LargestPart(len);
    FragmentRest(unit, part, len);
    WriterTurn(w, unit, -1, 0, data, len, part);
    LengthForm(w, part);
    var w1 := Aligned(w) + LengthBits(part);
    StaysAligned(Aligned(w), LengthBits(part));
    w2 := w1 + data[..Scale(unit, part)];
    WholeOctets(unit);
    StaysAligned(w1, data[..Scale(unit, part)]);
  }

  lemma LargestPart(len: nat)
    requires 49152 <= len < 65536
    ensures FragmentSize(len) == 49152
  {
  }

  lemma WholeOctets(unit: nat)
    requires unit == 1 || unit == 8
    ensures Scale(unit, 49152) % 8 == 0
  {
  }

  lemma UpperOnlyLong(w: Bits, unit: nat, data: Bits, len: nat, ub: nat, p: nat, w': Bits, s: Bits)
    requires (unit == 1 || unit == 8) && len >= 128 && |data| >= 8 * OctetsFor(Scale(unit, len)) && 1 <= ub <= 65535
    requires PutFragments(w, unit, -1, 0, data, len) == Some(w') && w' <= s && |s| % 8 == 0 && Behind(w, p, s)
    ensures var r := GetFragments(s, p, unit, ub + 1, 0); !(r.Got? && r.pos == |w'| && r.value.units == len)
  {
    hide PutFragments, GetFragments, GetConstrained, GetChunk, GetAlign, OctetsFor, Scale, Aligned, LengthBits, ValueOf;
    hide FieldEnd, FieldStart, PadLen, Behind, FragmentSize, BitsForRange;
    BehindInside(w, p, s);
    ConstrainedRead(s, p, unit, ub + 1);
    FieldRead(s, p, ub + 1);
    var c := GetConstrained(s, p, ub + 1);
    if c.Got? && c.value == len {
      FieldIsSmall(s, p, ub + 1);
      ChunkPlace(s, c.pos, unit, len);
      LongWritten(w, unit, data, len, w', s);
      assert p <= |Aligned(w)| by {
        if p > |Aligned(w)| {
          AfterBoundary(w, p, s);
        }
      }
      BehindAligned(w, p, s);
      LongField(w, unit, data, len, ub + 1, p, w', s);
    }
  }

  lemma FieldIsSmall(s: Bits, p: nat, range: nat)
    requires 1 <= range <= 65536 && FieldStart(p, range) <= FieldEnd(p, range) <= |s|
    ensures ValueOf(s[FieldStart(p, range)..FieldEnd(p, range)]) < 65536
    ensures range <= 256 ==> ValueOf(s[FieldStart(p, range)..FieldEnd(p, range)]) < 256
  {
    hide ValueOf, BitsForRange, PadLen;
    if range <= 255 {
      FieldWidth(range);
    }
    var start, end := FieldStart(p, range), FieldEnd(p, range);
    ValueBelow(s[start..end]);
    Pow2Values();
    Pow2Monotone(end - start, 16);
    if range <= 256 {
      Pow2Monotone(end - start, 8);
    }
  }

  lemma LongField(w: Bits, unit: nat, data: Bits, len: nat, range: nat, p: nat, w': Bits, s: Bits)
    requires (unit == 1 || unit == 8) && 128 <= len < 65536 && |data| >= 8 * OctetsFor(Scale(unit, len))
             && 1 <= range <= 65536
    requires PutFragments(w, unit, -1, 0, data, len) == Some(w') && w' <= s && |s| % 8 == 0
    requires |w| <= p <= |Aligned(w)| == p + PadLen(p)
    requires FieldStart(p, range) <= FieldEnd(p, range) <= |s|
             && ValueOf(s[FieldStart(p, range)..FieldEnd(p, range)]) == len
    ensures var end := FieldEnd(p, range); end + PadLen(end) + Scale(unit, len) != |w'|
  {
    hide PutFragments, OctetsFor, Scale, Aligned, ValueOf, BitsForRange, PadLen, FragmentSize;
    var a, end := |Aligned(w)|, FieldEnd(p, range);
    FieldIsSmall(s, p, range);
    if range <= 256 {
      LongWritten(w, unit, data, len, w', s);
      EndsEarly(p, a, range);
    } else {
      NextBoundary(a);
      TwoOctetsAreNotLength(w, unit, data, len, w', s);
    }
  }

  /** Sixteen bits at the boundary that hold the length are followed by a string that ends elsewhere. */
  lemma TwoOctetsAreNotLength(w: Bits, unit: nat, data: Bits, len: nat, w': Bits, s: Bits)
    requires (unit == 1 || unit == 8) && 128 <= len < 65536 && |data| >= 8 * OctetsFor(Scale(unit, len))
    requires PutFragments(w, unit, -1, 0, data, len) == Some(w') && w' <= s && |s| % 8 == 0
    requires |Aligned(w)| + 16 <= |s| && ValueOf(s[|Aligned(w)|..|Aligned(w)| + 16]) == len
    ensures |Aligned(w)| + 16 + Scale(unit, len) != |w'|
  {
    hide PutFragments, OctetsFor, Scale, Aligned, ValueOf, FragmentSize;
    var a := |Aligned(w)|;
    LongWritten(w, unit, data, len, w', s);
    SplitSixteen(s, a);
    var low := ValueOf(s[a + 8..a + 16]);
    if len >= 16384 {
      FirstOctetOfFragment(len, low);
      FragmentedEnd(w, unit, data, len, w');
    }
  }

  lemma SplitSixteen(s: Bits, a: nat)
    requires a + 16 <= |s|
    ensures ValueOf(s[a..a + 16]) == 256 * ValueOf(s[a..a + 8]) + ValueOf(s[a + 8..a + 16])
    ensures ValueOf(s[a + 8..a + 16]) < 256
  {
    hide ValueOf;
    assert s[a..a + 16] == s[a..a + 8] + s[a + 8..a + 16];
    ValueOfConcat(s[a..a + 8], s[a + 8..a + 16]);
    ValueBelow(s[a + 8..a + 16]);
    Pow2Values();
  }

  lemma FirstOctetOfFragment(len: nat, low: nat)
    requires 16384 <= len < 65536 && low < 256 && len == 256 * (192 + FragmentSize(len) / 16384) + low
    ensures len >= 49152 + 768
  {
  }

  lemma EndsEarly(p: nat, a: nat, range: nat)
    requires p <= a == p + PadLen(p) && 1 <= range <= 256
    ensures var end := FieldEnd(p, range); end + PadLen(end) <= a + 8
  {
    if range <= 255 {
      FieldWidth(range);
      hide BitsForRange;
      EarlyBoundary(p, BitsForRange(range));
    } else {
      NextBoundary(a);
    }
  }

  lemma EarlyBoundary(p: nat, k: nat)
    requires k <= 8
    ensures p + k + PadLen(p + k) <= p + PadLen(p) + 8
  {
  }

  // -------------------------------------------------------- exactly which strings

  /** Bounds upside down by two give the size range that the code uses for "outside". */
  predicate TakenAsOutside(ext: bool, lb: nat, ub: nat) {
    ext && ub - lb + 1 == -1
  }

  /**
    Whether a string of `len` units written from bit `at` on survives; `exact` says that its
    slice has no more octets than it needs, which matters for long strings of fixed size
    only.  With both bounds, the fragments decide.  With an upper bound alone, which only the reader looks at, its
    length field must end with the writer's length octet.  Otherwise the extension bit of
    an extensible type, which the writer leaves out, must fall on a padding bit.
  */
  predicate SizeSurvives(unit: nat, len: nat, exact: bool, ext: bool, lb: Option<nat>, ub: Option<nat>, at: nat) {
    if lb.Some? && ub.Some? then
      var inside := len <= ub.value && !TakenAsOutside(ext, lb.value, ub.value);
      if inside && ub.value <= 65535 then
        if lb.value == ub.value then len == ub.value && len >= 1 && (exact || OctetsFor(Scale(unit, len)) <= 2)
        else FragmentsSurvive(true, lb.value, len - lb.value)
      else
        var low := if inside then lb.value else 0;
        FragmentsSurvive(false, low, len - low)
    else if ub.Some? && ub.value <= 65535 then
      len < 128 && FieldEnd(if ext then at + 1 else at, ub.value + 1) == at + PadLen(at) + 8
    else
      var low := if lb.Some? then lb.value else 0;
      (ext ==> at % 8 != 0) && FragmentsSurvive(false, low, len - low)
  }

  lemma BoundedSizeExact(w: Bits, unit: nat, data: Bits, extra: Bits, spare: Bits, len: nat, ext: bool,
                         lb: nat, ub: nat, w': Bits, s: Bits)
    requires unit == 1 || unit == 8
    requires |data| == 8 * OctetsFor(Scale(unit, len)) && len < TWO64 && lb < TWO63
    requires PutSized(w, unit, data, extra, spare, len, ext, Some(lb), Some(ub)) == Some(w') && w' <= s && |s| % 8 == 0
    ensures var flag := GetFlag(s, |w|, ext);
            && flag.Got?
            && (GetSized(s, flag.pos, unit, flag.value, Some(lb), Some(ub)) == Got(data[..Scale(unit, len)], |w'|)
                <==> SizeSurvives(unit, len, extra == [], ext, Some(lb), Some(ub), |w|))
  {
    hide PutFragments, GetFragments, OctetsFor, Scale, Aligned, PutString, GetFixed, FragmentsSurvive, Trimmed,
    PadLen, WholeSlice;
    var inside := len <= ub && !TakenAsOutside(ext, lb, ub);
    var w1 := if ext then w + [!inside] else w;
    FlagReadsBack(w, ext, !inside, s);
    if inside && ub <= 65535 && lb == ub {
      FixedExact(w1, unit, data, extra, len, ub, w', s);
    } else {
      var low := if inside then lb else 0;
      var sizeRange := if inside && ub <= 65535 then ub - lb + 1 else -1;
      VariableExact(w1, unit, sizeRange, low, data + extra + spare, len, w', s);
      NegativeSize(low, len - low);
      assert (data + extra + spare)[..Scale(unit, len)] == data[..Scale(unit, len)];
    }
  }

  lemma NegativeSize(low: nat, raw: int)
    ensures raw < 0 ==> !FragmentsSurvive(true, low, raw) && !FragmentsSurvive(false, low, raw)
  {
  }

  lemma UnboundedExact(w: Bits, unit: nat, range: int, data: Bits, len: nat, ext: bool, low: nat, w': Bits, s: Bits)
    requires (unit == 1 || unit == 8) && range == -1
    requires |data| >= 8 * OctetsFor(Scale(unit, len)) && len < TWO64 && low < TWO63
    requires PutFragments(w, unit, range, low, data, Minus64(len, low)) == Some(w') && w' <= s && |s| % 8 == 0
    ensures var flag := GetFlag(s, |w|, ext);
            && flag.Got?
            && (Returns(s, flag.pos, unit, range, if flag.value then 0 else low, data, len, |w'|)
                <==> (ext ==> |w| % 8 != 0) && FragmentsSurvive(false, low, len - low))
  {
    hide PutFragments, GetFragments, FragmentsSurvive, Returns, OctetsFor, Minus64, Scale;
    VariableExact(w, unit, range, low, data, len, w', s);
    if ext && |w| % 8 == 0 {
      StolenExact(w, unit, data, len, low, w', s);
    } else if ext {
      PaddingFlagHarmless(w, unit, low, data, Minus64(len, low), w', s);
      SameReturns(s, |w|, |w| + 1, unit, low, data, len, |w'|);
    }
  }

  lemma SameReturns(s: Bits, p: nat, q: nat, unit: nat, low: nat, data: Bits, len: nat, pos: nat)
    requires (unit == 1 || unit == 8) && p <= |s| && q <= |s| && |s| % 8 == 0
    requires GetFragments(s, p, unit, -1, low) == GetFragments(s, q, unit, -1, low)
    ensures Returns(s, p, unit, -1, low, data, len, pos) <==> Returns(s, q, unit, -1, low, data, len, pos)
  {
    hide GetFragments, Trimmed;
  }

  lemma StolenExact(w: Bits, unit: nat, data: Bits, len: nat, low: nat, w': Bits, s: Bits)
    requires (unit == 1 || unit == 8) && |w| % 8 == 0 && len < TWO64 && low < TWO63
    requires PutFragments(w, unit, -1, low, data, Minus64(len, low)) == Some(w') && w' <= s && |s| % 8 == 0
    ensures |w| < |s| && !Returns(s, |w| + 1, unit, -1, if s[|w|] then 0 else low, data, len, |w'|)
  {
    hide PutFragments, GetFragments, Minus64;
    StolenFlagLoses(w, unit, low, data, len, w', s);
    NotReturned(s, |w| + 1, unit, if s[|w|] then 0 else low, data, len, |w'|);
  }

  lemma NotReturned(s: Bits, p: nat, unit: nat, low: nat, data: Bits, len: nat, pos: nat)
    requires (unit == 1 || unit == 8) && p <= |s| && |s| % 8 == 0
    requires var r := GetFragments(s, p, unit, -1, low); !(r.Got? && r.pos == pos && r.value.units == len)
    ensures !Returns(s, p, unit, -1, low, data, len, pos)
  {
    hide GetFragments, Trimmed;
    if Scale(unit, len) <= |data| {
      TrimmedUnits(GetFragments(s, p, unit, -1, low), unit, data, len, pos);
    }
  }

  lemma TakenBit(s: Bits, p: nat)
    requires p < |s| && |s| % 8 == 0
    ensures GetFlag(s, p, true) == Got(s[p], p + 1)
  {
  }

  lemma NoFlag(s: Bits, p: nat)
    requires p <= |s| && |s| % 8 == 0
    ensures GetFlag(s, p, false) == Got(false, p)
  {
  }

  /** A set bit in the place of the extension bit is the first one of a long length. */
  lemma SetFlagIsLength(w: Bits, unit: nat, data: Bits, len: nat, w': Bits, s: Bits)
    requires (unit == 1 || unit == 8) && PutFragments(w, unit, -1, 0, data, len) == Some(w') && w' <= s && |s| % 8 == 0
    ensures |w| < |s| && (s[|w|] ==> |w| % 8 == 0 && len >= 128)
  {
    hide PutFragments, PutLength, Aligned, LengthBits, FragmentSize;
    var part := FragmentSize(len);
    FragmentShape(len);
    LengthForm(w, part);
    LengthIsPrefix(w, unit, -1, 0, data, len, Aligned(w) + LengthBits(part), w');
    if |w| % 8 != 0 {
      PaddingAsFlag(w, s);
    } else {
      StaysAligned(w, []);
      FirstLengthOctet(w, part, s);
      TopBitIsLarge(s, |w|);
      OctetBelow(s, |w|);
    }
  }

  lemma OctetBelow(s: Bits, p: nat)
    requires p + 8 <= |s|
    ensures GetValue(s, p, 8) == Got(ValueOf(s[p..p + 8]), p + 8)
  {
    hide GetValue, ValueOf;
    ReadNumber(s, p, 8);
  }

  lemma UpperOnlyExact(w: Bits, unit: nat, data: Bits, len: nat, ext: bool, ub: nat, w': Bits, s: Bits)
    requires unit == 1 || unit == 8
    requires |data| >= 8 * OctetsFor(Scale(unit, len)) && len < TWO64 && ub <= 65535
    requires PutFragments(w, unit, -1, 0, data, len) == Some(w') && w' <= s && |s| % 8 == 0
    ensures var flag := GetFlag(s, |w|, ext);
            && flag.Got?
            && (GetSized(s, flag.pos, unit, flag.value, None, Some(ub)) == Got(data[..Scale(unit, len)], |w'|)
                <==> len < 128 && FieldEnd(if ext then |w| + 1 else |w|, ub + 1) == |Aligned(w)| + 8)
  {
    hide PutFragments, GetFragments, OctetsFor, Scale, Aligned, Trimmed, FieldEnd, GetFixed, GetSized, GetFlag;
    SetFlagIsLength(w, unit, data, len, w', s);
    var p := if ext then |w| + 1 else |w|;
    NoFlag(s, |w|);
    TakenBit(s, |w|);
    UpperOnlyRead(s, p, unit, ext && s[|w|], ub);
    if ext && s[|w|] {
      StolenFlagLoses(w, unit, 0, data, len, w', s);
      TrimmedUnits(GetFragments(s, p, unit, -1, 0), unit, data, len, |w'|);
    } else if ub == 0 {
      NoSizeAtAll(s, p, unit);
      EmptyField(w, p);
    } else if len < 128 {
      UpperOnlyShort(w, unit, data, len, ub, p, w', s);
    } else {
      UpperOnlyLong(w, unit, data, len, ub, p, w', s);
      TrimmedUnits(GetFragments(s, p, unit, ub + 1, 0), unit, data, len, |w'|);
    }
  }

  lemma UpperOnlyRead(s: Bits, p: nat, unit: nat, extended: bool, ub: nat)
    requires (unit == 1 || unit == 8) && p <= |s| && |s| % 8 == 0 && ub <= 65535
    ensures GetSized(s, p, unit, extended, None, Some(ub)) ==
            if extended then Trimmed(GetFragments(s, p, unit, -1, 0), unit)
            else if ub == 0 then GetFixed(s, p, unit, 0)
            else Trimmed(GetFragments(s, p, unit, ub + 1, 0), unit)
  {
    hide GetFragments, GetFixed, Trimmed;
  }

  lemma NoSizeAtAll(s: Bits, p: nat, unit: nat)
    requires (unit == 1 || unit == 8) && p <= |s| && |s| % 8 == 0
    ensures GetFixed(s, p, unit, 0).Fail?
  {
  }

  lemma EmptyField(w: Bits, p: nat)
    requires p <= |w| + 1
    ensures FieldEnd(p, 1) != |Aligned(w)| + 8
  {
    hide PadLen;
  }

  /**
    A BIT STRING or OCTET STRING that the writer accepts, whatever its bounds and whatever
    lies behind it in its slice, is read back with both cursors at the same bit if and only if `SizeSurvives`.
  */
  lemma SizedExact(w: Bits, unit: nat, data: Bits, extra: Bits, spare: Bits, len: nat, ext: bool,
                   lb: Option<nat>, ub: Option<nat>, w': Bits, s: Bits)
    requires unit == 1 || unit == 8
    requires |data| == 8 * OctetsFor(Scale(unit, len)) && len < TWO64 && (lb.Some? ==> lb.value < TWO63)
    requires PutSized(w, unit, data, extra, spare, len, ext, lb, ub) == Some(w') && w' <= s && |s| % 8 == 0
    ensures var flag := GetFlag(s, |w|, ext);
            && flag.Got?
            && (GetSized(s, flag.pos, unit, flag.value, lb, ub) == Got(data[..Scale(unit, len)], |w'|)
                <==> SizeSurvives(unit, len, extra == [], ext, lb, ub, |w|))
  {
    hide PutFragments, GetFragments, OctetsFor, Scale, GetFixed, FragmentsSurvive, Trimmed, FieldEnd, PadLen,
    WholeSlice;
    if lb.Some? && ub.Some? {
      BoundedSizeExact(w, unit, data, extra, spare, len, ext, lb.value, ub.value, w', s);
    } else {
      assert (data + extra + spare)[..Scale(unit, len)] == data[..Scale(unit, len)];
      if ub.Some? && ub.value <= 65535 {
        UpperOnlyExact(w, unit, data + extra + spare, len, ext, ub.value, w', s);
      } else {
        UnboundedExact(w, unit, -1, data + extra + spare, len, ext, if lb.Some? then lb.value else 0, w', s);
      }
    }
  }
}
