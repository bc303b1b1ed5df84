/** Exactly which INTEGER, ENUMERATED and CHOICE index encodings are read back. */
module PerIntegers {
  import opened Wrappers
  import opened PerBits
  import opened PerSpec
  import opened PerPrimitives
  import opened PerStrings
  import opened PerSizes

  // ------------------------------------------------------------------ octet counts

  lemma OneOctetMore(n: nat)
    ensures Pow2(8 * (n + 1)) == 256 * Pow2(8 * n)
  {
    Pow2Values();
    Pow2Add(8, 8 * n);
  }

  /** `OctetCount` finds the least number of octets. */
  lemma {:induction false} OctetCountBounds(u: nat)
    ensures var n := OctetCount(u); u < Pow2(8 * (n - 1)) && (n >= 2 ==> u >= Pow2(8 * (n - 2)))
  {
    if u == 0 {
    } else {
      var n := OctetCount(u);
      OctetCountBounds(u / 256);
      assert n == OctetCount(u / 256) + 1;
      hide OctetCount;
      OneOctetMore(n - 2);
      if n > 2 {
        OneOctetMore(n - 3);
      }
    }
  }

  lemma Pow2Below(m: nat, n: nat, u: nat)
    requires Pow2(m) <= u < Pow2(n)
    ensures m < n
  {
    if n <= m {
      Pow2Monotone(n, m);
    }
  }

  /** `value` is in the two's complement range of `n` octets. */
  predicate FitsSigned(value: int, n: nat)
    requires n >= 1
  {
    0 <= value + Pow2(8 * n - 1) && value < Pow2(8 * n - 1)
  }

  lemma MagnitudeFits(value: int, n: nat)
    requires n >= 1
    ensures FitsSigned(value, n) <==> Magnitude(value) < Pow2(8 * n - 1)
  {
    hide Pow2;
  }

  lemma MagnitudeIsSmall(value: Int64)
    ensures Magnitude(value) < Pow2(63)
  {
    hide Pow2;
    Pow2Values();
    Pow2Add(7, 56);
  }

  lemma SevenBitsMore(m: nat, k: nat, e: nat)
    requires e == 8 * k + 7
    ensures m / 128 < Pow2(8 * k) <==> m < Pow2(e)
  {
    hide Pow2;
    Pow2Values();
    Pow2Add(7, 8 * k);
  }

  /** The octet count of `m / 128` leaves room for one more bit, and no smaller one does. */
  lemma CountLeavesASign(m: nat, n: nat)
    requires n == OctetCount(m / 128)
    ensures n >= 1 && m < Pow2(8 * n - 1) && (n > 1 ==> m >= Pow2(8 * (n - 1) - 1))
  {
    hide Pow2, OctetCount;
    OctetCountBounds(m / 128);
    SevenBitsMore(m, n - 1, 8 * n - 1);
    if n > 1 {
      SevenBitsMore(m, n - 2, 8 * (n - 1) - 1);
    }
  }

  /**
    The length octet of an unconstrained INTEGER is the least number of octets whose
    two's complement range holds the value, from 1 up to 8 for an `int64`.
  */
  lemma SignedOctetsLeast(value: Int64)
    ensures var n := OctetCount(Magnitude(value) / 128);
            && 1 <= n <= 8
            && FitsSigned(value, n)
            && (n > 1 ==> !FitsSigned(value, n - 1))
  {
    hide Pow2, OctetCount, FitsSigned, Magnitude;
    var m := Magnitude(value);
    var n := OctetCount(m / 128);
    CountLeavesASign(m, n);
    MagnitudeIsSmall(value);
    MagnitudeFits(value, n);
    if n > 1 {
      Pow2Below(8 * (n - 1) - 1, 63, m);
      MagnitudeFits(value, n - 1);
    }
  }

  lemma UnsignedOctets(value: Int64)
    ensures 1 <= OctetCount(Magnitude(value) / 256) <= 8
  {
    var u := Magnitude(value) / 256;
    OctetCountBounds(u);
    Pow2Values();
    if OctetCount(u) > 1 {
      Pow2Below(8 * (OctetCount(u) - 2), 56, u);
    }
  }

  lemma OctetsFit64(v: nat, n: nat)
    requires n <= 8 && v < Pow2(8 * n)
    ensures v < TWO64
  {
    Pow2Monotone(8 * n, 64);
    Pow2Values();
  }

  // ------------------------------------------------------------- one length octet

  lemma NoWrap(x: int)
    requires -0x8000_0000_0000_0000 <= x < 0x8000_0000_0000_0000
    ensures Wrap64(x) == x && Wrap64(x + TWO64) == x
  {
  }

  lemma ComplementOf(value: int, p: nat)
    requires p > 0 && 0 <= value + p && value < p
    ensures value % p == if value >= 0 then value else value + p
  {
    if value >= 0 {
      DivUnique(value, p, 0, value);
    } else {
      DivUnique(value, p, -1, value + p);
    }
  }

  lemma TwosComplement(value: Int64, n: nat)
    requires 1 <= n <= 8 && FitsSigned(value, n)
    ensures 0 <= value % Pow2(8 * n) < Pow2(8 * n) && SignedOf(value % Pow2(8 * n), n, 0) == value
  {
    var p := Pow2(8 * n);
    assert p == 2 * Pow2(8 * n - 1);
    hide Pow2, Wrap64;
    NoWrap(value);
    ComplementOf(value, p);
  }

  lemma LengthOctet(w: Bits, n: nat, bits: Bits, s: Bits)
    requires 1 <= n <= 8 && Aligned(w) + BitsOf(n, 8) + bits <= s && |s| % 8 == 0
    ensures GetAlign(s, |w|) == Got((), |Aligned(w)|)
    ensures GetValue(s, |Aligned(w)|, 8) == Got(n, |Aligned(w)| + 8)
  {
    var w1 := Aligned(w) + BitsOf(n, 8);
    assert w1 <= w1 + bits;
    assert w1 <= s;
    AlignedOctetReadsBack(w, n, s);
  }

  /** A signed number is written whole, so the writer's bound plays no part in it. */
  lemma OctetCountedReadsBack(w: Bits, value: Int64, low: Int64, signed: bool, w': Bits, s: Bits)
    requires !signed ==> low <= value
    requires PutOctetCounted(w, value, low, signed) == Some(w') && w' <= s && |s| % 8 == 0
    ensures GetOctetCounted(s, |w|, if signed then 0 else low, signed) == Got(value, |w'|)
  {
    hide GetAlign, GetValue, PutValue, Aligned, BitsOf, SignedOf, OctetCount, Pow2, FitsSigned, Magnitude, Wrap64;
    var n := OctetCount(Magnitude(value) / 128);
    SignedOctetsLeast(value);
    TwosComplement(value, n);
    NoWrap(value);
    var v: nat := if signed then value % Pow2(8 * n) else value - low;
    CountedFieldReadsBack(w, n, v, w', s);
  }

  lemma CountedFieldReadsBack(w: Bits, n: nat, v: nat, w': Bits, s: Bits)
    requires 1 <= n <= 8
    requires PutValue(Aligned(w) + BitsOf(n, 8), v, 8 * n) == Some(w') && w' <= s && |s| % 8 == 0
    ensures GetAlign(s, |w|) == Got((), |Aligned(w)|)
    ensures GetValue(s, |Aligned(w)|, 8) == Got(n, |Aligned(w)| + 8)
    ensures GetValue(s, |Aligned(w)| + 8, 8 * n) == Got(v, |w'|)
  {
    hide GetAlign, GetValue, Aligned, BitsOf, Pow2;
    var w1 := Aligned(w) + BitsOf(n, 8);
    LengthOctet(w, n, BitsOf(v, 8 * n), s);
    OctetsFit64(v, n);
    ValueReadsBack(w1, v, 8 * n, w', s);
  }

  // ------------------------------------------------------------------ wide ranges

  /** Eight bits more are a factor of 256. */
  lemma OctetFactor(k: nat)
    requires k >= 1
    ensures Pow2(8 * k) == 256 * Pow2(8 * (k - 1))
  {
    hide Pow2;
    Pow2Values();
    Pow2Add(8, 8 * (k - 1));
  }

  lemma Quotient(r: nat, p: nat)
    ensures r / 256 < p <==> r < 256 * p
  {
  }

  lemma {:induction false} ReaderRangeOctetsIs(r: nat, k: nat)
    requires 1 <= k && r < Pow2(8 * k) && (k > 1 ==> r >= Pow2(8 * (k - 1)))
    ensures ReaderRangeOctets(r) == k
  {
    OctetFactor(k);
    Quotient(r, Pow2(8 * (k - 1)));
    if k > 1 {
      hide Pow2;
      OctetFactor(k - 1);
      Quotient(r, Pow2(8 * (k - 2)));
      ReaderRangeOctetsIs(r / 256, k - 1);
    }
  }

  lemma {:induction false} WriterRangeOctetsIs(r: nat, k: nat)
    requires 1 <= k && r < 2 * Pow2(8 * k) && (k > 1 ==> r >= 2 * Pow2(8 * (k - 1)))
    ensures WriterRangeOctets(r) == k
  {
    OctetFactor(k);
    Quotient(r, 2 * Pow2(8 * (k - 1)));
    if k > 1 {
      hide Pow2;
      OctetFactor(k - 1);
      Quotient(r, 2 * Pow2(8 * (k - 2)));
      WriterRangeOctetsIs(r / 256, k - 1);
    }
  }

  lemma FieldWidths()
    ensures BitsForRange(1) == 1 && BitsForRange(2) == 1 && BitsForRange(3) == 2 && BitsForRange(4) == 2
    ensures BitsForRange(5) == 3 && BitsForRange(6) == 3 && BitsForRange(7) == 3 && BitsForRange(8) == 3
  {
    Pow2Values();
    assert BitsForRangeFrom(3, 2) == 2 && BitsForRangeFrom(4, 2) == 2;
    assert BitsForRangeFrom(5, 3) == 3 && BitsForRangeFrom(6, 3) == 3;
    assert BitsForRangeFrom(7, 3) == 3 && BitsForRangeFrom(8, 3) == 3;
    assert BitsForRangeFrom(5, 2) == 3 && BitsForRangeFrom(6, 2) == 3;
    assert BitsForRangeFrom(7, 2) == 3 && BitsForRangeFrom(8, 2) == 3;
  }

  /** The two bands of ranges on which writer and reader size the length field differently. */
  predicate WidthsDiffer(r: nat) {
    0x1_0000 <= r < 0x2_0000 || 0x1_0000_0000 <= r < 0x2_0000_0000
  }

  lemma RangeOctetsOf(r: nat, k: nat)
    requires 2 <= k <= 8 && Pow2(8 * (k - 1)) <= r < Pow2(8 * k)
    ensures ReaderRangeOctets(r) == k
    ensures WriterRangeOctets(r) == if r < 2 * Pow2(8 * (k - 1)) then k - 1 else k
  {
    hide ReaderRangeOctets, WriterRangeOctets, Pow2;
    ReaderRangeOctetsIs(r, k);
    var p := Pow2(8 * (k - 1));
    assert p * 256 == Pow2(8 * k) by {
      Pow2Add(8 * (k - 1), 8);
      Pow2Values();
    }
    if r < 2 * p {
      if k > 2 {
        var q := Pow2(8 * (k - 2));
        assert q * 256 == p by {
          Pow2Add(8 * (k - 2), 8);
          Pow2Values();
        }
      }
      WriterRangeOctetsIs(r, k - 1);
    } else {
      WriterRangeOctetsIs(r, k);
    }
  }

  /** For every range above 65536 the two widths agree, or the reader's is one bit wider. */
  lemma RangeWidths(r: nat)
    requires 0x1_0000 <= r < 0x8000_0000_0000_0000
    ensures BitsForRange(ReaderRangeOctets(r)) ==
            BitsForRange(WriterRangeOctets(r)) + if WidthsDiffer(r) then 1 else 0
  {
    hide Pow2, ReaderRangeOctets, WriterRangeOctets, BitsForRange;
    Pow2Values();
    FieldWidths();
    if r < 0x100_0000 {
      RangeOctetsOf(r, 3);
    } else if r < 0x1_0000_0000 {
      RangeOctetsOf(r, 4);
    } else if r < 0x100_0000_0000 {
      RangeOctetsOf(r, 5);
    } else if r < 0x1_0000_0000_0000 {
      RangeOctetsOf(r, 6);
    } else if r < 0x100_0000_0000_0000 {
      RangeOctetsOf(r, 7);
    } else {
      RangeOctetsOf(r, 8);
    }
  }

  lemma WideReadsBack(w: Bits, value: Int64, low: Int64, r: nat, w': Bits, s: Bits)
    requires low <= value && 0x1_0000 <= r < 0x8000_0000_0000_0000 && !WidthsDiffer(r)
    requires PutWide(w, value, low, r) == Some(w') && w' <= s && |s| % 8 == 0
    ensures GetWide(s, |w|, low, r) == Got(value, |w'|)
  {
    hide GetAlign, GetValue, Aligned, BitsForRange, PutValue, OctetCount, WriterRangeOctets, ReaderRangeOctets;
    var n := OctetCount(Magnitude(value) / 256);
    UnsignedOctets(value);
    RangeWidths(r);
    var i := BitsForRange(WriterRangeOctets(r));
    var w1 := PutValue(w, n - 1, i).value;
    ValueReadsBack(w, n - 1, i, w1, s);
    AlignReadsBack(w1, s);
    ValueReadsBack(Aligned(w1), value - low, 8 * n, w', s);
  }

  lemma OneMoreFits(v: nat, i: nat)
    requires i <= 8 && v < Pow2(i)
    ensures 2 * v + 1 < TWO64
  {
    Pow2Monotone(i, 8);
    Pow2Values();
  }

  /** The reader's view of a field that is one bit shorter than it assumes. */
  lemma OneBitMore(w: Bits, v: nat, i: nat, next: bool, s: Bits)
    requires 1 <= i <= 8 && v < Pow2(i) && w + BitsOf(v, i) + [next] <= s
    ensures GetValue(s, |w|, i + 1) == Got(2 * v + (if next then 1 else 0), |w| + i + 1)
  {
    hide BitsOf, Pow2;
    var bits := BitsOf(v, i) + [next];
    assert w + BitsOf(v, i) + [next] == w + bits;
    PrefixSlice(w, bits, s);
    assert ValueOf(bits) == 2 * v + (if next then 1 else 0) by {
      assert bits[..|bits| - 1] == BitsOf(v, i);
      ValueOfBitsOf(v, i);
    }
    OneMoreFits(v, i);
  }

  /** The bit after the length field: padding, or the first bit of the number itself. */
  lemma NextBit(w1: Bits, field: Bits, s: Bits)
    requires Aligned(w1) + field <= s && |field| >= 8
    ensures |w1| < |s| && w1 + [s[|w1|]] <= s
    ensures |w1| % 8 != 0 ==> !s[|w1|]
  {
    var all := Aligned(w1) + field;
    assert all == s[..|all|];
    assert w1 == all[..|w1|];
    assert s[|w1|] == all[|w1|];
    assert w1 + [s[|w1|]] == s[..|w1| + 1];
  }

  /** On the two bands the number survives only as one octet behind a padded length field. */
  lemma WideMismatchExact(w: Bits, value: Int64, low: Int64, r: nat, w': Bits, s: Bits)
    requires low <= value && 0x1_0000 <= r < 0x8000_0000_0000_0000 && WidthsDiffer(r)
    requires PutWide(w, value, low, r) == Some(w') && w' <= s && |s| % 8 == 0
    ensures GetWide(s, |w|, low, r) == Got(value, |w'|)
            <==> OctetCount(Magnitude(value) / 256) == 1 && (|w| + BitsForRange(WriterRangeOctets(r))) % 8 != 0
  {
    hide GetAlign, GetValue, GetWide, BitsForRange, OctetCount, WriterRangeOctets, ReaderRangeOctets, BitsOf,
    WidthsDiffer, Aligned;
    var n := OctetCount(Magnitude(value) / 256);
    UnsignedOctets(value);
    RangeWidths(r);
    var i := BitsForRange(WriterRangeOctets(r));
    assert w' == Aligned(w + BitsOf(n - 1, i)) + BitsOf(value - low, 8 * n);
    hide PutWide;
    OneBitTooMany(w, value, low, r, n, i, w', s);
  }

  /** The reader takes one bit more for the length field than the writer put there. */
  lemma OneBitTooMany(w: Bits, value: Int64, low: Int64, r: nat, n: nat, i: nat, w': Bits, s: Bits)
    requires 1 <= n <= 8 && 1 <= i <= 8 && n - 1 < Pow2(i) && 0 <= value - low < Pow2(8 * n)
    requires BitsForRange(ReaderRangeOctets(r)) == i + 1
    requires w' == Aligned(w + BitsOf(n - 1, i)) + BitsOf(value - low, 8 * n) && w' <= s && |s| % 8 == 0
    ensures |w| <= |s| && (GetWide(s, |w|, low, r) == Got(value, |w'|) <==> n == 1 && (|w| + i) % 8 != 0)
  {
    hide GetAlign, GetValue, GetWide, BitsForRange, ReaderRangeOctets, BitsOf, Aligned, PadLen, Pow2;
    var w1 := w + BitsOf(n - 1, i);
    NextBit(w1, BitsOf(value - low, 8 * n), s);
    var next := s[|w1|];
    OneBitMore(w, n - 1, i, next, s);
    var v := 2 * (n - 1) + if next then 1 else 0;
    WideSteps(s, |w|, low, r, v, |w1| + 1);
    WidePositions(|w1|, n, v);
    if |w1| % 8 != 0 {
      PaddedByOne(w1);
      AlignReadsBack(w1 + [next], s);
      if n == 1 {
        ValueReadsBack(Aligned(w1), value - low, 8, w', s);
      }
    }
  }

  /** The steps of the reader once the length field is known. */
  lemma WideSteps(s: Bits, p: nat, low: Int64, r: nat, v: nat, q: nat)
    requires p <= |s| && |s| % 8 == 0 && GetValue(s, p, BitsForRange(ReaderRangeOctets(r))) == Got(v, q)
    ensures GetWide(s, p, low, r).Got? ==> GetWide(s, p, low, r).pos == q + PadLen(q) + 8 * (v + 1)
    ensures q <= |s|
    ensures GetAlign(s, q) == Got((), q + PadLen(q)) ==>
              match GetValue(s, q + PadLen(q), 8 * (v + 1))
              case Fail(z) => GetWide(s, p, low, r) == Fail(z)
              case Got(raw, z) => GetWide(s, p, low, r) == Got(Wrap64(raw + low), z)
  {
    hide BitsForRange, ReaderRangeOctets, PadLen, GetValue, GetAlign, Wrap64;
  }

  /** Where the reader ends, against where the writer did. */
  lemma WidePositions(m: nat, n: nat, v: nat)
    requires n >= 1 && (v == 2 * (n - 1) || v == 2 * (n - 1) + 1)
    ensures m % 8 == 0 ==> m + 1 + PadLen(m + 1) + 8 * (v + 1) != m + PadLen(m) + 8 * n
    ensures m % 8 != 0 && v == 2 * (n - 1) ==>
              (m + 1 + PadLen(m + 1) + 8 * (v + 1) == m + PadLen(m) + 8 * n <==> n == 1)
  {
    if m % 8 != 0 {
      PadStep(m);
    }
  }

  lemma PaddedByOne(w: Bits)
    requires |w| % 8 != 0
    ensures Aligned(w + [false]) == Aligned(w)
  {
    PadStep(|w|);
    hide PadLen;
    assert Zeros(PadLen(|w|)) == [false] + Zeros(PadLen(|w| + 1));
  }

  // -------------------------------------------------------------- whole INTEGERs

  /**
    Whether an INTEGER written from bit `at` on survives.  With both bounds, the range
    decides: one that overflows `int64` makes the reader add the bound to what is not
    negative, and on two bands the widths of the length field differ.  Without both, the
    extension bit, which the writer leaves out, must fall on a padding bit.
  */
  predicate IntegerSurvives(value: Int64, ext: bool, lb: Option<Int64>, ub: Option<Int64>, at: nat) {
    if lb.Some? && ub.Some? then
      lb.value <= value <= ub.value ==>
        var r := ub.value - lb.value;
        if TWO63 <= r + 1 < TWO64 then value < 0 || lb.value == 0
        else r + 1 < TWO63 && WidthsDiffer(r) ==>
          && OctetCount(Magnitude(value) / 256) == 1
          && (at + (if ext then 1 else 0) + BitsForRange(WriterRangeOctets(r))) % 8 != 0
    else ext ==> at % 8 != 0
  }

  /** A signed number behind a bound that only the reader looks at. */
  lemma SignedBehindBound(w: Bits, value: Int64, low: Int64, w': Bits, s: Bits)
    requires PutOctetCounted(w, value, low, true) == Some(w') && w' <= s && |s| % 8 == 0
    ensures GetOctetCounted(s, |w|, low, true) == Got(value, |w'|) <==> value < 0 || low == 0
  {
    hide GetAlign, GetValue, PutValue, Aligned, BitsOf, OctetCount, Pow2, FitsSigned, Magnitude, Wrap64, SignedOf;
    var n := OctetCount(Magnitude(value) / 128);
    SignedOctetsLeast(value);
    CountedFieldReadsBack(w, n, value % Pow2(8 * n), w', s);
    SignedWithBound(value, n, low);
  }

  lemma SignedWithBound(value: Int64, n: nat, low: Int64)
    requires 1 <= n <= 8 && FitsSigned(value, n)
    ensures SignedOf(value % Pow2(8 * n), n, low) == value <==> value < 0 || low == 0
  {
    hide Pow2;
    TwosComplement(value, n);
    hide Wrap64, FitsSigned;
    if value >= 0 {
      NonNegativeField(value, n);
      WrapMoves(value, low);
    } else {
      NegativeField(value, n);
      NoWrap(value);
    }
  }

  lemma NonNegativeField(value: Int64, n: nat)
    requires 1 <= n && value >= 0 && FitsSigned(value, n)
    ensures value % Pow2(8 * n) == value && value < Pow2(8 * n - 1)
  {
    var p := Pow2(8 * n);
    assert p == 2 * Pow2(8 * n - 1);
    DivUnique(value, p, 0, value);
  }

  lemma NegativeField(value: Int64, n: nat)
    requires 1 <= n && value < 0 && FitsSigned(value, n)
    ensures value % Pow2(8 * n) == value + Pow2(8 * n) && value + Pow2(8 * n) >= Pow2(8 * n - 1)
  {
    var p := Pow2(8 * n);
    assert p == 2 * Pow2(8 * n - 1);
    DivUnique(value, p, -1, value + p);
  }

  lemma WrapMoves(value: Int64, low: Int64)
    ensures Wrap64(value + low) == value <==> low == 0
  {
  }

  lemma OverflowingRange(r: int)
    requires TWO63 <= r + 1 <= TWO64
    ensures Wrap64(r + 1) == r + 1 - TWO64
  {
  }

  lemma BoundedExact(w: Bits, value: Int64, lb: Int64, ub: Int64, w': Bits, s: Bits)
    requires lb <= value <= ub
    requires PutInteger(w, value, false, Some(lb), Some(ub)) == Some(w') && w' <= s && |s| % 8 == 0
    ensures GetInteger(s, |w|, false, Some(lb), Some(ub)) == Got(value, |w'|)
            <==> IntegerSurvives(value, false, Some(lb), Some(ub), |w|)
  {
    hide PutConstrained, GetConstrained, PutWide, GetWide, OctetCount, WriterRangeOctets, BitsForRange, Wrap64;
    hide PutOctetCounted, GetOctetCounted;
    var range := ub - lb + 1;
    NoWrap(value);
    if range >= TWO63 {
      OverflowingRange(range - 1);
      if range == TWO64 {
        OctetCountedReadsBack(w, value, lb, false, w', s);
      } else {
        SignedBehindBound(w, value, lb, w', s);
      }
    } else {
      NoWrap(range);
      if range > 65536 {
        if WidthsDiffer(range - 1) {
          WideMismatchExact(w, value, lb, range - 1, w', s);
        } else {
          WideReadsBack(w, value, lb, range - 1, w', s);
        }
      } else if range > 1 {
        ConstrainedReadsBack(w, range, value - lb, w', s);
      }
    }
  }

  /** What an INTEGER without both bounds looks like: its octet count at the boundary, then the octets. */
  lemma CountAtBoundary(w: Bits, value: Int64, low: Int64, signed: bool, w': Bits, s: Bits)
    requires !signed ==> low <= value
    requires PutOctetCounted(w, value, low, signed) == Some(w') && w' <= s && |s| % 8 == 0
    ensures Aligned(w) <= s && |Aligned(w)| + 8 <= |s| && 1 <= ValueOf(s[|Aligned(w)|..|Aligned(w)| + 8]) <= 8
  {
    hide GetAlign, GetValue, PutValue, Aligned, BitsOf, OctetCount, Pow2, FitsSigned, Magnitude, ValueOf;
    var n := OctetCount(Magnitude(value) / 128);
    SignedOctetsLeast(value);
    CountedFieldReadsBack(w, n, if signed then value % Pow2(8 * n) else value - low, w', s);
    OctetBelow(s, |Aligned(w)|);
  }

  /** Reading the count starts with an alignment, so it may as well start at the boundary. */
  lemma CountedFromBoundary(s: Bits, p: nat, low: Int64, signed: bool)
    requires p <= |s| && |s| % 8 == 0
    ensures p + PadLen(p) <= |s|
    ensures GetAlign(s, p).Got? ==> GetOctetCounted(s, p, low, signed) == GetOctetCounted(s, p + PadLen(p), low, signed)
    ensures GetAlign(s, p).Fail? ==> GetOctetCounted(s, p, low, signed).Fail?
  {
    hide GetValue, SignedOf;
    var q := p + PadLen(p);
    assert PadLen(q) == 0;
    assert s[q..q] == Zeros(0);
  }

  /** Without an extension bit, off an octet boundary the reader is right all the same, and on one it fails. */
  lemma UnflaggedExact(w: Bits, value: Int64, low: Int64, signed: bool, w': Bits, s: Bits)
    requires (!signed ==> low <= value) && (signed ==> low == 0)
    requires PutOctetCounted(w, value, low, signed) == Some(w') && w' <= s && |s| % 8 == 0
    ensures |w| < |s| && GetFlag(s, |w|, true) == Got(s[|w|], |w| + 1)
    ensures |w| % 8 != 0 ==> !s[|w|] && GetOctetCounted(s, |w| + 1, low, signed) == Got(value, |w'|)
    ensures |w| % 8 == 0 ==> GetAlign(s, |w| + 1).Fail?
  {
    hide GetOctetCounted, GetAlign, Aligned, ValueOf, PadLen, PutOctetCounted;
    CountAtBoundary(w, value, low, signed, w', s);
    PaddedLength(w);
    if |w| % 8 != 0 {
      PaddingAsFlag(w, s);
      OctetCountedReadsBack(w, value, low, signed, w', s);
      CountedFromBoundary(s, |w|, low, signed);
      CountedFromBoundary(s, |w| + 1, low, signed);
    } else {
      StaysAligned(w, []);
      if GetAlign(s, |w| + 1).Got? {
        SevenZeros(s, |w|);
      }
    }
  }

  /**
    Every INTEGER that the writer accepts, over all of `int64` and all bounds, is read back
    with both cursors at the same bit if and only if `IntegerSurvives` holds.
  */
  lemma IntegerExact(w: Bits, value: Int64, ext: bool, lb: Option<Int64>, ub: Option<Int64>, w': Bits, s: Bits)
    requires PutInteger(w, value, ext, lb, ub) == Some(w') && w' <= s && |s| % 8 == 0
    ensures var flag := GetFlag(s, |w|, ext);
            && flag.Got?
            && (GetInteger(s, flag.pos, flag.value, lb, ub) == Got(value, |w'|)
                <==> IntegerSurvives(value, ext, lb, ub, |w|))
  {
    hide PutConstrained, GetConstrained, PutWide, GetWide, PutOctetCounted, GetOctetCounted, OctetCount,
    WriterRangeOctets, BitsForRange, Wrap64;
    if lb.Some? && ub.Some? {
      BothBoundsExact(w, value, ext, lb.value, ub.value, w', s);
    } else {
      var low, signed := if lb.Some? then lb.value else 0, lb.None?;
      if ext {
        UnflaggedExact(w, value, low, signed, w', s);
        CountedFromBoundary(s, |w| + 1, low, signed);
        CountedFromBoundary(s, |w| + 1, 0, true);
      } else {
        OctetCountedReadsBack(w, value, low, signed, w', s);
      }
    }
  }

  lemma BothBoundsExact(w: Bits, value: Int64, ext: bool, lb: Int64, ub: Int64, w': Bits, s: Bits)
    requires PutInteger(w, value, ext, Some(lb), Some(ub)) == Some(w') && w' <= s && |s| % 8 == 0
    ensures var flag := GetFlag(s, |w|, ext);
            && flag.Got?
            && (GetInteger(s, flag.pos, flag.value, Some(lb), Some(ub)) == Got(value, |w'|)
                <==> IntegerSurvives(value, ext, Some(lb), Some(ub), |w|))
  {
    hide PutConstrained, GetConstrained, PutWide, GetWide, PutOctetCounted, GetOctetCounted, OctetCount,
    WriterRangeOctets, BitsForRange, Wrap64;
    var whole := Wrap64(ub - lb + 1) == 0;
    var outside := value > ub || (ext && whole);
    var w1 := if ext then w + [outside] else w;
    if value <= ub {
      WholeRange(lb, ub);
    }
    FlagReadsBack(w, ext, outside, s);
    if outside {
      OctetCountedReadsBack(w1, value, lb, true, w', s);
    } else {
      assert PutInteger(w1, value, false, Some(lb), Some(ub)) == Some(w');
      BoundedExact(w1, value, lb, ub, w', s);
    }
  }

  lemma WholeRange(lb: Int64, ub: Int64)
    requires lb <= ub
    ensures Wrap64(ub - lb + 1) == 0 <==> ub - lb + 1 == TWO64
  {
  }

  // ------------------------------------------------ ENUMERATED, CHOICE index, counts

  /** A range of one value, or one that overflows `int64`, is not written at all and read as 0. */
  predicate EnumeratedSurvives(value: nat, lb: Int64, ub: Int64) {
    Wrap64(ub - lb + 1) > 1 || value == 0
  }

  lemma EnumeratedExact(w: Bits, value: nat, ext: bool, lb: Int64, ub: Int64, w': Bits, s: Bits)
    requires value < TWO64
    requires PutEnumerated(w, value, ext, Some(lb), Some(ub)) == Some(w') && w' <= s && |s| % 8 == 0
    ensures var flag := GetFlag(s, |w|, ext);
            && flag.Got?
            && (GetEnumerated(s, flag.pos, flag.value, Some(lb), Some(ub)) == Got(value, |w'|)
                <==> EnumeratedSurvives(value, lb, ub))
  {
    hide PutConstrained, GetConstrained, Wrap64;
    FlagReadsBack(w, ext, false, s);
    var range := Wrap64(ub - lb + 1);
    if range > 1 {
      ConstrainedReadsBack(if ext then w + [false] else w, range, value, w', s);
    }
  }

  lemma ChoiceIndexReadsBack(w: Bits, present: nat, ext: bool, ub: Option<Int64>, w': Bits, s: Bits)
    requires 1 <= present < TWO64
    requires PutChoiceIndex(w, present, ext, ub) == Some(w') && w' <= s && |s| % 8 == 0
    ensures GetChoiceIndex(s, |w|, false, ub) == Got(present, |w'|)
  {
    hide PutConstrained, GetConstrained, Wrap64;
    ConstrainedReadsBack(w, Wrap64(ub.value + 1), present - 1, w', s);
  }

  /**
    Counts outside a bound below 65536 go out as one octet, so only those below 256 survive;
    without such a bound, the extension bit must fall on a padding bit.
  */
  predicate CountSurvives(n: nat, ext: bool, ub: Option<nat>, at: nat) {
    if ub.Some? && ub.value < 65536 then n <= ub.value || n < 256
    else (ext ==> at % 8 != 0) && n < 256
  }

  lemma CountOctetExact(w: Bits, n: nat, s: Bits)
    requires Aligned(w) + BitsOf(n, 8) <= s && |s| % 8 == 0
    ensures GetAlign(s, |w|) == Got((), |Aligned(w)|)
    ensures GetValue(s, |Aligned(w)|, 8) == Got(n % 256, |Aligned(w)| + 8)
  {
    hide Aligned, BitsOf, GetAlign, GetValue, Pow2;
    BitsOfMod(n, 8);
    Pow2Values();
    AlignedOctetReadsBack(w, n % 256, s);
  }

  lemma CountExact(w: Bits, n: nat, ext: bool, lb: Option<nat>, ub: Option<nat>, w': Bits, s: Bits)
    requires PutCount(w, n, ext, lb, ub) == Some(w') && w' <= s && |s| % 8 == 0
    ensures var flag := GetFlag(s, |w|, ext);
            && flag.Got?
            && (GetCount(s, flag.pos, flag.value, lb, ub) == Got(n, |w'|) <==> CountSurvives(n, ext, ub, |w|))
  {
    hide PutConstrained, GetConstrained, Aligned, BitsOf, GetAlign, GetValue;
    var low := if lb.Some? && lb.value < 65536 then lb.value else 0;
    if ub.Some? && ub.value < 65536 {
      var outside := n > ub.value;
      var w1 := if ext then w + [outside] else w;
      FlagReadsBack(w, ext, outside, s);
      if outside {
        CountOctetExact(w1, n, s);
      } else if ub.value > low {
        ConstrainedReadsBack(w1, ub.value - low + 1, n - low, w', s);
      }
    } else {
      CountOctetExact(w, n, s);
      if ext {
        UnflaggedCount(w, n, w', s);
      }
    }
  }

  lemma UnflaggedCount(w: Bits, n: nat, w': Bits, s: Bits)
    requires w' == Aligned(w) + BitsOf(n, 8) && w' <= s && |s| % 8 == 0
    ensures |w| < |s| && GetFlag(s, |w|, true) == Got(s[|w|], |w| + 1)
    ensures |w| % 8 != 0 ==> GetAlign(s, |w| + 1) == Got((), |Aligned(w)|)
    ensures |w| % 8 == 0 ==> GetAlign(s, |w| + 1).pos == |w'|
  {
    hide BitsOf, PadLen;
    if |w| % 8 != 0 {
      PaddingAsFlag(w, s);
    } else {
      PadAfterBoundary(|w|);
      StaysAligned(w, []);
    }
  }
}
