/**
  What the writer puts on the wire for numbers, in the terms of ITU-T X.691: for every
  primitive, exactly which values it accepts and exactly which bits it appends, as closed
  forms of the value, the bounds and the bit position.
*/
module PerFormat {
  import opened Wrappers
  import opened PerBits
  import opened PerSpec
  import opened PerPrimitives
  import opened PerStrings
  import opened PerSizes
  import opened PerIntegers

  /** The result of a call that appends `bits` if it accepts its arguments. */
  function Appended(w: Bits, accepted: bool, bits: Bits): (r: Option<Bits>) {
    if accepted then Some(w + bits) else None
  }

  lemma AppendedTwice(w: Bits, front: Bits, accepted: bool, bits: Bits)
    ensures Appended(w + front, accepted, bits) == Appended(w, accepted, front + bits)
  {
    assert w + front + bits == w + (front + bits);
  }

  /** Zero bits up to the next octet boundary. */
  function Padding(p: nat): (bits: Bits)
    ensures |bits| == (8 - p % 8) % 8 && (p + |bits|) % 8 == 0
  {
    Zeros((8 - p % 8) % 8)
  }

  lemma AlignedIs(w: Bits)
    ensures Aligned(w) == w + Padding(|w|)
  {
  }

  // ------------------------------------------------------------- constrained numbers

  /** Bits of a field for `range` values, section 10.5.7 of X.691: as many as needed, at least one. */
  function FieldBits(range: int): (n: nat) {
    if range <= 2 then 1 else if range <= 4 then 2 else if range <= 8 then 3 else if range <= 16 then 4
    else if range <= 32 then 5 else if range <= 64 then 6 else if range <= 128 then 7 else 8
  }

  /** The first number that the field of a range cannot hold. */
  function Room(range: int): (n: nat) {
    if range <= 2 then 2 else if range <= 4 then 4 else if range <= 8 then 8 else if range <= 16 then 16
    else if range <= 32 then 32 else if range <= 64 then 64 else if range <= 128 then 128
    else if range <= 256 then 256 else 65536
  }

  /** Up to 255 values a bit field, 256 values an aligned octet, more two aligned octets. */
  function NumberBits(range: int, v: nat, p: nat): (bits: Bits) {
    if range <= 255 then BitsOf(v, FieldBits(range))
    else if range == 256 then Padding(p) + BitsOf(v, 8)
    else Padding(p) + BitsOf(v, 16)
  }

  lemma FieldBitsFrom(range: int, i: nat)
    requires 1 <= i <= 8 && range <= 255 && (i > 1 ==> Pow2(i - 1) < range)
    ensures BitsForRangeFrom(range, i) == FieldBits(range)
    decreases 8 - i
  {
    hide Pow2;
    Pow2Values();
    if Pow2(i) < range {
      FieldBitsFrom(range, i + 1);
    }
  }

  /** The loop that looks for the width of a field finds it, for every range up to 255. */
  lemma FieldBitsIs(range: int)
    requires range <= 255
    ensures BitsForRange(range) == FieldBits(range) && Pow2(BitsForRange(range)) == Room(range)
    ensures range <= Room(range) && (range > 2 ==> Room(range) < 2 * range)
  {
    hide BitsForRangeFrom, Pow2;
    Pow2Values();
    FieldBitsFrom(range, 1);
  }

  lemma ValueExact(w: Bits, v: nat, n: nat, room: nat)
    requires n > 0 && room == Pow2(n)
    ensures PutValue(w, v, n) == Appended(w, v < room, BitsOf(v, n))
  {
  }

  lemma AlignedValueExact(w: Bits, v: nat, n: nat, room: nat)
    requires n > 0 && room == Pow2(n)
    ensures PutValue(Aligned(w), v, n) == Appended(w, v < room, Padding(|w|) + BitsOf(v, n))
  {
    hide BitsOf, Pow2, Padding, Aligned;
    AlignedIs(w);
    ValueExact(Aligned(w), v, n, room);
    AppendedTwice(w, Padding(|w|), v < room, BitsOf(v, n));
  }

  /** A constrained number is accepted if and only if the range is at most 65536 and the number fits its field. */
  lemma ConstrainedExact(w: Bits, range: int, v: nat)
    ensures PutConstrained(w, range, v)
         == Appended(w, 0 <= range <= 65536 && v < Room(range), NumberBits(range, v, |w|))
  {
    hide PutValue, BitsForRange, BitsOf, Aligned, Padding, Pow2;
    Pow2Values();
    if 0 <= range <= 255 {
      FieldBitsIs(range);
      ValueExact(w, v, FieldBits(range), Room(range));
    } else if range == 256 {
      AlignedValueExact(w, v, 8, 256);
    } else if 256 < range <= 65536 {
      AlignedValueExact(w, v, 16, 65536);
    }
  }

  // -------------------------------------------------------------- length determinants

  /** Section 10.9.3: one octet, two octets behind 10, or a count of 16K fragments behind 11. */
  function LengthField(v: nat, p: nat): (bits: Bits) {
    if v <= 127 then Padding(p) + BitsOf(v, 8)
    else if v <= 16383 then Padding(p) + ([true, false] + BitsOf(v, 14))
    else Padding(p) + ([true, true] + BitsOf(v / 16384, 6))
  }

  lemma TopBits(v: nat, n: nat, high: nat)
    requires high in {2, 3} && v < Pow2(n)
    ensures BitsOf(high * Pow2(n) + v, 2 + n) == [true, high == 3] + BitsOf(v, n)
  {
    hide Pow2;
    BitsOfSum(high, v, 2, n);
    NoChange(v, Pow2(n));
    assert BitsOf(high, 2) == BitsOf(high / 2, 1) + [high % 2 == 1];
    assert BitsOf(1, 1) == BitsOf(0, 0) + [true];
  }

  lemma NoChange(v: nat, p: nat)
    requires v < p
    ensures v % p == v
  {
  }

  lemma LengthFormIs(v: nat)
    requires v <= 65536
    ensures v <= 127 ==> LengthBits(v) == BitsOf(v, 8)
    ensures 127 < v <= 16383 ==> LengthBits(v) == [true, false] + BitsOf(v, 14)
    ensures 16383 < v ==> LengthBits(v) == [true, true] + BitsOf(v / 16384, 6)
  {
    hide BitsOf, Pow2;
    Pow2Values();
    Pow2Add(6, 8);
    if 127 < v <= 16383 {
      TopBits(v, 14, 2);
    } else if 16383 < v {
      TopBits(v / 16384, 6, 3);
    }
  }

  /** An unconstrained length of up to 65536 is always accepted. */
  lemma LengthExact(w: Bits, v: nat)
    requires v <= 65536
    ensures PutLength(w, -1, v) == Some(w + LengthField(v, |w|))
  {
    hide PutLength, LengthBits, BitsOf, Aligned, Padding;
    LengthForm(w, v);
    LengthFormIs(v);
    AlignedIs(w);
    assert w + Padding(|w|) + LengthBits(v) == w + (Padding(|w|) + LengthBits(v));
  }

  // ------------------------------------------------------------------------- INTEGER

  /** The least number of octets whose two's complement range holds the value. */
  function SignedOctets(value: Int64): (n: nat)
    ensures 1 <= n <= 8
  {
    if -0x80 <= value < 0x80 then 1
    else if -0x8000 <= value < 0x8000 then 2
    else if -0x80_0000 <= value < 0x80_0000 then 3
    else if -0x8000_0000 <= value < 0x8000_0000 then 4
    else if -0x80_0000_0000 <= value < 0x80_0000_0000 then 5
    else if -0x8000_0000_0000 <= value < 0x8000_0000_0000 then 6
    else if -0x80_0000_0000_0000 <= value < 0x80_0000_0000_0000 then 7
    else 8
  }

  /** The same without a sign: the magnitude is the value, or its complement if it is negative. */
  function PlainOctets(value: Int64): (n: nat)
    ensures 1 <= n <= 8
  {
    if -0x100 <= value < 0x100 then 1
    else if -0x1_0000 <= value < 0x1_0000 then 2
    else if -0x100_0000 <= value < 0x100_0000 then 3
    else if -0x1_0000_0000 <= value < 0x1_0000_0000 then 4
    else if -0x100_0000_0000 <= value < 0x100_0000_0000 then 5
    else if -0x1_0000_0000_0000 <= value < 0x1_0000_0000_0000 then 6
    else if -0x100_0000_0000_0000 <= value < 0x100_0000_0000_0000 then 7
    else 8
  }

  lemma Pow2Signed()
    ensures Pow2(7) == 0x80 && Pow2(15) == 0x8000 && Pow2(23) == 0x80_0000 && Pow2(31) == 0x8000_0000
    ensures Pow2(39) == 0x80_0000_0000 && Pow2(47) == 0x8000_0000_0000 && Pow2(55) == 0x80_0000_0000_0000
    ensures Pow2(63) == 0x8000_0000_0000_0000
  {
    hide Pow2;
    Pow2Values();
    Pow2Add(7, 8);
    Pow2Add(7, 16);
    Pow2Add(7, 24);
    Pow2Add(7, 32);
    Pow2Add(7, 40);
    Pow2Add(7, 48);
    Pow2Add(7, 56);
  }

  lemma SignedOctetsIs(value: Int64)
    ensures OctetCount(Magnitude(value) / 128) == SignedOctets(value)
  {
    hide OctetCount, Magnitude, Pow2;
    Pow2Signed();
    var n := OctetCount(Magnitude(value) / 128);
    SignedOctetsLeast(value);
    if n == 1 {
    } else if n == 2 {
    } else if n == 3 {
    } else if n == 4 {
    } else if n == 5 {
    } else if n == 6 {
    } else if n == 7 {
    } else {
      assert n == 8;
    }
  }

  lemma PlainOctetsIs(value: Int64)
    ensures OctetCount(Magnitude(value) / 256) == PlainOctets(value)
  {
    hide OctetCount, Pow2;
    Pow2Values();
    var m := Magnitude(value);
    OctetCountBounds(m / 256);
    UnsignedOctets(value);
    var n := OctetCount(m / 256);
    if n == 1 {
      assert Pow2(0) == 1 by { NoPower(); }
    } else if n == 2 {
      assert Pow2(0) == 1 by { NoPower(); }
    } else if n == 3 {
    } else if n == 4 {
    } else if n == 5 {
    } else if n == 6 {
    } else if n == 7 {
    } else {
      assert n == 8;
    }
  }

  lemma NoPower()
    ensures Pow2(0) == 1
  {
  }

  /** Bits of the octet count before a number of a range of `r + 1` values above 65536, as the writer sizes it. */
  function CountBits(r: nat): (n: nat) {
    if r < 0x2_0000 then 1 else if r < 0x2_0000_0000 then 2 else 3
  }

  lemma CountBitsIs(r: nat)
    requires 0x1_0000 <= r < 0x8000_0000_0000_0000
    ensures BitsForRange(WriterRangeOctets(r)) == CountBits(r)
  {
    hide Pow2, WriterRangeOctets, BitsForRange;
    Pow2Values();
    FieldWidths();
    if r < 0x2_0000 {
      WriterRangeOctetsIs(r, 2);
    } else if r < 0x200_0000 {
      WriterRangeOctetsIs(r, 3);
    } else if r < 0x2_0000_0000 {
      WriterRangeOctetsIs(r, 4);
    } else if r < 0x200_0000_0000 {
      WriterRangeOctetsIs(r, 5);
    } else if r < 0x2_0000_0000_0000 {
      WriterRangeOctetsIs(r, 6);
    } else if r < 0x200_0000_0000_0000 {
      WriterRangeOctetsIs(r, 7);
    } else {
      WriterRangeOctetsIs(r, 8);
    }
  }

  /** What an INTEGER is taken for. */
  datatype Kind = Refused | Single | Narrow(span: int) | Wide(r: nat) | Above | Free

  /**
    With both bounds the number of values decides; above the upper bound an extensible type
    is free.  Ranges of 2^63 values and more overflow: they are free, or, when all of int64
    is allowed, counted from the lower bound.  A lower bound alone is counted from.
  */
  function KindOf(value: Int64, ext: bool, lb: Option<Int64>, ub: Option<Int64>): (k: Kind) {
    if lb.None? then Free
    else if value < lb.value then Refused
    else if ub.None? then Above
    else if value > ub.value then (if ext then Free else Refused)
    else
      var span: int := ub.value - lb.value + 1;
      if span == 1 then Single
      else if span <= 65536 then Narrow(span)
      else if span < TWO63 then Wide(span - 1)
      else if span == TWO64 && !ext then Above
      else Free
  }

  /** The extension bit, which is there only with both bounds: set above the upper one, or for all of int64. */
  function FlagBits(value: Int64, ext: bool, lb: Option<Int64>, ub: Option<Int64>): (bits: Bits) {
    if ext && lb.Some? && ub.Some? then [value > ub.value || ub.value - lb.value + 1 == TWO64] else []
  }

  /** Whether a number of a kind is accepted above the bound `low`. */
  predicate KindAccepted(k: Kind, value: Int64, low: Int64) {
    match k
    case Refused => false
    case Single => true
    case Narrow(span) => low <= value < low + span
    case Wide(r) =>
      && low <= value && PlainOctets(value) <= Pow2(CountBits(r))
      && value - low < Pow2(8 * PlainOctets(value))
    case Above => low <= value && value - low < Pow2(8 * SignedOctets(value))
    case Free => true
  }

  function KindBits(k: Kind, value: Int64, low: Int64, p: nat): (bits: Bits)
    requires KindAccepted(k, value, low)
  {
    match k
    case Single => []
    case Narrow(span) => NumberBits(span, value - low, p)
    case Wide(r) => WideBits(PlainOctets(value), value - low, CountBits(r), p)
    case Above => CountedBits(SignedOctets(value), value - low, p)
    case Free => CountedBits(SignedOctets(value), value % Pow2(8 * SignedOctets(value)), p)
  }

  function LowerBound(lb: Option<Int64>): (low: Int64) {
    if lb.Some? then lb.value else 0
  }

  predicate IntegerAccepted(value: Int64, ext: bool, lb: Option<Int64>, ub: Option<Int64>) {
    KindAccepted(KindOf(value, ext, lb, ub), value, LowerBound(lb))
  }

  function IntegerBits(value: Int64, ext: bool, lb: Option<Int64>, ub: Option<Int64>, at: nat): (bits: Bits)
    requires IntegerAccepted(value, ext, lb, ub)
  {
    var flag := FlagBits(value, ext, lb, ub);
    flag + KindBits(KindOf(value, ext, lb, ub), value, LowerBound(lb), at + |flag|)
  }

  /** On an octet boundary one octet with the count of octets, then the number in so many octets. */
  function CountedBits(n: nat, v: nat, p: nat): (bits: Bits) {
    Padding(p) + BitsOf(n, 8) + BitsOf(v, 8 * n)
  }

  /** The count less one in few bits, then, on an octet boundary, the number in so many octets. */
  function WideBits(n: nat, v: nat, width: nat, p: nat): (bits: Bits)
    requires n >= 1
  {
    BitsOf(n - 1, width) + Padding(p + width) + BitsOf(v, 8 * n)
  }

  lemma CountedExact(w: Bits, n: nat, v: nat)
    requires n >= 1
    ensures PutValue(Aligned(w) + BitsOf(n, 8), v, 8 * n) == Appended(w, v < Pow2(8 * n), CountedBits(n, v, |w|))
  {
    hide BitsOf, Padding, Aligned, Pow2;
    AlignedIs(w);
    var front := Padding(|w|) + BitsOf(n, 8);
    assert Aligned(w) + BitsOf(n, 8) == w + front;
    ValueExact(w + front, v, 8 * n, Pow2(8 * n));
    AppendedTwice(w, front, v < Pow2(8 * n), BitsOf(v, 8 * n));
  }

  lemma SignedExact(w: Bits, value: Int64, low: Int64)
    ensures var n := SignedOctets(value);
            PutOctetCounted(w, value, low, true) == Some(w + CountedBits(n, value % Pow2(8 * n), |w|))
  {
    hide PutValue, OctetCount, SignedOctets, CountedBits, Pow2, BitsOf, Magnitude;
    SignedOctetsIs(value);
    var n := SignedOctets(value);
    CountedExact(w, n, value % Pow2(8 * n));
  }

  lemma AboveExact(w: Bits, value: Int64, low: Int64)
    requires low <= value
    ensures var n := SignedOctets(value);
            PutOctetCounted(w, value, low, false)
              == Appended(w, value - low < Pow2(8 * n), CountedBits(n, value - low, |w|))
  {
    hide PutValue, OctetCount, SignedOctets, CountedBits, Pow2, BitsOf, Magnitude;
    SignedOctetsIs(value);
    CountedExact(w, SignedOctets(value), value - low);
  }

  lemma WideExact(w: Bits, value: Int64, low: Int64, r: nat)
    requires low <= value && 0x1_0000 <= r < 0x8000_0000_0000_0000
    ensures var n, k := PlainOctets(value), CountBits(r);
            PutWide(w, value, low, r)
              == Appended(w, n <= Pow2(k) && value - low < Pow2(8 * n), WideBits(n, value - low, k, |w|))
  {
    hide PutValue, OctetCount, PlainOctets, Pow2, BitsOf, Magnitude, BitsForRange, WriterRangeOctets, Aligned, Padding;
    PlainOctetsIs(value);
    CountBitsIs(r);
    var n, k := PlainOctets(value), CountBits(r);
    ValueExact(w, n - 1, k, Pow2(k));
    var w1 := w + BitsOf(n - 1, k);
    AlignedValueExact(w1, value - low, 8 * n, Pow2(8 * n));
    var rest := Padding(|w1|) + BitsOf(value - low, 8 * n);
    AppendedTwice(w, BitsOf(n - 1, k), value - low < Pow2(8 * n), rest);
    assert BitsOf(n - 1, k) + rest == WideBits(n, value - low, k, |w|);
  }

  lemma WrapSpan(span: int)
    requires 1 <= span <= TWO64
    ensures Wrap64(span) == if span < TWO63 then span else span - TWO64
  {
  }

  lemma RoomForAll(range: int, v: nat)
    requires 1 < range <= 65536 && v < range
    ensures v < Room(range)
  {
  }

  /** The range by which the code tells the kinds apart: 1, small, large, 0 and negative. */
  predicate RangeTells(k: Kind, range: int) {
    match k
    case Refused => false
    case Single => range == 1
    case Narrow(span) => 1 < range == span <= 65536
    case Wide(r) => 65536 < range == r + 1 <= 0x7fff_ffff_ffff_ffff
    case Above => range == 0
    case Free => range < 0
  }

  /** What the code does for each kind. */
  lemma KindExact(w: Bits, k: Kind, value: Int64, low: Int64, range: int)
    requires RangeTells(k, range) && (range >= 0 ==> low <= value) && (k.Narrow? ==> value < low + range)
    ensures PutIntegerBody(w, value, low, range)
         == if KindAccepted(k, value, low) then Some(w + KindBits(k, value, low, |w|)) else None
  {
    hide PutOctetCounted, PutConstrained, PutWide, CountedBits, WideBits, NumberBits, SignedOctets, PlainOctets, Pow2,
    CountBits, Room;
    match k
    case Single =>
      assert w + [] == w;
    case Narrow(span) =>
      RoomForAll(span, value - low);
      ConstrainedExact(w, span, value - low);
    case Wide(r) =>
      WideExact(w, value, low, r);
    case Above =>
      AboveExact(w, value, low);
    case Free =>
      SignedExact(w, value, low);
  }

  /** Which range the code works with, and behind which extension bit. */
  lemma IntegerBody(w: Bits, value: Int64, ext: bool, lb: Option<Int64>, ub: Option<Int64>) returns (range: int)
    ensures var k := KindOf(value, ext, lb, ub);
            if k.Refused? then PutInteger(w, value, ext, lb, ub).None?
            else
              && RangeTells(k, range) && (range >= 0 ==> LowerBound(lb) <= value)
              && (k.Narrow? ==> value < LowerBound(lb) + range)
              && PutInteger(w, value, ext, lb, ub)
                 == PutIntegerBody(w + FlagBits(value, ext, lb, ub), value, LowerBound(lb), range)
  {
    hide PutIntegerBody, Wrap64;
    assert w + [] == w;
    if lb.None? || (lb.value <= value && ub.Some? && value > ub.value) {
      range := -1;
    } else if ub.None? {
      range := 0;
    } else if lb.value <= value {
      var span: int := ub.value - lb.value + 1;
      WrapSpan(span);
      range := if span == TWO64 && ext then -1 else Wrap64(span);
    } else {
      range := 0;
    }
  }

  /** Every INTEGER: accepted exactly as stated, and exactly the stated bits are appended. */
  lemma IntegerFormat(w: Bits, value: Int64, ext: bool, lb: Option<Int64>, ub: Option<Int64>)
    ensures PutInteger(w, value, ext, lb, ub) ==
            if IntegerAccepted(value, ext, lb, ub) then Some(w + IntegerBits(value, ext, lb, ub, |w|)) else None
  {
    hide PutInteger, PutIntegerBody, KindBits, KindOf, RangeTells, FlagBits;
    var k, flag, low := KindOf(value, ext, lb, ub), FlagBits(value, ext, lb, ub), LowerBound(lb);
    var range := IntegerBody(w, value, ext, lb, ub);
    if !k.Refused? {
      KindExact(w + flag, k, value, low, range);
      if KindAccepted(k, value, low) {
        AppendedTwice(w, flag, true, KindBits(k, value, low, |w| + |flag|));
      }
    }
  }

  // ---------------------------------------------------- ENUMERATED, CHOICE and counts

  /** A value of 2^63 and more is taken as negative. */
  function AsInt64(value: nat): (v: int) {
    if value < TWO63 then value else value - TWO64
  }

  /** A range that overflows, or of one value, is not written and not looked at further. */
  predicate EnumeratedAccepted(value: nat, lb: Option<Int64>, ub: Option<Int64>) {
    lb.Some? && ub.Some? && lb.value <= AsInt64(value) <= ub.value &&
    var span: int := ub.value - lb.value + 1;
    1 < span < TWO63 ==> span <= 65536 && value < Room(span)
  }

  function EnumeratedBits(value: nat, ext: bool, lb: Option<Int64>, ub: Option<Int64>, at: nat): (bits: Bits)
    requires lb.Some? && ub.Some?
  {
    var flag := if ext then [false] else [];
    var span: int := ub.value - lb.value + 1;
    if 1 < span < TWO63 then flag + NumberBits(span, value, at + |flag|) else flag
  }

  lemma AsInt64Is(value: nat)
    requires value < TWO64
    ensures Wrap64(value) == AsInt64(value)
  {
  }

  /** The value itself is written, not its distance from the lower bound. */
  lemma EnumeratedFormat(w: Bits, value: nat, ext: bool, lb: Option<Int64>, ub: Option<Int64>)
    requires value < TWO64
    ensures PutEnumerated(w, value, ext, lb, ub) ==
            if EnumeratedAccepted(value, lb, ub) then Some(w + EnumeratedBits(value, ext, lb, ub, |w|)) else None
  {
    hide PutConstrained, NumberBits, Room, Wrap64;
    AsInt64Is(value);
    if lb.Some? && ub.Some? && lb.value <= AsInt64(value) <= ub.value {
      var span: int := ub.value - lb.value + 1;
      var flag := if ext then [false] else [];
      WrapSpan(span);
      if 1 < span < TWO63 {
        ConstrainedExact(w + flag, span, value);
        AppendedTwice(w, flag, span <= 65536 && value < Room(span), NumberBits(span, value, |w| + |flag|));
      }
      assert w + [] == w;
    }
  }

  predicate ChoiceAccepted(present: nat, ext: bool, ub: Option<Int64>)
    requires present >= 1
  {
    ub.Some? && 0 <= ub.value <= 65535 && present - 1 < Room(ub.value + 1) && (ext ==> present - 1 <= ub.value)
  }

  /** The index of an alternative counts from 0. */
  lemma ChoiceFormat(w: Bits, present: nat, ext: bool, ub: Option<Int64>)
    requires present >= 1
    ensures PutChoiceIndex(w, present, ext, ub) ==
            if ChoiceAccepted(present, ext, ub) then Some(w + NumberBits(ub.value + 1, present - 1, |w|)) else None
  {
    hide PutConstrained, NumberBits, Room, Wrap64;
    if ub.Some? && ub.value >= 0 {
      WrapSpan(ub.value + 1);
      ConstrainedExact(w, Wrap64(ub.value + 1), present - 1);
    }
  }

  function LowerCount(lb: Option<nat>): (n: nat) {
    if lb.Some? && lb.value < 65536 then lb.value else 0
  }

  /** Whether a count is held in the field of its bounds, those below 65536. */
  predicate CountInside(n: nat, ub: Option<nat>) {
    ub.Some? && ub.value < 65536 && n <= ub.value
  }

  predicate CountAccepted(n: nat, ext: bool, lb: Option<nat>, ub: Option<nat>) {
    && LowerCount(lb) <= n
    && (ub.Some? && ub.value < 65536 && n > ub.value ==> ext)
    && (CountInside(n, ub) && LowerCount(lb) < ub.value ==> n - LowerCount(lb) < Room(ub.value - LowerCount(lb) + 1))
  }

  /** Inside the bounds a constrained number, nothing for a fixed count; otherwise the low eight bits of the count. */
  function CountField(n: nat, ext: bool, lb: Option<nat>, ub: Option<nat>, at: nat): (bits: Bits)
    requires LowerCount(lb) <= n
  {
    var flag := if ext && ub.Some? && ub.value < 65536 then [n > ub.value] else [];
    var p := at + |flag|;
    if !CountInside(n, ub) then flag + (Padding(p) + BitsOf(n, 8))
    else if LowerCount(lb) == ub.value then flag
    else flag + NumberBits(ub.value - LowerCount(lb) + 1, n - LowerCount(lb), p)
  }

  lemma CountFormat(w: Bits, n: nat, ext: bool, lb: Option<nat>, ub: Option<nat>)
    ensures PutCount(w, n, ext, lb, ub) ==
            if CountAccepted(n, ext, lb, ub) then Some(w + CountField(n, ext, lb, ub, |w|)) else None
  {
    hide PutConstrained, NumberBits, Room, Aligned, Padding, BitsOf;
    var low := LowerCount(lb);
    var flag := if ext && ub.Some? && ub.value < 65536 then [n > ub.value] else [];
    var w1 := w + flag;
    assert flag == [] ==> w1 == w;
    if low <= n && (ub.Some? && ub.value < 65536 && n > ub.value ==> ext) {
      if !CountInside(n, ub) {
        AlignedIs(w1);
        assert w1 + Padding(|w1|) + BitsOf(n, 8) == w + (flag + (Padding(|w1|) + BitsOf(n, 8)));
      } else if low < ub.value {
        ConstrainedExact(w1, ub.value - low + 1, n - low);
        var range := ub.value - low + 1;
        AppendedTwice(w, flag, n - low < Room(range), NumberBits(range, n - low, |w1|));
      }
    }
  }
}
