/**
  Exactly which trees of values the schema-directed encoder accepts, and how many bits it
  writes for them: conditions on values, bounds, slice capacities and the integers that open
  types refer to, with positions counted from the start of the buffer.
*/
module PerTree {
  import opened Wrappers
  import opened PerBits
  import opened PerSpec
  import opened PerStrings
  import opened PerSizes
  import opened PerIntegers
  import opened PerAcceptance
  import opened PerSchema
  import opened PerConditions
  import opened PerFormat

  /** Accepted exactly as stated, and ending where stated. */
  predicate Agrees(r: Option<Bits>, accepted: bool, end: nat) {
    (r.Some? <==> accepted) && (r.Some? ==> |r.value| == end)
  }

  // ----------------------------------------------------------------------- fragments

  /** The units announced by the next length field: up to four times 16384, none for exactly 65536. */
  function Piece(raw: nat): (part: nat)
    ensures part <= raw && part <= 65536
  {
    if raw < 16384 then raw
    else if raw < 65536 then raw - raw % 16384
    else if raw == 65536 then 0
    else 65536
  }

  lemma PieceIs(raw: nat)
    ensures FragmentSize(raw) == Piece(raw)
  {
  }

  /** A length field within a range of sizes, or without one. */
  function HeadBits(range: int, part: nat, p: nat): (bits: Bits) {
    if 0 < range <= 65536 then NumberBits(range, part, p) else LengthField(part, p)
  }

  lemma HeadExact(w: Bits, range: int, part: nat)
    requires part <= 65536 && range <= 65536
    ensures PutLength(w, range, part)
         == Appended(w, 0 < range ==> part < Room(range), HeadBits(range, part, |w|))
  {
    hide LengthField, NumberBits, Room;
    if range > 0 {
      hide PutConstrained;
      ConstrainedExact(w, range, part);
    } else {
      hide PutLength;
      WrittenForms(w, range, part);
      LengthExact(w, part);
    }
  }

  /** Where the fragments of `raw` units above the bound `low` end. */
  function FragmentEnd(p: nat, unit: nat, range: int, low: nat, raw: nat): (end: nat)
    decreases raw
  {
    var part := Piece(raw);
    var q := p + |HeadBits(range, part, p)|;
    if part + low == 0 then q
    else if 0 < part < raw then
      FragmentEnd(q + |Padding(q)| + 8 * OctetsFor(Scale(unit, part + low)), unit, range, low, raw - part)
    else q + |Padding(q)| + Scale(unit, part + low)
  }

  lemma LastTurn(w: Bits, unit: nat, range: int, low: nat, data: Bits, raw: nat, w': Bits)
    requires (unit == 1 || unit == 8) && (Piece(raw) == raw || Piece(raw) + low == 0)
    requires PutFragments(w, unit, range, low, data, raw) == Some(w')
    ensures var part := Piece(raw);
            var length := PutLength(w, range, part);
            && length.Some?
            && |w'| == if part + low == 0 then |length.value| else |Aligned(length.value)| + Scale(unit, part + low)
  {
    hide PutLength, Aligned, OctetsFor, FragmentSize, Scale, Piece;
    PieceIs(raw);
  }

  lemma {:induction false} FragmentsEndThere(w: Bits, unit: nat, range: int, low: nat, data: Bits, raw: nat, w': Bits)
    requires (unit == 1 || unit == 8) && range <= 65536
    requires PutFragments(w, unit, range, low, data, raw) == Some(w')
    ensures |w'| == FragmentEnd(|w|, unit, range, low, raw)
    decreases raw
  {
    hide PutLength, PutFragments, Aligned, OctetsFor, FragmentSize, Scale, HeadBits, Padding, Room, Piece;
    var part := Piece(raw);
    PieceIs(raw);
    HeadExact(w, range, part);
    MaskedOnTheWay(raw);
    if 0 < part < raw {
      WriterTurn(w, unit, range, low, data, raw, part);
      var w1, take := PutLength(w, range, part).value, 8 * OctetsFor(Scale(unit, part + low));
      AlignedIs(w1);
      FragmentsEndThere(Aligned(w1) + data[..take], unit, range, low, data[take..], raw - part, w');
    } else {
      if part < raw && low > 0 {
        MaskedSizeFails(w, unit, range, low, data);
      }
      LastTurn(w, unit, range, low, data, raw, w');
      AlignedIs(PutLength(w, range, part).value);
    }
  }

  lemma LastTurnAccepted(w: Bits, unit: nat, range: int, low: nat, data: Bits, raw: nat)
    requires (unit == 1 || unit == 8) && FragmentSize(raw) == raw && PutLength(w, range, raw).Some?
    ensures PutFragments(w, unit, range, low, data, raw).Some? <==> |data| >= 8 * Need(unit, low, raw)
  {
    hide PutLength, Aligned, FragmentSize, OctetsFor, Scale;
    NothingNeeded(unit);
  }

  /** Within a range of sizes the capacity of the slice decides. */
  lemma {:induction false} FragmentsInRange(w: Bits, unit: nat, range: int, low: nat, data: Bits, raw: nat)
    requires (unit == 1 || unit == 8) && 1 < range <= 65536 && raw < range
    ensures PutFragments(w, unit, range, low, data, raw).Some? <==> |data| >= 8 * Need(unit, low, raw)
    decreases raw
  {
    hide PutLength, PutFragments, Aligned, OctetsFor, FragmentSize, Scale, HeadBits, Room;
    var part := FragmentSize(raw);
    MaskedOnTheWay(raw);
    HeadExact(w, range, part);
    RoomForAll(range, part);
    if 0 < part < raw {
      var take := 8 * OctetsFor(Scale(unit, part + low));
      WriterTurn(w, unit, range, low, data, raw, part);
      if take <= |data| {
        var w1 := PutLength(w, range, part).value;
        FragmentsInRange(Aligned(w1) + data[..take], unit, range, low, data[take..], raw - part);
      }
    } else {
      LastTurnAccepted(w, unit, range, low, data, raw);
    }
  }

  /** A size far outside the range is refused at the first length field. */
  lemma FragmentsOutOfRange(w: Bits, unit: nat, range: int, low: nat, data: Bits, raw: nat)
    requires (unit == 1 || unit == 8) && 1 < range <= 65536 && raw > 65536
    ensures PutFragments(w, unit, range, low, data, raw).None?
  {
    hide PutLength, Aligned, OctetsFor, Scale, HeadBits;
    HeadExact(w, range, 65536);
  }

  // ------------------------------------------------------------------------- strings

  /** How the size of a string is written. */
  datatype SizeKind = TooLong | Fixed(size: nat) | Ranged(low: nat, high: nat) | Loose(low: nat)

  /**
    With both bounds below 65536 the size is fixed or ranged; bounds upside down by two are
    taken as exceeded.  Beyond the upper bound an extensible type forgets the lower one.
  */
  function SizeKindOf(len: nat, ext: bool, lb: Option<nat>, ub: Option<nat>): (k: SizeKind) {
    if lb.None? then Loose(0)
    else if ub.None? then Loose(lb.value)
    else if len > ub.value then (if ext then Loose(0) else TooLong)
    else if ext && lb.value == ub.value + 2 then Loose(0)
    else if ub.value <= 65535 && lb.value == ub.value then Fixed(ub.value)
    else if ub.value <= 65535 && lb.value < ub.value then Ranged(lb.value, ub.value)
    else Loose(lb.value)
  }

  /** The extension bit of a string, if there are both bounds: set beyond the upper one. */
  function SizeFlag(len: nat, ext: bool, lb: Option<nat>, ub: Option<nat>): (bits: Bits) {
    if ext && lb.Some? && ub.Some? then [len > ub.value || lb.value == ub.value + 2] else []
  }

  function FlagCount(ext: bool, lb: Option<nat>, ub: Option<nat>): (n: nat) {
    if ext && lb.Some? && ub.Some? then 1 else 0
  }

  /** Go's unsigned difference: a size below the bound comes out near 2^64. */
  function SizeAbove(len: nat, low: nat): (raw: nat) {
    if len >= low then len - low else if TWO64 + len >= low then TWO64 + len - low else 0
  }

  /** Under a lower bound a positive multiple of 65536 units is never written to the end. */
  predicate Splits(low: nat, raw: nat) {
    low == 0 || raw == 0 || raw % 65536 != 0
  }

  /**
    Whether a size is accepted at bit `p`, given room for `room` octets: a short BIT STRING of
    fixed size is not measured, an empty string of fixed size must lie on an octet boundary, and
    fragments must fit into the capacity with the bound added to each.
  */
  predicate SizeAccepted(k: SizeKind, unit: nat, len: nat, room: nat, p: nat) {
    match k
    case TooLong => false
    case Fixed(size) =>
      if OctetsFor(Scale(unit, len)) > 2 then len == size
      else (unit == 8 ==> len == size) && (len == 0 ==> p % 8 == 0)
    case Ranged(low, _) => low <= len && room >= Need(unit, low, len - low)
    case Loose(low) => room >= Need(unit, low, SizeAbove(len, low)) && Splits(low, SizeAbove(len, low))
  }

  /** Where the string ends; `extra` octets beyond a long one of fixed size go out with it. */
  function SizeEnd(k: SizeKind, unit: nat, len: nat, extra: nat, p: nat): (end: nat) {
    match k
    case TooLong => p
    case Fixed(_) =>
      if OctetsFor(Scale(unit, len)) > 2 then p + |Padding(p)| + Scale(unit, len) + 8 * extra else p + Scale(unit, len)
    case Ranged(low, high) => FragmentEnd(p, unit, high - low + 1, low, SizeAbove(len, low))
    case Loose(low) => FragmentEnd(p, unit, -1, low, SizeAbove(len, low))
  }

  /** A string of `len` units at bit `at`. */
  predicate StringAccepted(unit: nat, len: nat, room: nat, ext: bool, lb: Option<nat>, ub: Option<nat>, at: nat) {
    && len < TWO64 && (lb.Some? ==> lb.value < TWO63)
    && SizeAccepted(SizeKindOf(len, ext, lb, ub), unit, len, room, at + FlagCount(ext, lb, ub))
  }

  function StringEnd(unit: nat, len: nat, extra: nat, ext: bool, lb: Option<nat>, ub: Option<nat>, at: nat)
    : (end: nat)
  {
    SizeEnd(SizeKindOf(len, ext, lb, ub), unit, len, extra, at + FlagCount(ext, lb, ub))
  }

  lemma SizeAboveIs(len: nat, low: nat)
    requires len < TWO64 && low < TWO63
    ensures Minus64(len, low) == SizeAbove(len, low)
    ensures len < low ==> SizeAbove(len, low) > 65536
  {
  }

  /** What the code does for each kind, `range` being the range of sizes it works with. */
  function WriteSize(k: SizeKind, w: Bits, unit: nat, data: Bits, extra: Bits, spare: Bits, len: nat, range: int)
    : (r: Option<Bits>)
    requires (unit == 1 || unit == 8) && |data| == 8 * OctetsFor(Scale(unit, len))
  {
    match k
    case TooLong => None
    case Fixed(size) => PutFixed(w, unit, data, extra, len, size)
    case Ranged(low, _) => PutFragments(w, unit, range, low, data + extra + spare, SizeAbove(len, low))
    case Loose(low) => PutFragments(w, unit, range, low, data + extra + spare, SizeAbove(len, low))
  }

  predicate SizeRange(k: SizeKind, len: nat, range: int) {
    && (k.Ranged? ==> k.low < k.high <= 65535 && len <= k.high && range == k.high - k.low + 1)
    && (k.Loose? ==> range <= 0)
  }

  lemma SizedBody(w: Bits, unit: nat, data: Bits, extra: Bits, spare: Bits, len: nat, ext: bool,
                  lb: Option<nat>, ub: Option<nat>) returns (w1: Bits, range: int)
    requires unit == 1 || unit == 8
    requires |data| == 8 * OctetsFor(Scale(unit, len))
    requires len < TWO64 && (lb.Some? ==> lb.value < TWO63)
    ensures w1 == w + SizeFlag(len, ext, lb, ub) && |w1| == |w| + FlagCount(ext, lb, ub)
    ensures SizeRange(SizeKindOf(len, ext, lb, ub), len, range)
    ensures PutSized(w, unit, data, extra, spare, len, ext, lb, ub)
         == WriteSize(SizeKindOf(len, ext, lb, ub), w1, unit, data, extra, spare, len, range)
  {
    hide PutFragments, PutFixed, Minus64, SizeAbove, OctetsFor, Scale;
    var bounded := lb.Some? && ub.Some?;
    var inside := bounded && len <= ub.value;
    var extended := bounded && ext && (!inside || ub.value - lb.value + 1 == -1);
    w1 := if bounded && ext then w + [extended] else w;
    range := if inside && ub.value <= 65535 then ub.value - lb.value + 1 else -1;
    var low := if lb.Some? && !extended then lb.value else 0;
    SizeAboveIs(len, low);
  }

  lemma FixedAccepted(w: Bits, unit: nat, data: Bits, extra: Bits, len: nat, size: nat)
    requires (unit == 1 || unit == 8) && |data| == 8 * OctetsFor(Scale(unit, len))
    ensures var r, long := PutFixed(w, unit, data, extra, len, size), OctetsFor(Scale(unit, len)) > 2;
            && (r.Some? <==> if long then len == size else (unit == 8 ==> len == size) && (len == 0 ==> |w| % 8 == 0))
            && (r.Some? ==>
                  |r.value| == if long then |w| + |Padding(|w|)| + Scale(unit, len) + |extra|
                               else |w| + Scale(unit, len))
  {
    hide OctetsFor, Aligned, Padding;
    AlignedIs(w);
    if OctetsFor(Scale(unit, len)) <= 2 {
      assert data[..Scale(unit, len)] == [] <==> len == 0;
    }
  }

  /** Strings: accepted if and only if the condition holds, and then of the stated length. */
  lemma StringExact(w: Bits, unit: nat, data: Bits, extra: Bits, spare: Bits, len: nat, ext: bool,
                    lb: Option<nat>, ub: Option<nat>, more: nat, room: nat)
    requires unit == 1 || unit == 8
    requires |data| == 8 * OctetsFor(Scale(unit, len)) && |extra| == 8 * more
    requires |data| + |extra| + |spare| == 8 * room
    ensures Agrees(EncodeSized(w, unit, data, extra, spare, len, ext, lb, ub),
                   StringAccepted(unit, len, room, ext, lb, ub, |w|), StringEnd(unit, len, more, ext, lb, ub, |w|))
  {
    hide PutSized, WriteSize, OctetsFor, Scale, SizeAccepted, SizeEnd, SizeKindOf, FlagCount, SizeRange;
    if len < TWO64 && (lb.Some? ==> lb.value < TWO63) {
      var w1, range := SizedBody(w, unit, data, extra, spare, len, ext, lb, ub);
      SizeExact(SizeKindOf(len, ext, lb, ub), w1, unit, data, extra, spare, len, range, more, room);
    }
  }

  lemma SizeExact(k: SizeKind, w: Bits, unit: nat, data: Bits, extra: Bits, spare: Bits, len: nat, range: int,
                  more: nat, room: nat)
    requires (unit == 1 || unit == 8) && SizeRange(k, len, range)
    requires |data| == 8 * OctetsFor(Scale(unit, len)) && |extra| == 8 * more
    requires |data| + |extra| + |spare| == 8 * room
    ensures Agrees(WriteSize(k, w, unit, data, extra, spare, len, range), SizeAccepted(k, unit, len, room, |w|),
                   SizeEnd(k, unit, len, more, |w|))
  {
    hide PutFixed, PutFragments, OctetsFor, Scale, Need, FragmentEnd, SizeAbove, Padding, Splits;
    match k
    case TooLong =>
    case Fixed(size) =>
      FixedAccepted(w, unit, data, extra, len, size);
    case Ranged(low, high) =>
      RangedExact(w, unit, data + extra + spare, len, low, high);
    case Loose(low) =>
      LooseExact(w, unit, range, data + extra + spare, low, SizeAbove(len, low));
  }

  lemma RangedExact(w: Bits, unit: nat, all: Bits, len: nat, low: nat, high: nat)
    requires (unit == 1 || unit == 8) && low < high <= 65535 && len <= high
    ensures var r := PutFragments(w, unit, high - low + 1, low, all, SizeAbove(len, low));
            && (r.Some? <==> low <= len && |all| >= 8 * Need(unit, low, len - low))
            && (r.Some? ==> |r.value| == FragmentEnd(|w|, unit, high - low + 1, low, SizeAbove(len, low)))
  {
    hide PutFragments, Need, FragmentEnd;
    var range := high - low + 1;
    var r := PutFragments(w, unit, range, low, all, SizeAbove(len, low));
    if r.Some? {
      FragmentsEndThere(w, unit, range, low, all, SizeAbove(len, low), r.value);
    }
    if low <= len {
      FragmentsInRange(w, unit, range, low, all, len - low);
    } else {
      FragmentsOutOfRange(w, unit, range, low, all, SizeAbove(len, low));
    }
  }

  lemma LooseExact(w: Bits, unit: nat, range: int, all: Bits, low: nat, raw: nat)
    requires (unit == 1 || unit == 8) && range <= 0
    ensures var r := PutFragments(w, unit, range, low, all, raw);
            && (r.Some? <==> |all| >= 8 * Need(unit, low, raw) && Splits(low, raw))
            && (r.Some? ==> |r.value| == FragmentEnd(|w|, unit, -1, low, raw))
  {
    hide PutFragments, Need, FragmentEnd;
    UnconstrainedWrites(w, unit, range, low, all, raw);
    FragmentsAccepted(w, unit, low, all, raw);
    var r := PutFragments(w, unit, -1, low, all, raw);
    if r.Some? {
      FragmentsEndThere(w, unit, -1, low, all, raw, r.value);
    }
  }

  // ------------------------------------------------------------------------ presence

  /** One bit for each optional field from `i` on; fields with 64 and more optional ones behind them count as absent. */
  function Bitmap(fields: seq<Field>, vals: seq<Option<Value>>, i: nat): (bits: Bits)
    requires i <= |fields| == |vals|
    decreases |fields| - i
  {
    if i == |fields| then []
    else
      (if fields[i].optional then [vals[i].Some? && OptionalCount(fields, i + 1) < 64] else [])
      + Bitmap(fields, vals, i + 1)
  }

  /** The last 64 bits, zeros before them. */
  function Last64(bits: Bits): (r: Bits)
    ensures |r| == |bits|
  {
    if |bits| <= 64 then bits else Zeros(|bits| - 64) + bits[|bits| - 64..]
  }

  lemma Last64Push(b: bool, bits: Bits)
    ensures Last64([b] + bits) == [b && |bits| < 64] + Last64(bits)
  {
    if |bits| >= 64 {
      hide Zeros;
      LongPush(b, bits, |bits| - 64);
      if |bits| == 64 {
        NoZeros(bits);
      }
    }
  }

  lemma LongPush(b: bool, bits: Bits, m: nat)
    requires |bits| == m + 64
    ensures Zeros(m + 1) + ([b] + bits)[m + 1..] == [false] + (Zeros(m) + bits[m..])
  {
    hide Zeros;
    assert ([b] + bits)[m + 1..] == bits[m..];
    OneZeroMore(m);
    assert [false] + Zeros(m) + bits[m..] == [false] + (Zeros(m) + bits[m..]);
  }

  lemma NoZeros(bits: Bits)
    ensures Zeros(0) + bits[0..] == bits
  {
  }

  lemma OneZeroMore(m: nat)
    ensures Zeros(m + 1) == [false] + Zeros(m)
  {
  }

  lemma {:induction false} BitmapIsLast64(fields: seq<Field>, vals: seq<Option<Value>>, i: nat)
    requires i <= |fields| == |vals|
    ensures Bitmap(fields, vals, i) == Last64(PresenceBits(fields, vals, i))
    decreases |fields| - i
  {
    hide Last64;
    if i == |fields| {
      assert Last64([]) == [] by { NothingLast(); }
    } else {
      BitmapIsLast64(fields, vals, i + 1);
      PresenceCount(fields, vals, i + 1);
      Last64Push(vals[i].Some?, PresenceBits(fields, vals, i + 1));
      assert [] + Bitmap(fields, vals, i + 1) == Bitmap(fields, vals, i + 1);
      assert [] + PresenceBits(fields, vals, i + 1) == PresenceBits(fields, vals, i + 1);
    }
  }

  lemma NothingLast()
    ensures Last64([]) == []
  {
  }

  function Cut64(v: nat): (r: nat) { v % TWO64 }

  /** A 64-bit number written into more bits. */
  lemma CutTo64(bits: Bits)
    ensures BitsOf(Cut64(ValueOf(bits)), |bits|) == Last64(bits)
  {
    hide BitsOf, ValueOf, Cut64, Zeros;
    if |bits| <= 64 {
      BitsOfValueOf(bits);
      NothingCut(bits);
    } else {
      LongCut(bits, |bits| - 64);
    }
  }

  lemma LongCut(bits: Bits, m: nat)
    requires |bits| == m + 64
    ensures BitsOf(Cut64(ValueOf(bits)), |bits|) == Zeros(m) + bits[m..]
  {
    hide *;
    UpperZeros(ValueOf(bits), m);
    LowerBits(bits, m);
  }

  lemma NothingCut(bits: Bits)
    requires |bits| <= 64
    ensures Cut64(ValueOf(bits)) == ValueOf(bits)
  {
    hide ValueOf;
    Below64(bits);
  }

  lemma UpperZeros(v: nat, m: nat)
    ensures BitsOf(Cut64(v), m + 64) == Zeros(m) + BitsOf(v, 64)
  {
    hide BitsOf, Pow2;
    assert Pow2(64) == TWO64 by { Pow2Values(); }
    BitsOfSum(0, v, m, 64);
    BitsOfZero(m);
  }

  lemma LowerBits(bits: Bits, m: nat)
    requires |bits| == m + 64
    ensures bits[m..] == BitsOf(ValueOf(bits), 64)
  {
    hide BitsOf, ValueOf, Pow2, ShiftRight;
    BitsOfValueOf(bits);
    BitsOfSplit(ValueOf(bits), m, 64);
    var front := BitsOf(ShiftRight(ValueOf(bits), 64), m);
    assert (front + BitsOf(ValueOf(bits), 64))[m..] == BitsOf(ValueOf(bits), 64);
  }

  /** What is written for the OPTIONAL fields of a SEQUENCE is the bitmap; it is never refused. */
  lemma BitmapWritten(fields: seq<Field>, vals: seq<Option<Value>>, w: Bits)
    requires |fields| == |vals|
    ensures var presence := PresenceBits(fields, vals, 0);
            var bitmap := Bitmap(fields, vals, 0);
            && |bitmap| == |presence| == OptionalCount(fields, 0) && ValueOf(bitmap) == ValueOf(presence) % TWO64
            && PutValue(w, ValueOf(presence) % TWO64, |presence|) == Some(w + bitmap)
  {
    hide BitsOf, ValueOf, Pow2, PresenceBits, Bitmap, Last64;
    var presence := PresenceBits(fields, vals, 0);
    var v := ValueOf(presence) % TWO64;
    BitmapIsLast64(fields, vals, 0);
    CutTo64(presence);
    PresenceCount(fields, vals, 0);
    assert v < Pow2(|presence|) by {
      CutFits(presence);
    }
    ValueOfBitsOf(v, |presence|);
    if |presence| == 0 {
      assert w + Bitmap(fields, vals, 0) == w;
    }
  }

  lemma CutFits(bits: Bits)
    ensures ValueOf(bits) % TWO64 < Pow2(|bits|)
  {
    hide ValueOf;
    assert ValueOf(bits) % TWO64 <= ValueOf(bits);
  }

  lemma {:induction false} BitmapTail(fields: seq<Field>, vals: seq<Option<Value>>, i: nat)
    requires i <= |fields| == |vals|
    ensures var all, tail := Bitmap(fields, vals, 0), Bitmap(fields, vals, i);
            |tail| <= |all| && tail == all[|all| - |tail|..] && |tail| == OptionalCount(fields, i)
    decreases i
  {
    BitmapIsLast64(fields, vals, i);
    PresenceCount(fields, vals, i);
    if i > 0 {
      BitmapTail(fields, vals, i - 1);
    }
  }

  /** Whether the field loop passes over a field. */
  predicate LeftOut(fields: seq<Field>, vals: seq<Option<Value>>, i: nat)
    requires i < |fields| == |vals|
  {
    fields[i].optional && (vals[i].None? || OptionalCount(fields, i + 1) >= 64)
  }

  lemma BitmapTells(fields: seq<Field>, vals: seq<Option<Value>>, i: nat)
    requires i < |fields| == |vals|
    ensures var presents, rest := ValueOf(Bitmap(fields, vals, 0)), OptionalCount(fields, i + 1);
            && Skipped(fields[i], presents, rest) == LeftOut(fields, vals, i)
            && OptionalCount(fields, i) == if fields[i].optional then rest + 1 else rest
  {
    hide ValueOf, TestBit;
    var all := Bitmap(fields, vals, 0);
    BitmapTail(fields, vals, i);
    BitmapTail(fields, vals, i + 1);
    if fields[i].optional {
      var tail := Bitmap(fields, vals, i);
      TestBitOf(all, |tail| - 1);
      assert tail[0] == all[|all| - |tail|];
    }
  }

  // ---------------------------------------------------------------------- references

  /** An integer held directly, by the first field of a SEQUENCE, or by the chosen alternative of a CHOICE. */
  predicate Carries(schema: Schema, v: Value, r: Int64)
    decreases schema
  {
    || (schema.Integer? && v == VInt(r))
    || (schema.Sequence? && v.VStruct? && |schema.fields| > 0 && |v.fields| > 0 && !schema.fields[0].optional
        && v.fields[0].Some? && Carries(schema.fields[0].schema, v.fields[0].value, r))
    || (schema.Choice? && v.VChoice? && 1 <= v.present <= |schema.alts|
        && Carries(schema.alts[v.present - 1], v.v, r))
  }

  lemma {:induction false} CarriesExact(schema: Schema, v: Value, r: Int64)
    ensures RefValue(schema, v) == Some(r) <==> Carries(schema, v, r)
    decreases schema
  {
    match (schema, v)
    case (Sequence(_, fields), VStruct(vals)) =>
      if |fields| > 0 && |vals| > 0 && vals[0].Some? {
        CarriesExact(fields[0].schema, vals[0].value, r);
      }
    case (Choice(_, _, alts), VChoice(present, x)) =>
      if 1 <= present <= |alts| {
        CarriesExact(alts[present - 1], x, r);
      }
    case _ =>
  }

  /** Field `k` is the first one of that name. */
  predicate FirstNamed(fields: seq<Field>, n: nat, name: string, k: nat)
    requires n <= |fields|
  {
    k < n && fields[k].name == name && forall j :: 0 <= j < k ==> fields[j].name != name
  }

  /** The first field of that name is mandatory, there, and holds the integer. */
  predicate RefersTo(fields: seq<Field>, vals: seq<Option<Value>>, name: string, r: Int64)
    requires |vals| <= |fields|
  {
    exists k :: 0 <= k < |vals| && FirstNamed(fields, |vals|, name, k) && !fields[k].optional && vals[k].Some?
                && Carries(fields[k].schema, vals[k].value, r)
  }

  lemma {:induction false} LookupFirst(fields: seq<Field>, vals: seq<Option<Value>>, name: string, k: nat)
    requires |vals| <= |fields| && FirstNamed(fields, |vals|, name, k)
    ensures LookupRef(fields, vals, name) ==
            if fields[k].optional || vals[k].None? then None else RefValue(fields[k].schema, vals[k].value)
    decreases |vals|
  {
    hide RefValue;
    if k > 0 {
      assert FirstNamed(fields[1..], |vals[1..]|, name, k - 1);
      LookupFirst(fields[1..], vals[1..], name, k - 1);
    }
  }

  lemma {:induction false} LookupNone(fields: seq<Field>, vals: seq<Option<Value>>, name: string)
    requires |vals| <= |fields| && forall k :: 0 <= k < |vals| ==> fields[k].name != name
    ensures LookupRef(fields, vals, name) == None
    decreases |vals|
  {
    if vals != [] {
      LookupNone(fields[1..], vals[1..], name);
    }
  }

  /** The first field of a name, or proof that there is none. */
  lemma {:induction false} FindFirst(fields: seq<Field>, n: nat, name: string) returns (k: nat)
    requires n <= |fields|
    ensures k <= n && (k < n ==> FirstNamed(fields, n, name, k))
    ensures k == n ==> forall j :: 0 <= j < n ==> fields[j].name != name
  {
    k := 0;
    while k < n && fields[k].name != name
      invariant k <= n && forall j :: 0 <= j < k ==> fields[j].name != name
    {
      k := k + 1;
    }
  }

  /**
    An open type refers to the integer r if and only if the first earlier field of the name
    is mandatory, there, and holds r; otherwise it has no reference.
  */
  lemma LookupExact(fields: seq<Field>, vals: seq<Option<Value>>, name: string, r: Int64)
    requires |vals| <= |fields|
    ensures LookupRef(fields, vals, name) == Some(r) <==> RefersTo(fields, vals, name, r)
  {
    hide LookupRef, Carries, RefValue;
    var k := FindFirst(fields, |vals|, name);
    if k < |vals| {
      LookupFirst(fields, vals, name, k);
      if vals[k].Some? {
        CarriesExact(fields[k].schema, vals[k].value, r);
      }
      assert forall j :: FirstNamed(fields, |vals|, name, j) ==> j == k;
    } else {
      LookupNone(fields, vals, name);
    }
  }

  // ------------------------------------------------------------------ the whole tree

  /** Whether a value of a type is accepted at bit `at`; `ref` is what an open type refers to. */
  predicate Accepts(schema: Schema, v: Value, ref: Option<Int64>, at: nat)
    decreases schema, 0
  {
    match (schema, v)
    case (Boolean, VBool(_)) => true
    case (Integer(ext, lb, ub), VInt(i)) => IntegerAccepted(i, ext, lb, ub)
    case (Enumerated(_, lb, ub), VEnum(e)) => EnumeratedAccepted(e, lb, ub)
    case (BitStr(ext, lb, ub), VBits(bits, extra, spare)) =>
      StringAccepted(1, |bits|, OctetsFor(|bits|) + |extra| + |spare|, ext, lb, ub, at)
    case (OctetStr(ext, lb, ub), VOctets(o, spare)) => StringAccepted(8, |o|, |o| + |spare|, ext, lb, ub, at)
    case (SequenceOf(ext, lb, ub, elem), VList(vs)) =>
      CountAccepted(|vs|, ext, lb, ub) && AcceptsElems(elem, vs, at + |CountField(|vs|, ext, lb, ub, at)|)
    case (Sequence(ext, fields), VStruct(vals)) =>
      && |fields| == |vals| && MandatoryPresent(fields, vals)
      && AcceptsFields(fields, vals, 0, at + (if ext then 1 else 0) + OptionalCount(fields, 0))
    case (Choice(ext, ub, alts), VChoice(present, x)) =>
      && 1 <= present <= |alts| && ChoiceAccepted(present, ext, ub)
      && Accepts(alts[present - 1], x, None, IndexEnd(ext, ub.value, present, at))
    case (OpenType(_, cases), VChoice(present, x)) =>
      && 1 <= present <= |cases| && ref.Some? && cases[present - 1].ref == ref
      && Accepts(cases[present - 1].schema, x, None, 0)
    case _ => false
  }

  /** Where the index of a CHOICE ends, its extension bit included. */
  function IndexEnd(ext: bool, ub: Int64, present: nat, at: nat): (end: nat)
    requires present >= 1
  {
    var p := if ext then at + 1 else at;
    p + |NumberBits(ub + 1, present - 1, p)|
  }

  predicate AcceptsElems(elem: Schema, vs: seq<Value>, at: nat)
    decreases elem, |vs| + 1
  {
    vs == [] || (Accepts(elem, vs[0], None, at) && AcceptsElems(elem, vs[1..], EndOf(elem, vs[0], at)))
  }

  /** The fields from `i` on; an open type must be the case whose reference value an earlier field holds. */
  predicate AcceptsFields(fields: seq<Field>, vals: seq<Option<Value>>, i: nat, at: nat)
    requires i <= |fields| == |vals|
    decreases fields, |fields| - i
  {
    i == |fields| ||
    if LeftOut(fields, vals, i) then AcceptsFields(fields, vals, i + 1, at)
    else
      var f := fields[i];
      assert fields decreases to f;
      && vals[i].Some?
      && (if f.schema.OpenType?
          then RefersToCase(fields, vals[..i], f.schema, vals[i].value)
               && Accepts(f.schema, vals[i].value, CaseRef(f.schema, vals[i].value), at)
          else Accepts(f.schema, vals[i].value, None, at))
      && AcceptsFields(fields, vals, i + 1, EndOf(f.schema, vals[i].value, at))
  }

  /** The reference value of the chosen case of an open type. */
  function CaseRef(schema: Schema, v: Value): (r: Option<Int64>)
    requires schema.OpenType?
  {
    if v.VChoice? && 1 <= v.present <= |schema.cases| then schema.cases[v.present - 1].ref else None
  }

  predicate RefersToCase(fields: seq<Field>, earlier: seq<Option<Value>>, schema: Schema, v: Value)
    requires schema.OpenType? && |earlier| <= |fields|
  {
    CaseRef(schema, v).Some? && RefersTo(fields, earlier, schema.refName, CaseRef(schema, v).value)
  }

  /** The bit behind an accepted value. */
  function EndOf(schema: Schema, v: Value, at: nat): (end: nat)
    decreases schema, 0
  {
    match (schema, v)
    case (Boolean, VBool(_)) => at + 1
    case (Integer(ext, lb, ub), VInt(i)) =>
      if IntegerAccepted(i, ext, lb, ub) then at + |IntegerBits(i, ext, lb, ub, at)| else at
    case (Enumerated(ext, lb, ub), VEnum(e)) =>
      if lb.Some? && ub.Some? then at + |EnumeratedBits(e, ext, lb, ub, at)| else at
    case (BitStr(ext, lb, ub), VBits(bits, extra, _)) => StringEnd(1, |bits|, |extra|, ext, lb, ub, at)
    case (OctetStr(ext, lb, ub), VOctets(o, _)) => StringEnd(8, |o|, 0, ext, lb, ub, at)
    case (SequenceOf(ext, lb, ub, elem), VList(vs)) =>
      if LowerCount(lb) <= |vs| then ElemsEnd(elem, vs, at + |CountField(|vs|, ext, lb, ub, at)|) else at
    case (Sequence(ext, fields), VStruct(vals)) =>
      if |fields| == |vals|
      then FieldsEnd(fields, vals, 0, at + (if ext then 1 else 0) + OptionalCount(fields, 0)) else at
    case (Choice(ext, ub, alts), VChoice(present, x)) =>
      if 1 <= present <= |alts| && ub.Some? then EndOf(alts[present - 1], x, IndexEnd(ext, ub.value, present, at))
      else at
    case (OpenType(_, cases), VChoice(present, x)) =>
      if 1 <= present <= |cases|
      then FragmentEnd(at, 8, -1, 0, OctetsFor(EndOf(cases[present - 1].schema, x, 0))) else at
    case _ => at
  }

  function ElemsEnd(elem: Schema, vs: seq<Value>, at: nat): (end: nat)
    decreases elem, |vs| + 1
  {
    if vs == [] then at else ElemsEnd(elem, vs[1..], EndOf(elem, vs[0], at))
  }

  function FieldsEnd(fields: seq<Field>, vals: seq<Option<Value>>, i: nat, at: nat): (end: nat)
    requires i <= |fields| == |vals|
    decreases fields, |fields| - i
  {
    if i == |fields| then at
    else if LeftOut(fields, vals, i) then FieldsEnd(fields, vals, i + 1, at)
    else
      var f := fields[i];
      assert fields decreases to f;
      FieldsEnd(fields, vals, i + 1, if vals[i].Some? then EndOf(f.schema, vals[i].value, at) else at)
  }

  /**
    For every schema, value and reference, at every bit of a buffer: the encoder accepts the
    value if and only if `Accepts` holds, whatever was written before, and then the encoding
    ends at `EndOf`.
  */
  lemma {:induction false} AcceptExact(schema: Schema, v: Value, ref: Option<Int64>, w: Bits)
    ensures Agrees(Encode(schema, v, ref, w), Accepts(schema, v, ref, |w|), EndOf(schema, v, |w|))
    decreases schema, 0
  {
    hide Encode, Accepts, EndOf;
    match schema
    case SequenceOf(_, _, _, _) =>
      ListExact(schema, v, ref, w);
    case Sequence(_, _) =>
      StructExact(schema, v, ref, w);
    case Choice(_, _, _) =>
      ChoiceExact(schema, v, ref, w);
    case OpenType(_, _) =>
      OpenExact(schema, v, ref, w);
    case Boolean =>
      NumberExact(schema, v, ref, w);
    case Integer(_, _, _) =>
      NumberExact(schema, v, ref, w);
    case Enumerated(_, _, _) =>
      NumberExact(schema, v, ref, w);
    case BitStr(_, _, _) =>
      BitStrExact(schema, v, ref, w);
    case OctetStr(_, _, _) =>
      OctetStrExact(schema, v, ref, w);
  }

  lemma NumberExact(schema: Schema, v: Value, ref: Option<Int64>, w: Bits)
    requires schema.Boolean? || schema.Integer? || schema.Enumerated?
    ensures Agrees(Encode(schema, v, ref, w), Accepts(schema, v, ref, |w|), EndOf(schema, v, |w|))
  {
    hide PutInteger, IntegerAccepted, IntegerBits, PutEnumerated, EnumeratedAccepted, EnumeratedBits;
    match (schema, v)
    case (Integer(ext, lb, ub), VInt(i)) =>
      IntegerFormat(w, i, ext, lb, ub);
    case (Enumerated(ext, lb, ub), VEnum(e)) =>
      EnumeratedFormat(w, e, ext, lb, ub);
      EnumeratedHasBounds(e, lb, ub);
    case _ =>
  }

  lemma EnumeratedHasBounds(e: nat, lb: Option<Int64>, ub: Option<Int64>)
    ensures EnumeratedAccepted(e, lb, ub) ==> lb.Some? && ub.Some?
  {
  }

  lemma BitStrExact(schema: Schema, v: Value, ref: Option<Int64>, w: Bits)
    requires schema.BitStr?
    ensures Agrees(Encode(schema, v, ref, w), Accepts(schema, v, ref, |w|), EndOf(schema, v, |w|))
  {
    hide EncodeSized, StringAccepted, StringEnd, OctetsFor;
    if v.VBits? {
      StringExact(w, 1, InOctets(v.bits), BytesToBits(v.extra), BytesToBits(v.spare), |v.bits|, schema.ext, schema.lb,
                  schema.ub, |v.extra|, OctetsFor(|v.bits|) + |v.extra| + |v.spare|);
    }
  }

  lemma OctetStrExact(schema: Schema, v: Value, ref: Option<Int64>, w: Bits)
    requires schema.OctetStr?
    ensures Agrees(Encode(schema, v, ref, w), Accepts(schema, v, ref, |w|), EndOf(schema, v, |w|))
  {
    hide EncodeSized, StringAccepted, StringEnd;
    if v.VOctets? {
      assert OctetsFor(8 * |v.octets|) == |v.octets|;
      StringExact(w, 8, BytesToBits(v.octets), [], BytesToBits(v.spare), |v.octets|, schema.ext, schema.lb, schema.ub,
                  0, |v.octets| + |v.spare|);
    }
  }

  lemma {:induction false} ListExact(schema: Schema, v: Value, ref: Option<Int64>, w: Bits)
    requires schema.SequenceOf?
    ensures Agrees(Encode(schema, v, ref, w), Accepts(schema, v, ref, |w|), EndOf(schema, v, |w|))
    decreases schema.elem, if v.VList? then |v.elems| + 2 else 0
  {
    hide PutCount, EncodeElems, AcceptsElems, ElemsEnd, CountField, CountAccepted;
    if v.VList? {
      var n, ext, lb, ub := |v.elems|, schema.ext, schema.lb, schema.ub;
      CountFormat(w, n, ext, lb, ub);
      CountHasLower(n, ext, lb, ub);
      if CountAccepted(n, ext, lb, ub) {
        ElemsExact(schema.elem, v.elems, w + CountField(n, ext, lb, ub, |w|));
      }
    }
  }

  lemma CountHasLower(n: nat, ext: bool, lb: Option<nat>, ub: Option<nat>)
    ensures CountAccepted(n, ext, lb, ub) ==> LowerCount(lb) <= n
  {
  }

  lemma {:induction false} ElemsExact(elem: Schema, vs: seq<Value>, w: Bits)
    ensures Agrees(EncodeElems(elem, vs, w), AcceptsElems(elem, vs, |w|), ElemsEnd(elem, vs, |w|))
    decreases elem, |vs| + 1
  {
    hide Encode, Accepts, EndOf;
    if vs != [] {
      AcceptExact(elem, vs[0], None, w);
      var r := Encode(elem, vs[0], None, w);
      if r.Some? {
        ElemsExact(elem, vs[1..], r.value);
      }
    }
  }

  lemma {:induction false} StructExact(schema: Schema, v: Value, ref: Option<Int64>, w: Bits)
    requires schema.Sequence?
    ensures Agrees(Encode(schema, v, ref, w), Accepts(schema, v, ref, |w|), EndOf(schema, v, |w|))
    decreases schema.fields, |schema.fields| + 2
  {
    hide PresenceBits, ValueOf, PutValue, EncodeFields, AcceptsFields, FieldsEnd, OptionalCount, Bitmap,
    MandatoryPresent;
    if v.VStruct? && |schema.fields| == |v.fields| {
      var fields, vals := schema.fields, v.fields;
      var w1 := if schema.ext then w + [false] else w;
      BitmapWritten(fields, vals, w1);
      if MandatoryPresent(fields, vals) {
        FieldsExact(fields, vals, 0, w1 + Bitmap(fields, vals, 0));
      }
    }
  }

  lemma {:induction false} FieldsExact(fields: seq<Field>, vals: seq<Option<Value>>, i: nat, w: Bits)
    requires i <= |fields| == |vals| && MandatoryPresent(fields, vals)
    ensures Agrees(EncodeFields(fields, vals, i, ValueOf(Bitmap(fields, vals, 0)), OptionalCount(fields, i), w),
                   AcceptsFields(fields, vals, i, |w|), FieldsEnd(fields, vals, i, |w|))
    decreases fields, |fields| - i
  {
    hide Encode, Accepts, EndOf, ValueOf, Bitmap, OptionalCount, Skipped, LeftOut, RefersToCase, CaseRef, RefFor,
    MandatoryPresent;
    if i == |fields| {
      NoCountLeft(fields);
    } else {
      hide EncodeFields;
      var f, presents, rest := fields[i], ValueOf(Bitmap(fields, vals, 0)), OptionalCount(fields, i + 1);
      assert fields decreases to f;
      BitmapTells(fields, vals, i);
      TurnExact(fields, vals, i, presents, rest, w);
      if LeftOut(fields, vals, i) {
        FieldsExact(fields, vals, i + 1, w);
      } else {
        PresentUnlessLeftOut(fields, vals, i);
        var x, ref := vals[i].value, RefFor(fields, vals[..i]);
        FieldReference(fields, vals, i, |w|);
        AcceptExact(f.schema, x, ref, w);
        var r := Encode(f.schema, x, ref, w);
        if r.Some? {
          FieldsExact(fields, vals, i + 1, r.value);
        }
      }
    }
  }

  lemma NoCountLeft(fields: seq<Field>)
    ensures OptionalCount(fields, |fields|) == 0
  {
  }

  lemma PresentUnlessLeftOut(fields: seq<Field>, vals: seq<Option<Value>>, i: nat)
    requires i < |fields| == |vals| && MandatoryPresent(fields, vals) && !LeftOut(fields, vals, i)
    ensures vals[i].Some?
  {
  }

  /** One turn of the field loop, in both directions. */
  lemma TurnExact(fields: seq<Field>, vals: seq<Option<Value>>, i: nat, presents: nat, rest: nat, w: Bits)
    requires i < |fields| == |vals|
    ensures var all := EncodeFields(fields, vals, i, presents, if fields[i].optional then rest + 1 else rest, w);
            if Skipped(fields[i], presents, rest) then all == EncodeFields(fields, vals, i + 1, presents, rest, w)
            else if vals[i].None? || (fields[i].schema.OpenType? && RefFor(fields, vals[..i]).None?) then all.None?
            else
              var one := Encode(fields[i].schema, vals[i].value, RefFor(fields, vals[..i]), w);
              if one.None? then all.None? else all == EncodeFields(fields, vals, i + 1, presents, rest, one.value)
  {
    hide Encode, TestBit, LookupRef;
  }

  /** Looking up the reference and comparing it with the case is asking for the integer of the case. */
  lemma FieldReference(fields: seq<Field>, vals: seq<Option<Value>>, i: nat, at: nat)
    requires i < |fields| == |vals| && vals[i].Some?
    ensures var schema, x, ref := fields[i].schema, vals[i].value, RefFor(fields, vals[..i]);
            if schema.OpenType? then
              ref.Some? && Accepts(schema, x, ref, at)
              <==> RefersToCase(fields, vals[..i], schema, x) && Accepts(schema, x, CaseRef(schema, x), at)
            else ref == None
  {
    hide LookupRef, RefersTo;
    var schema, x, ref := fields[i].schema, vals[i].value, RefFor(fields, vals[..i]);
    if schema.OpenType? && CaseRef(schema, x).Some? {
      LookupExact(fields, vals[..i], schema.refName, CaseRef(schema, x).value);
    }
  }

  lemma {:induction false} ChoiceExact(schema: Schema, v: Value, ref: Option<Int64>, w: Bits)
    requires schema.Choice?
    ensures Agrees(Encode(schema, v, ref, w), Accepts(schema, v, ref, |w|), EndOf(schema, v, |w|))
    decreases schema.alts, 1
  {
    hide PutChoiceIndex, ChoiceAccepted, NumberBits, Encode, Accepts, EndOf, IndexEnd;
    ChoiceUnfolds(schema, v, ref, w);
    if v.VChoice? && 1 <= v.present <= |schema.alts| {
      var alt := schema.alts[v.present - 1];
      assert schema.alts decreases to alt;
      var w1 := if schema.ext then w + [false] else w;
      ChoiceFormat(w1, v.present, schema.ext, schema.vub);
      ChoiceHasBound(v.present, schema.ext, schema.vub);
      if ChoiceAccepted(v.present, schema.ext, schema.vub) {
        IndexEndIs(schema.ext, schema.vub.value, v.present, w);
        AcceptExact(alt, v.v, None, w1 + NumberBits(schema.vub.value + 1, v.present - 1, |w1|));
      }
    }
  }

  lemma IndexEndIs(ext: bool, ub: Int64, present: nat, w: Bits)
    requires present >= 1
    ensures var w1 := if ext then w + [false] else w;
            IndexEnd(ext, ub, present, |w|) == |w1| + |NumberBits(ub + 1, present - 1, |w1|)|
  {
    hide NumberBits;
  }

  lemma ChoiceUnfolds(schema: Schema, v: Value, ref: Option<Int64>, w: Bits)
    requires schema.Choice?
    ensures !v.VChoice? || v.present == 0 || v.present > |schema.alts| ==>
              Encode(schema, v, ref, w).None? && !Accepts(schema, v, ref, |w|)
    ensures v.VChoice? && 1 <= v.present <= |schema.alts| ==>
              var alt, present, ub := schema.alts[v.present - 1], v.present, schema.vub;
              var w1 := PutChoiceIndex(if schema.ext then w + [false] else w, present, schema.ext, ub);
              && Encode(schema, v, ref, w) == (if w1.None? then None else Encode(alt, v.v, None, w1.value))
              && (ub.None? ==> !Accepts(schema, v, ref, |w|))
              && (ub.Some? ==>
                    var end := IndexEnd(schema.ext, ub.value, present, |w|);
                    && Accepts(schema, v, ref, |w|) == (ChoiceAccepted(present, schema.ext, ub)
                                                        && Accepts(alt, v.v, None, end))
                    && EndOf(schema, v, |w|) == EndOf(alt, v.v, end))
  {
    hide PutChoiceIndex, NumberBits, IndexEnd;
  }

  lemma ChoiceHasBound(present: nat, ext: bool, ub: Option<Int64>)
    requires present >= 1
    ensures ChoiceAccepted(present, ext, ub) ==> ub.Some?
  {
  }

  lemma {:induction false} OpenExact(schema: Schema, v: Value, ref: Option<Int64>, w: Bits)
    requires schema.OpenType?
    ensures Agrees(Encode(schema, v, ref, w), Accepts(schema, v, ref, |w|), EndOf(schema, v, |w|))
    decreases schema.cases, 1
  {
    hide PutFragments, Smeared, Marks, FragmentEnd, OctetsFor, Encode, Accepts, EndOf;
    OpenUnfolds(schema, v, ref, w);
    if Chosen(schema, v, ref) {
      var c := schema.cases[v.present - 1];
      assert schema.cases decreases to c;
      AcceptExact(c.schema, v.v, None, []);
      var inner := Encode(c.schema, v.v, None, []);
      if inner.Some? {
        WrappedAccepted(w, Smeared(InOctets(inner.value), Marks(c.schema, v.v, None, [])), OctetsFor(|inner.value|));
      }
    }
  }

  /** The case that the value has chosen is the one referred to. */
  predicate Chosen(schema: Schema, v: Value, ref: Option<Int64>)
    requires schema.OpenType?
  {
    v.VChoice? && 1 <= v.present <= |schema.cases| && ref.Some? && schema.cases[v.present - 1].ref == ref
  }

  lemma OpenUnfolds(schema: Schema, v: Value, ref: Option<Int64>, w: Bits)
    requires schema.OpenType?
    ensures !Chosen(schema, v, ref) ==> Encode(schema, v, ref, w).None? && !Accepts(schema, v, ref, |w|)
    ensures Chosen(schema, v, ref) ==>
              var c := schema.cases[v.present - 1].schema;
              var inner := Encode(c, v.v, None, []);
              && Accepts(schema, v, ref, |w|) == Accepts(c, v.v, None, 0)
              && EndOf(schema, v, |w|) == FragmentEnd(|w|, 8, -1, 0, OctetsFor(EndOf(c, v.v, 0)))
              && (inner.None? ==> Encode(schema, v, ref, w).None?)
              && (inner.Some? ==>
                    Encode(schema, v, ref, w) ==
                    PutFragments(w, 8, -1, 0, Smeared(InOctets(inner.value), Marks(c, v.v, None, [])),
                                 OctetsFor(|inner.value|)))
  {
    hide PutFragments, Smeared, Marks, FragmentEnd, OctetsFor;
  }

  lemma WrappedAccepted(w: Bits, data: Bits, n: nat)
    requires |data| == 8 * n
    ensures var r := PutFragments(w, 8, -1, 0, data, n);
            r.Some? && |r.value| == FragmentEnd(|w|, 8, -1, 0, n)
  {
    hide PutFragments, FragmentEnd;
    assert OctetsFor(Scale(8, n)) == n;
    AcceptedWithoutBound(w, 8, data, n);
    FragmentsEndThere(w, 8, -1, 0, data, n, PutFragments(w, 8, -1, 0, data, n).value);
  }
}
