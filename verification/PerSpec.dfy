/**
  What the aligned PER primitives write to, and read from, a bit string.
  The writer's functions map the bits written so far to the bits written after
  the call; `None` stands for an error return or a run-time panic.  The reader's
  functions map a bit string and a position to a value and the next position.
*/
module PerSpec {
  import opened Wrappers
  import opened PerBits

  type Int64 = x: int | -0x8000_0000_0000_0000 <= x < 0x8000_0000_0000_0000
  const TWO64: nat := 0x1_0000_0000_0000_0000

  /** Go's conversion of an integer to `int64`: two's complement wrap-around. */
  function Wrap64(x: int): (r: Int64) {
    (x + 0x8000_0000_0000_0000) % TWO64 - 0x8000_0000_0000_0000
  }

  // ------------------------------------------------------------ shared by both sides

  /** The loops "for i = 1; i <= 8" that look for the first power of two reaching `range`. */
  function BitsForRangeFrom(range: int, i: nat): (n: nat)
    requires 1 <= i <= 9
    ensures i <= n <= 9
    decreases 9 - i
  {
    if i == 9 || Pow2(i) >= range then i else BitsForRangeFrom(range, i + 1)
  }

  function BitsForRange(range: int): (n: nat)
    ensures 1 <= n <= 9
  {
    BitsForRangeFrom(range, 1)
  }

  /** Octets counted by "for n = 1; u != 0; n++ { u >>= 8 }". */
  function OctetCount(u: nat): (n: nat)
    ensures n >= 1
  {
    if u == 0 then 1 else 1 + OctetCount(u / 256)
  }

  /** The writer's octet count of an INTEGER range: it stops at a quotient of 0 or 1. */
  function WriterRangeOctets(r: nat): (n: nat)
    ensures n >= 1
  {
    if r / 256 <= 1 then 1 else 1 + WriterRangeOctets(r / 256)
  }

  /** The reader's octet count of the same range: it stops at a quotient of 0. */
  function ReaderRangeOctets(r: nat): (n: nat)
    ensures n >= 1
  {
    if r / 256 == 0 then 1 else 1 + ReaderRangeOctets(r / 256)
  }

  /** `value` for a non-negative number, `-value - 1` for a negative one. */
  function Magnitude(value: int): (m: nat) {
    if value >= 0 then value else -value - 1
  }

  // ------------------------------------------------------------------------- writer

  /** `numBits` bits of a number; refused when the number needs more. */
  function PutValue(w: Bits, v: nat, n: nat): (r: Option<Bits>)
    ensures r.Some? ==> w <= r.value && |r.value| == |w| + n
  {
    if n == 0 then Some(w) else if v < Pow2(n) then Some(w + BitsOf(v, n)) else None
  }

  /** A string of bits that is not aligned first; an empty one is refused off an octet boundary. */
  function PutString(w: Bits, bits: Bits): (r: Option<Bits>)
    ensures r.Some? ==> w <= r.value && |r.value| == |w| + |bits|
  {
    if bits == [] && |w| % 8 != 0 then None else Some(w + bits)
  }

  function PutConstrained(w: Bits, range: int, v: nat): (r: Option<Bits>)
    ensures r.Some? ==> w <= r.value && |w| < |r.value|
  {
    if range < 0 then None
    else if range <= 255 then PutValue(w, v, BitsForRange(range))
    else if range == 256 then PutValue(Aligned(w), v, 8)
    else if range <= 65536 then PutValue(Aligned(w), v, 16)
    else None
  }

  /** `k | 0xc0`. */
  function WithTopBits(k: nat): (r: nat) {
    k / 256 * 256 + 0xc0 + k % 64
  }

  function PutLength(w: Bits, sizeRange: int, v: nat): (r: Option<Bits>)
    ensures r.Some? ==> w <= r.value && |w| < |r.value|
  {
    if 0 < sizeRange <= 65536 then PutConstrained(w, sizeRange, v)
    else if v <= 127 then PutValue(Aligned(w), v, 8)
    else if v <= 16383 then PutValue(Aligned(w), 0x8000 + v, 16)
    else PutValue(Aligned(w), WithTopBits(v / 16384), 8)
  }

  /** Bits in `n` units, `unit` being 8 for octet strings and 1 for bit strings. */
  function Scale(unit: nat, n: nat): (bits: nat)
    ensures unit == 8 ==> bits % 8 == 0
  {
    if unit == 8 then 8 * n else n
  }

  /** Size of the next fragment; `raw & 0xc000` of a number up to 65536 drops bit 16. */
  function FragmentSize(raw: nat): (part: nat)
    ensures part <= raw && part <= 65536
  {
    if raw > 65536 then 65536
    else if raw >= 16384 then raw / 16384 % 4 * 16384
    else raw
  }

  /**
    The fragmentation loop.  `data` are the bits of the octets from here to the end of the
    slice's capacity, which is what Go bounds a slice expression by; `unit` is 8 for octet
    strings and 1 for bit strings, and `raw` counts units.
  */
  function PutFragments(w: Bits, unit: nat, sizeRange: int, lb: nat, data: Bits, raw: nat): (r: Option<Bits>)
    requires unit == 1 || unit == 8
    ensures r.Some? ==> w <= r.value && |w| < |r.value|
    decreases |data|
  {
    var part := FragmentSize(raw);
    var n := part + lb;
    match PutLength(w, sizeRange, part)
    case None => None
    case Some(w1) =>
      if n == 0 then Some(w1)
      else
        var take := 8 * OctetsFor(Scale(unit, n));
        if take > |data| then None
        else if raw - part > 0 then
          PutFragments(Aligned(w1) + data[..take], unit, sizeRange, lb, data[take..], raw - part)
        else Some(Aligned(w1) + data[..Scale(unit, n)])
  }

  const TWO63: nat := 0x8000_0000_0000_0000

  /** Go's `uint64` subtraction. */
  function Minus64(a: nat, b: nat): (r: nat)
    requires a < TWO64 && b < TWO64
    ensures r < TWO64
  {
    if a >= b then a - b else TWO64 + a - b
  }

  /**
    BIT STRING (`unit` 1) and OCTET STRING (`unit` 8) of `len` units held in the octets
    `data`.  The slice goes on for the octets `extra`, which a BIT STRING does not need, and
    its capacity for the octets `spare`.
  */
  function PutSized(w: Bits, unit: nat, data: Bits, extra: Bits, spare: Bits, len: nat, ext: bool,
                    lb: Option<nat>, ub: Option<nat>)
    : (r: Option<Bits>)
    requires unit == 1 || unit == 8
    requires |data| == 8 * OctetsFor(Scale(unit, len))
    requires len < TWO64 && (lb.Some? ==> lb.value < TWO63)
    ensures r.Some? ==> w <= r.value
  {
    var bounded := lb.Some? && ub.Some?;
    var inside := bounded && len <= ub.value;
    if bounded && !inside && !ext then None
    else
      var extended := bounded && ext && (!inside || ub.value - lb.value + 1 == -1);
      var w1 := if bounded && ext then w + [extended] else w;
      var low := if lb.Some? && !extended then lb.value else 0;
      var sizeRange := if inside && ub.value <= 65535 then ub.value - lb.value + 1 else -1;
      if sizeRange == 1 then PutFixed(w1, unit, data, extra, len, ub.value)
      else PutFragments(w1, unit, sizeRange, low, data + extra + spare, Minus64(len, low))
  }

  /** A string of fixed size: aligned only when longer than two octets, and a short BIT STRING is not measured. */
  function PutFixed(w: Bits, unit: nat, data: Bits, extra: Bits, len: nat, size: nat): (r: Option<Bits>)
    requires |data| == 8 * OctetsFor(Scale(unit, len))
    ensures r.Some? ==> w <= r.value
  {
    if OctetsFor(Scale(unit, len)) > 2 then
      if len != size then None else Some(Aligned(w) + WholeSlice(unit, data, extra, len))
    else if unit == 8 && len != size then None
    else PutString(w, data[..Scale(unit, len)])
  }

  /** A long string of fixed size takes all octets of the slice, less the unused bits of one. */
  function WholeSlice(unit: nat, data: Bits, extra: Bits, len: nat): (bits: Bits)
    requires |data| == 8 * OctetsFor(Scale(unit, len))
    ensures extra == [] ==> bits == data[..Scale(unit, len)]
    ensures |bits| == Scale(unit, len) + |extra|
  {
    (data + extra)[..Scale(unit, len) + |extra|]
  }

  // ----------------------------------------------------------- remnants of a slice

  /** Bits that are set at some positions whatever they were to be. */
  function Smeared(bits: Bits, marks: set<nat>): (r: Bits)
    ensures |r| == |bits| && forall i :: 0 <= i < |bits| ==> r[i] == (bits[i] || i in marks)
    ensures marks == {} ==> r == bits
  {
    seq(|bits|, i requires 0 <= i < |bits| => bits[i] || i in marks)
  }

  /** The bits that octets written from `start` on leave set behind the `n` bits in use. */
  function TailMarks(start: nat, chunk: Bits, n: nat): (marks: set<nat>) {
    set k: nat | start + n <= k < start + |chunk| && SetAt(chunk, start, k)
  }

  predicate SetAt(chunk: Bits, start: nat, k: nat) {
    start <= k < start + |chunk| && chunk[k - start]
  }

  /** What `PutFragments` leaves behind its last unit. */
  function FragmentMarks(w: Bits, unit: nat, sizeRange: int, lb: nat, data: Bits, raw: nat): (marks: set<nat>)
    requires unit == 1 || unit == 8
    decreases |data|
  {
    var part := FragmentSize(raw);
    var n := part + lb;
    var take := 8 * OctetsFor(Scale(unit, n));
    var length := PutLength(w, sizeRange, part);
    if length.None? || n == 0 || take > |data| then {}
    else if raw - part > 0 then
      FragmentMarks(Aligned(length.value) + data[..take], unit, sizeRange, lb, data[take..], raw - part)
    else TailMarks(|Aligned(length.value)|, data[..take], Scale(unit, n))
  }

  /** What `PutFixed` leaves behind the string. */
  function FixedMarks(w: Bits, unit: nat, data: Bits, extra: Bits, len: nat): (marks: set<nat>) {
    if OctetsFor(Scale(unit, len)) > 2 then TailMarks(|Aligned(w)|, data + extra, Scale(unit, len) + |extra|) else {}
  }

  /** What `PutSized` leaves behind the string. */
  function SizedMarks(w: Bits, unit: nat, data: Bits, extra: Bits, spare: Bits, len: nat, ext: bool,
                      lb: Option<nat>, ub: Option<nat>)
    : (marks: set<nat>)
    requires unit == 1 || unit == 8
    requires |data| == 8 * OctetsFor(Scale(unit, len))
    requires len < TWO64 && (lb.Some? ==> lb.value < TWO63)
  {
    var bounded := lb.Some? && ub.Some?;
    var inside := bounded && len <= ub.value;
    var extended := bounded && ext && (!inside || ub.value - lb.value + 1 == -1);
    var w1 := if bounded && ext then w + [extended] else w;
    var low := if lb.Some? && !extended then lb.value else 0;
    var sizeRange := if inside && ub.value <= 65535 then ub.value - lb.value + 1 else -1;
    if sizeRange == 1 then FixedMarks(w1, unit, data, extra, len)
    else FragmentMarks(w1, unit, sizeRange, low, data + extra + spare, Minus64(len, low))
  }

  function PutInteger(w: Bits, value: Int64, ext: bool, lb: Option<Int64>, ub: Option<Int64>): (r: Option<Bits>)
    ensures r.Some? ==> w <= r.value
  {
    var bounded := lb.Some? && ub.Some?;
    if lb.Some? && value < lb.value then None
    else if bounded && value > ub.value && !ext then None
    else
      var low := if lb.Some? then lb.value else 0;
      var range0: int :=
        if lb.None? then -1 else if bounded && value <= ub.value then Wrap64(ub.value - low + 1) else 0;
      var extended := bounded && ext && range0 == 0;
      var range := if extended then -1 else range0;
      var w1 := if bounded && ext then w + [extended] else w;
      PutIntegerBody(w1, value, low, range)
  }

  /** An INTEGER of the given range; a range of 0 is semi-constrained, a negative one unconstrained. */
  function PutIntegerBody(w: Bits, value: Int64, low: Int64, range: int): (r: Option<Bits>)
    requires range >= 0 ==> low <= value
    ensures r.Some? ==> w <= r.value
  {
    if range == 1 then Some(w)
    else if range <= 0 then PutOctetCounted(w, value, low, range < 0)
    else if range <= 65536 then PutConstrained(w, range, value - low)
    else PutWide(w, value, low, range - 1)
  }

  /** Unconstrained (`signed`) and semi-constrained INTEGER: one length octet, then the number. */
  function PutOctetCounted(w: Bits, value: Int64, low: Int64, signed: bool): (r: Option<Bits>)
    requires !signed ==> low <= value
    ensures r.Some? ==> w <= r.value && |w| < |r.value|
  {
    var n := OctetCount(Magnitude(value) / 128);
    var w1 := Aligned(w) + BitsOf(n, 8);
    if signed then PutValue(w1, value % Pow2(8 * n), 8 * n) else PutValue(w1, value - low, 8 * n)
  }

  /** INTEGER with a range above 65536: a length field of few bits, then the offset from the bound. */
  function PutWide(w: Bits, value: Int64, low: Int64, r: nat): (res: Option<Bits>)
    requires low <= value
    ensures res.Some? ==> w <= res.value && |w| < |res.value|
  {
    var n := OctetCount(Magnitude(value) / 256);
    match PutValue(w, n - 1, BitsForRange(WriterRangeOctets(r)))
    case None => None
    case Some(w1) => PutValue(Aligned(w1), value - low, 8 * n)
  }

  function PutEnumerated(w: Bits, value: nat, ext: bool, lb: Option<Int64>, ub: Option<Int64>): (r: Option<Bits>)
    ensures r.Some? ==> w <= r.value
  {
    if lb.None? || ub.None? then None
    else if Wrap64(value) > ub.value || Wrap64(value) < lb.value then None
    else
      var w1 := if ext then w + [false] else w;
      var range: int := Wrap64(ub.value - lb.value + 1);
      if range > 1 then PutConstrained(w1, range, value) else Some(w1)
  }

  function PutChoiceIndex(w: Bits, present: nat, ext: bool, ub: Option<Int64>): (r: Option<Bits>)
    requires present >= 1
    ensures r.Some? ==> w <= r.value && |w| < |r.value|
  {
    if ub.None? || ub.value < 0 || (ext && present - 1 > ub.value) then None
    else PutConstrained(w, Wrap64(ub.value + 1), present - 1)
  }

  /** Element count of a SEQUENCE OF, its extension bit included. */
  function PutCount(w: Bits, n: nat, ext: bool, lb: Option<nat>, ub: Option<nat>): (r: Option<Bits>)
    ensures r.Some? ==> w <= r.value
  {
    var low := if lb.Some? && lb.value < 65536 then lb.value else 0;
    var bounded := ub.Some? && ub.value < 65536;
    var extended := bounded && ext && n > ub.value;
    if bounded && !ext && n > ub.value then None
    else
      var w1 := if bounded && ext then w + [extended] else w;
      var sizeRange := if bounded && !extended then ub.value - low + 1 else -1;
      if n < low then None
      else if sizeRange == 1 then (if n == ub.value then Some(w1) else None)
      else if sizeRange > 0 then PutConstrained(w1, sizeRange, n - low)
      else Some(Aligned(w1) + BitsOf(n, 8))
  }

  // ------------------------------------------------------------------------- reader

  /** A value and the next position, or the position at which reading failed. */
  datatype Read<+T> = Got(value: T, pos: nat) | Fail(pos: nat)

  predicate Sane<T>(r: Read<T>, s: Bits, p: nat) {
    p <= r.pos <= |s|
  }

  /** `n` bits; asking for none makes the reader panic, asking for too many is an error. */
  function GetBits(s: Bits, p: nat, n: nat): (r: Read<Bits>)
    requires p <= |s|
    ensures Sane(r, s, p) && (r.Got? ==> |r.value| == n)
  {
    if n == 0 || p + n > |s| then Fail(p) else Got(s[p..p + n], p + n)
  }

  function GetValue(s: Bits, p: nat, n: nat): (r: Read<nat>)
    requires p <= |s|
    ensures Sane(r, s, p) && (r.Got? ==> r.value < TWO64 && r.pos == p + n && n > 0)
  {
    match GetBits(s, p, n)
    case Fail(q) => Fail(q)
    case Got(bits, q) => Got(ValueOf(bits) % TWO64, q)
  }

  /** Skips to the next octet; the skipped bits are consumed even when one of them is set. */
  function GetAlign(s: Bits, p: nat): (r: Read<()>)
    requires p <= |s| && |s| % 8 == 0
    ensures Sane(r, s, p) && r.pos == p + PadLen(p)
  {
    var q := p + PadLen(p);
    if s[p..q] == Zeros(q - p) then Got((), q) else Fail(q)
  }

  function GetConstrained(s: Bits, p: nat, range: int): (r: Read<nat>)
    requires p <= |s| && |s| % 8 == 0
    ensures Sane(r, s, p) && (r.Got? ==> r.value < TWO64 && p < r.pos)
  {
    if range < 0 then Fail(p)
    else if range <= 255 then GetValue(s, p, BitsForRange(range))
    else if range > 65536 then Fail(p)
    else
      match GetAlign(s, p)
      case Fail(q) => Fail(q)
      case Got(_, q) => GetValue(s, q, if range == 256 then 8 else 16)
  }

  /** A length determinant and whether more fragments follow. */
  function GetLength(s: Bits, p: nat, sizeRange: int): (r: Read<(nat, bool)>)
    requires p <= |s| && |s| % 8 == 0
    ensures Sane(r, s, p) && (r.Got? ==> p < r.pos)
    ensures r.Got? && r.value.1 ==> 16384 <= r.value.0 <= 65536
  {
    if 0 < sizeRange <= 65536 then
      match GetConstrained(s, p, sizeRange)
      case Fail(q) => Fail(q)
      case Got(v, q) => Got((v, false), q)
    else
      match GetAlign(s, p)
      case Fail(q) => Fail(q)
      case Got(_, q) =>
        match GetValue(s, q, 8)
        case Fail(q1) => Fail(q1)
        case Got(first, q1) =>
          if first < 128 then Got((first, false), q1)
          else if first % 128 < 64 then
            match GetValue(s, q1, 8)
            case Fail(q2) => Fail(q2)
            case Got(second, q2) => Got((first % 64 * 256 + second, false), q2)
          else if 1 <= first % 64 <= 4 then Got((16384 * (first % 64), true), q1)
          else Fail(q1)
  }

  /** The collected octets, as bits, and how many units of them count. */
  datatype Collected = Collected(octets: Bits, units: nat)

  /** `n` units on an octet boundary, together with the rest of their last octet. */
  function GetChunk(s: Bits, p: nat, unit: nat, n: nat): (r: Read<Bits>)
    requires unit == 1 || unit == 8
    requires p <= |s| && |s| % 8 == 0
    ensures Sane(r, s, p)
    ensures r.Got? ==> p + n <= r.pos && Scale(unit, n) <= |r.value|
  {
    match GetAlign(s, p)
    case Fail(a) => Fail(a)
    case Got(_, a) =>
      var take := 8 * OctetsFor(Scale(unit, n));
      if a + take > |s| then Fail(a) else Got(s[a..a + take], a + Scale(unit, n))
  }

  function GetFragments(s: Bits, p: nat, unit: nat, sizeRange: int, lb: nat): (r: Read<Collected>)
    requires unit == 1 || unit == 8
    requires p <= |s| && |s| % 8 == 0
    ensures Sane(r, s, p) && (r.Got? ==> p < r.pos)
    ensures r.Got? ==> Scale(unit, r.value.units) <= |r.value.octets|
    decreases |s| - p
  {
    match GetLength(s, p, sizeRange)
    case Fail(q) => Fail(q)
    case Got((len, more), q) =>
      if len + lb == 0 then Got(Collected([], 0), q)
      else
        match GetChunk(s, q, unit, len + lb)
        case Fail(a) => Fail(a)
        case Got(octets, a) =>
          if !more then Got(Collected(octets, len + lb), a)
          else
            match GetFragments(s, a, unit, sizeRange, lb)
            case Fail(z) => Fail(z)
            case Got(rest, z) => Got(Collected(octets + rest.octets, len + lb + rest.units), z)
  }

  /** A string of fixed size: aligned only when longer than two octets. */
  function GetFixed(s: Bits, p: nat, unit: nat, n: nat): (r: Read<Bits>)
    requires unit == 1 || unit == 8
    requires p <= |s| && |s| % 8 == 0
    ensures Sane(r, s, p)
    ensures r.Got? ==> |r.value| == Scale(unit, n) && p + |r.value| <= r.pos
  {
    if OctetsFor(Scale(unit, n)) > 2 then
      match GetChunk(s, p, unit, n)
      case Fail(q) => Fail(q)
      case Got(octets, q) => Got(octets[..Scale(unit, n)], q)
    else GetBits(s, p, Scale(unit, n))
  }

  /** The units that count, without the rest of the last octet. */
  function Trimmed(c: Read<Collected>, unit: nat): (r: Read<Bits>)
    requires c.Got? ==> Scale(unit, c.value.units) <= |c.value.octets|
    ensures r.pos == c.pos && r.Got? == c.Got? && (r.Got? ==> |r.value| == Scale(unit, c.value.units))
  {
    match c
    case Fail(q) => Fail(q)
    case Got(c, q) => Got(c.octets[..Scale(unit, c.units)], q)
  }

  /** BIT STRING (`unit` 1) and OCTET STRING (`unit` 8), after the extension bit. */
  function GetSized(s: Bits, p: nat, unit: nat, extended: bool, lb: Option<nat>, ub: Option<nat>): (r: Read<Bits>)
    requires unit == 1 || unit == 8
    requires p <= |s| && |s| % 8 == 0
    ensures Sane(r, s, p)
    ensures r.Got? && unit == 8 ==> |r.value| % 8 == 0
  {
    var low := if lb.Some? && !extended then lb.value else 0;
    var sizeRange := if ub.Some? && !extended && ub.value <= 65535 then ub.value - low + 1 else -1;
    if sizeRange == 1 then GetFixed(s, p, unit, ub.value)
    else Trimmed(GetFragments(s, p, unit, sizeRange, low), unit)
  }

  function GetInteger(s: Bits, p: nat, extended: bool, lb: Option<Int64>, ub: Option<Int64>): (r: Read<Int64>)
    requires p <= |s| && |s| % 8 == 0
    ensures Sane(r, s, p)
  {
    var low := if lb.Some? && !extended then lb.value else 0;
    var range: int :=
      if extended || lb.None? then -1 else if ub.Some? then Wrap64(ub.value - low + 1) else 0;
    if range == 1 then Got(ub.value, p)
    else if range <= 0 then GetOctetCounted(s, p, low, range < 0)
    else if range <= 65536 then
      match GetConstrained(s, p, range)
      case Fail(q) => Fail(q)
      case Got(v, q) => Got(Wrap64(v + low), q)
    else GetWide(s, p, low, range - 1)
  }

  /** The number a two's complement field of `n` octets stands for, as the reader computes it. */
  function SignedOf(raw: nat, n: nat, low: Int64): (v: Int64)
    requires n >= 1
  {
    if n <= 8 && raw >= Pow2(8 * n - 1) then Wrap64(raw - Pow2(8 * n)) else Wrap64(raw + low)
  }

  function GetOctetCounted(s: Bits, p: nat, low: Int64, signed: bool): (r: Read<Int64>)
    requires p <= |s| && |s| % 8 == 0
    ensures Sane(r, s, p)
  {
    match GetAlign(s, p)
    case Fail(q) => Fail(q)
    case Got(_, a) =>
      match GetValue(s, a, 8)
      case Fail(q) => Fail(q)
      case Got(n, q) =>
        match GetValue(s, q, 8 * n)
        case Fail(z) => Fail(z)
        case Got(raw, z) => Got(if signed then SignedOf(raw, n, low) else Wrap64(raw + low), z)
  }

  function GetWide(s: Bits, p: nat, low: Int64, range: nat): (r: Read<Int64>)
    requires p <= |s| && |s| % 8 == 0
    ensures Sane(r, s, p)
  {
    match GetValue(s, p, BitsForRange(ReaderRangeOctets(range)))
    case Fail(q) => Fail(q)
    case Got(n, q) =>
      match GetAlign(s, q)
      case Fail(a) => Fail(a)
      case Got(_, a) =>
        match GetValue(s, a, 8 * (n + 1))
        case Fail(z) => Fail(z)
        case Got(raw, z) => Got(Wrap64(raw + low), z)
  }

  function GetEnumerated(s: Bits, p: nat, extended: bool, lb: Option<Int64>, ub: Option<Int64>): (r: Read<nat>)
    requires p <= |s| && |s| % 8 == 0
    ensures Sane(r, s, p)
  {
    if extended || lb.None? || ub.None? then Fail(p)
    else
      var range: int := Wrap64(ub.value - lb.value + 1);
      if range > 1 then GetConstrained(s, p, range) else Got(0, p)
  }

  /** The alternative's number, counted from 1. */
  function GetChoiceIndex(s: Bits, p: nat, extended: bool, ub: Option<Int64>): (r: Read<nat>)
    requires p <= |s| && |s| % 8 == 0
    ensures Sane(r, s, p)
  {
    if extended || ub.None? || ub.value < 0 then Fail(p)
    else
      match GetConstrained(s, p, Wrap64(ub.value + 1))
      case Fail(q) => Fail(q)
      case Got(v, q) => Got(v + 1, q)
  }

  /** Element count of a SEQUENCE OF; a failed constrained count is only logged and counts as 0. */
  function GetCount(s: Bits, p: nat, extended: bool, lb: Option<nat>, ub: Option<nat>): (r: Read<nat>)
    requires p <= |s| && |s| % 8 == 0
    ensures Sane(r, s, p)
  {
    var low := if lb.Some? && lb.value < 65536 then lb.value else 0;
    var sizeRange := if !extended && ub.Some? && ub.value < 65536 then ub.value - low + 1 else -1;
    if sizeRange > 1 then
      var c := GetConstrained(s, p, sizeRange);
      Got((if c.Got? then c.value else 0) + low, c.pos)
    else if sizeRange == 1 then Got(low, p)
    else
      match GetAlign(s, p)
      case Fail(q) => Fail(q)
      case Got(_, a) => GetValue(s, a, 8)
  }

  /** The extension bit, present when the type is marked extensible. */
  function GetFlag(s: Bits, p: nat, present: bool): (r: Read<bool>)
    requires p <= |s| && |s| % 8 == 0
    ensures Sane(r, s, p)
  {
    if !present then Got(false, p)
    else if p + 1 > |s| then Fail(p)
    else Got(s[p], p + 1)
  }
}
