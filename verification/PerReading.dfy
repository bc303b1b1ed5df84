/**
  What the reader makes of arbitrary data: for every primitive, a value is read if and only if
  the data hold one of its forms on the wire.
*/
module PerReading {
  import opened Wrappers
  import opened PerBits
  import opened PerSpec
  import opened PerPrimitives
  import opened PerStrings
  import opened PerIntegers
  import opened PerFormat
  import opened PerTree

  /** The data go on with these bits at `p`. */
  predicate Holds(s: Bits, p: nat, bits: Bits) {
    p + |bits| <= |s| && s[p..p + |bits|] == bits
  }

  lemma HoldsBoth(s: Bits, p: nat, a: Bits, b: Bits)
    ensures Holds(s, p, a + b) <==> Holds(s, p, a) && Holds(s, p + |a|, b)
  {
    if p + |a| + |b| <= |s| {
      var all := s[p..p + |a| + |b|];
      assert all == s[p..p + |a|] + s[p + |a|..p + |a| + |b|];
      assert all[..|a|] == s[p..p + |a|] && all[|a|..] == s[p + |a|..p + |a| + |b|];
      assert (a + b)[..|a|] == a && (a + b)[|a|..] == b;
    }
  }

  // ------------------------------------------------------------------------- numbers

  lemma ValueReads(s: Bits, p: nat, n: nat, v: nat, q: nat)
    requires p <= |s| && 0 < n <= 64
    ensures GetValue(s, p, n) == Got(v, q) <==> q == p + n && v < Pow2(n) && Holds(s, p, BitsOf(v, n))
  {
    hide BitsOf, ValueOf, Pow2;
    Pow2Values();
    Pow2Monotone(n, 64);
    if p + n <= |s| {
      BitsOfValueOf(s[p..p + n]);
    }
    if v < Pow2(n) {
      ValueOfBitsOf(v, n);
    }
  }

  lemma AlignReads(s: Bits, p: nat)
    requires p <= |s| && |s| % 8 == 0
    ensures GetAlign(s, p).pos == p + |Padding(p)|
    ensures GetAlign(s, p).Got? <==> Holds(s, p, Padding(p))
  {
  }

  /** An aligned field, as part of a longer read. */
  function GetAligned(s: Bits, p: nat, n: nat): (r: Read<nat>)
    requires p <= |s| && |s| % 8 == 0
  {
    match GetAlign(s, p)
    case Fail(q) => Fail(q)
    case Got(_, q) => GetValue(s, q, n)
  }

  lemma AlignedReads(s: Bits, p: nat, n: nat, v: nat, q: nat)
    requires p <= |s| && |s| % 8 == 0 && 0 < n <= 64
    ensures GetAligned(s, p, n) == Got(v, q) <==>
            v < Pow2(n) && q == p + |Padding(p) + BitsOf(v, n)| && Holds(s, p, Padding(p) + BitsOf(v, n))
  {
    hide GetValue, GetAlign, BitsOf, Pow2, Padding, Holds;
    AlignReads(s, p);
    HoldsBoth(s, p, Padding(p), BitsOf(v, n));
    if GetAlign(s, p).Got? {
      ValueReads(s, GetAlign(s, p).pos, n, v, q);
    }
  }

  /** A constrained number is read if and only if the data hold its field, which may hold numbers out of range. */
  lemma ConstrainedReads(s: Bits, p: nat, range: int, v: nat, q: nat)
    requires p <= |s| && |s| % 8 == 0
    ensures GetConstrained(s, p, range) == Got(v, q) <==>
            && 0 <= range <= 65536 && v < Room(range)
            && q == p + |NumberBits(range, v, p)| && Holds(s, p, NumberBits(range, v, p))
  {
    hide GetValue, GetAlign, BitsOf, Pow2, Padding, Holds, BitsForRange;
    Pow2Values();
    if 0 <= range <= 255 {
      FieldBitsIs(range);
      ValueReads(s, p, FieldBits(range), v, q);
    } else if 255 < range <= 65536 {
      AlignedReads(s, p, if range == 256 then 8 else 16, v, q);
    }
  }

  // ------------------------------------------------------------------------- lengths

  /** One octet, two octets behind 10, also for small numbers, or one to four times 16384 behind 11. */
  predicate LengthShapes(s: Bits, p: nat, v: nat, more: bool, q: nat) {
    || (v < 128 && !more && q == p + |Padding(p)| + 8 && Holds(s, p, Padding(p) + BitsOf(v, 8)))
    || (v < 16384 && !more && q == p + |Padding(p)| + 16
        && Holds(s, p, Padding(p) + ([true, false] + BitsOf(v, 14))))
    || (v in {16384, 32768, 49152, 65536} && more && q == p + |Padding(p)| + 8
        && Holds(s, p, Padding(p) + ([true, true] + BitsOf(v / 16384, 6))))
  }

  /** The forms of more than one field, in octets. */
  lemma TwoOctetForm(v: nat)
    requires v < 16384
    ensures [true, false] + BitsOf(v, 14) == BitsOf(128 + v / 256, 8) + BitsOf(v % 256, 8)
  {
    hide BitsOf, Pow2;
    Pow2Values();
    Pow2Add(6, 8);
    TopBits(v, 14, 2);
    BitsOfSum(128 + v / 256, v % 256, 8, 8);
    NoChange(v % 256, 256);
    assert (128 + v / 256) * 256 + v % 256 == 2 * 16384 + v;
  }

  lemma FragmentForm(k: nat)
    requires k < 64
    ensures [true, true] + BitsOf(k, 6) == BitsOf(192 + k, 8)
  {
    hide BitsOf, Pow2;
    Pow2Values();
    TopBits(k, 6, 3);
  }

  /** What the first octet says. */
  lemma FirstOctet(s: Bits, p: nat, first: nat, q: nat)
    requires p <= |s| && |s| % 8 == 0 && GetAligned(s, p, 8) == Got(first, q)
    ensures first < 256 && q <= |s|
    ensures var r, second := GetLength(s, p, -1), GetValue(s, q, 8);
            && (first < 128 ==> r == Got((first, false), q))
            && (128 <= first < 192 ==>
                  r == if second.Fail? then Fail(second.pos)
                       else Got(((first - 128) * 256 + second.value, false), second.pos))
            && (193 <= first <= 196 ==> r == Got((16384 * (first - 192), true), q))
            && (first == 192 || first > 196 ==> r.Fail?)
  {
    hide BitsOf, Padding, Holds, GetValue, GetAlign, Pow2;
    Pow2Values();
    AlignedReads(s, p, 8, first, q);
  }

  lemma NoFirstOctet(s: Bits, p: nat)
    requires p <= |s| && |s| % 8 == 0 && GetAligned(s, p, 8).Fail?
    ensures GetLength(s, p, -1).Fail?
  {
    hide GetValue, GetAlign;
  }

  /** Which of the forms the data hold, by the first octet and the one after it. */
  lemma FormsInOctets(s: Bits, p: nat, v: nat, more: bool, q: nat)
    requires p <= |s| && |s| % 8 == 0
    ensures var a := p + |Padding(p)| + 8;
            LengthShapes(s, p, v, more, q) <==>
            || (v < 128 && !more && q == a && GetAligned(s, p, 8) == Got(v, a))
            || (v < 16384 && !more && q == a + 8 && a <= |s| && GetAligned(s, p, 8) == Got(128 + v / 256, a)
                && GetValue(s, a, 8) == Got(v % 256, q))
            || (v in {16384, 32768, 49152, 65536} && more && q == a && GetAligned(s, p, 8) == Got(192 + v / 16384, a))
  {
    hide BitsOf, Padding, Holds, GetValue, GetAligned, Pow2;
    Pow2Values();
    var pad := Padding(p);
    var a := p + |pad| + 8;
    AlignedReads(s, p, 8, v, a);
    if v < 16384 {
      var first, second := BitsOf(128 + v / 256, 8), BitsOf(v % 256, 8);
      TwoOctetForm(v);
      AlignedReads(s, p, 8, 128 + v / 256, a);
      assert pad + (first + second) == pad + first + second;
      HoldsBoth(s, p, pad + first, second);
      HoldsInside(s, p, pad + first);
      if a <= |s| {
        ValueReads(s, a, 8, v % 256, q);
      }
    }
    if v in {16384, 32768, 49152, 65536} {
      FragmentForm(v / 16384);
      AlignedReads(s, p, 8, 192 + v / 16384, a);
    }
  }

  lemma HoldsInside(s: Bits, p: nat, bits: Bits)
    ensures Holds(s, p, bits) ==> p + |bits| <= |s|
  {
  }

  /** An unconstrained length is read if and only if the data hold one of its forms. */
  lemma LengthReads(s: Bits, p: nat, v: nat, more: bool, q: nat)
    requires p <= |s| && |s| % 8 == 0
    ensures GetLength(s, p, -1) == Got((v, more), q) <==> LengthShapes(s, p, v, more, q)
  {
    hide GetLength, LengthShapes, GetValue, GetAligned, Padding;
    FormsInOctets(s, p, v, more, q);
    var r := GetAligned(s, p, 8);
    if r.Fail? {
      NoFirstOctet(s, p);
    } else {
      FirstOctet(s, p, r.value, r.pos);
      AlignedEnds(s, p, r.value, r.pos);
      SecondOctet(s, r.pos);
    }
  }

  lemma AlignedEnds(s: Bits, p: nat, v: nat, q: nat)
    requires p <= |s| && |s| % 8 == 0 && GetAligned(s, p, 8) == Got(v, q)
    ensures q == p + |Padding(p)| + 8
  {
    hide BitsOf, Padding, Holds, Pow2;
    AlignedReads(s, p, 8, v, q);
  }

  lemma SecondOctet(s: Bits, a: nat)
    requires a <= |s|
    ensures GetValue(s, a, 8).Got? ==> GetValue(s, a, 8).value < 256 && GetValue(s, a, 8).pos == a + 8
  {
    hide BitsOf, Holds, Pow2;
    Pow2Values();
    var r := GetValue(s, a, 8);
    if r.Got? {
      ValueReads(s, a, 8, r.value, r.pos);
    }
  }

  /** A length within a range of sizes, or any of the unconstrained forms. */
  predicate HeadShapes(s: Bits, p: nat, range: int, v: nat, more: bool, q: nat) {
    if range > 0 then
      && !more && v < Room(range)
      && q == p + |NumberBits(range, v, p)| && Holds(s, p, NumberBits(range, v, p))
    else LengthShapes(s, p, v, more, q)
  }

  lemma HeadReads(s: Bits, p: nat, range: int, v: nat, more: bool, q: nat)
    requires p <= |s| && |s| % 8 == 0 && range <= 65536
    ensures GetLength(s, p, range) == Got((v, more), q) <==> HeadShapes(s, p, range, v, more, q)
  {
    hide LengthShapes, NumberBits, Room, Holds, GetConstrained, GetAlign, GetValue;
    if range > 0 {
      ConstrainedReads(s, p, range, v, q);
    } else {
      hide GetLength;
      LengthForms(s, p, range);
      LengthReads(s, p, v, more, q);
    }
  }

  // ----------------------------------------------------------------------- fragments

  /**
    From `p` on the data hold fragments with these octets: a length, padding and so many units
    above the bound, until a length that does not say that more follow, or that there is nothing.
  */
  ghost predicate Collects(s: Bits, p: nat, unit: nat, range: int, low: nat, c: Collected, q: nat)
    decreases |s| - p
  {
    p <= |s| &&
    exists len: nat, more: bool, a: nat ::
      HeadShapes(s, p, range, len, more, a) && p < a <= |s| && Fragment(s, p, unit, range, low, c, q, len, more, a)
  }

  ghost predicate Fragment(s: Bits, p: nat, unit: nat, range: int, low: nat, c: Collected, q: nat, len: nat, more: bool,
                           a: nat)
    requires p < a <= |s|
    decreases |s| - p, 0
  {
    if len + low == 0 then c == Collected([], 0) && q == a
    else
      var b, n := a + |Padding(a)|, Scale(unit, len + low);
      var take := 8 * OctetsFor(n);
      && Holds(s, a, Padding(a)) && b + take <= |s| && take <= |c.octets| && c.octets[..take] == s[b..b + take]
      && len + low <= c.units
      && if more then Collects(s, b + n, unit, range, low, Collected(c.octets[take..], c.units - len - low), q)
         else |c.octets| == take && c.units == len + low && q == b + n
  }

  /** The rest of a turn, once its length is read. */
  function AfterLength(s: Bits, unit: nat, range: int, low: nat, len: nat, more: bool, a: nat): (r: Read<Collected>)
    requires (unit == 1 || unit == 8) && a <= |s| && |s| % 8 == 0
  {
    var chunk := GetChunk(s, a, unit, len + low);
    if len + low == 0 then Got(Collected([], 0), a)
    else if chunk.Fail? then Fail(chunk.pos)
    else if !more then Got(Collected(chunk.value, len + low), chunk.pos)
    else
      var rest := GetFragments(s, chunk.pos, unit, range, low);
      if rest.Fail? then Fail(rest.pos)
      else Got(Collected(chunk.value + rest.value.octets, len + low + rest.value.units), rest.pos)
  }

  lemma OneTurn(s: Bits, p: nat, unit: nat, range: int, low: nat)
    requires (unit == 1 || unit == 8) && p <= |s| && |s| % 8 == 0
    ensures var r, length := GetFragments(s, p, unit, range, low), GetLength(s, p, range);
            if length.Fail? then r.Fail?
            else p < length.pos && r == AfterLength(s, unit, range, low, length.value.0, length.value.1, length.pos)
  {
    hide GetLength, GetChunk;
  }

  lemma ChunkReads(s: Bits, a: nat, unit: nat, n: nat)
    requires (unit == 1 || unit == 8) && a <= |s| && |s| % 8 == 0
    ensures var r, b, take := GetChunk(s, a, unit, n), a + |Padding(a)|, 8 * OctetsFor(Scale(unit, n));
            && (r.Got? <==> Holds(s, a, Padding(a)) && b + take <= |s|)
            && (r.Got? ==> r.value == s[b..b + take] && r.pos == b + Scale(unit, n))
  {
    hide GetAlign, Padding, Holds, OctetsFor, Scale;
    AlignReads(s, a);
  }

  /** The loop over the fragments ends with these octets if and only if the data hold them. */
  lemma {:induction false} FragmentsRead(s: Bits, p: nat, unit: nat, range: int, low: nat, c: Collected, q: nat)
    requires (unit == 1 || unit == 8) && p <= |s| && |s| % 8 == 0 && range <= 65536
    ensures GetFragments(s, p, unit, range, low) == Got(c, q) <==> Collects(s, p, unit, range, low, c, q)
    decreases |s| - p
  {
    hide GetFragments, GetLength, HeadShapes, AfterLength, Fragment;
    OneTurn(s, p, unit, range, low);
    var length := GetLength(s, p, range);
    forall len: nat, more: bool, a: nat | HeadShapes(s, p, range, len, more, a) ensures length == Got((len, more), a) {
      HeadReads(s, p, range, len, more, a);
    }
    if length.Got? {
      HeadReads(s, p, range, length.value.0, length.value.1, length.pos);
      FragmentReads(s, p, unit, range, low, c, q, length.value.0, length.value.1, length.pos);
    }
  }

  lemma {:induction false} FragmentReads(s: Bits, p: nat, unit: nat, range: int, low: nat, c: Collected, q: nat,
                                         len: nat, more: bool, a: nat)
    requires (unit == 1 || unit == 8) && p < a <= |s| && |s| % 8 == 0 && range <= 65536
    ensures AfterLength(s, unit, range, low, len, more, a) == Got(c, q)
       <==> Fragment(s, p, unit, range, low, c, q, len, more, a)
    decreases |s| - p, 0
  {
    hide GetFragments, GetChunk, Collects, Padding, Holds, OctetsFor, Scale;
    ChunkReads(s, a, unit, len + low);
    var chunk := GetChunk(s, a, unit, len + low);
    assert c.octets[..|c.octets|] == c.octets;
    if len + low > 0 && chunk.Got? && more {
      var take := |chunk.value|;
      if take <= |c.octets| && len + low <= c.units {
        var rest := Collected(c.octets[take..], c.units - len - low);
        FragmentsRead(s, chunk.pos, unit, range, low, rest, q);
        assert c.octets == c.octets[..take] + c.octets[take..];
      }
      var r := GetFragments(s, chunk.pos, unit, range, low);
      if r.Got? {
        assert (chunk.value + r.value.octets)[..take] == chunk.value;
        assert (chunk.value + r.value.octets)[take..] == r.value.octets;
      }
    }
  }

  // ------------------------------------------------------------------------- strings

  /** A string of fixed size: aligned when longer than two octets, and then read in whole octets. */
  predicate FixedHeld(s: Bits, p: nat, unit: nat, n: nat, bits: Bits, q: nat) {
    && |bits| == Scale(unit, n)
    && if OctetsFor(|bits|) > 2 then
         var b := p + |Padding(p)|;
         Holds(s, p, Padding(p) + bits) && b + 8 * OctetsFor(|bits|) <= |s| && q == b + |bits|
       else bits != [] && Holds(s, p, bits) && q == p + |bits|
  }

  lemma FixedReads(s: Bits, p: nat, unit: nat, n: nat, bits: Bits, q: nat)
    requires (unit == 1 || unit == 8) && p <= |s| && |s| % 8 == 0
    ensures GetFixed(s, p, unit, n) == Got(bits, q) <==> FixedHeld(s, p, unit, n, bits, q)
  {
    hide GetChunk, Padding, OctetsFor, Scale;
    var len := Scale(unit, n);
    ChunkReads(s, p, unit, n);
    if OctetsFor(len) > 2 && |bits| == len {
      HoldsBoth(s, p, Padding(p), bits);
      var b := p + |Padding(p)|;
      if b + 8 * OctetsFor(len) <= |s| {
        assert s[b..b + 8 * OctetsFor(len)][..len] == s[b..b + len];
      }
    }
  }

  /** How the reader takes the size of a string: a string beyond its bounds has none. */
  ghost predicate StringHeld(s: Bits, p: nat, unit: nat, extended: bool, lb: Option<nat>, ub: Option<nat>, bits: Bits,
                             q: nat)
  {
    var low := if lb.Some? && !extended then lb.value else 0;
    if !extended && ub.Some? && ub.value <= 65535 && low == ub.value then FixedHeld(s, p, unit, ub.value, bits, q)
    else
      var range := if !extended && ub.Some? && ub.value <= 65535 then ub.value - low + 1 else -1;
      exists c :: Collects(s, p, unit, range, low, c, q) && Scale(unit, c.units) <= |c.octets|
                  && bits == c.octets[..Scale(unit, c.units)]
  }

  /** A string is read if and only if the data hold it. */
  lemma StringReads(s: Bits, p: nat, unit: nat, extended: bool, lb: Option<nat>, ub: Option<nat>, bits: Bits, q: nat)
    requires (unit == 1 || unit == 8) && p <= |s| && |s| % 8 == 0
    ensures GetSized(s, p, unit, extended, lb, ub) == Got(bits, q)
       <==> StringHeld(s, p, unit, extended, lb, ub, bits, q)
  {
    hide GetFixed, GetFragments, FixedHeld, Collects, Scale;
    var low := if lb.Some? && !extended then lb.value else 0;
    var range := if ub.Some? && !extended && ub.value <= 65535 then ub.value - low + 1 else -1;
    if range == 1 {
      FixedReads(s, p, unit, ub.value, bits, q);
    } else {
      var r := GetFragments(s, p, unit, range, low);
      if r.Got? {
        FragmentsRead(s, p, unit, range, low, r.value, r.pos);
      }
      forall c | Collects(s, p, unit, range, low, c, q) ensures r == Got(c, q) {
        FragmentsRead(s, p, unit, range, low, c, q);
      }
    }
  }

  // --------------------------------------------------- ENUMERATED, CHOICE and counts

  lemma FlagReads(s: Bits, p: nat, present: bool, b: bool, q: nat)
    requires p <= |s| && |s| % 8 == 0
    ensures GetFlag(s, p, present) == Got(b, q) <==>
            if present then q == p + 1 && Holds(s, p, [b]) else !b && q == p
  {
    if p < |s| {
      assert s[p..p + 1] == [s[p]];
    }
  }

  /** A CHOICE beyond its extension bit is refused; otherwise the index is any number that the field holds. */
  lemma ChoiceReads(s: Bits, p: nat, extended: bool, ub: Option<Int64>, present: nat, q: nat)
    requires p <= |s| && |s| % 8 == 0
    ensures GetChoiceIndex(s, p, extended, ub) == Got(present, q) <==>
            && !extended && ub.Some? && 0 <= ub.value <= 65535 && 1 <= present <= Room(ub.value + 1)
            && var index := NumberBits(ub.value + 1, present - 1, p);
               q == p + |index| && Holds(s, p, index)
  {
    hide GetConstrained, NumberBits, Holds, Room, Wrap64;
    if !extended && ub.Some? && ub.value >= 0 {
      WrapSpan(ub.value + 1);
      var range := Wrap64(ub.value + 1);
      if present >= 1 {
        ConstrainedReads(s, p, range, present - 1, q);
      }
    }
  }

  /** An ENUMERATED of one value, or of a range that overflows, is 0 and takes no bits. */
  lemma EnumeratedReads(s: Bits, p: nat, extended: bool, lb: Option<Int64>, ub: Option<Int64>, v: nat, q: nat)
    requires p <= |s| && |s| % 8 == 0
    ensures GetEnumerated(s, p, extended, lb, ub) == Got(v, q) <==>
            && !extended && lb.Some? && ub.Some?
            && var span: int := Wrap64(ub.value - lb.value + 1);
               if span > 1 then
                 && span <= 65536 && v < Room(span)
                 && q == p + |NumberBits(span, v, p)| && Holds(s, p, NumberBits(span, v, p))
               else v == 0 && q == p
  {
    hide GetConstrained, NumberBits, Holds, Room, Wrap64;
    if !extended && lb.Some? && ub.Some? {
      ConstrainedReads(s, p, Wrap64(ub.value - lb.value + 1), v, q);
    }
  }

  /**
    An element count: within bounds below 65536 a constrained number above the lower one, which
    counts as that bound when it cannot be read; otherwise one aligned octet.
  */
  lemma CountReads(s: Bits, p: nat, extended: bool, lb: Option<nat>, ub: Option<nat>, n: nat, q: nat)
    requires p <= |s| && |s| % 8 == 0
    ensures var low := LowerCount(lb);
            var range := if !extended && ub.Some? && ub.value < 65536 then ub.value - low + 1 else -1;
            var r := GetCount(s, p, extended, lb, ub);
            && (range == 1 ==> r == Got(low, p))
            && (range > 1 ==>
                  r.Got? && low <= r.value &&
                  (n < Room(range) && q == p + |NumberBits(range, n, p)| && Holds(s, p, NumberBits(range, n, p)) ==>
                     r == Got(low + n, q)))
            && (range > 1 && GetConstrained(s, p, range).Fail? ==> r.value == low)
            && (range < 1 ==>
                  (r == Got(n, q) <==>
                   n < 256 && q == p + |Padding(p)| + 8 && Holds(s, p, Padding(p) + BitsOf(n, 8))))
  {
    hide GetConstrained, NumberBits, Holds, Room, BitsOf, Padding, GetAlign, GetValue, Pow2;
    Pow2Values();
    var low := LowerCount(lb);
    var range := if !extended && ub.Some? && ub.value < 65536 then ub.value - low + 1 else -1;
    if range > 1 {
      ConstrainedReads(s, p, range, n, q);
    } else if range < 1 {
      AlignedReads(s, p, 8, n, q);
    }
  }

  // ------------------------------------------------------------------------- INTEGER

  /** A number of octets and then the number: `q` is behind it. */
  predicate CountedHeld(s: Bits, p: nat, n: nat, q: nat) {
    var a := p + |Padding(p)| + 8;
    1 <= n <= 255 && Holds(s, p, Padding(p) + BitsOf(n, 8)) && q == a + 8 * n <= |s|
  }

  /** The number the octets before `q` stand for: with its sign, if it has one, and above the bound otherwise. */
  function CountedValue(s: Bits, n: nat, q: nat, low: Int64, signed: bool): (v: Int64)
    requires 1 <= n && 8 * n <= q <= |s|
  {
    var octets := s[q - 8 * n..q];
    var raw := ValueOf(octets) % TWO64;
    if signed && n <= 8 && octets[0] then Wrap64(raw - Pow2(8 * n)) else Wrap64(raw + low)
  }

  lemma {:induction false} FirstBitTells(bits: Bits)
    requires bits != []
    ensures ValueOf(bits) >= Pow2(|bits| - 1) <==> bits[0]
  {
    if |bits| == 1 {
      assert bits[..0] == [];
    } else {
      var front := bits[..|bits| - 1];
      FirstBitTells(front);
      assert Pow2(|bits| - 1) == 2 * Pow2(|front| - 1);
    }
  }

  lemma SignTells(octets: Bits, n: nat)
    requires |octets| == 8 * n && 1 <= n <= 8
    ensures ValueOf(octets) % TWO64 >= Pow2(8 * n - 1) <==> octets[0]
  {
    hide ValueOf, Pow2;
    FirstBitTells(octets);
    Pow2Values();
    Pow2Monotone(8 * n, 64);
  }

  /** The octets that the count announces, if they are there. */
  lemma CountedIs(s: Bits, p: nat, low: Int64, signed: bool)
    requires p <= |s| && |s| % 8 == 0
    ensures var r, all := GetAligned(s, p, 8), GetOctetCounted(s, p, low, signed);
            if r.Fail? then all.Fail?
            else
              var q := r.pos + 8 * r.value;
              if r.value == 0 || q > |s| then all.Fail? else all == Got(CountedValue(s, r.value, q, low, signed), q)
  {
    hide Pow2, ValueOf, Wrap64, GetAlign;
    var r := GetAligned(s, p, 8);
    if r.Got? && 1 <= r.value <= 8 && r.pos + 8 * r.value <= |s| {
      SignTells(s[r.pos..r.pos + 8 * r.value], r.value);
    }
  }

  lemma CountedReads(s: Bits, p: nat, low: Int64, signed: bool, v: Int64, q: nat)
    requires p <= |s| && |s| % 8 == 0
    ensures GetOctetCounted(s, p, low, signed) == Got(v, q) <==>
            exists n :: CountedHeld(s, p, n, q) && v == CountedValue(s, n, q, low, signed)
  {
    hide BitsOf, Padding, Holds, Pow2, GetAligned, GetOctetCounted, CountedValue;
    Pow2Values();
    CountedIs(s, p, low, signed);
    var r := GetAligned(s, p, 8);
    forall n: nat | CountedHeld(s, p, n, q) ensures r == Got(n, q - 8 * n) {
      AlignedReads(s, p, 8, n, q - 8 * n);
    }
    if r.Got? {
      AlignedReads(s, p, 8, r.value, r.pos);
      if 1 <= r.value && r.pos + 8 * r.value == q <= |s| {
        assert CountedHeld(s, p, r.value, q);
      }
    }
  }

  /** Bits of the field that counts octets, as the reader takes it. */
  function ReadCountBits(r: nat): (n: nat) {
    if r < 0x1_0000_0000 then 2 else 3
  }

  lemma ReadCountBitsIs(r: nat)
    requires 0x1_0000 <= r < 0x8000_0000_0000_0000
    ensures BitsForRange(ReaderRangeOctets(r)) == ReadCountBits(r)
  {
    hide BitsForRange, ReaderRangeOctets, WriterRangeOctets;
    RangeWidths(r);
    CountBitsIs(r);
  }

  /** One less than the number of octets in a field of `k` bits, padding, and the octets. */
  predicate WideHeld(s: Bits, p: nat, k: nat, n: nat, q: nat) {
    var front := BitsOf(n, k) + Padding(p + k);
    n < Pow2(k) && Holds(s, p, front) && q == p + |front| + 8 * (n + 1) <= |s|
  }

  function WideValue(s: Bits, n: nat, q: nat, low: Int64): (v: Int64)
    requires 8 * (n + 1) <= q <= |s|
  {
    Wrap64(ValueOf(s[q - 8 * (n + 1)..q]) + low)
  }

  lemma WideOctets(s: Bits, a: nat, n: nat)
    requires a <= |s| && n < 8
    ensures GetValue(s, a, 8 * (n + 1)) ==
            var q := a + 8 * (n + 1);
            if q > |s| then Fail(a) else Got(ValueOf(s[a..q]), q)
  {
    hide Pow2, ValueOf;
    Pow2Values();
    Pow2Monotone(8 * (n + 1), 64);
  }

  lemma WideReads(s: Bits, p: nat, low: Int64, r: nat, v: Int64, q: nat)
    requires p <= |s| && |s| % 8 == 0 && 0x1_0000 <= r < 0x8000_0000_0000_0000
    ensures GetWide(s, p, low, r) == Got(v, q) <==>
            exists n :: WideHeld(s, p, ReadCountBits(r), n, q) && v == WideValue(s, n, q, low)
  {
    hide BitsOf, Padding, Holds, Pow2, ValueOf, Wrap64, GetAlign, GetValue, BitsForRange, ReaderRangeOctets;
    Pow2Values();
    ReadCountBitsIs(r);
    var k := ReadCountBits(r);
    var c := GetValue(s, p, k);
    if c.Got? {
      ValueReads(s, p, k, c.value, c.pos);
      AlignReads(s, c.pos);
      HoldsBoth(s, p, BitsOf(c.value, k), Padding(p + k));
      if GetAlign(s, c.pos).Got? {
        WideOctets(s, GetAlign(s, c.pos).pos, c.value);
      }
    }
    forall n: nat | WideHeld(s, p, k, n, q) ensures c == Got(n, p + k) {
      HoldsBoth(s, p, BitsOf(n, k), Padding(p + k));
      ValueReads(s, p, k, n, p + k);
    }
    if c.Got? && GetAlign(s, c.pos).Got? && q == GetAlign(s, c.pos).pos + 8 * (c.value + 1) <= |s| {
      assert WideHeld(s, p, k, c.value, q);
    }
  }

  /** How the reader takes an INTEGER; a range of 2^63 values and more overflows. */
  function ReadKind(extended: bool, lb: Option<Int64>, ub: Option<Int64>): (k: Kind) {
    if extended || lb.None? then Free
    else if ub.None? then Above
    else
      var span: int := Wrap64(ub.value - lb.value + 1);
      if span < 0 then Free
      else if span == 0 then Above
      else if span == 1 then Single
      else if span <= 65536 then Narrow(span)
      else Wide(span - 1)
  }

  /** The data hold the number `v` of an INTEGER up to `q`. */
  ghost predicate IntegerHeld(s: Bits, p: nat, extended: bool, lb: Option<Int64>, ub: Option<Int64>, v: Int64, q: nat) {
    var k, low := ReadKind(extended, lb, ub), if lb.Some? && !extended then lb.value else 0;
    match k
    case Single => Some(v) == ub && q == p
    case Narrow(span) =>
      exists x: nat ::
        && x < Room(span) && v == Wrap64(x + low)
        && q == p + |NumberBits(span, x, p)| && Holds(s, p, NumberBits(span, x, p))
    case Wide(r) => exists n :: WideHeld(s, p, ReadCountBits(r), n, q) && v == WideValue(s, n, q, low)
    case _ => exists n :: CountedHeld(s, p, n, q) && v == CountedValue(s, n, q, low, k.Free?)
  }

  /** An INTEGER is read if and only if the data hold it. */
  lemma IntegerReads(s: Bits, p: nat, extended: bool, lb: Option<Int64>, ub: Option<Int64>, v: Int64, q: nat)
    requires p <= |s| && |s| % 8 == 0
    ensures GetInteger(s, p, extended, lb, ub) == Got(v, q) <==> IntegerHeld(s, p, extended, lb, ub, v, q)
  {
    hide GetConstrained, GetOctetCounted, GetWide, CountedHeld, CountedValue, WideHeld, WideValue, NumberBits, Holds,
    Room, Wrap64, ReadCountBits;
    var k, low := ReadKind(extended, lb, ub), if lb.Some? && !extended then lb.value else 0;
    match k
    case Single =>
    case Narrow(span) =>
      NarrowReads(s, p, span, low, v, q);
    case Wide(r) =>
      WideReads(s, p, low, r, v, q);
    case Above =>
      CountedReads(s, p, low, false, v, q);
    case Free =>
      CountedReads(s, p, low, true, v, q);
  }

  lemma NarrowReads(s: Bits, p: nat, span: int, low: Int64, v: Int64, q: nat)
    requires p <= |s| && |s| % 8 == 0 && 1 < span <= 65536
    ensures var r := GetConstrained(s, p, span);
            (r.Got? && v == Wrap64(r.value + low) && q == r.pos) <==>
            exists x: nat ::
              && x < Room(span) && v == Wrap64(x + low)
              && q == p + |NumberBits(span, x, p)| && Holds(s, p, NumberBits(span, x, p))
  {
    hide GetConstrained, NumberBits, Holds, Room, Wrap64;
    var r := GetConstrained(s, p, span);
    if r.Got? {
      ConstrainedReads(s, p, span, r.value, r.pos);
    }
    forall x: nat | x < Room(span) && q == p + |NumberBits(span, x, p)| && Holds(s, p, NumberBits(span, x, p))
      ensures r == Got(x, q)
    {
      ConstrainedReads(s, p, span, x, q);
    }
  }
}
