/**
  Reading back the aligned PER primitives.  Every lemma has the same shape: the
  writer went from `w` to `w'`, and `w'` is a prefix of the bits `s` that the
  reader sees, so whatever follows in `s` is arbitrary.
*/
module PerPrimitives {
  import opened Wrappers
  import opened PerBits
  import opened PerSpec

  /** The bits read at `|w|` from anything that starts with `w + x`. */
  lemma PrefixSlice(w: Bits, x: Bits, s: Bits)
    requires w + x <= s
    ensures s[|w|..|w| + |x|] == x
  {
    assert (w + x)[|w|..] == x;
    assert s[..|w| + |x|] == w + x;
    assert s[|w|..|w| + |x|] == (w + x)[|w|..];
  }

  lemma ValueReadsBack(w: Bits, v: nat, n: nat, w': Bits, s: Bits)
    requires n >= 1 && v < TWO64 && PutValue(w, v, n) == Some(w') && w' <= s
    ensures GetValue(s, |w|, n) == Got(v, |w'|)
  {
    PrefixSlice(w, BitsOf(v, n), s);
    ValueOfBitsOf(v, n);
  }

  lemma AlignReadsBack(w: Bits, s: Bits)
    requires Aligned(w) <= s && |s| % 8 == 0
    ensures GetAlign(s, |w|) == Got((), |Aligned(w)|)
  {
    PrefixSlice(w, Zeros(PadLen(|w|)), s);
  }

  lemma ConstrainedReadsBack(w: Bits, range: int, v: nat, w': Bits, s: Bits)
    requires v < TWO64 && PutConstrained(w, range, v) == Some(w') && w' <= s && |s| % 8 == 0
    ensures GetConstrained(s, |w|, range) == Got(v, |w'|)
  {
    if range <= 255 {
      ValueReadsBack(w, v, BitsForRange(range), w', s);
    } else {
      AlignReadsBack(w, s);
      ValueReadsBack(Aligned(w), v, if range == 256 then 8 else 16, w', s);
    }
  }

  /** A 16-bit field read as two octets. */
  lemma TwoOctets(w: Bits, v: nat, s: Bits)
    requires v < 65536 && w + BitsOf(v, 16) <= s
    ensures GetValue(s, |w|, 8) == Got(v / 256, |w| + 8)
    ensures GetValue(s, |w| + 8, 8) == Got(v % 256, |w| + 16)
  {
    Pow2Values();
    BitsOfSplit(v, 8, 8);
    assert ShiftRight(v, 8) == v / 256;
    BitsOfSum(0, v, 0, 8);
    assert BitsOf(v, 8) == BitsOf(v % 256, 8) by {
      BitsOfMod(v, 8);
    }
    var w1 := w + BitsOf(v / 256, 8);
    assert w + BitsOf(v, 16) == w1 + BitsOf(v % 256, 8);
    ValueReadsBack(w, v / 256, 8, w1, s);
    ValueReadsBack(w1, v % 256, 8, w + BitsOf(v, 16), s);
  }

  lemma {:induction false} BitsOfMod(v: nat, n: nat)
    ensures BitsOf(v, n) == BitsOf(v % Pow2(n), n)
  {
    DivMod(v, Pow2(n));
    var low: nat := v % Pow2(n);
    BitsOfSum(0, v, 0, n);
    assert BitsOf(0, 0) + BitsOf(v, n) == BitsOf(v, n);
  }

  /** The low `n` bits of any number stand for it modulo 2^n. */
  lemma BitsKeepValue(v: nat, n: nat)
    ensures ValueOf(BitsOf(v, n)) == v % Pow2(n)
  {
    hide BitsOf, ValueOf, Pow2;
    BitsOfMod(v, n);
    ValueOfBitsOf(v % Pow2(n), n);
  }

  lemma AlignedOctetReadsBack(w: Bits, v: nat, s: Bits)
    requires v < 256 && Aligned(w) + BitsOf(v, 8) <= s && |s| % 8 == 0
    ensures GetAlign(s, |w|) == Got((), |Aligned(w)|)
    ensures GetValue(s, |Aligned(w)|, 8) == Got(v, |Aligned(w)| + 8)
  {
    AlignReadsBack(w, s);
    Pow2Values();
    ValueReadsBack(Aligned(w), v, 8, Aligned(w) + BitsOf(v, 8), s);
  }

  lemma MediumLengthReadsBack(w: Bits, v: nat, s: Bits)
    requires 128 <= v < 16384 && Aligned(w) + BitsOf(0x8000 + v, 16) <= s && |s| % 8 == 0
    ensures GetLength(s, |w|, -1) == Got((v, false), |Aligned(w)| + 16)
  {
    hide GetAlign, GetValue, Aligned, BitsOf;
    AlignReadsBack(w, s);
    TwoOctets(Aligned(w), 0x8000 + v, s);
    var first := (0x8000 + v) / 256;
    assert first == 128 + v / 256;
    assert first % 64 * 256 + (0x8000 + v) % 256 == v;
  }

  lemma TopBitsOf(k: nat)
    requires k < 64
    ensures WithTopBits(k) == 0xc0 + k
  {
  }

  lemma LargeLengthReadsBack(w: Bits, k: nat, s: Bits)
    requires 1 <= k <= 4 && Aligned(w) + BitsOf(0xc0 + k, 8) <= s && |s| % 8 == 0
    ensures GetLength(s, |w|, -1) == Got((16384 * k, true), |Aligned(w)| + 8)
  {
    hide GetAlign, GetValue, Aligned, BitsOf;
    var first := 0xc0 + k;
    AlignedOctetReadsBack(w, first, s);
    assert first % 64 == k && first % 128 >= 64;
  }

  /** The flag says whether another fragment follows. */
  lemma LengthReadsBack(w: Bits, sizeRange: int, v: nat, w': Bits, s: Bits)
    requires v <= 65536 && PutLength(w, sizeRange, v) == Some(w') && w' <= s && |s| % 8 == 0
    requires 0 < sizeRange <= 65536 || v < 16384 || v % 16384 == 0
    ensures GetLength(s, |w|, sizeRange) == Got((v, !(0 < sizeRange <= 65536) && v >= 16384), |w'|)
  {
    hide GetAlign, GetConstrained, PutConstrained, GetValue, Aligned, WithTopBits;
    if 0 < sizeRange <= 65536 {
      ConstrainedReadsBack(w, sizeRange, v, w', s);
    } else {
      assert GetLength(s, |w|, sizeRange) == GetLength(s, |w|, -1);
      if v <= 127 {
        AlignReadsBack(w, s);
        ValueReadsBack(Aligned(w), v, 8, w', s);
      } else if v <= 16383 {
        MediumLengthReadsBack(w, v, s);
      } else {
        TopBitsOf(v / 16384);
        LargeLengthReadsBack(w, v / 16384, s);
      }
    }
  }

  // ------------------------------------------------------- runs of primitive operations

  /** One call of a writer primitive, and of the reader primitive that matches it. */
  datatype Op = OpBits(v: nat, n: nat) | OpAlign | OpConstrained(range: int, v: nat) | OpLength(v: nat)

  predicate OpInRange(op: Op) {
    match op
    case OpBits(v, n) => 1 <= n && v < TWO64
    case OpAlign => true
    case OpConstrained(range, v) => v < TWO64
    case OpLength(v) => v < 16384 || (v <= 65536 && v % 16384 == 0)
  }

  function PutOp(w: Bits, op: Op): (r: Option<Bits>)
    requires OpInRange(op)
    ensures r.Some? ==> w <= r.value
  {
    match op
    case OpBits(v, n) => PutValue(w, v, n)
    case OpAlign => Some(Aligned(w))
    case OpConstrained(range, v) => PutConstrained(w, range, v)
    case OpLength(v) => PutLength(w, -1, v)
  }

  /** What the matching reader primitive returns; alignment returns 0. */
  function GetOp(s: Bits, p: nat, op: Op): (r: Read<nat>)
    requires p <= |s| && |s| % 8 == 0
    ensures Sane(r, s, p)
  {
    match op
    case OpBits(_, n) => GetValue(s, p, n)
    case OpAlign =>
      (match GetAlign(s, p)
       case Fail(q) => Fail(q)
       case Got(_, q) => Got(0, q))
    case OpConstrained(range, _) => GetConstrained(s, p, range)
    case OpLength(_) =>
      match GetLength(s, p, -1)
      case Fail(q) => Fail(q)
      case Got((v, _), q) => Got(v, q)
  }

  function OpValue(op: Op): (v: nat) {
    if op.OpAlign? then 0 else op.v
  }

  /** The bits before and after each operation of a successful run. */
  function PutRun(w: Bits, ops: seq<Op>): (r: Option<seq<Bits>>)
    requires forall op :: op in ops ==> OpInRange(op)
    ensures r.Some? ==> |r.value| == |ops| + 1 && r.value[0] == w && w <= r.value[|ops|]
    decreases |ops|
  {
    if ops == [] then Some([w])
    else
      match PutOp(w, ops[0])
      case None => None
      case Some(w1) =>
        match PutRun(w1, ops[1..])
        case None => None
        case Some(rest) => Some([w] + rest)
  }

  lemma OpReadsBack(w: Bits, op: Op, w': Bits, s: Bits)
    requires OpInRange(op) && PutOp(w, op) == Some(w') && w' <= s && |s| % 8 == 0
    ensures GetOp(s, |w|, op) == Got(OpValue(op), |w'|)
  {
    match op
    case OpBits(v, n) => ValueReadsBack(w, v, n, w', s);
    case OpAlign => AlignReadsBack(w, s);
    case OpConstrained(range, v) => ConstrainedReadsBack(w, range, v, w', s);
    case OpLength(v) => LengthReadsBack(w, -1, v, w', s);
  }

  /**
    Every run of writer primitives, started at any bit offset, is replayed by the
    reader: the same values come back, and both cursors agree before and after every
    operation.
  */
  lemma {:induction false} RunReadsBack(w: Bits, ops: seq<Op>, trace: seq<Bits>, s: Bits)
    requires forall op :: op in ops ==> OpInRange(op)
    requires PutRun(w, ops) == Some(trace) && trace[|ops|] <= s && |s| % 8 == 0
    ensures forall i :: 0 <= i <= |ops| ==> trace[i] <= s
    ensures forall i :: 0 <= i < |ops| ==> GetOp(s, |trace[i]|, ops[i]) == Got(OpValue(ops[i]), |trace[i + 1]|)
    decreases |ops|
  {
    hide PutOp, GetOp, OpValue, OpInRange;
    if ops == [] {
    } else {
      var w1 := PutOp(w, ops[0]).value;
      var rest := PutRun(w1, ops[1..]).value;
      assert trace == [w] + rest;
      RunReadsBack(w1, ops[1..], rest, s);
      assert rest[0] <= s;
      OpReadsBack(w, ops[0], w1, s);
      forall i | 0 <= i < |ops|
        ensures GetOp(s, |trace[i]|, ops[i]) == Got(OpValue(ops[i]), |trace[i + 1]|)
      {
        if i > 0 {
          assert ops[1..][i - 1] == ops[i] && rest[i - 1] == trace[i] && rest[i] == trace[i + 1];
        }
      }
    }
  }
}
