/** What survives encoding and decoding: conditions on a schema tree, a value of it and the place it is written to. */
module PerConditions {
  import opened Wrappers
  import opened PerBits
  import opened PerSpec
  import opened PerStrings
  import opened PerSizes
  import opened PerIntegers
  import opened PerSchema

  // ------------------------------------------------------------------- hypotheses

  /** The alternatives of every open type are told apart by their references. */
  predicate WellFormed(schema: Schema) {
    match schema
    case SequenceOf(_, _, _, elem) => WellFormed(elem)
    case Sequence(_, fields) => forall i :: 0 <= i < |fields| ==> WellFormed(fields[i].schema)
    case Choice(_, _, alts) => forall i :: 0 <= i < |alts| ==> WellFormed(alts[i])
    case OpenType(_, cases) =>
      && (forall i :: 0 <= i < |cases| ==> WellFormed(cases[i].schema))
      && (forall i, j :: 0 <= i < j < |cases| && cases[i].ref.Some? ==> cases[i].ref != cases[j].ref)
    case _ => true
  }

  /** No node of the tree can have an empty encoding. */
  predicate Wide(schema: Schema) {
    match schema
    case Boolean => true
    case Integer(ext, lb, ub) => ext || lb.None? || ub.None? || lb.value != ub.value
    case Enumerated(ext, lb, ub) => ext || lb.None? || ub.None? || Wrap64(ub.value - lb.value + 1) > 1
    case BitStr(_, _, _) => true
    case OctetStr(_, _, _) => true
    case SequenceOf(ext, lb, ub, elem) => Wide(elem) && (ext || ub != Some(0))
    case Sequence(ext, fields) => (ext || |fields| > 0) && forall i :: 0 <= i < |fields| ==> Wide(fields[i].schema)
    case Choice(_, _, alts) => forall i :: 0 <= i < |alts| ==> Wide(alts[i])
    case OpenType(_, _) => true
  }

  /**
    What survives when it is written from the bit behind `w` on; every clause is the exact
    condition proved for its leaf.
  */
  predicate Fits(schema: Schema, v: Value, w: Bits)
    decreases schema, 0
  {
    match (schema, v)
    case (Integer(ext, lb, ub), VInt(i)) => IntegerSurvives(i, ext, lb, ub, |w|)
    case (Enumerated(_, lb, ub), VEnum(e)) => lb.Some? && ub.Some? ==> EnumeratedSurvives(e, lb.value, ub.value)
    case (BitStr(ext, lb, ub), VBits(bits, extra, _)) => SizeSurvives(1, |bits|, extra == [], ext, lb, ub, |w|)
    case (OctetStr(ext, lb, ub), VOctets(o, _)) => SizeSurvives(8, |o|, true, ext, lb, ub, |w|)
    case (SequenceOf(ext, lb, ub, elem), VList(vs)) =>
      CountSurvives(|vs|, ext, ub, |w|) &&
      var w1 := PutCount(w, |vs|, ext, lb, ub);
      w1.Some? ==> FitsElems(elem, vs, w1.value)
    case (Sequence(ext, fields), VStruct(vals)) =>
      |fields| == |vals| ==> BitmapHolds(fields, vals) && StructFits(ext, fields, vals, w)
    case (Choice(ext, ub, alts), VChoice(present, x)) =>
      1 <= present <= |alts| ==>
        var w1 := PutChoiceIndex(if ext then w + [false] else w, present, ext, ub);
        w1.Some? ==> Fits(alts[present - 1], x, w1.value)
    case (OpenType(_, cases), VChoice(present, x)) =>
      1 <= present <= |cases| ==>
        && Fits(cases[present - 1].schema, x, [])
        && InnerFits(cases[present - 1].schema, Encode(cases[present - 1].schema, x, None, []))
    case _ => true
  }

  predicate FitsElems(elem: Schema, vs: seq<Value>, w: Bits)
    decreases elem, |vs| + 1
  {
    vs == [] ||
    (Fits(elem, vs[0], w) &&
     var w1 := Encode(elem, vs[0], None, w);
     w1.Some? ==> FitsElems(elem, vs[1..], w1.value))
  }

  /** The fields of a SEQUENCE, each at its own place behind the presence bits. */
  predicate StructFits(ext: bool, fields: seq<Field>, vals: seq<Option<Value>>, w: Bits)
    requires |fields| == |vals|
    decreases fields, |fields| + 1
  {
    var presence := PresenceBits(fields, vals, 0);
    var presents := ValueOf(presence) % TWO64;
    var w1 := PutValue(if ext then w + [false] else w, presents, |presence|);
    w1.Some? ==> FitsFields(fields, vals, 0, presents, w1.value)
  }

  predicate FitsFields(fields: seq<Field>, vals: seq<Option<Value>>, i: nat, presents: nat, w: Bits)
    requires i <= |fields| == |vals|
    decreases fields, |fields| - i
  {
    i == |fields| ||
    (if Skipped(fields[i], presents, OptionalCount(fields, i + 1)) then FitsFields(fields, vals, i + 1, presents, w)
     else vals[i].Some? ==>
       var f := fields[i];
       assert fields decreases to f;
       Fits(f.schema, vals[i].value, w) &&
       var w1 := Encode(f.schema, vals[i].value, RefFor(fields, vals[..i]), w);
       w1.Some? ==> FitsFields(fields, vals, i + 1, presents, w1.value))
  }

  /** The octets of an open type survive, and its last node does not start at their end. */
  predicate InnerFits(schema: Schema, inner: Option<Bits>) {
    inner.Some? ==>
      && FragmentsSurvive(false, 0, OctetsFor(|inner.value|))
      && (Wide(schema) || |inner.value| % 8 != 0)
  }

  /** The bitmap is a 64-bit number: optional fields with 64 and more others behind them have no bit in it. */
  predicate BitmapHolds(fields: seq<Field>, vals: seq<Option<Value>>) {
    |fields| == |vals| &&
    forall i :: 0 <= i < |fields| && fields[i].optional && OptionalCount(fields, i + 1) >= 64 ==> vals[i].None?
  }

  /** Whether field `i` is left out; `rest` optional fields follow it. */
  predicate Skipped(f: Field, presents: nat, rest: nat) {
    f.optional && !TestBit(presents, rest)
  }

  function RefFor(fields: seq<Field>, done: seq<Option<Value>>): (r: Option<Int64>)
    requires |done| < |fields|
  {
    var schema := fields[|done|].schema;
    if schema.OpenType? then LookupRef(fields, done, schema.refName) else None
  }

  // ---------------------------------------------------------------------- presence

  /** Bit `k` of a number, counted from the least significant one. */
  lemma {:induction false} TestBitOf(bits: Bits, k: nat)
    requires k < |bits|
    ensures TestBit(ValueOf(bits), k) == bits[|bits| - 1 - k]
  {
    var front := bits[..|bits| - 1];
    if k == 0 {
    } else {
      TestBitOf(front, k - 1);
      ShiftRightTwice(ValueOf(bits), 1, k - 1);
      assert ShiftRight(ValueOf(bits), 1) == ValueOf(front);
    }
  }

  lemma {:induction false} PresenceCount(fields: seq<Field>, vals: seq<Option<Value>>, i: nat)
    requires i <= |fields| == |vals|
    ensures |PresenceBits(fields, vals, i)| == OptionalCount(fields, i)
    decreases |fields| - i
  {
    if i < |fields| {
      PresenceCount(fields, vals, i + 1);
    }
  }

  /** The presence bits of the later fields are the tail of all of them. */
  lemma {:induction false} PresenceTail(fields: seq<Field>, vals: seq<Option<Value>>, i: nat)
    requires i <= |fields| == |vals|
    ensures var all, tail := PresenceBits(fields, vals, 0), PresenceBits(fields, vals, i);
            |tail| <= |all| && tail == all[|all| - |tail|..]
    decreases i
  {
    if i > 0 {
      PresenceTail(fields, vals, i - 1);
    }
  }

  /** The number written for the presence bits says of each optional field whether it is there. */
  lemma PresenceTest(fields: seq<Field>, vals: seq<Option<Value>>, i: nat)
    requires i < |fields| == |vals| && fields[i].optional
    ensures var rest := |PresenceBits(fields, vals, i)| - 1;
            && rest == |PresenceBits(fields, vals, i + 1)|
            && TestBit(ValueOf(PresenceBits(fields, vals, 0)), rest) == vals[i].Some?
  {
    var all, tail := PresenceBits(fields, vals, 0), PresenceBits(fields, vals, i);
    PresenceTail(fields, vals, i);
    assert tail == [vals[i].Some?] + PresenceBits(fields, vals, i + 1);
    TestBitOf(all, |tail| - 1);
  }

  lemma PresenceStep(fields: seq<Field>, vals: seq<Option<Value>>, i: nat)
    requires i < |fields| == |vals| && MandatoryPresent(fields, vals)
    ensures var rest := |PresenceBits(fields, vals, i + 1)|;
            && |PresenceBits(fields, vals, i)| == (if fields[i].optional then rest + 1 else rest)
            && (Skipped(fields[i], ValueOf(PresenceBits(fields, vals, 0)), rest) <==> vals[i].None?)
  {
    if fields[i].optional {
      PresenceTest(fields, vals, i);
    }
  }

  /** With no bit set beyond the 64th, the bitmap is the whole number. */
  lemma {:induction false} BitmapBelow(fields: seq<Field>, vals: seq<Option<Value>>, i: nat)
    requires i <= |fields| == |vals| && BitmapHolds(fields, vals)
    ensures ValueOf(PresenceBits(fields, vals, i)) < TWO64
    decreases |fields| - i
  {
    hide ValueOf;
    var bits := PresenceBits(fields, vals, i);
    PresenceCount(fields, vals, i);
    if |bits| <= 64 {
      Below64(bits);
    } else {
      BitmapBelow(fields, vals, i + 1);
      PresenceCount(fields, vals, i + 1);
      var more := PresenceBits(fields, vals, i + 1);
      if fields[i].optional {
        assert bits == [false] + more;
        assert bits[..1] == Zeros(1) && bits[1..] == more;
        LeadingZeros(bits, 1);
      } else {
        assert bits == more;
      }
    }
  }

  lemma Below64(bits: Bits)
    requires |bits| <= 64
    ensures ValueOf(bits) < TWO64
  {
    Pow2Monotone(|bits|, 64);
    Pow2Values();
  }

  // -------------------------------------------------------- one turn of each loop

  lemma EncodeTurn(fields: seq<Field>, vals: seq<Option<Value>>, i: nat, presents: nat, rest: nat, w: Bits)
    requires i < |fields| == |vals|
    ensures var all := EncodeFields(fields, vals, i, presents, if fields[i].optional then rest + 1 else rest, w);
            if Skipped(fields[i], presents, rest) then all == EncodeFields(fields, vals, i + 1, presents, rest, w)
            else all.Some? ==>
              && vals[i].Some? && (fields[i].schema.OpenType? ==> RefFor(fields, vals[..i]).Some?)
              && var one := Encode(fields[i].schema, vals[i].value, RefFor(fields, vals[..i]), w);
                 one.Some? && all == EncodeFields(fields, vals, i + 1, presents, rest, one.value)
  {
    hide Encode, TestBit, LookupRef;
  }

  /** One turn of `FitsFields`. */
  lemma FitsTurn(fields: seq<Field>, vals: seq<Option<Value>>, i: nat, presents: nat, w: Bits)
    requires i < |fields| == |vals| && FitsFields(fields, vals, i, presents, w)
    ensures var rest := |PresenceBits(fields, vals, i + 1)|;
            if Skipped(fields[i], presents, rest) then FitsFields(fields, vals, i + 1, presents, w)
            else vals[i].Some? ==>
              && Fits(fields[i].schema, vals[i].value, w)
              && var one := Encode(fields[i].schema, vals[i].value, RefFor(fields, vals[..i]), w);
                 one.Some? ==> FitsFields(fields, vals, i + 1, presents, one.value)
  {
    hide Fits, Encode, Skipped, RefFor;
    PresenceCount(fields, vals, i + 1);
  }

  lemma ChoiceHypotheses(schema: Schema, v: Value, w: Bits, w1: Bits)
    requires schema.Choice? && v.VChoice? && 1 <= v.present <= |schema.alts| && WellFormed(schema) && Fits(schema, v, w)
    requires PutChoiceIndex(if schema.ext then w + [false] else w, v.present, schema.ext, schema.vub) == Some(w1)
    ensures WellFormed(schema.alts[v.present - 1]) && Fits(schema.alts[v.present - 1], v.v, w1)
    ensures Wide(schema) ==> Wide(schema.alts[v.present - 1])
  {
    hide PutChoiceIndex;
  }

  lemma ChoiceWritten(schema: Schema, v: Value, ref: Option<Int64>, w: Bits, w': Bits) returns (w1: Bits)
    requires schema.Choice? && Encode(schema, v, ref, w) == Some(w')
    ensures v.VChoice? && 1 <= v.present <= |schema.alts|
    ensures PutChoiceIndex(if schema.ext then w + [false] else w, v.present, schema.ext, schema.vub) == Some(w1)
    ensures Encode(schema.alts[v.present - 1], v.v, None, w1) == Some(w')
  {
    hide PutChoiceIndex;
    w1 := PutChoiceIndex(if schema.ext then w + [false] else w, v.present, schema.ext, schema.vub).value;
  }
}
