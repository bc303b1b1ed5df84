/** The decoder undoes the encoder, for every schema tree. */
module PerRoundTrip {
  import opened Wrappers
  import opened PerBits
  import opened PerSpec
  import opened PerPrimitives
  import opened PerStrings
  import opened PerSizes
  import opened PerIntegers
  import opened PerSchema
  import opened PerConditions
  import opened PerRemnants

  // ------------------------------------------------------------- something is written

  lemma SizedGrows(w: Bits, unit: nat, data: Bits, extra: Bits, spare: Bits, len: nat, ext: bool,
                   lb: Option<nat>, ub: Option<nat>, w': Bits)
    requires unit == 1 || unit == 8
    requires |data| == 8 * OctetsFor(Scale(unit, len)) && len < TWO64 && (lb.Some? ==> lb.value < TWO63)
    requires PutSized(w, unit, data, extra, spare, len, ext, lb, ub) == Some(w')
    requires SizeSurvives(unit, len, extra == [], ext, lb, ub, |w|)
    ensures |w| < |w'|
  {
    hide PutFragments, OctetsFor, Aligned, FragmentsSurvive, FieldEnd, PadLen, WholeSlice;
  }

  lemma IntegerGrows(w: Bits, value: Int64, ext: bool, lb: Option<Int64>, ub: Option<Int64>, w': Bits)
    requires ext || lb.None? || ub.None? || lb.value != ub.value
    requires PutInteger(w, value, ext, lb, ub) == Some(w')
    ensures |w| < |w'|
  {
    hide PutConstrained, PutWide, PutOctetCounted, Wrap64;
    if lb.Some? && ub.Some? && value <= ub.value {
      WrapIsOne(ub.value - lb.value + 1);
    }
  }

  lemma WrapIsOne(x: int)
    requires 1 <= x <= TWO64
    ensures Wrap64(x) == 1 <==> x == 1
  {
  }

  lemma EnumeratedGrows(w: Bits, value: nat, ext: bool, lb: Option<Int64>, ub: Option<Int64>, w': Bits)
    requires PutEnumerated(w, value, ext, lb, ub) == Some(w')
    requires ext || (lb.Some? && ub.Some? && Wrap64(ub.value - lb.value + 1) > 1)
    ensures |w| < |w'|
  {
    hide PutConstrained, Wrap64;
  }

  lemma CountGrows(w: Bits, n: nat, ext: bool, lb: Option<nat>, ub: Option<nat>, w': Bits)
    requires ext || ub != Some(0)
    requires PutCount(w, n, ext, lb, ub) == Some(w')
    ensures |w| < |w'| || n > 0
  {
    hide PutConstrained, Aligned;
  }

  /** A wide schema never encodes to nothing. */
  lemma {:induction false} EncodeGrows(schema: Schema, v: Value, ref: Option<Int64>, w: Bits, w': Bits)
    requires WellFormed(schema) && Wide(schema) && Fits(schema, v, w)
    requires Encode(schema, v, ref, w) == Some(w')
    ensures |w| < |w'|
    decreases schema
  {
    hide PutSized, PutInteger, PutEnumerated, PutCount, PutChoiceIndex, PutFragments, Aligned, OctetsFor, BytesToBits;
    hide IntegerSurvives, EnumeratedSurvives, SizeSurvives, CountSurvives, FitsFields, Wrap64;
    match schema
    case Boolean =>
    case Integer(ext, lb, ub) => IntegerGrows(w, v.i, ext, lb, ub, w');
    case Enumerated(ext, lb, ub) =>
      EnumeratedBounded(w, v.e, ext, lb, ub, w');
      EnumeratedGrows(w, v.e, ext, lb, ub, w');
    case BitStr(ext, lb, ub) =>
      SizedGrows(w, 1, InOctets(v.bits), BytesToBits(v.extra), BytesToBits(v.spare), |v.bits|, ext, lb, ub, w');
    case OctetStr(ext, lb, ub) =>
      SizedGrows(w, 8, BytesToBits(v.octets), [], BytesToBits(v.spare), |v.octets|, ext, lb, ub, w');
    case SequenceOf(ext, lb, ub, elem) =>
      var w1 := PutCount(w, |v.elems|, ext, lb, ub).value;
      CountGrows(w, |v.elems|, ext, lb, ub, w1);
      if v.elems != [] {
        EncodeGrows(elem, v.elems[0], None, w1, Encode(elem, v.elems[0], None, w1).value);
      }
    case Sequence(ext, fields) =>
      if !ext && !fields[0].optional {
        FirstFieldGrows(fields, v.fields, w, w');
      } else if !ext {
        assert |PresenceBits(fields, v.fields, 0)| > 0;
      }
    case Choice(_, _, _) =>
    case OpenType(_, _) =>
  }

  lemma EnumeratedBounded(w: Bits, value: nat, ext: bool, lb: Option<Int64>, ub: Option<Int64>, w': Bits)
    requires PutEnumerated(w, value, ext, lb, ub) == Some(w')
    ensures lb.Some? && ub.Some?
  {
  }

  lemma {:induction false} FirstFieldGrows(fields: seq<Field>, vals: seq<Option<Value>>, w: Bits, w': Bits)
    requires |fields| > 0 && !fields[0].optional && |vals| == |fields| && MandatoryPresent(fields, vals)
    requires WellFormed(fields[0].schema) && Wide(fields[0].schema) && StructFits(false, fields, vals, w)
    requires Encode(Sequence(false, fields), VStruct(vals), None, w) == Some(w')
    ensures |w| < |w'|
    decreases fields
  {
    hide Wide, WellFormed, PresenceBits, ValueOf, OptionalCount;
    var presence := PresenceBits(fields, vals, 0);
    var presents := ValueOf(presence) % TWO64;
    var w1 := PutValue(w, presents, |presence|).value;
    var f := fields[0];
    assert !Skipped(f, presents, OptionalCount(fields, 1));
    assert Fits(f.schema, vals[0].value, w1);
    EncodeTurn(fields, vals, 0, presents, |presence|, w1);
    var w2 := Encode(f.schema, vals[0].value, RefFor(fields, vals[..0]), w1).value;
    EncodeGrows(f.schema, vals[0].value, RefFor(fields, vals[..0]), w1, w2);
  }

  // --------------------------------------------------------------------- round trip

  /** Bits left over after the encoding, or no node that could start at the end of the data. */
  predicate Room(schema: Schema, w': Bits, s: Bits) {
    |w'| < |s| || Wide(schema)
  }

  lemma StringReadsBack(w: Bits, unit: nat, data: Bits, extra: Bits, spare: Bits, len: nat, ext: bool,
                        lb: Option<nat>, ub: Option<nat>, w': Bits, s: Bits)
    requires unit == 1 || unit == 8
    requires |data| == 8 * OctetsFor(Scale(unit, len))
    requires SizeSurvives(unit, len, extra == [], ext, lb, ub, |w|)
    requires EncodeSized(w, unit, data, extra, spare, len, ext, lb, ub) == Some(w') && w' <= s && |s| % 8 == 0
    ensures var flag := GetFlag(s, |w|, ext);
            flag.Got? && GetSized(s, flag.pos, unit, flag.value, lb, ub) == Got(data[..Scale(unit, len)], |w'|)
  {
    hide PutSized, GetSized, SizeSurvives, OctetsFor, Scale, GetFlag;
    SizedExact(w, unit, data, extra, spare, len, ext, lb, ub, w', s);
  }

  /** What `appendOpenType` wraps is what `parseOpenType` unwraps. */
  lemma WrappedReadsBack(w: Bits, inner: Bits, marks: set<nat>, w': Bits, s: Bits)
    requires FragmentsSurvive(false, 0, OctetsFor(|inner|))
    requires PutFragments(w, 8, -1, 0, Smeared(InOctets(inner), marks), OctetsFor(|inner|)) == Some(w')
    requires w' <= s && |s| % 8 == 0
    ensures var r := GetFragments(s, |w|, 8, -1, 0);
            && r.Got? && r.pos == |w'| && Scale(8, r.value.units) <= |r.value.octets|
            && r.value.octets[..Scale(8, r.value.units)] == Smeared(Aligned(inner), marks)
  {
    hide PutFragments, GetFragments, OctetsFor;
    var raw := OctetsFor(|inner|);
    var octets := Smeared(InOctets(inner), marks);
    OctetsFill(raw);
    assert octets[..8 * raw] == octets;
    FragmentsReadBack(w, 8, octets, raw, w', s);
  }

  lemma OctetsFill(n: nat)
    ensures OctetsFor(Scale(8, n)) == n
  {
  }

  lemma CaseFound(cases: seq<Case>, present: nat, ref: Int64)
    requires 1 <= present <= |cases| && cases[present - 1].ref == Some(ref)
    requires forall i, j :: 0 <= i < j < |cases| && cases[i].ref.Some? ==> cases[i].ref != cases[j].ref
    ensures FindCase(cases, ref) == present
  {
    assert FindCase(cases, ref) != 0;
  }

  predicate Leaf(schema: Schema) {
    schema.Boolean? || schema.Integer? || schema.Enumerated? || schema.BitStr? || schema.OctetStr?
  }

  lemma RoundTripLeaf(schema: Schema, v: Value, ref: Option<Int64>, w: Bits, w': Bits, s: Bits)
    requires Leaf(schema) && WellFormed(schema) && Fits(schema, v, w) && |w| < |s|
    requires Encode(schema, v, ref, w) == Some(w') && w' <= s && |s| % 8 == 0
    ensures Decode(schema, ref, s, |w|) == Got(Plain(v), |w'|)
  {
    hide PutInteger, PutEnumerated, EncodeSized, InOctets, BytesToBits, SizeSurvives, IntegerSurvives,
    EnumeratedSurvives;
    hide GetSized, GetInteger, GetEnumerated, GetFlag, GetValue;
    match schema
    case Boolean => RoundTripBoolean(w, v.b, s);
    case Integer(ext, lb, ub) => IntegerExact(w, v.i, ext, lb, ub, w', s);
    case Enumerated(ext, lb, ub) =>
      EnumeratedBounded(w, v.e, ext, lb, ub, w');
      EnumeratedExact(w, v.e, ext, lb.value, ub.value, w', s);
    case BitStr(ext, lb, ub) => RoundTripBits(w, v, ext, lb, ub, w', s);
    case OctetStr(ext, lb, ub) => RoundTripOctets(w, v, ext, lb, ub, w', s);
  }

  /** What every case of the main theorem assumes once the node is known not to start at the end. */
  predicate Encoded(schema: Schema, v: Value, ref: Option<Int64>, w: Bits, w': Bits, s: Bits) {
    && WellFormed(schema) && Fits(schema, v, w) && Room(schema, w', s)
    && Encode(schema, v, ref, w) == Some(w') && w' <= s && |s| % 8 == 0
  }

  /**
    The main theorem.  Whatever the encoder accepts at any bit offset, the decoder reads
    back from any bit string that starts with the encoding, and it stops where the
    encoder stopped.  The value comes back without what its slices held beyond the strings.
  */
  lemma {:induction false} RoundTrip(schema: Schema, v: Value, ref: Option<Int64>, w: Bits, w': Bits, s: Bits)
    requires WellFormed(schema) && Fits(schema, v, w) && Room(schema, w', s)
    requires Encode(schema, v, ref, w) == Some(w') && w' <= s && |s| % 8 == 0
    ensures Decode(schema, ref, s, |w|) == Got(Plain(v), |w'|)
    decreases schema, 1
  {
    hide WellFormed, Fits, Wide, Encode, Decode;
    assert |w| < |s| by {
      if Wide(schema) {
        EncodeGrows(schema, v, ref, w, w');
      }
    }
    if schema.SequenceOf? {
      RoundTripSequenceOf(schema, v, ref, w, w', s);
    } else if schema.Sequence? {
      RoundTripSequence(schema, v, ref, w, w', s);
    } else if schema.Choice? {
      RoundTripChoice(schema, v, ref, w, w', s);
    } else if schema.OpenType? {
      RoundTripOpenType(schema, v, ref, w, w', s);
    } else {
      RoundTripLeaf(schema, v, ref, w, w', s);
    }
  }

  lemma {:induction false} RoundTripSequenceOf(schema: Schema, v: Value, ref: Option<Int64>, w: Bits, w': Bits, s: Bits)
    requires schema.SequenceOf? && Encoded(schema, v, ref, w, w', s) && |w| < |s|
    ensures Decode(schema, ref, s, |w|) == Got(Plain(v), |w'|)
    decreases schema, 0
  {
    hide PutCount, GetCount, GetFlag, EncodeElems, DecodeElems, FitsElems, CountSurvives;
    var w1 := PutCount(w, |v.elems|, schema.ext, schema.lb, schema.ub).value;
    CountExact(w, |v.elems|, schema.ext, schema.lb, schema.ub, w1, s);
    RoundTripElems(schema.elem, v.elems, w1, w', s);
  }

  lemma {:induction false} RoundTripSequence(schema: Schema, v: Value, ref: Option<Int64>, w: Bits, w': Bits, s: Bits)
    requires schema.Sequence? && Encoded(schema, v, ref, w, w', s) && |w| < |s|
    ensures Decode(schema, ref, s, |w|) == Got(Plain(v), |w'|)
    decreases schema, 0
  {
    hide GetFlag, GetValue, EncodeFields, DecodeFields, PutValue, PresenceBits, ValueOf, OptionalCount, FitsFields,
    BitmapHolds;
    var presence := PresenceBits(schema.fields, v.fields, 0);
    var w2 := PutValue(if schema.ext then w + [false] else w, ValueOf(presence) % TWO64, |presence|).value;
    assert StructFits(schema.ext, schema.fields, v.fields, w);
    RoundTripStruct(schema.ext, schema.fields, v.fields, w, w2, w', s);
  }

  lemma {:induction false} RoundTripChoice(schema: Schema, v: Value, ref: Option<Int64>, w: Bits, w': Bits, s: Bits)
    requires schema.Choice? && Encoded(schema, v, ref, w, w', s) && |w| < |s|
    ensures Decode(schema, ref, s, |w|) == Got(Plain(v), |w'|)
    decreases schema, 0
  {
    hide PutChoiceIndex, GetChoiceIndex, GetFlag, Encode, Decode, WellFormed, Fits, Wide;
    var w1 := ChoiceWritten(schema, v, ref, w, w');
    ChoiceHypotheses(schema, v, w, w1);
    RoundTripChoiceIndex(schema.ext, schema.vub, v.present, w, w1, s);
    RoundTrip(schema.alts[v.present - 1], v.v, None, w1, w', s);
    ChoiceRead(schema, ref, s, |w|, v.present, |w1|);
  }

  lemma ChoiceRead(schema: Schema, ref: Option<Int64>, s: Bits, p: nat, present: nat, q: nat)
    requires schema.Choice? && p < |s| && |s| % 8 == 0 && 1 <= present <= |schema.alts| && q <= |s|
    requires var flag := GetFlag(s, p, schema.ext);
             flag.Got? && GetChoiceIndex(s, flag.pos, flag.value, schema.vub) == Got(present, q)
    ensures Decode(schema, ref, s, p) == DecodedChoice(present, Decode(schema.alts[present - 1], None, s, q))
  {
    hide GetChoiceIndex, GetFlag;
  }

  lemma {:induction false} RoundTripOpenType(schema: Schema, v: Value, ref: Option<Int64>, w: Bits, w': Bits, s: Bits)
    requires schema.OpenType? && Encoded(schema, v, ref, w, w', s) && |w| < |s|
    ensures Decode(schema, ref, s, |w|) == Got(Plain(v), |w'|)
    decreases schema, 0
  {
    hide Encode, Decode, WellFormed, Fits, Wide, PutFragments, GetFragments, OctetsFor, FragmentsSurvive, Marks, Scale;
    hide Aligned;
    var inner := OpenTypeWritten(schema, v, ref, w, w');
    var c := schema.cases[v.present - 1];
    NothingLeftBehind(c.schema, v.v, None, [], inner);
    WrappedReadsBack(w, inner, {}, w', s);
    RoomInside(c.schema, inner);
    RoundTrip(c.schema, v.v, None, [], inner, Aligned(inner));
    OpenTypeRead(schema, ref, s, |w|, v.present);
  }

  lemma OpenTypeWritten(schema: Schema, v: Value, ref: Option<Int64>, w: Bits, w': Bits) returns (inner: Bits)
    requires schema.OpenType? && WellFormed(schema) && Fits(schema, v, w) && Encode(schema, v, ref, w) == Some(w')
    ensures v.VChoice? && ref.Some? && 1 <= v.present <= |schema.cases|
    ensures FindCase(schema.cases, ref.value) == v.present
    ensures var c := schema.cases[v.present - 1];
            && WellFormed(c.schema) && Fits(c.schema, v.v, []) && InnerFits(c.schema, Some(inner))
            && Encode(c.schema, v.v, None, []) == Some(inner)
            && PutFragments(w, 8, -1, 0, Smeared(InOctets(inner), Marks(c.schema, v.v, None, [])), OctetsFor(|inner|))
               == Some(w')
  {
    hide PutFragments, OctetsFor, InnerFits, FindCase, EncodeElems, EncodeFields, EncodeSized, Marks;
    inner := Encode(schema.cases[v.present - 1].schema, v.v, None, []).value;
    CaseFound(schema.cases, v.present, ref.value);
  }

  lemma OpenTypeRead(schema: Schema, ref: Option<Int64>, s: Bits, p: nat, present: nat)
    requires schema.OpenType? && ref.Some? && p < |s| && |s| % 8 == 0 && present > 0
    requires FindCase(schema.cases, ref.value) == present && GetFragments(s, p, 8, -1, 0).Got?
    ensures var c := GetFragments(s, p, 8, -1, 0);
            var x := Decode(schema.cases[present - 1].schema, None, c.value.octets[..Scale(8, c.value.units)], 0);
            x.Got? ==> Decode(schema, ref, s, p) == Got(VChoice(present, x.value), c.pos)
  {
    hide GetFragments, FindCase, Scale;
  }

  lemma RoomInside(schema: Schema, inner: Bits)
    requires Wide(schema) || |inner| % 8 != 0
    ensures Room(schema, inner, Aligned(inner))
  {
    hide Wide;
  }

  lemma RoundTripBoolean(w: Bits, b: bool, s: Bits)
    requires w + [b] <= s
    ensures GetValue(s, |w|, 1) == Got(if b then 1 else 0, |w| + 1)
  {
    var n := if b then 1 else 0;
    assert BitsOf(n, 1) == [b];
    ValueReadsBack(w, n, 1, w + [b], s);
  }

  lemma RoundTripBits(w: Bits, v: Value, ext: bool, lb: Option<nat>, ub: Option<nat>, w': Bits, s: Bits)
    requires v.VBits? && SizeSurvives(1, |v.bits|, v.extra == [], ext, lb, ub, |w|)
    requires EncodeSized(w, 1, InOctets(v.bits), BytesToBits(v.extra), BytesToBits(v.spare), |v.bits|, ext, lb, ub)
             == Some(w')
    requires w' <= s && |s| % 8 == 0
    ensures var flag := GetFlag(s, |w|, ext);
            flag.Got? && DecodedBits(GetSized(s, flag.pos, 1, flag.value, lb, ub)) == Got(VBits(v.bits, [], []), |w'|)
  {
    hide EncodeSized, GetSized, GetFlag, SizeSurvives;
    assert InOctets(v.bits)[..|v.bits|] == v.bits;
    assert BytesToBits(v.extra) == [] <==> v.extra == [];
    StringReadsBack(w, 1, InOctets(v.bits), BytesToBits(v.extra), BytesToBits(v.spare), |v.bits|, ext, lb, ub, w', s);
  }

  lemma RoundTripOctets(w: Bits, v: Value, ext: bool, lb: Option<nat>, ub: Option<nat>, w': Bits, s: Bits)
    requires v.VOctets? && SizeSurvives(8, |v.octets|, true, ext, lb, ub, |w|)
    requires EncodeSized(w, 8, BytesToBits(v.octets), [], BytesToBits(v.spare), |v.octets|, ext, lb, ub) == Some(w')
    requires w' <= s && |s| % 8 == 0
    ensures var flag := GetFlag(s, |w|, ext);
            flag.Got? && DecodedOctets(GetSized(s, flag.pos, 8, flag.value, lb, ub)) == Got(VOctets(v.octets, []), |w'|)
  {
    hide EncodeSized, GetSized, GetFlag, SizeSurvives, PackBytes;
    var data := BytesToBits(v.octets);
    assert data[..8 * |v.octets|] == data;
    StringReadsBack(w, 8, data, [], BytesToBits(v.spare), |v.octets|, ext, lb, ub, w', s);
    PackUnpacked(v.octets);
  }

  lemma {:induction false} RoundTripElems(elem: Schema, vs: seq<Value>, w: Bits, w': Bits, s: Bits)
    requires WellFormed(elem) && FitsElems(elem, vs, w) && Room(elem, w', s)
    requires EncodeElems(elem, vs, w) == Some(w') && w' <= s && |s| % 8 == 0
    ensures DecodeElems(elem, |vs|, s, |w|) == Got(PlainList(vs), |w'|)
    decreases elem, |vs| + 2
  {
    hide WellFormed, Fits, Wide, Encode, Decode, Plain;
    if vs == [] {
    } else {
      var w1 := Encode(elem, vs[0], None, w).value;
      RoundTrip(elem, vs[0], None, w, w1, s);
      RoundTripElems(elem, vs[1..], w1, w', s);
      assert PlainList(vs) == [Plain(vs[0])] + PlainList(vs[1..]);
    }
  }

  lemma {:induction false} RoundTripStruct(ext: bool, fields: seq<Field>, vals: seq<Option<Value>>,
                                           w: Bits, w2: Bits, w': Bits, s: Bits)
    requires forall i :: 0 <= i < |fields| ==> WellFormed(fields[i].schema)
    requires |fields| == |vals| && MandatoryPresent(fields, vals) && BitmapHolds(fields, vals)
    requires |w'| < |s| || forall i :: 0 <= i < |fields| ==> Wide(fields[i].schema)
    requires var presence := PresenceBits(fields, vals, 0);
             var presents := ValueOf(presence) % TWO64;
             && PutValue(if ext then w + [false] else w, presents, |presence|) == Some(w2)
             && FitsFields(fields, vals, 0, presents, w2)
             && EncodeFields(fields, vals, 0, presents, |presence|, w2) == Some(w')
    requires w' <= s && |s| % 8 == 0
    ensures var flag := GetFlag(s, |w|, ext);
            var count := OptionalCount(fields, 0);
            && flag.Got?
            && (if count == 0 then Got(0, flag.pos) else GetValue(s, flag.pos, count))
               == Got(ValueOf(PresenceBits(fields, vals, 0)), |w2|)
            && DecodeFields(fields, [], ValueOf(PresenceBits(fields, vals, 0)), count, s, |w2|)
               == Got(PlainFields(vals), |w'|)
    decreases fields, |fields| + 2
  {
    hide GetFlag, GetValue, PresenceBits, OptionalCount, EncodeFields, DecodeFields, WellFormed, FitsFields, Wide,
    BitmapHolds, PutValue, ValueOf;
    PresenceCount(fields, vals, 0);
    BitmapBelow(fields, vals, 0);
    assert w2 <= s by {
      FieldsGrow(fields, vals, ValueOf(PresenceBits(fields, vals, 0)), w2, w');
    }
    BitmapReadsBack(ext, PresenceBits(fields, vals, 0), w, w2, s);
    RoundTripFields(fields, vals, 0, w2, w', s);
    assert PlainFields(vals[..0]) == [];
  }

  lemma FieldsGrow(fields: seq<Field>, vals: seq<Option<Value>>, presents: nat, w: Bits, w': Bits)
    requires |fields| == |vals|
             && EncodeFields(fields, vals, 0, presents, |PresenceBits(fields, vals, 0)|, w) == Some(w')
    ensures w <= w'
  {
  }

  /** The extension bit and the bitmap of a SEQUENCE. */
  lemma BitmapReadsBack(ext: bool, presence: Bits, w: Bits, w2: Bits, s: Bits)
    requires ValueOf(presence) < TWO64 && w2 <= s && |s| % 8 == 0
    requires PutValue(if ext then w + [false] else w, ValueOf(presence), |presence|) == Some(w2)
    ensures var flag := GetFlag(s, |w|, ext);
            && flag.Got?
            && (if |presence| == 0 then Got(0, flag.pos) else GetValue(s, flag.pos, |presence|))
               == Got(ValueOf(presence), |w2|)
  {
    hide GetFlag, GetValue;
    FlagReadsBack(w, ext, false, s);
    if |presence| > 0 {
      ValueReadsBack(if ext then w + [false] else w, ValueOf(presence), |presence|, w2, s);
    } else {
      assert presence == [];
    }
  }

  lemma DecodeTurn(fields: seq<Field>, done: seq<Option<Value>>, presents: nat, rest: nat, s: Bits, p: nat)
    requires |done| < |fields| && p <= |s| && |s| % 8 == 0
    ensures var f := fields[|done|];
            var all := DecodeFields(fields, done, presents, if f.optional then rest + 1 else rest, s, p);
            if Skipped(f, presents, rest) then all == DecodeFields(fields, done + [None], presents, rest, s, p)
            else (f.schema.OpenType? ==> RefFor(fields, done).Some?) ==>
              var one := Decode(f.schema, RefFor(fields, done), s, p);
              one.Got? ==> all == DecodeFields(fields, done + [Some(one.value)], presents, rest, s, one.pos)
  {
    hide Decode, TestBit, LookupRef;
  }

  lemma {:induction false} RoundTripFields(fields: seq<Field>, vals: seq<Option<Value>>, i: nat, w: Bits, w': Bits,
                                           s: Bits)
    requires i <= |fields| == |vals| && MandatoryPresent(fields, vals)
    requires forall j :: 0 <= j < |fields| ==> WellFormed(fields[j].schema)
    requires FitsFields(fields, vals, i, ValueOf(PresenceBits(fields, vals, 0)), w)
    requires |w'| < |s| || forall j :: 0 <= j < |fields| ==> Wide(fields[j].schema)
    requires w' <= s && |s| % 8 == 0
    requires EncodeFields(fields, vals, i, ValueOf(PresenceBits(fields, vals, 0)),
                          |PresenceBits(fields, vals, i)|, w) == Some(w')
    ensures DecodeFields(fields, PlainFields(vals[..i]), ValueOf(PresenceBits(fields, vals, 0)),
                         |PresenceBits(fields, vals, i)|, s, |w|) == Got(PlainFields(vals), |w'|)
    decreases fields, |fields| - i
  {
    hide ValueOf, WellFormed, Fits, Wide, Encode, Decode, PresenceBits, Skipped, RefFor, EncodeFields, DecodeFields,
    FitsFields;
    hide PlainOption;
    if i == |fields| {
      NoFieldsLeft(fields, vals, w, s);
    } else {
      var presents, rest := ValueOf(PresenceBits(fields, vals, 0)), |PresenceBits(fields, vals, i + 1)|;
      var done := PlainFields(vals[..i]);
      PresenceStep(fields, vals, i);
      FitsTurn(fields, vals, i, presents, w);
      EncodeTurn(fields, vals, i, presents, rest, w);
      DecodeTurn(fields, done, presents, rest, s, |w|);
      SameReference(fields, vals, i);
      PlainStep(vals, i);
      if vals[i].None? {
        RoundTripFields(fields, vals, i + 1, w, w', s);
      } else {
        var ref := RefFor(fields, vals[..i]);
        var w1 := Encode(fields[i].schema, vals[i].value, ref, w).value;
        RoundTrip(fields[i].schema, vals[i].value, ref, w, w1, s);
        RoundTripFields(fields, vals, i + 1, w1, w', s);
      }
    }
  }

  lemma PlainStep(vals: seq<Option<Value>>, i: nat)
    requires i < |vals|
    ensures PlainFields(vals[..i + 1]) == PlainFields(vals[..i]) + [PlainOption(vals[i])]
    ensures PlainOption(vals[i]) == if vals[i].Some? then Some(Plain(vals[i].value)) else None
  {
  }

  /** The reference value of an open type is found in the decoded fields as in the encoded ones. */
  lemma SameReference(fields: seq<Field>, vals: seq<Option<Value>>, i: nat)
    requires i < |fields| == |vals|
    ensures RefFor(fields, PlainFields(vals[..i])) == RefFor(fields, vals[..i])
  {
    var schema := fields[i].schema;
    if schema.OpenType? {
      PlainLookup(fields, vals[..i], schema.refName);
    }
  }

  lemma {:induction false} PlainLookup(fields: seq<Field>, vals: seq<Option<Value>>, name: string)
    requires |vals| <= |fields|
    ensures LookupRef(fields, PlainFields(vals), name) == LookupRef(fields, vals, name)
    decreases |vals|
  {
    hide RefValue, Plain;
    if vals != [] {
      assert PlainFields(vals)[1..] == PlainFields(vals[1..]);
      PlainLookup(fields[1..], vals[1..], name);
      if vals[0].Some? {
        PlainRef(fields[0].schema, vals[0].value);
      }
    }
  }

  lemma {:induction false} PlainRef(schema: Schema, v: Value)
    ensures RefValue(schema, Plain(v)) == RefValue(schema, v)
    decreases schema
  {
    match (schema, v)
    case (Sequence(_, fields), VStruct(vals)) =>
      if |fields| > 0 && |vals| > 0 && vals[0].Some? {
        PlainRef(fields[0].schema, vals[0].value);
      }
    case (Choice(_, _, alts), VChoice(present, x)) =>
      if 1 <= present <= |alts| {
        PlainRef(alts[present - 1], x);
      }
    case _ =>
  }

  lemma NoFieldsLeft(fields: seq<Field>, vals: seq<Option<Value>>, w: Bits, s: Bits)
    requires |fields| == |vals| && w <= s && |s| % 8 == 0
    ensures var presents, n := ValueOf(PresenceBits(fields, vals, 0)), |PresenceBits(fields, vals, |fields|)|;
            && EncodeFields(fields, vals, |fields|, presents, n, w) == Some(w)
            && DecodeFields(fields, PlainFields(vals[..|fields|]), presents, n, s, |w|) == Got(PlainFields(vals), |w|)
  {
    assert vals[..|fields|] == vals;
  }

  // -------------------------------------------------- more than 64 optional fields

  /** A bit number beyond the 64-bit bitmap reads as absent. */
  lemma NoBitThere(presents: nat, k: nat)
    requires presents < TWO64 && k >= 64
    ensures !TestBit(presents, k)
  {
    Pow2Values();
    Pow2Monotone(64, k);
    ShiftedOut(presents, k);
  }

  /** Whatever the data are, the reader leaves such a field out. */
  lemma {:induction false} FieldLeftOut(fields: seq<Field>, done: seq<Option<Value>>, presents: nat, s: Bits, p: nat,
                                        i: nat)
    requires |done| <= i < |fields| && presents < TWO64 && p <= |s| && |s| % 8 == 0
    requires fields[i].optional && OptionalCount(fields, i + 1) >= 64
    ensures var r := DecodeFields(fields, done, presents, OptionalCount(fields, |done|), s, p);
            r.Got? ==> r.value[i].None?
    decreases |fields| - |done|
  {
    hide Decode, TestBit, LookupRef;
    var j := |done|;
    var f, rest := fields[j], OptionalCount(fields, j + 1);
    if j == i {
      NoBitThere(presents, rest);
      assert DecodeFields(fields, done, presents, rest + 1, s, p)
        == DecodeFields(fields, done + [None], presents, rest, s, p);
    } else if f.optional && !TestBit(presents, rest) {
      FieldLeftOut(fields, done + [None], presents, s, p, i);
    } else {
      var ref := if f.schema.OpenType? then LookupRef(fields, done, f.schema.refName) else None;
      var one := Decode(f.schema, ref, s, p);
      if (f.schema.OpenType? ==> ref.Some?) && one.Got? {
        FieldLeftOut(fields, done + [Some(one.value)], presents, s, one.pos, i);
      }
    }
  }

  /** So a struct with such a field present never comes back, from any data at all. */
  lemma BitmapLoses(ext: bool, fields: seq<Field>, vals: seq<Option<Value>>, ref: Option<Int64>, s: Bits, p: nat)
    requires |fields| == |vals| && !BitmapHolds(fields, vals) && p <= |s| && |s| % 8 == 0
    ensures var r := Decode(Sequence(ext, fields), ref, s, p); r.Got? ==> r.value != Plain(VStruct(vals))
  {
    hide DecodeFields, GetFlag, GetValue, OptionalCount, PlainOption;
    var i :| 0 <= i < |fields| && fields[i].optional && OptionalCount(fields, i + 1) >= 64 && vals[i].Some?;
    var count := OptionalCount(fields, 0);
    var flag := GetFlag(s, p, ext);
    if p < |s| && flag.Got? {
      var presents := if count == 0 then Got(0, flag.pos) else GetValue(s, flag.pos, count);
      if presents.Got? {
        FieldLeftOut(fields, [], presents.value, s, presents.pos, i);
        PlainPresent(vals, i);
      }
    }
  }

  lemma PlainPresent(vals: seq<Option<Value>>, i: nat)
    requires i < |vals| && vals[i].Some?
    ensures Plain(VStruct(vals)).fields[i].Some?
  {
  }

  /**
    A SEQUENCE whose fields survive is read back if and only if every optional field with 64
    or more optional ones behind it is absent.
  */
  lemma OptionalFieldsExact(schema: Schema, v: Value, ref: Option<Int64>, w: Bits, w': Bits, s: Bits)
    requires schema.Sequence? && v.VStruct? && |schema.fields| == |v.fields|
    requires WellFormed(schema) && StructFits(schema.ext, schema.fields, v.fields, w) && Room(schema, w', s)
    requires Encode(schema, v, ref, w) == Some(w') && w' <= s && |s| % 8 == 0
    ensures |w| <= |s| && (Decode(schema, ref, s, |w|) == Got(Plain(v), |w'|) <==> BitmapHolds(schema.fields, v.fields))
  {
    hide WellFormed, StructFits, Room, Encode, Decode, BitmapHolds, Plain;
    if BitmapHolds(schema.fields, v.fields) {
      FitsStruct(schema, v, w);
      RoundTrip(schema, v, ref, w, w', s);
    } else {
      BitmapLoses(schema.ext, schema.fields, v.fields, ref, s, |w|);
    }
  }

  lemma FitsStruct(schema: Schema, v: Value, w: Bits)
    requires schema.Sequence? && v.VStruct? && |schema.fields| == |v.fields|
    requires StructFits(schema.ext, schema.fields, v.fields, w) && BitmapHolds(schema.fields, v.fields)
    ensures Fits(schema, v, w)
  {
    hide StructFits, BitmapHolds;
  }

  lemma RoundTripChoiceIndex(ext: bool, ub: Option<Int64>, present: nat, w: Bits, w': Bits, s: Bits)
    requires 1 <= present && w' <= s && |s| % 8 == 0
    requires PutChoiceIndex(if ext then w + [false] else w, present, ext, ub) == Some(w')
    ensures var flag := GetFlag(s, |w|, ext);
            flag.Got? && GetChoiceIndex(s, flag.pos, flag.value, ub) == Got(present, |w'|)
  {
    hide PutChoiceIndex, GetChoiceIndex, GetFlag;
    var w1 := if ext then w + [false] else w;
    FlagReadsBack(w, ext, false, s);
    ChoiceIndexFits(w1, present, ext, ub, w');
    ChoiceIndexReadsBack(w1, present, ext, ub, w', s);
  }

  lemma ChoiceIndexFits(w: Bits, present: nat, ext: bool, ub: Option<Int64>, w': Bits)
    requires 1 <= present && PutChoiceIndex(w, present, ext, ub) == Some(w')
    ensures present < TWO64
  {
    var n := BitsForRange(Wrap64(ub.value + 1));
    Pow2Monotone(n, 16);
    Pow2Values();
  }

  /** What is sent when nothing is left behind. */
  lemma MarshalledBits(schema: Schema, v: Value, ref: Option<Int64>, w: Bits, bytes: seq<Byte>)
    requires Encode(schema, v, ref, []) == Some(w) && Marks(schema, v, ref, []) == {}
    requires Marshal(schema, v, ref) == Some(bytes)
    ensures BytesToBits(bytes) == if w == [] then BytesToBits([0]) else Aligned(w)
  {
    hide Encode, Marks, PackBytes, BytesToBits, Aligned;
    if w != [] {
      UnpackPacked(Aligned(w));
    }
  }

  lemma RoomForMessage(schema: Schema, w: Bits, s: Bits)
    requires Wide(schema) || |w| % 8 != 0 || w == []
    requires s == if w == [] then BytesToBits([0]) else Aligned(w)
    ensures w <= s && |s| % 8 == 0 && Room(schema, w, s)
  {
    hide Wide;
  }

  /** Whole messages: `Unmarshal` after `Marshal`. */
  lemma MessageRoundTrip(schema: Schema, v: Value, ref: Option<Int64>, bytes: seq<Byte>)
    requires WellFormed(schema) && Fits(schema, v, []) && Marshal(schema, v, ref) == Some(bytes)
    requires Wide(schema) || |Encode(schema, v, ref, []).value| % 8 != 0 || Encode(schema, v, ref, []).value == []
    ensures Unmarshal(schema, ref, bytes) == Some(Plain(v))
  {
    hide Encode, Decode, WellFormed, Fits, Wide, Marks, PackBytes, BytesToBits, Aligned;
    var w := Encode(schema, v, ref, []).value;
    NothingLeftBehind(schema, v, ref, [], w);
    MarshalledBits(schema, v, ref, w, bytes);
    RoomForMessage(schema, w, BytesToBits(bytes));
    RoundTrip(schema, v, ref, [], w, BytesToBits(bytes));
  }
}
