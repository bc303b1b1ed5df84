/** What survives leaves nothing behind: the unused bits of its octets are zero. */
module PerRemnants {
  import opened Wrappers
  import opened PerBits
  import opened PerSpec
  import opened PerStrings
  import opened PerSizes
  import opened PerIntegers
  import opened PerSchema
  import opened PerConditions

  // ---------------------------------------------------------------------- strings

  /** The octets that hold `n` bits are zero behind them. */
  predicate ZeroBehind(data: Bits, n: nat) {
    forall i :: n <= i < 8 * OctetsFor(n) && i < |data| ==> !data[i]
  }

  lemma NoTailMarks(start: nat, chunk: Bits, n: nat)
    requires forall i :: n <= i < |chunk| ==> !chunk[i]
    ensures TailMarks(start, chunk, n) == {}
  {
    hide SetAt;
    forall k: nat | start + n <= k < start + |chunk| ensures !SetAt(chunk, start, k) {
      NotSet(start, chunk, k);
    }
  }

  lemma NotSet(start: nat, chunk: Bits, k: nat)
    requires start <= k < start + |chunk| && !chunk[k - start]
    ensures !SetAt(chunk, start, k)
  {
  }

  /** One turn of `FragmentMarks`. */
  lemma MarksTurn(w: Bits, unit: nat, sizeRange: int, lb: nat, data: Bits, raw: nat)
    requires unit == 1 || unit == 8
    ensures var part := FragmentSize(raw);
            var n := part + lb;
            var take := 8 * OctetsFor(Scale(unit, n));
            var length := PutLength(w, sizeRange, part);
            FragmentMarks(w, unit, sizeRange, lb, data, raw) ==
            if length.None? || n == 0 || take > |data| then {}
            else if raw - part > 0 then
              FragmentMarks(Aligned(length.value) + data[..take], unit, sizeRange, lb, data[take..], raw - part)
            else TailMarks(|Aligned(length.value)|, data[..take], Scale(unit, n))
  {
    hide PutLength, Aligned, FragmentSize, OctetsFor, Scale, TailMarks;
  }

  /** Whole octets leave no bits unused. */
  lemma {:induction false} OctetsLeaveNothing(w: Bits, sizeRange: int, lb: nat, data: Bits, raw: nat)
    ensures FragmentMarks(w, 8, sizeRange, lb, data, raw) == {}
    decreases |data|
  {
    hide FragmentMarks, PutLength, Aligned, FragmentSize, OctetsFor, TailMarks;
    var part := FragmentSize(raw);
    var n, length := part + lb, PutLength(w, sizeRange, part);
    var take := 8 * OctetsFor(Scale(8, n));
    MarksTurn(w, 8, sizeRange, lb, data, raw);
    if length.Some? && n > 0 && take <= |data| {
      PositiveSize(8, n);
      NoUnusedBits(n);
      if raw - part > 0 {
        OctetsLeaveNothing(Aligned(length.value) + data[..take], sizeRange, lb, data[take..], raw - part);
      } else {
        NoTailMarks(|Aligned(length.value)|, data[..take], Scale(8, n));
      }
    }
  }

  lemma NoUnusedBits(n: nat)
    ensures 8 * OctetsFor(Scale(8, n)) == Scale(8, n)
  {
  }

  /** Neither does a masked last octet, where the last fragment ends with it. */
  lemma {:induction false} MaskedLeavesNothing(w: Bits, sizeRange: int, lb: nat, data: Bits, raw: nat)
    requires lb == 0 || FragmentSize(raw) == raw
    requires ZeroBehind(data, raw + lb)
    ensures FragmentMarks(w, 1, sizeRange, lb, data, raw) == {}
    decreases |data|
  {
    hide FragmentMarks, PutLength, Aligned, FragmentSize, OctetsFor, TailMarks;
    var part := FragmentSize(raw);
    var n, length := part + lb, PutLength(w, sizeRange, part);
    var take := 8 * OctetsFor(n);
    MarksTurn(w, 1, sizeRange, lb, data, raw);
    if length.Some? && n > 0 && take <= |data| {
      PositiveSize(1, n);
      if raw - part > 0 {
        FragmentShape(raw);
        FragmentRest(1, part, raw);
        assert ZeroBehind(data[take..], raw - part);
        MaskedLeavesNothing(Aligned(length.value) + data[..take], sizeRange, lb, data[take..], raw - part);
      } else {
        NoTailMarks(|Aligned(length.value)|, data[..take], n);
      }
    }
  }

  /** A BIT STRING that survives leaves nothing behind. */
  lemma StringLeavesNothing(w: Bits, bits: Bits, extra: Bits, spare: Bits, ext: bool, lb: Option<nat>, ub: Option<nat>)
    requires |bits| < TWO64 && (lb.Some? ==> lb.value < TWO63)
    requires SizeSurvives(1, |bits|, extra == [], ext, lb, ub, |w|)
    requires lb.Some? && ub.Some? && |bits| > ub.value ==> ext
    ensures SizedMarks(w, 1, InOctets(bits), extra, spare, |bits|, ext, lb, ub) == {}
  {
    hide FieldEnd, PadLen, FragmentSize, FragmentMarks, TailMarks, OctetsFor;
    var data, len := InOctets(bits), |bits|;
    var all := data + extra + spare;
    var bounded := lb.Some? && ub.Some?;
    var inside := bounded && len <= ub.value;
    var extended := bounded && ext && (!inside || ub.value - lb.value + 1 == -1);
    var w1 := if bounded && ext then w + [extended] else w;
    var low := if lb.Some? && !extended then lb.value else 0;
    var sizeRange := if inside && ub.value <= 65535 then ub.value - lb.value + 1 else -1;
    PaddedZeros(bits, extra + spare);
    assert all == data + (extra + spare);
    if sizeRange == 1 {
      NoTailMarks(|Aligned(w1)|, data, len);
      assert extra == [] ==> data + extra == data;
    } else {
      FragmentShape(Minus64(len, low));
      MaskedLeavesNothing(w1, sizeRange, low, all, Minus64(len, low));
    }
  }

  lemma PaddedZeros(bits: Bits, more: Bits)
    ensures ZeroBehind(InOctets(bits) + more, |bits|)
    ensures forall i :: |bits| <= i < |InOctets(bits)| ==> !InOctets(bits)[i]
  {
  }

  /** An OCTET STRING never does. */
  lemma OctetStringLeavesNothing(w: Bits, data: Bits, spare: Bits, len: nat, ext: bool, lb: Option<nat>,
                                 ub: Option<nat>)
    requires len < TWO64 && (lb.Some? ==> lb.value < TWO63) && |data| == 8 * OctetsFor(Scale(8, len))
    ensures SizedMarks(w, 8, data, [], spare, len, ext, lb, ub) == {}
  {
    hide FragmentMarks, TailMarks, Aligned, OctetsFor;
    NoUnusedBits(len);
    assert data + [] == data;
    var bounded := lb.Some? && ub.Some?;
    var inside := bounded && len <= ub.value;
    var extended := bounded && ext && (!inside || ub.value - lb.value + 1 == -1);
    var w1 := if bounded && ext then w + [extended] else w;
    var low := if lb.Some? && !extended then lb.value else 0;
    var sizeRange := if inside && ub.value <= 65535 then ub.value - lb.value + 1 else -1;
    NoTailMarks(|Aligned(w1)|, data, Scale(8, len));
    OctetsLeaveNothing(w1, sizeRange, low, data + spare, Minus64(len, low));
  }

  // ----------------------------------------------------------------- schema trees

  lemma AcceptedSize(w: Bits, v: Value, ext: bool, lb: Option<nat>, ub: Option<nat>)
    requires v.VBits?
    requires EncodeSized(w, 1, InOctets(v.bits), BytesToBits(v.extra), BytesToBits(v.spare), |v.bits|, ext, lb,
                         ub).Some?
    ensures |v.bits| < TWO64 && (lb.Some? ==> lb.value < TWO63)
    ensures lb.Some? && ub.Some? && |v.bits| > ub.value ==> ext
    ensures BytesToBits(v.extra) == [] <==> v.extra == []
  {
    hide PutFragments, Aligned, OctetsFor, WholeSlice, PutString;
  }

  /** What survives leaves nothing behind, so the buffer holds exactly its encoding. */
  lemma {:induction false} NothingLeftBehind(schema: Schema, v: Value, ref: Option<Int64>, w: Bits, w': Bits)
    requires Fits(schema, v, w) && Encode(schema, v, ref, w) == Some(w')
    ensures Marks(schema, v, ref, w) == {}
    decreases schema, 0
  {
    hide PutSized, SizedMarks, PutInteger, PutEnumerated, PutCount, PutChoiceIndex, PutFragments, PutValue, Aligned;
    hide SizeSurvives, IntegerSurvives, CountSurvives, EncodeElems, EncodeFields, FitsElems, FitsFields, ElemMarks;
    hide BytesToBits, FieldMarks, BitmapHolds;
    match schema
    case BitStr(ext, lb, ub) =>
      AcceptedSize(w, v, ext, lb, ub);
      StringLeavesNothing(w, v.bits, BytesToBits(v.extra), BytesToBits(v.spare), ext, lb, ub);
    case SequenceOf(ext, lb, ub, elem) =>
      ElemsLeaveNothing(elem, v.elems, PutCount(w, |v.elems|, ext, lb, ub).value, w');
    case Sequence(ext, fields) =>
      StructLeavesNothing(schema, v, ref, w, w');
    case Choice(ext, ub, alts) =>
      var w1 := PutChoiceIndex(if ext then w + [false] else w, v.present, ext, ub).value;
      NothingLeftBehind(alts[v.present - 1], v.v, None, w1, w');
    case _ =>
  }

  lemma {:induction false} ElemsLeaveNothing(elem: Schema, vs: seq<Value>, w: Bits, w': Bits)
    requires FitsElems(elem, vs, w) && EncodeElems(elem, vs, w) == Some(w')
    ensures ElemMarks(elem, vs, w) == {}
    decreases elem, |vs| + 1
  {
    hide Fits, Encode, Marks;
    if vs != [] {
      var w1 := Encode(elem, vs[0], None, w).value;
      NothingLeftBehind(elem, vs[0], None, w, w1);
      ElemsLeaveNothing(elem, vs[1..], w1, w');
    }
  }

  lemma {:induction false} StructLeavesNothing(schema: Schema, v: Value, ref: Option<Int64>, w: Bits, w': Bits)
    requires schema.Sequence? && Fits(schema, v, w) && Encode(schema, v, ref, w) == Some(w')
    ensures Marks(schema, v, ref, w) == {}
    decreases schema.fields, |schema.fields| + 1
  {
    hide PutValue, EncodeFields, FitsFields, FieldMarks, BitmapHolds, PresenceBits, ValueOf;
    var fields, vals := schema.fields, v.fields;
    var presence := PresenceBits(fields, vals, 0);
    var w2 := PutValue(if schema.ext then w + [false] else w, ValueOf(presence) % TWO64, |presence|).value;
    assert StructFits(schema.ext, fields, vals, w);
    BitmapBelow(fields, vals, 0);
    FieldsLeaveNothing(fields, vals, 0, w2, w');
  }

  /** One turn of `FieldMarks`. */
  lemma FieldMarksTurn(fields: seq<Field>, vals: seq<Option<Value>>, i: nat, presents: nat, rest: nat, w: Bits)
    requires i < |fields| == |vals|
    ensures var all := FieldMarks(fields, vals, i, presents, if fields[i].optional then rest + 1 else rest, w);
            if Skipped(fields[i], presents, rest) then all == FieldMarks(fields, vals, i + 1, presents, rest, w)
            else vals[i].Some? ==>
              var one := Encode(fields[i].schema, vals[i].value, RefFor(fields, vals[..i]), w);
              var marks := Marks(fields[i].schema, vals[i].value, RefFor(fields, vals[..i]), w);
              one.Some? ==> all == marks + FieldMarks(fields, vals, i + 1, presents, rest, one.value)
  {
    hide Encode, Marks, TestBit, LookupRef;
  }

  lemma {:induction false} FieldsLeaveNothing(fields: seq<Field>, vals: seq<Option<Value>>, i: nat, w: Bits, w': Bits)
    requires i <= |fields| == |vals| && MandatoryPresent(fields, vals)
    requires FitsFields(fields, vals, i, ValueOf(PresenceBits(fields, vals, 0)), w)
    requires EncodeFields(fields, vals, i, ValueOf(PresenceBits(fields, vals, 0)),
                          |PresenceBits(fields, vals, i)|, w) == Some(w')
    ensures FieldMarks(fields, vals, i, ValueOf(PresenceBits(fields, vals, 0)), |PresenceBits(fields, vals, i)|, w)
         == {}
    decreases fields, |fields| - i
  {
    hide ValueOf, Fits, Encode, Marks, PresenceBits, Skipped, RefFor, EncodeFields, FitsFields, FieldMarks;
    if i == |fields| {
      NoMarksLeft(fields, vals, w);
    } else {
      var presents, rest := ValueOf(PresenceBits(fields, vals, 0)), |PresenceBits(fields, vals, i + 1)|;
      PresenceStep(fields, vals, i);
      FitsTurn(fields, vals, i, presents, w);
      EncodeTurn(fields, vals, i, presents, rest, w);
      FieldMarksTurn(fields, vals, i, presents, rest, w);
      var f := fields[i];
      assert fields decreases to f;
      if vals[i].None? {
        FieldsLeaveNothing(fields, vals, i + 1, w, w');
      } else {
        var ref := RefFor(fields, vals[..i]);
        var w1 := Encode(f.schema, vals[i].value, ref, w).value;
        NothingLeftBehind(f.schema, vals[i].value, ref, w, w1);
        FieldsLeaveNothing(fields, vals, i + 1, w1, w');
      }
    }
  }

  lemma NoMarksLeft(fields: seq<Field>, vals: seq<Option<Value>>, w: Bits)
    requires |fields| == |vals|
    ensures FieldMarks(fields, vals, |fields|, ValueOf(PresenceBits(fields, vals, 0)),
                       |PresenceBits(fields, vals, |fields|)|, w) == {}
  {
  }
}
