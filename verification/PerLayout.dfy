/**
  The encoding of every tree of values bit by bit, as a function of the value and of the
  position it starts at.
*/
module PerLayout {
  import opened Wrappers
  import opened PerBits
  import opened PerSpec
  import opened PerStrings
  import opened PerSizes
  import opened PerAcceptance
  import opened PerSchema
  import opened PerConditions
  import opened PerFormat
  import opened PerTree
  import opened PerRemnants

  // ------------------------------------------------------------------------- strings

  /** The fragments of `raw` units above the bound `low`: length field, padding and octets of the slice in turn. */
  function FragmentBits(p: nat, unit: nat, range: int, low: nat, data: Bits, raw: nat): (bits: Bits)
    decreases raw
  {
    var part := Piece(raw);
    var head := HeadBits(range, part, p);
    var q := p + |head|;
    var n := Scale(unit, part + low);
    var take := 8 * OctetsFor(n);
    if part + low == 0 || take > |data| then head
    else if 0 < part < raw then
      head + (Padding(q) + (data[..take]
                            + FragmentBits(q + |Padding(q)| + take, unit, range, low, data[take..], raw - part)))
    else head + (Padding(q) + data[..n])
  }

  lemma LastTurnIs(w: Bits, unit: nat, range: int, low: nat, data: Bits, raw: nat, w': Bits)
    requires (unit == 1 || unit == 8) && (Piece(raw) == raw || Piece(raw) + low == 0)
    requires PutFragments(w, unit, range, low, data, raw) == Some(w')
    ensures var part := Piece(raw);
            var length, n := PutLength(w, range, part), Scale(unit, part + low);
            && length.Some?
            && (part + low == 0 ==> w' == length.value)
            && (part + low > 0 ==> 8 * OctetsFor(n) <= |data| && w' == Aligned(length.value) + data[..n])
  {
    hide PutLength, Aligned, OctetsFor, FragmentSize, Scale, Piece;
    PieceIs(raw);
  }

  lemma Joined(w: Bits, head: Bits, pad: Bits, chunk: Bits, rest: Bits)
    ensures w + head + pad + chunk + rest == w + (head + (pad + (chunk + rest)))
    ensures w + head + pad + chunk == w + (head + (pad + chunk))
  {
  }

  /** What the loop has written when it ends. */
  lemma {:induction false} FragmentsAre(w: Bits, unit: nat, range: int, low: nat, data: Bits, raw: nat, w': Bits)
    requires (unit == 1 || unit == 8) && range <= 65536
    requires PutFragments(w, unit, range, low, data, raw) == Some(w')
    ensures w' == w + FragmentBits(|w|, unit, range, low, data, raw)
    decreases raw
  {
    hide PutLength, PutFragments, Aligned, OctetsFor, FragmentSize, Scale, HeadBits, Padding, Room, Piece;
    var part := Piece(raw);
    PieceIs(raw);
    HeadExact(w, range, part);
    MaskedOnTheWay(raw);
    var head, n := HeadBits(range, part, |w|), Scale(unit, part + low);
    var take := 8 * OctetsFor(n);
    if 0 < part < raw {
      WriterTurn(w, unit, range, low, data, raw, part);
      AlignedIs(w + head);
      var w2 := Aligned(w + head) + data[..take];
      FragmentsAre(w2, unit, range, low, data[take..], raw - part, w');
      Joined(w, head, Padding(|w + head|), data[..take],
             FragmentBits(|w2|, unit, range, low, data[take..], raw - part));
    } else {
      if part < raw && low > 0 {
        MaskedSizeFails(w, unit, range, low, data);
      }
      LastTurnIs(w, unit, range, low, data, raw, w');
      if part + low > 0 {
        AlignedIs(w + head);
        Joined(w, head, Padding(|w + head|), data[..n], []);
      }
    }
  }

  /** A string by the way its size is written; one of fixed size has no length field. */
  function SizeBits(k: SizeKind, unit: nat, data: Bits, extra: Bits, spare: Bits, len: nat, p: nat): (bits: Bits)
    requires |data| == 8 * OctetsFor(Scale(unit, len))
  {
    match k
    case TooLong => []
    case Fixed(_) =>
      if OctetsFor(Scale(unit, len)) > 2 then Padding(p) + (data + extra)[..Scale(unit, len) + |extra|]
      else data[..Scale(unit, len)]
    case Ranged(low, high) => FragmentBits(p, unit, high - low + 1, low, data + extra + spare, SizeAbove(len, low))
    case Loose(low) => FragmentBits(p, unit, -1, low, data + extra + spare, SizeAbove(len, low))
  }

  function StringBits(unit: nat, data: Bits, extra: Bits, spare: Bits, len: nat, ext: bool, lb: Option<nat>,
                      ub: Option<nat>, at: nat)
    : (bits: Bits)
    requires |data| == 8 * OctetsFor(Scale(unit, len))
  {
    var flag := SizeFlag(len, ext, lb, ub);
    flag + SizeBits(SizeKindOf(len, ext, lb, ub), unit, data, extra, spare, len, at + |flag|)
  }

  lemma FixedIs(w: Bits, unit: nat, data: Bits, extra: Bits, len: nat, size: nat, w': Bits)
    requires (unit == 1 || unit == 8) && |data| == 8 * OctetsFor(Scale(unit, len))
    requires PutFixed(w, unit, data, extra, len, size) == Some(w')
    ensures w' == w + SizeBits(Fixed(size), unit, data, extra, [], len, |w|)
  {
    hide OctetsFor, Aligned, Padding;
    AlignedIs(w);
    var n := Scale(unit, len);
    if OctetsFor(n) > 2 {
      assert w + Padding(|w|) + (data + extra)[..n + |extra|] == w + (Padding(|w|) + (data + extra)[..n + |extra|]);
    }
  }

  lemma SizeIs(k: SizeKind, w: Bits, unit: nat, data: Bits, extra: Bits, spare: Bits, len: nat, range: int, w': Bits)
    requires (unit == 1 || unit == 8) && SizeRange(k, len, range)
    requires |data| == 8 * OctetsFor(Scale(unit, len))
    requires WriteSize(k, w, unit, data, extra, spare, len, range) == Some(w')
    ensures w' == w + SizeBits(k, unit, data, extra, spare, len, |w|)
  {
    hide PutFixed, PutFragments, OctetsFor, Scale, FragmentBits, SizeAbove, Padding;
    match k
    case TooLong =>
    case Fixed(size) =>
      FixedIs(w, unit, data, extra, len, size, w');
    case Ranged(low, _) =>
      FragmentsAre(w, unit, range, low, data + extra + spare, SizeAbove(len, low), w');
    case Loose(low) =>
      UnconstrainedWrites(w, unit, range, low, data + extra + spare, SizeAbove(len, low));
      FragmentsAre(w, unit, -1, low, data + extra + spare, SizeAbove(len, low), w');
  }

  /** Strings, bit by bit. */
  lemma StringIs(w: Bits, unit: nat, data: Bits, extra: Bits, spare: Bits, len: nat, ext: bool, lb: Option<nat>,
                 ub: Option<nat>, w': Bits)
    requires unit == 1 || unit == 8
    requires |data| == 8 * OctetsFor(Scale(unit, len))
    requires EncodeSized(w, unit, data, extra, spare, len, ext, lb, ub) == Some(w')
    ensures w' == w + StringBits(unit, data, extra, spare, len, ext, lb, ub, |w|)
  {
    hide PutSized, WriteSize, OctetsFor, Scale, SizeBits, SizeKindOf, SizeFlag, FlagCount, SizeRange;
    var w1, range := SizedBody(w, unit, data, extra, spare, len, ext, lb, ub);
    var k := SizeKindOf(len, ext, lb, ub);
    SizeIs(k, w1, unit, data, extra, spare, len, range, w');
    assert w + SizeFlag(len, ext, lb, ub) + SizeBits(k, unit, data, extra, spare, len, |w1|)
        == w + (SizeFlag(len, ext, lb, ub) + SizeBits(k, unit, data, extra, spare, len, |w1|));
  }

  // ------------------------------------------------------------------- the whole tree

  function Extension(ext: bool): (bits: Bits) {
    if ext then [false] else []
  }

  /**
    The bits of an accepted value that starts at bit `at`.  A SEQUENCE is an extension bit, the
    bitmap and the fields that are there; an open type wraps the octets of its content, with
    the remnants of slices in them.
  */
  function TreeBits(schema: Schema, v: Value, at: nat): (bits: Bits)
    decreases schema, 0
  {
    match (schema, v)
    case (Boolean, VBool(b)) => [b]
    case (Integer(ext, lb, ub), VInt(i)) =>
      if IntegerAccepted(i, ext, lb, ub) then IntegerBits(i, ext, lb, ub, at) else []
    case (Enumerated(ext, lb, ub), VEnum(e)) =>
      if lb.Some? && ub.Some? then EnumeratedBits(e, ext, lb, ub, at) else []
    case (BitStr(ext, lb, ub), VBits(bits, extra, spare)) =>
      StringBits(1, InOctets(bits), BytesToBits(extra), BytesToBits(spare), |bits|, ext, lb, ub, at)
    case (OctetStr(ext, lb, ub), VOctets(o, spare)) =>
      StringBits(8, BytesToBits(o), [], BytesToBits(spare), |o|, ext, lb, ub, at)
    case (SequenceOf(ext, lb, ub, elem), VList(vs)) =>
      if LowerCount(lb) > |vs| then []
      else
        var count := CountField(|vs|, ext, lb, ub, at);
        count + ElemsBits(elem, vs, at + |count|)
    case (Sequence(ext, fields), VStruct(vals)) =>
      if |fields| != |vals| then []
      else
        var front := Extension(ext) + Bitmap(fields, vals, 0);
        front + FieldsBits(fields, vals, 0, at + |front|)
    case (Choice(ext, ub, alts), VChoice(present, x)) =>
      if present == 0 || present > |alts| || ub.None? then []
      else
        var index := IndexBits(ext, ub.value, present, at);
        index + TreeBits(alts[present - 1], x, at + |index|)
    case (OpenType(_, cases), VChoice(present, x)) =>
      if present == 0 || present > |cases| then []
      else
        var c := cases[present - 1].schema;
        var inner := TreeBits(c, x, 0);
        FragmentBits(at, 8, -1, 0, Smeared(InOctets(inner), Marks(c, x, None, [])), OctetsFor(|inner|))
    case _ => []
  }

  function IndexBits(ext: bool, ub: Int64, present: nat, at: nat): (bits: Bits)
    requires present >= 1
  {
    Extension(ext) + NumberBits(ub + 1, present - 1, at + |Extension(ext)|)
  }

  function ElemsBits(elem: Schema, vs: seq<Value>, at: nat): (bits: Bits)
    decreases elem, |vs| + 1
  {
    if vs == [] then []
    else
      var first := TreeBits(elem, vs[0], at);
      first + ElemsBits(elem, vs[1..], at + |first|)
  }

  function FieldsBits(fields: seq<Field>, vals: seq<Option<Value>>, i: nat, at: nat): (bits: Bits)
    requires i <= |fields| == |vals|
    decreases fields, |fields| - i
  {
    if i == |fields| then []
    else if LeftOut(fields, vals, i) || vals[i].None? then FieldsBits(fields, vals, i + 1, at)
    else
      var f := fields[i];
      assert fields decreases to f;
      var first := TreeBits(f.schema, vals[i].value, at);
      first + FieldsBits(fields, vals, i + 1, at + |first|)
  }

  /**
    For every schema, value and reference, at every bit of a buffer: the encoder accepts the
    value if and only if `Accepts` holds, and then it appends exactly the stated bits.
  */
  lemma EncodeExact(schema: Schema, v: Value, ref: Option<Int64>, w: Bits)
    ensures Encode(schema, v, ref, w) == Appended(w, Accepts(schema, v, ref, |w|), TreeBits(schema, v, |w|))
  {
    hide Encode, Accepts, TreeBits, EndOf;
    AcceptExact(schema, v, ref, w);
    if Encode(schema, v, ref, w).Some? {
      EncodedBits(schema, v, ref, w, Encode(schema, v, ref, w).value);
    }
  }

  lemma {:induction false} EncodedBits(schema: Schema, v: Value, ref: Option<Int64>, w: Bits, w': Bits)
    requires Encode(schema, v, ref, w) == Some(w')
    ensures w' == w + TreeBits(schema, v, |w|)
    decreases schema, 0
  {
    hide Encode, TreeBits;
    match schema
    case SequenceOf(_, _, _, _) =>
      ListBits(schema, v, ref, w, w');
    case Sequence(_, _) =>
      StructBits(schema, v, ref, w, w');
    case Choice(_, _, _) =>
      ChoiceBits(schema, v, ref, w, w');
    case OpenType(_, _) =>
      OpenBits(schema, v, ref, w, w');
    case Boolean =>
      LeafBits(schema, v, ref, w, w');
    case Integer(_, _, _) =>
      LeafBits(schema, v, ref, w, w');
    case Enumerated(_, _, _) =>
      LeafBits(schema, v, ref, w, w');
    case BitStr(_, _, _) =>
      LeafBits(schema, v, ref, w, w');
    case OctetStr(_, _, _) =>
      LeafBits(schema, v, ref, w, w');
  }

  lemma LeafBits(schema: Schema, v: Value, ref: Option<Int64>, w: Bits, w': Bits)
    requires schema.Boolean? || schema.Integer? || schema.Enumerated? || schema.BitStr? || schema.OctetStr?
    requires Encode(schema, v, ref, w) == Some(w')
    ensures w' == w + TreeBits(schema, v, |w|)
  {
    hide PutInteger, IntegerAccepted, IntegerBits, PutEnumerated, EnumeratedAccepted, EnumeratedBits, EncodeSized,
    StringBits, OctetsFor, InOctets, BytesToBits;
    match (schema, v)
    case (Boolean, VBool(_)) =>
    case (Integer(ext, lb, ub), VInt(i)) =>
      IntegerFormat(w, i, ext, lb, ub);
    case (Enumerated(ext, lb, ub), VEnum(e)) =>
      EnumeratedFormat(w, e, ext, lb, ub);
      EnumeratedHasBounds(e, lb, ub);
    case (BitStr(ext, lb, ub), VBits(bits, extra, spare)) =>
      StringIs(w, 1, InOctets(bits), BytesToBits(extra), BytesToBits(spare), |bits|, ext, lb, ub, w');
    case (OctetStr(ext, lb, ub), VOctets(o, spare)) =>
      StringIs(w, 8, BytesToBits(o), [], BytesToBits(spare), |o|, ext, lb, ub, w');
  }

  lemma {:induction false} ListBits(schema: Schema, v: Value, ref: Option<Int64>, w: Bits, w': Bits)
    requires schema.SequenceOf? && Encode(schema, v, ref, w) == Some(w')
    ensures w' == w + TreeBits(schema, v, |w|)
    decreases schema.elem, if v.VList? then |v.elems| + 2 else 0
  {
    hide PutCount, EncodeElems, ElemsBits, CountField, CountAccepted;
    var n, ext, lb, ub := |v.elems|, schema.ext, schema.lb, schema.ub;
    CountFormat(w, n, ext, lb, ub);
    CountHasLower(n, ext, lb, ub);
    var count := CountField(n, ext, lb, ub, |w|);
    EncodedElems(schema.elem, v.elems, w + count, w');
    assert w + count + ElemsBits(schema.elem, v.elems, |w + count|)
        == w + (count + ElemsBits(schema.elem, v.elems, |w + count|));
  }

  lemma {:induction false} EncodedElems(elem: Schema, vs: seq<Value>, w: Bits, w': Bits)
    requires EncodeElems(elem, vs, w) == Some(w')
    ensures w' == w + ElemsBits(elem, vs, |w|)
    decreases elem, |vs| + 1
  {
    hide Encode, TreeBits;
    if vs != [] {
      var w1 := Encode(elem, vs[0], None, w).value;
      EncodedBits(elem, vs[0], None, w, w1);
      EncodedElems(elem, vs[1..], w1, w');
    }
  }

  lemma {:induction false} StructBits(schema: Schema, v: Value, ref: Option<Int64>, w: Bits, w': Bits)
    requires schema.Sequence? && Encode(schema, v, ref, w) == Some(w')
    ensures w' == w + TreeBits(schema, v, |w|)
    decreases schema.fields, |schema.fields| + 2
  {
    hide ValueOf, EncodeFields, FieldsBits, OptionalCount, Bitmap, Encode, TreeBits, Extension;
    StructUnfolds(schema, v, ref, w);
    var fields, vals := schema.fields, v.fields;
    var front := Extension(schema.ext) + Bitmap(fields, vals, 0);
    EncodedFields(fields, vals, 0, w + front, w');
    var rest := FieldsBits(fields, vals, 0, |w + front|);
    assert w + front + rest == w + (front + rest);
  }

  lemma StructUnfolds(schema: Schema, v: Value, ref: Option<Int64>, w: Bits)
    requires schema.Sequence? && Encode(schema, v, ref, w).Some?
    ensures v.VStruct? && |schema.fields| == |v.fields|
    ensures var fields, vals := schema.fields, v.fields;
            var front := Extension(schema.ext) + Bitmap(fields, vals, 0);
            && Encode(schema, v, ref, w) ==
               EncodeFields(fields, vals, 0, ValueOf(Bitmap(fields, vals, 0)), OptionalCount(fields, 0), w + front)
            && TreeBits(schema, v, |w|) == front + FieldsBits(fields, vals, 0, |w + front|)
  {
    hide PresenceBits, ValueOf, PutValue, EncodeFields, FieldsBits, OptionalCount, Bitmap, MandatoryPresent;
    var w1 := if schema.ext then w + [false] else w;
    BitmapWritten(schema.fields, v.fields, w1);
    assert w1 + Bitmap(schema.fields, v.fields, 0) == w + (Extension(schema.ext) + Bitmap(schema.fields, v.fields, 0));
  }

  lemma {:induction false} EncodedFields(fields: seq<Field>, vals: seq<Option<Value>>, i: nat, w: Bits, w': Bits)
    requires i <= |fields| == |vals|
    requires EncodeFields(fields, vals, i, ValueOf(Bitmap(fields, vals, 0)), OptionalCount(fields, i), w) == Some(w')
    ensures w' == w + FieldsBits(fields, vals, i, |w|)
    decreases fields, |fields| - i
  {
    hide Encode, TreeBits, ValueOf, Bitmap, OptionalCount, Skipped, LeftOut, RefFor;
    if i < |fields| {
      hide EncodeFields;
      var f, presents, rest := fields[i], ValueOf(Bitmap(fields, vals, 0)), OptionalCount(fields, i + 1);
      assert fields decreases to f;
      BitmapTells(fields, vals, i);
      TurnExact(fields, vals, i, presents, rest, w);
      if LeftOut(fields, vals, i) {
        EncodedFields(fields, vals, i + 1, w, w');
      } else {
        var ref := RefFor(fields, vals[..i]);
        var w1 := Encode(f.schema, vals[i].value, ref, w).value;
        EncodedBits(f.schema, vals[i].value, ref, w, w1);
        EncodedFields(fields, vals, i + 1, w1, w');
      }
    }
  }

  lemma {:induction false} ChoiceBits(schema: Schema, v: Value, ref: Option<Int64>, w: Bits, w': Bits)
    requires schema.Choice? && Encode(schema, v, ref, w) == Some(w')
    ensures w' == w + TreeBits(schema, v, |w|)
    decreases schema.alts, 1
  {
    hide PutChoiceIndex, ChoiceAccepted, NumberBits, Encode, Accepts, EndOf, IndexEnd, TreeBits, IndexBits;
    ChoiceUnfolds(schema, v, ref, w);
    var alt := schema.alts[v.present - 1];
    assert schema.alts decreases to alt;
    var w1 := if schema.ext then w + [false] else w;
    ChoiceFormat(w1, v.present, schema.ext, schema.vub);
    ChoiceHasBound(v.present, schema.ext, schema.vub);
    var index := IndexBits(schema.ext, schema.vub.value, v.present, |w|);
    IndexFollows(schema.ext, schema.vub.value, v.present, w);
    ChoiceIsIndexed(schema, v, |w|);
    EncodedBits(alt, v.v, None, w + index, w');
    assert w + index + TreeBits(alt, v.v, |w + index|) == w + (index + TreeBits(alt, v.v, |w + index|));
  }

  lemma IndexFollows(ext: bool, ub: Int64, present: nat, w: Bits)
    requires present >= 1
    ensures var w1 := if ext then w + [false] else w;
            w1 + NumberBits(ub + 1, present - 1, |w1|) == w + IndexBits(ext, ub, present, |w|)
  {
    hide NumberBits;
  }

  lemma ChoiceIsIndexed(schema: Schema, v: Value, at: nat)
    requires schema.Choice? && v.VChoice? && 1 <= v.present <= |schema.alts| && schema.vub.Some?
    ensures var index := IndexBits(schema.ext, schema.vub.value, v.present, at);
            TreeBits(schema, v, at) == index + TreeBits(schema.alts[v.present - 1], v.v, at + |index|)
  {
    hide IndexBits, IntegerAccepted, IntegerBits, EnumeratedBits, StringBits, InOctets, OctetsFor, BytesToBits,
    LowerCount, CountField, ElemsBits, Bitmap, FieldsBits, FragmentBits, Smeared, Marks, Extension;
  }

  lemma {:induction false} OpenBits(schema: Schema, v: Value, ref: Option<Int64>, w: Bits, w': Bits)
    requires schema.OpenType? && Encode(schema, v, ref, w) == Some(w')
    ensures w' == w + TreeBits(schema, v, |w|)
    decreases schema.cases, 1
  {
    hide PutFragments, Smeared, Marks, OctetsFor, Encode, Accepts, EndOf, FragmentBits, InOctets, TreeBits;
    OpenUnfolds(schema, v, ref, w);
    OpenIsWrapped(schema, v, |w|);
    var c := schema.cases[v.present - 1];
    assert schema.cases decreases to c;
    var inner := Encode(c.schema, v.v, None, []).value;
    EncodedBits(c.schema, v.v, None, [], inner);
    assert [] + TreeBits(c.schema, v.v, 0) == TreeBits(c.schema, v.v, 0);
    FragmentsAre(w, 8, -1, 0, Smeared(InOctets(inner), Marks(c.schema, v.v, None, [])), OctetsFor(|inner|), w');
  }

  lemma OpenIsWrapped(schema: Schema, v: Value, at: nat)
    requires schema.OpenType? && v.VChoice? && 1 <= v.present <= |schema.cases|
    ensures var c := schema.cases[v.present - 1].schema;
            var inner := TreeBits(c, v.v, 0);
            TreeBits(schema, v, at) ==
            FragmentBits(at, 8, -1, 0, Smeared(InOctets(inner), Marks(c, v.v, None, [])), OctetsFor(|inner|))
  {
    hide IndexBits, IntegerAccepted, IntegerBits, EnumeratedBits, StringBits, InOctets, OctetsFor, BytesToBits,
    LowerCount, CountField, ElemsBits, Bitmap, FieldsBits, FragmentBits, Smeared, Marks, Extension;
  }

  // ------------------------------------------------------------------ whole messages

  /**
    A message is marshalled if and only if it is accepted, and then its octets hold the stated
    bits: padded with zeros where no slice leaves remnants, and one zero octet for none.
  */
  lemma MessageBits(schema: Schema, v: Value, ref: Option<Int64>)
    ensures var bytes, bits := Marshal(schema, v, ref), TreeBits(schema, v, 0);
            && (bytes.Some? <==> Accepts(schema, v, ref, 0))
            && (bytes.Some? && bits == [] ==> bytes.value == [0])
            && (bytes.Some? && bits != [] ==>
                  BytesToBits(bytes.value) == Smeared(InOctets(bits), Marks(schema, v, ref, [])))
            && (bytes.Some? && bits != [] && Fits(schema, v, []) ==> BytesToBits(bytes.value) == InOctets(bits))
  {
    hide Encode, Accepts, TreeBits, Marks, PackBytes, BytesToBits, Smeared, Aligned, Fits;
    EncodeExact(schema, v, ref, []);
    var bits := TreeBits(schema, v, 0);
    assert [] + bits == bits;
    if Accepts(schema, v, ref, 0) {
      UnpackPacked(Smeared(Aligned(bits), Marks(schema, v, ref, [])));
      if Fits(schema, v, []) {
        NothingLeftBehind(schema, v, ref, [], bits);
      }
    }
  }
}
