/**
  The schema-directed encoder and decoder.  A `Schema` stands for a Go type with the
  tag parameters that lib/aper reads from it, a `Value` for a Go value of such a type.
*/
module PerSchema {
  import opened Wrappers
  import opened PerBits
  import opened PerSpec

  type Uint64 = x: nat | x < 0x1_0000_0000_0000_0000

  datatype Schema =
    | Boolean
    | Integer(ext: bool, vlb: Option<Int64>, vub: Option<Int64>)
    | Enumerated(ext: bool, vlb: Option<Int64>, vub: Option<Int64>)
    | BitStr(ext: bool, lb: Option<nat>, ub: Option<nat>)
    | OctetStr(ext: bool, lb: Option<nat>, ub: Option<nat>)
    | SequenceOf(ext: bool, lb: Option<nat>, ub: Option<nat>, elem: Schema)
    | Sequence(ext: bool, fields: seq<Field>)
    | Choice(ext: bool, vub: Option<Int64>, alts: seq<Schema>)
    | OpenType(refName: string, cases: seq<Case>)

  /** A field of a SEQUENCE; an optional one is a pointer in Go. */
  datatype Field = Field(name: string, optional: bool, schema: Schema)

  /** An alternative of an open type and its `referenceFieldValue`. */
  datatype Case = Case(ref: Option<Int64>, schema: Schema)

  /**
    A string is a Go slice: the octets it needs, those that a BIT STRING carries beyond its
    length (`extra`), and those between the slice's length and its capacity (`spare`).
  */
  datatype Value =
    | VBool(b: bool)
    | VInt(i: Int64)
    | VEnum(e: Uint64)
    | VBits(bits: Bits, extra: seq<Byte>, spare: seq<Byte>)
    | VOctets(octets: seq<Byte>, spare: seq<Byte>)
    | VList(elems: seq<Value>)
    | VStruct(fields: seq<Option<Value>>)
    | VChoice(present: nat, v: Value)

  /** What a value means: its strings without the octets that do not belong to them. */
  function Plain(v: Value): (p: Value)
    decreases v
  {
    match v
    case VBits(bits, _, _) => VBits(bits, [], [])
    case VOctets(o, _) => VOctets(o, [])
    case VList(vs) => VList(seq(|vs|, i requires 0 <= i < |vs| => Plain(vs[i])))
    case VStruct(vals) => VStruct(seq(|vals|, i requires 0 <= i < |vals| => PlainOption(vals[i])))
    case VChoice(present, x) => VChoice(present, Plain(x))
    case _ => v
  }

  function PlainOption(v: Option<Value>): (p: Option<Value>)
    decreases v
  {
    if v.Some? then Some(Plain(v.value)) else None
  }

  function PlainList(vs: seq<Value>): (ps: seq<Value>)
    ensures |ps| == |vs|
  {
    seq(|vs|, i requires 0 <= i < |vs| => Plain(vs[i]))
  }

  function PlainFields(vals: seq<Option<Value>>): (ps: seq<Option<Value>>)
    ensures |ps| == |vals|
  {
    seq(|vals|, i requires 0 <= i < |vals| => PlainOption(vals[i]))
  }

  // --------------------------------------------------------------------- presence

  /** One bit for each optional field from field `i` on. */
  function PresenceBits(fields: seq<Field>, vals: seq<Option<Value>>, i: nat): (bits: Bits)
    requires i <= |fields| == |vals|
    decreases |fields| - i
  {
    if i == |fields| then []
    else (if fields[i].optional then [vals[i].Some?] else []) + PresenceBits(fields, vals, i + 1)
  }

  function OptionalCount(fields: seq<Field>, i: nat): (n: nat)
    requires i <= |fields|
    decreases |fields| - i
  {
    if i == |fields| then 0
    else (if fields[i].optional then 1 else 0) + OptionalCount(fields, i + 1)
  }

  /** `optionalPresents & (1 << k) != 0`. */
  predicate TestBit(v: nat, k: nat) {
    ShiftRight(v, k) % 2 == 1
  }

  predicate MandatoryPresent(fields: seq<Field>, vals: seq<Option<Value>>)
    requires |fields| == |vals|
  {
    forall i :: 0 <= i < |fields| && !fields[i].optional ==> vals[i].Some?
  }

  // --------------------------------------------------------- open type references

  /** The integer an open type is selected by, dug out of a nested value. */
  function RefValue(schema: Schema, v: Value): (r: Option<Int64>)
    decreases schema
  {
    match (schema, v)
    case (Integer(_, _, _), VInt(i)) => Some(i)
    case (Sequence(_, fields), VStruct(vals)) =>
      if |fields| > 0 && !fields[0].optional && |vals| > 0 && vals[0].Some?
      then RefValue(fields[0].schema, vals[0].value) else None
    case (Choice(_, _, alts), VChoice(present, x)) =>
      if 1 <= present <= |alts| then RefValue(alts[present - 1], x) else None
    case _ => None
  }

  /** The reference value found in the first earlier field of the given name. */
  function LookupRef(fields: seq<Field>, vals: seq<Option<Value>>, name: string): (r: Option<Int64>)
    requires |vals| <= |fields|
    decreases |vals|
  {
    if vals == [] then None
    else if fields[0].name == name then
      if fields[0].optional || vals[0].None? then None else RefValue(fields[0].schema, vals[0].value)
    else LookupRef(fields[1..], vals[1..], name)
  }

  /** The number, from 1, of the first case with the given reference value; 0 if there is none. */
  function FindCase(cases: seq<Case>, ref: Int64): (present: nat)
    ensures present <= |cases|
    ensures present > 0 ==> cases[present - 1].ref == Some(ref)
    ensures forall i :: 0 <= i < |cases| && (present == 0 || i < present - 1) ==> cases[i].ref != Some(ref)
  {
    if cases == [] then 0
    else if cases[0].ref == Some(ref) then 1
    else
      var rest := FindCase(cases[1..], ref);
      if rest == 0 then 0 else rest + 1
  }

  // ---------------------------------------------------------------------- encoder

  /** `makeField`: the bits written after `w`; `ref` is the reference value handed to an open type. */
  function Encode(schema: Schema, v: Value, ref: Option<Int64>, w: Bits): (r: Option<Bits>)
    ensures r.Some? ==> w <= r.value
    decreases schema, 0
  {
    match (schema, v)
    case (Boolean, VBool(b)) => Some(w + [b])
    case (Integer(ext, lb, ub), VInt(i)) => PutInteger(w, i, ext, lb, ub)
    case (Enumerated(ext, lb, ub), VEnum(e)) => PutEnumerated(w, e, ext, lb, ub)
    case (BitStr(ext, lb, ub), VBits(bits, extra, spare)) =>
      EncodeSized(w, 1, InOctets(bits), BytesToBits(extra), BytesToBits(spare), |bits|, ext, lb, ub)
    case (OctetStr(ext, lb, ub), VOctets(o, spare)) =>
      EncodeSized(w, 8, BytesToBits(o), [], BytesToBits(spare), |o|, ext, lb, ub)
    case (SequenceOf(ext, lb, ub, elem), VList(vs)) =>
      (match PutCount(w, |vs|, ext, lb, ub)
       case None => None
       case Some(w1) => EncodeElems(elem, vs, w1))
    case (Sequence(ext, fields), VStruct(vals)) =>
      if |fields| != |vals| || !MandatoryPresent(fields, vals) then None
      else
        var presence := PresenceBits(fields, vals, 0);
        var presents := ValueOf(presence) % TWO64;
        var w1 := if ext then w + [false] else w;
        (match PutValue(w1, presents, |presence|)
         case None => None
         case Some(w2) => EncodeFields(fields, vals, 0, presents, |presence|, w2))
    case (Choice(ext, ub, alts), VChoice(present, x)) =>
      if present == 0 || present > |alts| then None
      else
        (match PutChoiceIndex(if ext then w + [false] else w, present, ext, ub)
         case None => None
         case Some(w1) => Encode(alts[present - 1], x, None, w1))
    case (OpenType(_, cases), VChoice(present, x)) =>
      if present == 0 || present > |cases| || ref.None? || cases[present - 1].ref != ref then None
      else
        (match Encode(cases[present - 1].schema, x, None, [])
         case None => None
         case Some(inner) =>
           var marks := Marks(cases[present - 1].schema, x, None, []);
           PutFragments(w, 8, -1, 0, Smeared(InOctets(inner), marks), OctetsFor(|inner|)))
    case _ => None
  }

  /** A string whose length fits Go's `uint64`. */
  function EncodeSized(w: Bits, unit: nat, data: Bits, extra: Bits, spare: Bits, len: nat, ext: bool,
                       lb: Option<nat>, ub: Option<nat>)
    : (r: Option<Bits>)
    requires unit == 1 || unit == 8
    requires |data| == 8 * OctetsFor(Scale(unit, len))
    ensures r.Some? ==> w <= r.value
  {
    if len < TWO64 && (lb.Some? ==> lb.value < TWO63) then PutSized(w, unit, data, extra, spare, len, ext, lb, ub)
    else None
  }

  function EncodeElems(elem: Schema, vs: seq<Value>, w: Bits): (r: Option<Bits>)
    ensures r.Some? ==> w <= r.value
    decreases elem, |vs| + 1
  {
    if vs == [] then Some(w)
    else
      match Encode(elem, vs[0], None, w)
      case None => None
      case Some(w1) => EncodeElems(elem, vs[1..], w1)
  }

  function EncodeFields(fields: seq<Field>, vals: seq<Option<Value>>, i: nat, presents: nat, remaining: nat, w: Bits)
    : (r: Option<Bits>)
    requires i <= |fields| == |vals|
    ensures r.Some? ==> w <= r.value
    decreases fields, |fields| - i
  {
    if i == |fields| then Some(w)
    else
      var f := fields[i];
      var counted := f.optional && remaining > 0;
      var rest := if counted then remaining - 1 else remaining;
      if counted && !TestBit(presents, rest) then EncodeFields(fields, vals, i + 1, presents, rest, w)
      else
        var ref := if f.schema.OpenType? then LookupRef(fields, vals[..i], f.schema.refName) else None;
        if vals[i].None? || (f.schema.OpenType? && ref.None?) then None
        else
          match Encode(f.schema, vals[i].value, ref, w)
          case None => None
          case Some(w1) => EncodeFields(fields, vals, i + 1, presents, rest, w1)
  }

  // --------------------------------------------------------------------- remnants

  /**
    The bits of their slices that BIT STRINGs of the value leave in the unused part of an octet,
    by their positions in the buffer.  Those inside an open type become part of its octets.
  */
  function Marks(schema: Schema, v: Value, ref: Option<Int64>, w: Bits): (marks: set<nat>)
    decreases schema, 1
  {
    match (schema, v)
    case (BitStr(ext, lb, ub), VBits(bits, extra, spare)) =>
      if |bits| < TWO64 && (lb.Some? ==> lb.value < TWO63)
      then SizedMarks(w, 1, InOctets(bits), BytesToBits(extra), BytesToBits(spare), |bits|, ext, lb, ub)
      else {}
    case (SequenceOf(ext, lb, ub, elem), VList(vs)) =>
      var w1 := PutCount(w, |vs|, ext, lb, ub);
      if w1.None? then {} else ElemMarks(elem, vs, w1.value)
    case (Sequence(ext, fields), VStruct(vals)) =>
      if |fields| != |vals| then {}
      else
        var presence := PresenceBits(fields, vals, 0);
        var presents := ValueOf(presence) % TWO64;
        var w1 := PutValue(if ext then w + [false] else w, presents, |presence|);
        if w1.None? then {} else FieldMarks(fields, vals, 0, presents, |presence|, w1.value)
    case (Choice(ext, ub, alts), VChoice(present, x)) =>
      if present == 0 || present > |alts| then {}
      else
        var w1 := PutChoiceIndex(if ext then w + [false] else w, present, ext, ub);
        if w1.None? then {} else Marks(alts[present - 1], x, None, w1.value)
    case _ => {}
  }

  function ElemMarks(elem: Schema, vs: seq<Value>, w: Bits): (marks: set<nat>)
    decreases elem, |vs| + 2
  {
    if vs == [] then {}
    else
      var w1 := Encode(elem, vs[0], None, w);
      Marks(elem, vs[0], None, w) + if w1.None? then {} else ElemMarks(elem, vs[1..], w1.value)
  }

  function FieldMarks(fields: seq<Field>, vals: seq<Option<Value>>, i: nat, presents: nat, remaining: nat, w: Bits)
    : (marks: set<nat>)
    requires i <= |fields| == |vals|
    decreases fields, |fields| - i
  {
    if i == |fields| then {}
    else
      var f := fields[i];
      assert fields decreases to f;
      var counted := f.optional && remaining > 0;
      var rest := if counted then remaining - 1 else remaining;
      if counted && !TestBit(presents, rest) then FieldMarks(fields, vals, i + 1, presents, rest, w)
      else if vals[i].None? then {}
      else
        var ref := if f.schema.OpenType? then LookupRef(fields, vals[..i], f.schema.refName) else None;
        var w1 := Encode(f.schema, vals[i].value, ref, w);
        Marks(f.schema, vals[i].value, ref, w) +
        if w1.None? then {} else FieldMarks(fields, vals, i + 1, presents, rest, w1.value)
  }

  // ---------------------------------------------------------------------- decoder

  /** `parseField`: a value and the next position. */
  function Decode(schema: Schema, ref: Option<Int64>, s: Bits, p: nat): (r: Read<Value>)
    requires p <= |s| && |s| % 8 == 0
    ensures Sane(r, s, p)
    decreases schema, 0
  {
    if p == |s| then Fail(p)
    else
      match schema
      case Boolean =>
        (match GetValue(s, p, 1)
         case Fail(q) => Fail(q)
         case Got(v, q) => Got(VBool(v == 1), q))
      case Integer(ext, lb, ub) =>
        var flag := GetFlag(s, p, ext);
        if flag.Fail? then Fail(flag.pos) else DecodedInt(GetInteger(s, flag.pos, flag.value, lb, ub))
      case Enumerated(ext, lb, ub) =>
        var flag := GetFlag(s, p, ext);
        if flag.Fail? then Fail(flag.pos) else DecodedEnum(GetEnumerated(s, flag.pos, flag.value, lb, ub))
      case BitStr(ext, lb, ub) =>
        var flag := GetFlag(s, p, ext);
        if flag.Fail? then Fail(flag.pos) else DecodedBits(GetSized(s, flag.pos, 1, flag.value, lb, ub))
      case OctetStr(ext, lb, ub) =>
        var flag := GetFlag(s, p, ext);
        if flag.Fail? then Fail(flag.pos) else DecodedOctets(GetSized(s, flag.pos, 8, flag.value, lb, ub))
      case SequenceOf(ext, lb, ub, elem) =>
        var flag := GetFlag(s, p, ext);
        if flag.Fail? then Fail(flag.pos)
        else
          (match GetCount(s, flag.pos, flag.value, lb, ub)
           case Fail(q) => Fail(q)
           case Got(n, q) => DecodedList(DecodeElems(elem, n, s, q)))
      case Sequence(ext, fields) =>
        var flag := GetFlag(s, p, ext);
        if flag.Fail? then Fail(flag.pos)
        else
          var count := OptionalCount(fields, 0);
          var presents := if count == 0 then Got(0, flag.pos) else GetValue(s, flag.pos, count);
          (match presents
           case Fail(q) => Fail(q)
           case Got(bits, q) => DecodedStruct(DecodeFields(fields, [], bits, count, s, q)))
      case Choice(ext, ub, alts) =>
        var flag := GetFlag(s, p, ext);
        if flag.Fail? then Fail(flag.pos)
        else
          (match GetChoiceIndex(s, flag.pos, flag.value, ub)
           case Fail(q) => Fail(q)
           case Got(present, q) =>
             if present == 0 || present > |alts| then Fail(q)
             else DecodedChoice(present, Decode(alts[present - 1], None, s, q)))
      case OpenType(_, cases) =>
        if ref.None? then Fail(p)
        else
          var present := FindCase(cases, ref.value);
          if present == 0 then Fail(p)
          else
            match GetFragments(s, p, 8, -1, 0)
            case Fail(q) => Fail(q)
            case Got(c, q) =>
              match Decode(cases[present - 1].schema, None, c.octets[..Scale(8, c.units)], 0)
              case Fail(_) => Fail(q)
              case Got(x, _) => Got(VChoice(present, x), q)
  }

  function DecodedInt(r: Read<Int64>): (d: Read<Value>)
    ensures d.pos == r.pos
  {
    if r.Got? then Got(VInt(r.value), r.pos) else Fail(r.pos)
  }

  /** The reader never returns an enumeration value of 2^64 or more. */
  function DecodedEnum(r: Read<nat>): (d: Read<Value>)
    ensures d.pos == r.pos
  {
    if r.Got? && r.value < TWO64 then Got(VEnum(r.value), r.pos) else Fail(r.pos)
  }

  function DecodedBits(r: Read<Bits>): (d: Read<Value>)
    ensures d.pos == r.pos
  {
    if r.Got? then Got(VBits(r.value, [], []), r.pos) else Fail(r.pos)
  }

  function DecodedOctets(r: Read<Bits>): (d: Read<Value>)
    requires r.Got? ==> |r.value| % 8 == 0
    ensures d.pos == r.pos
  {
    if r.Got? then Got(VOctets(PackBytes(r.value), []), r.pos) else Fail(r.pos)
  }

  function DecodedList(r: Read<seq<Value>>): (d: Read<Value>)
    ensures d.pos == r.pos
  {
    if r.Got? then Got(VList(r.value), r.pos) else Fail(r.pos)
  }

  function DecodedStruct(r: Read<seq<Option<Value>>>): (d: Read<Value>)
    ensures d.pos == r.pos
  {
    if r.Got? then Got(VStruct(r.value), r.pos) else Fail(r.pos)
  }

  function DecodedChoice(present: nat, r: Read<Value>): (d: Read<Value>)
    ensures d.pos == r.pos
  {
    if r.Got? then Got(VChoice(present, r.value), r.pos) else Fail(r.pos)
  }

  function DecodeElems(elem: Schema, n: nat, s: Bits, p: nat): (r: Read<seq<Value>>)
    requires p <= |s| && |s| % 8 == 0
    ensures Sane(r, s, p) && (r.Got? ==> |r.value| == n)
    decreases elem, n + 1
  {
    if n == 0 then Got([], p)
    else
      match Decode(elem, None, s, p)
      case Fail(q) => Fail(q)
      case Got(v, q) =>
        match DecodeElems(elem, n - 1, s, q)
        case Fail(z) => Fail(z)
        case Got(rest, z) => Got([v] + rest, z)
  }

  /** The remaining fields, `done` being the fields read so far. */
  function DecodeFields(fields: seq<Field>, done: seq<Option<Value>>, presents: nat, remaining: nat, s: Bits, p: nat)
    : (r: Read<seq<Option<Value>>>)
    requires |done| <= |fields|
    requires p <= |s| && |s| % 8 == 0
    ensures Sane(r, s, p) && (r.Got? ==> |r.value| == |fields| && done <= r.value)
    decreases fields, |fields| - |done|
  {
    var i := |done|;
    if i == |fields| then Got(done, p)
    else
      var f := fields[i];
      var counted := f.optional && remaining > 0;
      var rest := if counted then remaining - 1 else remaining;
      if counted && !TestBit(presents, rest) then DecodeFields(fields, done + [None], presents, rest, s, p)
      else
        var ref := if f.schema.OpenType? then LookupRef(fields, done, f.schema.refName) else None;
        if f.schema.OpenType? && ref.None? then Fail(p)
        else
          match Decode(f.schema, ref, s, p)
          case Fail(q) => Fail(q)
          case Got(v, q) => DecodeFields(fields, done + [Some(v)], presents, rest, s, q)
  }

  // ------------------------------------------------------------ whole messages

  /** `MarshalWithParams`: the octets of an encoding; an empty one becomes a zero octet. */
  function Marshal(schema: Schema, v: Value, ref: Option<Int64>): (r: Option<seq<Byte>>) {
    match Encode(schema, v, ref, [])
    case None => None
    case Some(w) => Some(if w == [] then [0] else PackBytes(Smeared(Aligned(w), Marks(schema, v, ref, []))))
  }

  /** `UnmarshalWithParams`. */
  function Unmarshal(schema: Schema, ref: Option<Int64>, bytes: seq<Byte>): (r: Option<Value>) {
    var d := Decode(schema, ref, BytesToBits(bytes), 0);
    if d.Got? then Some(d.value) else None
  }
}
