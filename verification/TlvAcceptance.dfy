/** Exactly what the encoder of lib/tlv accepts, and what absent fields and headers are on the wire. */
module TlvAcceptance {
  import opened Wrappers
  import opened OctetStrings
  import opened Tlv
  import opened TlvRoundTrip

  // ---------------------------------------------------------------------- acceptance

  /** The range of a Go integer type, by its size in octets. */
  predicate InWidth(n: int, width: nat, signed: bool) {
    match width
    case 1 => if signed then -0x80 <= n < 0x80 else 0 <= n < 0x100
    case 2 => if signed then -0x8000 <= n < 0x8000 else 0 <= n < 0x1_0000
    case 4 => if signed then -0x8000_0000 <= n < 0x8000_0000 else 0 <= n < 0x1_0000_0000
    case 8 =>
      if signed then -0x8000_0000_0000_0000 <= n < 0x8000_0000_0000_0000 else 0 <= n < 0x1_0000_0000_0000_0000
    case _ => false
  }

  /** What the encoder takes, kind by kind: a value of the type, with everything below it accepted. */
  predicate Acceptable(shape: Shape, v: Value)
    decreases shape, 0
  {
    match shape
    case Number(width, signed) => v.Num? && InWidth(v.n, width, signed)
    case Text => v.Str?
    case Bytes => v.Bin?
    case Custom(codec) => v.Own? && codec.enc(v.leaf).Some?
    case Struct(fields) =>
      && v.Rec? && |v.vals| == |fields|
      && forall i :: 0 <= i < |fields| ==> FieldAcceptable(fields[i].shape, v.vals[i])
    case Pointer(to) => v.Ref? && (to.Number? || to.Custom? || to.Struct?) && Acceptable(to, v.target)
    case Slice(elem) =>
      && v.List? && (elem.Number? || elem.Custom? || elem.Struct? || elem.Pointer?) && elem != Number(1, false)
      && forall i :: 0 <= i < |v.elems| ==> Acceptable(elem, v.elems[i])
  }

  /** In a field, nil is allowed for pointers, octet slices and slices, and for nothing else. */
  predicate FieldAcceptable(shape: Shape, v: Value)
    decreases shape, 1
  {
    match v
    case Nil => shape.Pointer? || shape.Bytes? || shape.Slice?
    case _ => Acceptable(shape, v)
  }

  lemma Pow256s()
    ensures Pow256(1) == 0x100 && Pow256(2) == 0x1_0000 && Pow256(4) == 0x1_0000_0000
    ensures Pow256(8) == 0x1_0000_0000_0000_0000
  {
    assert Pow256(4) == 0x1_0000_0000;
  }

  lemma WidthExact(n: int, w: nat, signed: bool)
    ensures InWidth(n, w, signed) <==> w in {1, 2, 4, 8} && InRange(n, w, signed)
  {
    hide Pow256;
    Pow256s();
  }

  /** Every kind but slices. */
  lemma {:induction false} ContentExact(shape: Shape, v: Value)
    requires !shape.Slice?
    ensures Content(shape, v).Some? <==> Acceptable(shape, v)
    decreases shape, 0, 0
  {
    hide BigEndian, BuildFields, InWidth, InRange, FieldAcceptable;
    match shape
    case Number(w, signed) =>
      if v.Num? {
        WidthExact(v.n, w, signed);
      }
    case Pointer(to) =>
      if v.Ref? && Pointable(to) {
        ContentExact(to, v.target);
      }
    case Struct(fields) =>
      if v.Rec? && |v.vals| == |fields| {
        FieldsExact(fields, v.vals, 0);
      }
    case _ =>
  }

  lemma {:induction false} BuildExact(tag: nat, shape: Shape, v: Value)
    ensures Build(tag, shape, v).Some? <==> Acceptable(shape, v)
    decreases shape, 1, 0
  {
    hide Content;
    if shape.Slice? {
      if v.List? && Listable(shape.elem) {
        ElemsExact(tag, shape.elem, v.elems);
      }
    } else {
      hide Acceptable;
      ContentExact(shape, v);
    }
  }

  lemma {:induction false} ElemsExact(tag: nat, elem: Shape, vs: seq<Value>)
    ensures BuildElems(tag, elem, vs).Some? <==> forall i :: 0 <= i < |vs| ==> Acceptable(elem, vs[i])
    decreases elem, 2, |vs|
  {
    hide Build, Acceptable;
    if vs != [] {
      BuildExact(tag, elem, vs[0]);
      ElemsExact(tag, elem, vs[1..]);
      assert forall i :: 1 <= i < |vs| ==> vs[i] == vs[1..][i - 1];
    }
  }

  lemma {:induction false} FieldsExact(fields: seq<Field>, vals: seq<Value>, i: nat)
    requires i <= |fields| == |vals|
    ensures BuildFields(fields, vals, i).Some?
            <==> forall j :: i <= j < |fields| ==> FieldAcceptable(fields[j].shape, vals[j])
    decreases fields, 3, |fields| - i
  {
    hide Build, Acceptable;
    if i < |fields| {
      var f := fields[i];
      assert fields decreases to f;
      FieldsExact(fields, vals, i + 1);
      if !vals[i].Nil? {
        BuildExact(f.tag, f.shape, vals[i]);
      }
    }
  }

  /** `Marshal` accepts a value if and only if it is a struct and every kind in it is as stated. */
  lemma MarshalExact(shape: Shape, v: Value)
    ensures Marshal(shape, v).Some? <==> shape.Struct? && Acceptable(shape, v)
  {
    hide Build, Acceptable;
    if shape.Struct? {
      BuildExact(0, shape, v);
    }
  }

  // ------------------------------------------------------------------- absent fields

  function Without<T>(s: seq<T>, j: nat): (r: seq<T>)
    requires j < |s|
    ensures |r| == |s| - 1
  {
    s[..j] + s[j + 1..]
  }

  /** From the field after it on, a struct does not miss the one that is taken out. */
  lemma {:induction false} FieldsBehind(fields: seq<Field>, vals: seq<Value>, j: nat, i: nat)
    requires j < i <= |fields| == |vals|
    ensures BuildFields(fields, vals, i) == BuildFields(Without(fields, j), Without(vals, j), i - 1)
    decreases |fields| - i
  {
    hide Build;
    if i < |fields| {
      FieldsBehind(fields, vals, j, i + 1);
    }
  }

  lemma {:induction false} FieldsBefore(fields: seq<Field>, vals: seq<Value>, j: nat, i: nat)
    requires i <= j < |fields| == |vals|
    requires vals[j].Nil? && (fields[j].shape.Pointer? || fields[j].shape.Bytes? || fields[j].shape.Slice?)
    ensures BuildFields(fields, vals, i) == BuildFields(Without(fields, j), Without(vals, j), i)
    decreases j - i
  {
    hide Build;
    if i == j {
      FieldsBehind(fields, vals, j, j + 1);
    } else {
      FieldsBefore(fields, vals, j, i + 1);
    }
  }

  /** A whole message has no header of its own. */
  lemma MarshalIsFields(fields: seq<Field>, vals: seq<Value>)
    requires |fields| == |vals|
    ensures Marshal(Struct(fields), Rec(vals)) == BuildFields(fields, vals, 0)
  {
    hide BuildFields;
    assert Content(Struct(fields), Rec(vals)) == BuildFields(fields, vals, 0);
  }

  /** A nil pointer, octet slice or slice contributes no octets: the struct is encoded as if it had no such field. */
  lemma NilIsAbsent(fields: seq<Field>, vals: seq<Value>, j: nat)
    requires j < |fields| == |vals|
    requires vals[j].Nil? && (fields[j].shape.Pointer? || fields[j].shape.Bytes? || fields[j].shape.Slice?)
    ensures Marshal(Struct(fields), Rec(vals)) == Marshal(Struct(Without(fields, j)), Rec(Without(vals, j)))
  {
    hide BuildFields, Marshal;
    FieldsBefore(fields, vals, j, 0);
    MarshalIsFields(fields, vals);
    MarshalIsFields(Without(fields, j), Without(vals, j));
  }

  /** In particular a struct of which nothing is there is empty, whatever its types. */
  lemma {:induction false} NothingThere(fields: seq<Field>, vals: seq<Value>)
    requires |fields| == |vals| && forall j :: 0 <= j < |fields| ==> vals[j].Nil? && fields[j].shape.Pointer?
    ensures Marshal(Struct(fields), Rec(vals)) == Some([])
    decreases |fields|
  {
    if fields != [] {
      hide BuildFields;
      var j := |fields| - 1;
      NilIsAbsent(fields, vals, j);
      assert Without(fields, j) == fields[..j] && Without(vals, j) == vals[..j];
      NothingThere(fields[..j], vals[..j]);
    }
  }

  // ------------------------------------------------------------------- octet by octet

  /** A fragment: two octets of tag, two of length, both most significant first, then the value. */
  lemma ItemInOctets(item: Item)
    requires item.tag < TWO16 && |item.value| < TWO16
    ensures ItemOctets(item)
         == [item.tag / 256, item.tag % 256, |item.value| / 256, |item.value| % 256] + item.value
  {
  }

  /** The type itself or the one pointed to. */
  function Base(shape: Shape): (base: Shape) {
    if shape.Pointer? then shape.to else shape
  }

  /**
    One value: tag and length, each cut to 16 bits, then the content.  With the tag 0 a struct or
    a type with a codec of its own has no header; a number or a string keeps it.
  */
  lemma BuildInOctets(tag: nat, shape: Shape, v: Value)
    requires !shape.Slice? && Acceptable(shape, v)
    ensures Content(shape, v).Some?
    ensures var c := Content(shape, v).value;
            var header := [tag / 256 % 256, tag % 256, |c| / 256 % 256, |c| % 256];
            Build(tag, shape, v) ==
            Some(if tag == 0 && (Base(shape).Custom? || Base(shape).Struct?) then c else header + c)
  {
    hide Content, Acceptable;
    ContentExact(shape, v);
    var c := Content(shape, v).value;
    Digits(tag);
    Digits(|c|);
    assert Header(tag, |c|) == [tag / 256 % 256, tag % 256, |c| / 256 % 256, |c| % 256];
  }

  lemma Digits(n: nat)
    ensures U16(n % TWO16) == [n / 256 % 256, n % 256]
  {
    var q, m := n / 65536, n % 65536;
    assert n == 65536 * q + m;
    assert n / 256 == 256 * q + m / 256;
    DigitOf(q, m / 256);
    assert n == 256 * (256 * q + m / 256) + m % 256;
    DigitOf(256 * q + m / 256, m % 256);
  }

  lemma DigitOf(q: nat, r: nat)
    requires r < 256
    ensures (256 * q + r) % 256 == r
  {
  }

  /** A number: the digits to base 256 of its two's complement. */
  lemma NumberInOctets(w: nat, signed: bool, n: int, i: nat)
    requires Acceptable(Number(w, signed), Num(n)) && i < w
    ensures Content(Number(w, signed), Num(n)).Some? && |Content(Number(w, signed), Num(n)).value| == w
    ensures Content(Number(w, signed), Num(n)).value[i] == n % Pow256(w) / Pow256(w - 1 - i) % 256
  {
    hide Pow256, BigEndian;
    WidthExact(n, w, signed);
    Pow256s();
    BigEndianDigit(Unsigned(n, w, signed), w, i);
    ModuloOnce(n, Pow256(w));
  }

  lemma ModuloOnce(n: int, p: int)
    requires p > 0 && -p <= n < p
    ensures n % p == if n < 0 then n + p else n
  {
  }

  /** A struct is the fragments of its fields in order: one of a scalar, one of each element of a slice, none of nil. */
  lemma StructInFragments(fields: seq<Field>, vals: seq<Value>)
    requires DistinctTags(fields) && Acceptable(Struct(fields), Rec(vals))
    ensures |fields| == |vals| && Marshal(Struct(fields), Rec(vals)) == Some(Wire(AllItems(fields, vals, 0)))
  {
    hide Wire, AllItems, Marshal, BuildFields;
    MarshalExact(Struct(fields), Rec(vals));
    MarshalIsFields(fields, vals);
    FieldsAreWire(fields, vals, 0);
  }

  /** A field that no fragment is for: 0, the empty text, nil, or a struct of such. */
  predicate IsZero(shape: Shape, v: Value)
    decreases shape
  {
    match shape
    case Number(_, _) => v == Num(0)
    case Text => v == Str([])
    case Custom(codec) => v == Own(codec.zero)
    case Struct(fields) =>
      v.Rec? && |v.vals| == |fields| && forall i :: 0 <= i < |fields| ==> IsZero(fields[i].shape, v.vals[i])
    case _ => v == Nil
  }

  lemma {:induction false} ZeroIsZero(shape: Shape, v: Value)
    ensures v == Zero(shape) <==> IsZero(shape, v)
    decreases shape
  {
    match shape
    case Struct(fields) =>
      if v.Rec? && |v.vals| == |fields| {
        forall i | 0 <= i < |fields|
          ensures v.vals[i] == Zero(fields[i].shape) <==> IsZero(fields[i].shape, v.vals[i])
        {
          var f := fields[i];
          assert fields decreases to f;
          ZeroIsZero(f.shape, v.vals[i]);
        }
      }
    case _ =>
  }

  /** What is not sent is zero: a decoded field without a fragment under its tag. */
  lemma MissingIsZero(shape: Shape, b: Octets, j: nat)
    requires shape.Struct? && j < |shape.fields| && Unmarshal(shape, b).Some?
    requires Parse(b, 0, 0).Some? && Select(Parse(b, 0, 0).value, shape.fields[j].tag) == []
    ensures var v := Unmarshal(shape, b).value;
            v.Rec? && |v.vals| == |shape.fields| && IsZero(shape.fields[j].shape, v.vals[j])
  {
    hide Parse, DecodeFields, Select, IsZero;
    var items, zeros := Parse(b, 0, 0).value, Zero(shape).vals;
    DecodedField(shape.fields, items, zeros, 0, j);
    ZeroIsZero(shape.fields[j].shape, zeros[j]);
  }

  /**
    Data cut short inside a value: filled up with zeros if an octet of it is there, an error
    if none is.  A header cut short leaves a fragment without octets.
  */
  lemma CutShort(tag: nat, length: nat, value: Octets, t: nat, l: nat)
    requires tag < TWO16 && |value| < length < TWO16
    ensures var b := [tag / 256, tag % 256, length / 256, length % 256] + value;
            if value == [] then Parse(b, t, l) == None
            else exists zeros ::
                && Parse(b, t, l) == Some([Item(tag, value + zeros)]) && |value + zeros| == length
                && forall i :: 0 <= i < |zeros| ==> zeros[i] == 0
    ensures Parse([], t, 0) == Parse([tag % 256], t, 0) == Some([Item(t, [])])
    ensures Parse([tag / 256, tag % 256], t, 0) == Parse([tag / 256, tag % 256, length % 256], t, 0)
         == Some([Item(tag, [])])
  {
    var b := [tag / 256, tag % 256, length / 256, length % 256] + value;
    assert b[4..] == value;
    assert U16At(b, 0) == tag && U16At(b, 2) == length;
    if value != [] {
      assert Padded(value, length) == value + seq(length - |value|, _ => 0);
    }
  }
}
