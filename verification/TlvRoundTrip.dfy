/** What the decoder of lib/tlv makes of what the encoder wrote. */
module TlvRoundTrip {
  import opened Wrappers
  import opened OctetStrings
  import opened Tlv

  // ------------------------------------------------------------ fragments on the wire

  function ItemOctets(item: Item): (b: Octets)
    ensures |b| == 4 + |item.value|
  {
    Header(item.tag, |item.value|) + item.value
  }

  function Wire(items: seq<Item>): (b: Octets) {
    if items == [] then [] else ItemOctets(items[0]) + Wire(items[1..])
  }

  predicate Fits(item: Item) {
    0 < item.tag < TWO16 && |item.value| < TWO16
  }

  predicate AllFit(items: seq<Item>) {
    forall i :: 0 <= i < |items| ==> Fits(items[i])
  }

  lemma HeaderReadsBack(tag: nat, length: nat, rest: Octets)
    requires tag < TWO16 && length < TWO16
    ensures U16At(Header(tag, length) + rest, 0) == tag && U16At(Header(tag, length) + rest, 2) == length
    ensures (Header(tag, length) + rest)[4..] == rest
  {
  }

  lemma ItemParses(item: Item, rest: Octets, tag: nat, length: nat)
    requires Fits(item)
    ensures rest == [] ==> Parse(ItemOctets(item) + rest, tag, length) == Some([item])
    ensures rest != [] && Parse(rest, item.tag, |item.value|).Some? ==>
              Parse(ItemOctets(item) + rest, tag, length) == Some([item] + Parse(rest, item.tag, |item.value|).value)
  {
    hide Header, U16At;
    var b := ItemOctets(item) + rest;
    var body := item.value + rest;
    assert b == Header(item.tag, |item.value|) + body;
    HeaderReadsBack(item.tag, |item.value|, body);
    assert body[..|item.value|] == item.value && body[|item.value|..] == rest;
    assert Padded(body, |item.value|) == item.value;
  }

  /** Fragments that fit are read back, in order, whatever the loop held before. */
  lemma {:induction false} WireParses(items: seq<Item>, tag: nat, length: nat)
    requires AllFit(items) && items != []
    ensures Parse(Wire(items), tag, length) == Some(items)
  {
    hide Parse, ItemOctets;
    var first, rest := items[0], items[1..];
    assert Fits(items[0]);
    ItemParses(first, Wire(rest), tag, length);
    assert items == [first] + rest;
    assert Wire(items) == ItemOctets(first) + Wire(rest);
    if rest == [] {
      assert items == [first];
    } else {
      assert Wire(rest) != [] by {
        WireIsLong(rest, 0);
      }
      WireParses(rest, first.tag, |first.value|);
    }
  }

  lemma {:induction false} WireJoins(a: seq<Item>, b: seq<Item>)
    ensures Wire(a + b) == Wire(a) + Wire(b)
  {
    hide ItemOctets;
    if a == [] {
      assert a + b == b;
    } else {
      assert (a + b)[1..] == a[1..] + b;
      WireJoins(a[1..], b);
    }
  }

  lemma {:induction false} WireIsLong(items: seq<Item>, i: nat)
    requires i < |items|
    ensures |Wire(items)| >= 4 + |items[i].value|
  {
    hide ItemOctets;
    if i > 0 {
      WireIsLong(items[1..], i - 1);
    }
  }

  // -------------------------------------------------------- what a value puts on the wire

  function Body(shape: Shape, v: Value): (b: Octets) {
    match Content(shape, v)
    case Some(c) => c
    case None => []
  }

  function ElemItems(tag: nat, elem: Shape, vs: seq<Value>): (items: seq<Item>)
    ensures |items| == |vs|
    ensures forall i :: 0 <= i < |vs| ==> items[i] == Item(tag, Body(elem, vs[i]))
  {
    seq(|vs|, i requires 0 <= i < |vs| => Item(tag, Body(elem, vs[i])))
  }

  /** The fragments of one field: one for each element of a slice, none for nil. */
  function FieldItems(tag: nat, shape: Shape, v: Value): (items: seq<Item>) {
    if v.Nil? then []
    else if shape.Slice? then (if v.List? then ElemItems(tag, shape.elem, v.elems) else [])
    else [Item(tag, Body(shape, v))]
  }

  function AllItems(fields: seq<Field>, vals: seq<Value>, i: nat): (items: seq<Item>)
    requires i <= |fields| == |vals|
    decreases |fields| - i
  {
    if i == |fields| then []
    else FieldItems(fields[i].tag, fields[i].shape, vals[i]) + AllItems(fields, vals, i + 1)
  }

  lemma BuildOne(tag: nat, shape: Shape, v: Value)
    requires tag != 0 && !shape.Slice? && Build(tag, shape, v).Some?
    ensures Content(shape, v).Some?
    ensures Build(tag, shape, v) == Some(ItemOctets(Item(tag, Body(shape, v))))
  {
    hide Content, Header;
  }

  lemma {:induction false} ElemsAreWire(tag: nat, elem: Shape, vs: seq<Value>)
    requires tag != 0 && Listable(elem) && BuildElems(tag, elem, vs).Some?
    ensures forall i :: 0 <= i < |vs| ==> Content(elem, vs[i]).Some?
    ensures BuildElems(tag, elem, vs) == Some(Wire(ElemItems(tag, elem, vs)))
  {
    hide Content, Build, ItemOctets, Body;
    if vs != [] {
      BuildOne(tag, elem, vs[0]);
      ElemsAreWire(tag, elem, vs[1..]);
      assert ElemItems(tag, elem, vs)[1..] == ElemItems(tag, elem, vs[1..]);
      assert vs == [vs[0]] + vs[1..];
    }
  }

  /** Whether a field value can be written at all. */
  predicate Writable(shape: Shape, v: Value) {
    if v.Nil? then Nillable(shape)
    else if shape.Slice? then
      v.List? && Listable(shape.elem) && forall i :: 0 <= i < |v.elems| ==> Content(shape.elem, v.elems[i]).Some?
    else Content(shape, v).Some?
  }

  lemma FieldIsWire(tag: nat, shape: Shape, v: Value)
    requires tag != 0 && !v.Nil? && Build(tag, shape, v).Some?
    ensures Writable(shape, v)
    ensures Build(tag, shape, v) == Some(Wire(FieldItems(tag, shape, v)))
  {
    hide Content, ItemOctets, Body;
    if shape.Slice? {
      ElemsAreWire(tag, shape.elem, v.elems);
    } else {
      BuildOne(tag, shape, v);
      var item := Item(tag, Body(shape, v));
      assert Wire([item]) == ItemOctets(item) + Wire([]) == ItemOctets(item);
    }
  }

  lemma {:induction false} FieldsAreWire(fields: seq<Field>, vals: seq<Value>, i: nat)
    requires i <= |fields| == |vals| && BuildFields(fields, vals, i).Some? && DistinctTags(fields)
    ensures forall j :: i <= j < |fields| ==> Writable(fields[j].shape, vals[j])
    ensures BuildFields(fields, vals, i) == Some(Wire(AllItems(fields, vals, i)))
    decreases |fields| - i
  {
    hide Build, Wire, FieldItems, Writable;
    if i == |fields| {
      NoItems();
    } else {
      FieldsAreWire(fields, vals, i + 1);
      FieldIsWritten(fields[i].tag, fields[i].shape, vals[i]);
      WireJoins(FieldItems(fields[i].tag, fields[i].shape, vals[i]), AllItems(fields, vals, i + 1));
      if vals[i].Nil? {
        assert [] + Wire(AllItems(fields, vals, i + 1)) == Wire(AllItems(fields, vals, i + 1));
      }
    }
  }

  lemma NoItems()
    ensures Wire([]) == []
  {
  }

  lemma FieldIsWritten(tag: nat, shape: Shape, v: Value)
    requires tag != 0 && (if v.Nil? then Nillable(shape) else Build(tag, shape, v).Some?)
    ensures Writable(shape, v)
    ensures v.Nil? ==> Wire(FieldItems(tag, shape, v)) == []
    ensures !v.Nil? ==> Build(tag, shape, v) == Some(Wire(FieldItems(tag, shape, v)))
  {
    hide Build;
    if !v.Nil? {
      FieldIsWire(tag, shape, v);
    }
  }

  // ----------------------------------------------------------- selecting by tag

  lemma {:induction false} SelectJoins(a: seq<Item>, b: seq<Item>, tag: nat)
    ensures Select(a + b, tag) == Select(a, tag) + Select(b, tag)
  {
    if a == [] {
      assert a + b == b;
    } else {
      assert (a + b)[1..] == a[1..] + b;
      SelectJoins(a[1..], b, tag);
    }
  }

  function Values(items: seq<Item>): (vs: seq<Octets>) {
    seq(|items|, i requires 0 <= i < |items| => items[i].value)
  }

  lemma {:induction false} SelectSame(items: seq<Item>, own: nat, tag: nat)
    requires forall i :: 0 <= i < |items| ==> items[i].tag == own
    ensures Select(items, tag) == if tag == own then Values(items) else []
  {
    if items != [] {
      SelectSame(items[1..], own, tag);
      assert Values(items) == [items[0].value] + Values(items[1..]);
    }
  }

  /** Among the fields from `i` on, a field finds its own fragments and nothing else. */
  lemma {:induction false} SelectField(fields: seq<Field>, vals: seq<Value>, i: nat, j: nat)
    requires i <= |fields| == |vals| && j < |fields| && DistinctTags(fields)
    ensures Select(AllItems(fields, vals, i), fields[j].tag) ==
            if i <= j then Values(FieldItems(fields[j].tag, fields[j].shape, vals[j])) else []
    decreases |fields| - i
  {
    hide Select, Values, FieldItems;
    if i == |fields| {
      NothingUnder(fields[j].tag);
    } else {
      var f := fields[i];
      var own := FieldItems(f.tag, f.shape, vals[i]);
      SelectField(fields, vals, i + 1, j);
      SelectJoins(own, AllItems(fields, vals, i + 1), fields[j].tag);
      OwnTag(f.tag, f.shape, vals[i]);
      SelectSame(own, f.tag, fields[j].tag);
      var rest := if i + 1 <= j then Values(FieldItems(fields[j].tag, fields[j].shape, vals[j])) else [];
      assert [] + rest == rest && Values(own) + [] == Values(own);
    }
  }

  lemma NothingUnder(tag: nat)
    ensures Select([], tag) == []
  {
  }

  lemma OwnTag(tag: nat, shape: Shape, v: Value)
    ensures forall k :: 0 <= k < |FieldItems(tag, shape, v)| ==> FieldItems(tag, shape, v)[k].tag == tag
  {
    hide Body;
  }

  // --------------------------------------------------------------- the round trip

  /** The decoder cannot tell an empty slice from a nil one. */
  function Normal(v: Value): (n: Value)
    decreases v
  {
    match v
    case Rec(vals) => Rec(seq(|vals|, i requires 0 <= i < |vals| => Normal(vals[i])))
    case Ref(x) => Ref(Normal(x))
    case List(vs) => if vs == [] then Nil else List(Normals(vs))
    case _ => v
  }

  function Normals(vs: seq<Value>): (ns: seq<Value>)
    ensures |ns| == |vs|
    ensures forall i :: 0 <= i < |vs| ==> ns[i] == Normal(vs[i])
    decreases vs
  {
    seq(|vs|, i requires 0 <= i < |vs| => Normal(vs[i]))
  }

  lemma NumberReadsBack(n: int, w: nat, signed: bool)
    requires InRange(n, w, signed)
    ensures Signed(NumberOf(BigEndian(Unsigned(n, w, signed), w)), w, signed) == n
  {
    hide BigEndian, NumberOf;
    BigEndianReadsBack(Unsigned(n, w, signed), w);
  }

  lemma {:induction false} DecodeFieldsAre(fields: seq<Field>, items: seq<Item>, vals: seq<Value>, goal: seq<Value>,
                                           i: nat)
    requires i <= |fields| == |vals| == |goal|
    requires vals[..i] == goal[..i]
    requires forall j :: i <= j < |fields| ==>
               DecodeAll(fields[j].shape, Select(items, fields[j].tag), vals[j]) == Some(goal[j])
    ensures DecodeFields(fields, items, vals, i) == Some(goal)
    decreases |fields| - i
  {
    hide DecodeAll, Select;
    if i < |fields| {
      var next := vals[i := goal[i]];
      assert next[..i + 1] == vals[..i] + [goal[i]];
      assert goal[..i + 1] == goal[..i] + [goal[i]];
      DecodeFieldsAre(fields, items, next, goal, i + 1);
    } else {
      assert vals == vals[..i] && goal == goal[..i];
    }
  }

  /** The content of anything but a slice decodes to the value it was made from. */
  lemma {:induction false} ContentDecodes(shape: Shape, v: Value)
    requires WellFormed(shape) && !shape.Slice? && Content(shape, v).Some? && |Body(shape, v)| < TWO16
    ensures DecodeInto(shape, Body(shape, v), Zero(shape)) == Some(Normal(v))
    decreases shape, 0, 0
  {
    hide BigEndian, NumberOf, Parse, Wire, AllItems, DecodeFields, BuildFields;
    match shape
    case Number(w, signed) =>
      NumberReadsBack(v.n, w, signed);
      assert Body(shape, v)[..w] == Body(shape, v);
    case Pointer(to) =>
      ContentDecodes(to, v.target);
    case Struct(fields) =>
      FieldsAreWire(fields, v.vals, 0);
      SmallWire(AllItems(fields, v.vals, 0), fields, v.vals);
      StructDecodes(shape, v);
    case _ =>
  }

  lemma TagsOfItems(fields: seq<Field>, vals: seq<Value>, i: nat)
    requires i <= |fields| == |vals| && DistinctTags(fields)
    ensures forall k :: 0 <= k < |AllItems(fields, vals, i)| ==> 0 < AllItems(fields, vals, i)[k].tag < TWO16
    decreases |fields| - i
  {
    hide Body;
  }

  /** In a short octet string every fragment is short. */
  lemma SmallWire(items: seq<Item>, fields: seq<Field>, vals: seq<Value>)
    requires |fields| == |vals| && DistinctTags(fields) && items == AllItems(fields, vals, 0) && |Wire(items)| < TWO16
    ensures AllFit(items)
  {
    hide Wire, AllItems;
    TagsOfItems(fields, vals, 0);
    forall i | 0 <= i < |items| ensures Fits(items[i]) {
      WireIsLong(items, i);
    }
  }

  /** Each field gets back what it put in, so the struct does. */
  lemma {:induction false} StructDecodes(shape: Shape, v: Value)
    requires shape.Struct? && WellFormed(shape) && Content(shape, v).Some? && AllFit(AllItems(shape.fields, v.vals, 0))
    ensures DecodeInto(shape, Body(shape, v), Zero(shape)) == Some(Normal(v))
    decreases shape.fields, 3, 0
  {
    hide Wire, AllItems, DecodeFields, BuildFields, Parse, DecodeAll, Select, FieldItems, Writable;
    var fields, vals := shape.fields, v.vals;
    var items := AllItems(fields, vals, 0);
    var zeros, goal := Zero(shape).vals, Normal(v).vals;
    FieldsAreWire(fields, vals, 0);
    var found := if items == [] then [Item(0, [])] else items;
    assert Parse(Body(shape, v), 0, 0) == Some(found) by {
      ContentParses(items);
    }
    forall j | 0 <= j < |fields|
      ensures DecodeAll(fields[j].shape, Select(found, fields[j].tag), zeros[j]) == Some(goal[j])
    {
      var f := fields[j];
      assert fields decreases to f;
      SelectField(fields, vals, 0, j);
      SelectNothing(items, f.tag);
      FieldItemsFit(fields, vals, j);
      FieldDecodes(f.tag, f.shape, vals[j]);
    }
    DecodeFieldsAre(fields, found, zeros, goal, 0);
  }

  lemma ContentParses(items: seq<Item>)
    requires AllFit(items)
    ensures Parse(Wire(items), 0, 0) == Some(if items == [] then [Item(0, [])] else items)
  {
    if items != [] {
      hide Parse, Wire;
      WireParses(items, 0, 0);
    } else {
      assert Padded([], 0) == [];
    }
  }

  /** The fragment that the loop finds in an empty string has tag zero. */
  lemma SelectNothing(items: seq<Item>, tag: nat)
    requires tag != 0
    ensures Select(if items == [] then [Item(0, [])] else items, tag) == Select(items, tag)
  {
    assert Select([Item(0, [])], tag) == Select([], tag);
  }

  lemma {:induction false} ItemsOfField(fields: seq<Field>, vals: seq<Value>, i: nat, j: nat, k: nat)
    requires i <= j < |fields| == |vals| && k < |FieldItems(fields[j].tag, fields[j].shape, vals[j])|
    ensures FieldItems(fields[j].tag, fields[j].shape, vals[j])[k] in AllItems(fields, vals, i)
    decreases |fields| - i
  {
    hide FieldItems;
    if i < j {
      ItemsOfField(fields, vals, i + 1, j, k);
    }
  }

  lemma FieldItemsFit(fields: seq<Field>, vals: seq<Value>, j: nat)
    requires j < |fields| == |vals| && AllFit(AllItems(fields, vals, 0))
    ensures AllFit(FieldItems(fields[j].tag, fields[j].shape, vals[j]))
  {
    hide FieldItems, AllItems;
    var own := FieldItems(fields[j].tag, fields[j].shape, vals[j]);
    forall k | 0 <= k < |own| ensures Fits(own[k]) {
      ItemsOfField(fields, vals, 0, j, k);
    }
  }

  lemma {:induction false} FieldDecodes(tag: nat, shape: Shape, v: Value)
    requires WellFormed(shape) && Writable(shape, v) && AllFit(FieldItems(tag, shape, v))
    ensures DecodeAll(shape, Values(FieldItems(tag, shape, v)), Zero(shape)) == Some(Normal(v))
    decreases shape, 1, 0
  {
    hide DecodeInto, Content, Body;
    var items := FieldItems(tag, shape, v);
    if v.Nil? {
      assert Values(items) == [];
    } else if shape.Slice? {
      assert forall i :: 0 <= i < |v.elems| ==> Fits(items[i]);
      ElemsDecode(shape, tag, v.elems, []);
      assert [] + Normals(v.elems) == Normals(v.elems);
    } else {
      assert Fits(items[0]);
      ContentDecodes(shape, v);
      assert Values(items) == [Body(shape, v)];
      assert Values(items)[1..] == [];
    }
  }

  /** The elements of a slice are appended one by one. */
  lemma {:induction false} ElemsDecode(shape: Shape, tag: nat, vs: seq<Value>, done: seq<Value>)
    requires shape.Slice? && WellFormed(shape)
    requires forall i :: 0 <= i < |vs| ==> Content(shape.elem, vs[i]).Some? && |Body(shape.elem, vs[i])| < TWO16
    ensures DecodeAll(shape, Values(ElemItems(tag, shape.elem, vs)), if done == [] then Nil else List(done))
         == Some(if done + vs == [] then Nil else List(done + Normals(vs)))
    decreases shape.elem, 2, |vs|
  {
    hide Content, Body, WellFormed, Normal, DecodeInto;
    var bufs := Values(ElemItems(tag, shape.elem, vs));
    if vs == [] {
      assert done + Normals(vs) == done;
    } else {
      var first := Normal(vs[0]);
      WellFormedElem(shape);
      ContentDecodes(shape.elem, vs[0]);
      ElemAppends(shape, Body(shape.elem, vs[0]), done, first);
      ElemsDecode(shape, tag, vs[1..], done + [first]);
      assert bufs[0] == Body(shape.elem, vs[0]);
      assert bufs[1..] == Values(ElemItems(tag, shape.elem, vs[1..]));
      assert done + [first] + Normals(vs[1..]) == done + Normals(vs);
    }
  }

  lemma WellFormedElem(shape: Shape)
    requires shape.Slice? && WellFormed(shape)
    ensures WellFormed(shape.elem) && Listable(shape.elem)
  {
  }

  /** One fragment of a slice adds one element. */
  lemma ElemAppends(shape: Shape, b: Octets, done: seq<Value>, first: Value)
    requires shape.Slice? && Listable(shape.elem) && DecodeInto(shape.elem, b, Zero(shape.elem)) == Some(first)
    ensures DecodeInto(shape, b, if done == [] then Nil else List(done)) == Some(List(done + [first]))
  {
    hide Parse, DecodeFields, NumberOf;
    assert done == [] ==> [] + [first] == done + [first];
  }

  /** The fragments that a struct is made of. */
  function TopItems(shape: Shape, v: Value): (items: seq<Item>) {
    if shape.Struct? && v.Rec? && |v.vals| == |shape.fields| then AllItems(shape.fields, v.vals, 0) else []
  }

  /** Every struct whose top fragments fit their length field comes back, up to nil and empty slices. */
  lemma RoundTrip(shape: Shape, v: Value)
    requires WellFormed(shape) && Marshal(shape, v).Some?
    requires forall i :: 0 <= i < |TopItems(shape, v)| ==> |TopItems(shape, v)[i].value| < TWO16
    ensures Unmarshal(shape, Marshal(shape, v).value) == Some(Normal(v))
  {
    hide DecodeInto, BuildFields, AllItems, Zero, Normal;
    assert Content(shape, v).Some?;
    TagsOfItems(shape.fields, v.vals, 0);
    var items := TopItems(shape, v);
    assert forall i :: 0 <= i < |items| ==> Fits(items[i]);
    StructDecodes(shape, v);
  }

  /** In particular every struct of fewer than 65536 octets. */
  lemma ShortRoundTrip(shape: Shape, v: Value)
    requires WellFormed(shape) && Marshal(shape, v).Some? && |Marshal(shape, v).value| < TWO16
    ensures Unmarshal(shape, Marshal(shape, v).value) == Some(Normal(v))
  {
    hide DecodeInto, Zero, Normal, BuildFields, AllItems;
    ContentDecodes(shape, v);
  }

  // --------------------------------------------------------- decoding, then encoding

  /** The decoded value writes the octets it was read from. */
  lemma {:induction false} NormalContent(shape: Shape, v: Value)
    requires WellFormed(shape) && !shape.Slice? && Content(shape, v).Some?
    ensures Content(shape, Normal(v)) == Content(shape, v)
    decreases shape, 0, 0
  {
    hide BigEndian, BuildFields;
    match shape
    case Pointer(to) =>
      NormalContent(to, v.target);
    case Struct(fields) =>
      NormalFields(fields, v.vals, Normal(v).vals, 0);
    case _ =>
  }

  lemma {:induction false} NormalBuild(tag: nat, shape: Shape, v: Value)
    requires WellFormed(shape) && Build(tag, shape, v).Some? && !v.Nil?
    ensures Normal(v).Nil? ==> Nillable(shape) && Build(tag, shape, v) == Some([])
    ensures !Normal(v).Nil? ==> Build(tag, shape, Normal(v)) == Build(tag, shape, v)
    decreases shape, 1, 0
  {
    hide Content;
    if shape.Slice? {
      NormalElems(tag, shape.elem, v.elems);
    } else {
      NormalContent(shape, v);
      assert Content(shape, v).Some? ==> !v.List? by {
        NoListContent(shape, v);
      }
    }
  }

  lemma NoListContent(shape: Shape, v: Value)
    requires Content(shape, v).Some?
    ensures !v.List?
  {
    hide BuildFields, BigEndian;
  }

  lemma {:induction false} NormalElems(tag: nat, elem: Shape, vs: seq<Value>)
    requires WellFormed(elem) && Listable(elem) && BuildElems(tag, elem, vs).Some?
    ensures BuildElems(tag, elem, Normals(vs)) == BuildElems(tag, elem, vs)
    decreases elem, 2, |vs|
  {
    hide Content;
    if vs != [] {
      NormalContent(elem, vs[0]);
      NormalElems(tag, elem, vs[1..]);
      assert Normals(vs)[1..] == Normals(vs[1..]);
    }
  }

  lemma {:induction false} NormalFields(fields: seq<Field>, vals: seq<Value>, normal: seq<Value>, i: nat)
    requires i <= |fields| == |vals| == |normal| && BuildFields(fields, vals, i).Some?
    requires forall j :: i <= j < |fields| ==> WellFormed(fields[j].shape) && normal[j] == Normal(vals[j])
    ensures BuildFields(fields, normal, i) == BuildFields(fields, vals, i)
    decreases fields, 3, |fields| - i
  {
    hide Build;
    if i < |fields| {
      var f := fields[i];
      assert fields decreases to f;
      NormalFields(fields, vals, normal, i + 1);
      if !vals[i].Nil? {
        NormalBuild(f.tag, f.shape, vals[i]);
        var rest := BuildFields(fields, vals, i + 1).value;
        assert [] + rest == rest;
      }
    }
  }

  /** Encoding what was decoded gives the same octets. */
  lemma Reencodes(shape: Shape, v: Value)
    requires WellFormed(shape) && Marshal(shape, v).Some? && |Marshal(shape, v).value| < TWO16
    ensures Unmarshal(shape, Marshal(shape, v).value).Some?
    ensures Marshal(shape, Unmarshal(shape, Marshal(shape, v).value).value) == Marshal(shape, v)
  {
    hide Content, DecodeInto, Zero;
    ShortRoundTrip(shape, v);
    NormalContent(shape, v);
  }

  // ------------------------------------------------------------------ order of fields

  lemma {:induction false} SameSelections(fields: seq<Field>, a: seq<Item>, b: seq<Item>, vals: seq<Value>, i: nat)
    requires i <= |fields| == |vals|
    requires forall j :: 0 <= j < |fields| ==> Select(a, fields[j].tag) == Select(b, fields[j].tag)
    ensures DecodeFields(fields, a, vals, i) == DecodeFields(fields, b, vals, i)
    decreases |fields| - i
  {
    hide DecodeAll, Select;
    if i < |fields| {
      var r := DecodeAll(fields[i].shape, Select(a, fields[i].tag), vals[i]);
      if r.Some? {
        SameSelections(fields, a, b, vals[i := r.value], i + 1);
      }
    }
  }

  /** Only the order within a tag matters, and fragments under foreign tags do not. */
  lemma InterleavingIgnored(shape: Shape, a: seq<Item>, b: seq<Item>)
    requires shape.Struct? && AllFit(a) && AllFit(b) && a != [] && b != []
    requires forall j :: 0 <= j < |shape.fields| ==> Select(a, shape.fields[j].tag) == Select(b, shape.fields[j].tag)
    ensures Unmarshal(shape, Wire(a)) == Unmarshal(shape, Wire(b))
  {
    hide DecodeFields, Select, Wire, Parse;
    WireParses(a, 0, 0);
    WireParses(b, 0, 0);
    SameSelections(shape.fields, a, b, Zero(shape).vals, 0);
  }

  // --------------------------------------------------------- strings that are too long

  /** A string of fewer than 65536 octets, or anything else. */
  predicate Short(v: Value) {
    (v.Bin? ==> |v.octets| < TWO16) && (v.Str? ==> |v.text| < TWO16)
  }

  predicate AllShort(vs: seq<Octets>) {
    forall i :: 0 <= i < |vs| ==> |vs[i]| < TWO16
  }

  /** Whatever the input, no fragment is longer than its length field can say. */
  lemma {:induction false} ParsedShort(b: Octets, tag: nat, length: nat, own: nat)
    requires length < TWO16
    ensures Parse(b, tag, length).Some? ==> AllShort(Select(Parse(b, tag, length).value, own))
    decreases |b|
  {
    hide Padded, U16At;
    var tag1 := if |b| >= 2 then U16At(b, 0) else tag;
    var length1 := if |b| >= 4 then U16At(b, 2) else length;
    var body := if |b| >= 4 then b[4..] else [];
    if length1 < |body| {
      ParsedShort(body[length1..], tag1, length1, own);
      var rest := Parse(body[length1..], tag1, length1);
      if rest.Some? {
        var item := Item(tag1, Padded(body, length1));
        assert ([item] + rest.value)[1..] == rest.value;
      }
    } else if Parse(b, tag, length).Some? {
      var items := Parse(b, tag, length).value;
      assert items[1..] == [];
    }
  }

  /** A string field holds its last fragment. */
  lemma {:induction false} DecodedShort(shape: Shape, bufs: seq<Octets>, current: Value)
    requires (shape.Bytes? || shape.Text?) && AllShort(bufs) && Short(current)
    ensures DecodeAll(shape, bufs, current).Some? ==> Short(DecodeAll(shape, bufs, current).value)
    decreases |bufs|
  {
    if bufs != [] {
      var v := DecodeInto(shape, bufs[0], current);
      DecodedShort(shape, bufs[1..], v.value);
    }
  }

  /** Each field of a decoded struct is what its own fragments make of it. */
  lemma {:induction false} DecodedField(fields: seq<Field>, items: seq<Item>, vals: seq<Value>, i: nat, j: nat)
    requires i <= |fields| == |vals| && j < |fields| && DecodeFields(fields, items, vals, i).Some?
    ensures var r := DecodeFields(fields, items, vals, i).value;
            if j < i then r[j] == vals[j]
            else DecodeAll(fields[j].shape, Select(items, fields[j].tag), vals[j]) == Some(r[j])
    decreases |fields| - i
  {
    hide DecodeAll, Select;
    if i < |fields| {
      var v := DecodeAll(fields[i].shape, Select(items, fields[i].tag), vals[i]).value;
      DecodedField(fields, items, vals[i := v], i + 1, j);
    }
  }

  /** A struct with a string of 65536 octets or more in a field of its own comes back from no input at all. */
  lemma LongStringLost(shape: Shape, v: Value, j: nat, b: Octets)
    requires shape.Struct? && v.Rec? && |v.vals| == |shape.fields| && j < |v.vals|
    requires (shape.fields[j].shape.Bytes? || shape.fields[j].shape.Text?) && !Short(v.vals[j])
    ensures Unmarshal(shape, b) != Some(Normal(v))
  {
    hide Parse, DecodeFields, DecodeAll, Select, AllShort, Short;
    var fields, zeros := shape.fields, Zero(shape).vals;
    var items := Parse(b, 0, 0);
    if items.Some? && DecodeFields(fields, items.value, zeros, 0).Some? {
      DecodedField(fields, items.value, zeros, 0, j);
      ParsedShort(b, 0, 0, fields[j].tag);
      ZeroIsShort(fields[j].shape);
      DecodedShort(fields[j].shape, Select(items.value, fields[j].tag), zeros[j]);
      LongStaysLong(v.vals[j]);
    }
  }

  lemma ZeroIsShort(shape: Shape)
    ensures Short(Zero(shape))
  {
  }

  lemma LongStaysLong(v: Value)
    ensures !Short(v) ==> !Short(Normal(v))
  {
  }
}
