/**
  The tree-shaped codec of lib/tlv.  A `Shape` stands for a Go type with its `tlv` tags,
  a `Value` for a Go value of such a type.
*/
module Tlv {
  import opened Wrappers
  import opened OctetStrings

  // ---------------------------------------------------------------- types and values

  /** The value of a type with its own binary marshaler. */
  type Leaf(==, !new, 0)

  /** `MarshalBinary` and `UnmarshalBinary` of such a type, and its zero value. */
  datatype Codec = Codec(enc: Leaf -> Option<Octets>, dec: Octets -> Option<Leaf>, zero: Leaf)

  datatype Shape =
    | Number(width: nat, signed: bool)
    | Text
    | Bytes
    | Custom(codec: Codec)
    | Struct(fields: seq<Field>)
    | Pointer(to: Shape)
    | Slice(elem: Shape)

  datatype Field = Field(tag: nat, shape: Shape)

  /** `Nil` is a nil pointer or a nil slice. */
  datatype Value =
    | Num(n: int)
    | Str(text: Octets)
    | Bin(octets: Octets)
    | Own(leaf: Leaf)
    | Rec(vals: seq<Value>)
    | Ref(target: Value)
    | List(elems: seq<Value>)
    | Nil

  /** Types whose values may be nil. */
  predicate Nillable(shape: Shape) {
    shape.Bytes? || shape.Pointer? || shape.Slice?
  }

  /** Types that a pointer may lead to. */
  predicate Pointable(shape: Shape) {
    shape.Number? || shape.Custom? || shape.Struct?
  }

  /** Element types of a slice that the codec supports; a slice of plain octets is `Bytes`. */
  predicate Listable(shape: Shape) {
    (shape.Number? && shape != Number(1, false)) || shape.Custom? || shape.Struct? || shape.Pointer?
  }

  predicate DistinctTags(fields: seq<Field>) {
    && (forall i :: 0 <= i < |fields| ==> 0 < fields[i].tag < TWO16)
    && (forall i, j :: 0 <= i < j < |fields| ==> fields[i].tag != fields[j].tag)
  }

  ghost predicate Invertible(c: Codec) {
    forall x: Leaf :: c.enc(x).Some? ==> c.dec(c.enc(x).value) == Some(x)
  }

  ghost predicate WellFormed(shape: Shape)
    decreases shape
  {
    match shape
    case Number(w, _) => w in {1, 2, 4, 8}
    case Custom(c) => Invertible(c)
    case Struct(fields) => DistinctTags(fields) && forall i :: 0 <= i < |fields| ==> WellFormed(fields[i].shape)
    case Pointer(to) => Pointable(to) && WellFormed(to)
    case Slice(elem) => Listable(elem) && WellFormed(elem)
    case _ => true
  }

  /** What a freshly made variable holds. */
  function Zero(shape: Shape): (v: Value)
    decreases shape
  {
    match shape
    case Number(_, _) => Num(0)
    case Text => Str([])
    case Custom(c) => Own(c.zero)
    case Struct(fields) => Rec(seq(|fields|, i requires 0 <= i < |fields| => Zero(fields[i].shape)))
    case _ => Nil
  }

  // ----------------------------------------------------------------------- encoder

  function Header(tag: nat, length: nat): (b: Octets)
    ensures |b| == 4
  {
    U16(tag % TWO16) + U16(length % TWO16)
  }

  /** `makeTLV`: tag zero means no header. */
  function MakeTlv(tag: nat, value: Octets): (b: Octets) {
    if tag != 0 then Header(tag, |value|) + value else value
  }

  predicate InRange(n: int, width: nat, signed: bool) {
    if signed then -(Pow256(width) as int) <= 2 * n < Pow256(width) else 0 <= n < Pow256(width)
  }

  /** Two's complement where the type is signed. */
  function Unsigned(n: int, width: nat, signed: bool): (m: nat)
    requires InRange(n, width, signed)
    ensures m < Pow256(width)
  {
    if n < 0 then n + Pow256(width) else n
  }

  function Signed(m: nat, width: nat, signed: bool): (n: int) {
    if signed && 2 * m >= Pow256(width) then m - Pow256(width) else m
  }

  /** The octets a value puts behind its header; a slice has none of its own. */
  function Content(shape: Shape, v: Value): (r: Option<Octets>)
    decreases shape, 0, 0
  {
    match (shape, v)
    case (Number(w, signed), Num(n)) =>
      if w in {1, 2, 4, 8} && InRange(n, w, signed) then Some(BigEndian(Unsigned(n, w, signed), w)) else None
    case (Text, Str(s)) => Some(s)
    case (Bytes, Bin(s)) => Some(s)
    case (Custom(c), Own(x)) => c.enc(x)
    case (Struct(fields), Rec(vals)) => if |vals| == |fields| then BuildFields(fields, vals, 0) else None
    case (Pointer(to), Ref(x)) => if Pointable(to) then Content(to, x) else None
    case _ => None
  }

  /** Types that go through `makeTLV`. */
  predicate Wrapped(shape: Shape) {
    shape.Custom? || shape.Struct? || (shape.Pointer? && (shape.to.Custom? || shape.to.Struct?))
  }

  /** `buildTLV`. */
  function Build(tag: nat, shape: Shape, v: Value): (r: Option<Octets>)
    decreases shape, 1, 0
  {
    if shape.Slice? then
      if v.List? && Listable(shape.elem) then BuildElems(tag, shape.elem, v.elems) else None
    else
      match Content(shape, v)
      case None => None
      case Some(c) => Some(if Wrapped(shape) then MakeTlv(tag, c) else Header(tag, |c|) + c)
  }

  function BuildElems(tag: nat, elem: Shape, vs: seq<Value>): (r: Option<Octets>)
    decreases elem, 2, |vs|
  {
    if vs == [] then Some([])
    else
      match (Build(tag, elem, vs[0]), BuildElems(tag, elem, vs[1..]))
      case (Some(first), Some(rest)) => Some(first + rest)
      case _ => None
  }

  /** The fields from `i` on; nil ones are skipped. */
  function BuildFields(fields: seq<Field>, vals: seq<Value>, i: nat): (r: Option<Octets>)
    requires i <= |fields| == |vals|
    decreases fields, 0, |fields| - i
  {
    if i == |fields| then Some([])
    else if vals[i].Nil? then
      if Nillable(fields[i].shape) then BuildFields(fields, vals, i + 1) else None
    else
      var f := fields[i];
      assert fields decreases to f;
      match (Build(f.tag, f.shape, vals[i]), BuildFields(fields, vals, i + 1))
      case (Some(first), Some(rest)) => Some(first + rest)
      case _ => None
  }

  /** `Marshal` of a struct. */
  function Marshal(shape: Shape, v: Value): (r: Option<Octets>) {
    if shape.Struct? then Build(0, shape, v) else None
  }

  // ----------------------------------------------------------------------- decoder

  datatype Item = Item(tag: nat, value: Octets)

  /** A fragment that the buffer cuts short is filled up with zeros. */
  function Padded(b: Octets, length: nat): (v: Octets)
    ensures |v| == length
  {
    if length <= |b| then b[..length] else b + seq(length - |b|, _ => 0)
  }

  /**
    The loop of `parseTLV` from `b` on.  A number that the buffer cuts short keeps the
    value it had, here `tag` and `length`.
  */
  function Parse(b: Octets, tag: nat, length: nat): (r: Option<seq<Item>>)
    decreases |b|
  {
    var tag1 := if |b| >= 2 then U16At(b, 0) else tag;
    var length1 := if |b| >= 4 then U16At(b, 2) else length;
    var body := if |b| >= 4 then b[4..] else [];
    if body == [] && length1 > 0 then None
    else
      var item := Item(tag1, Padded(body, length1));
      if length1 >= |body| then Some([item])
      else
        match Parse(body[length1..], tag1, length1)
        case None => None
        case Some(items) => Some([item] + items)
  }

  /** The values under one tag, in order. */
  function Select(items: seq<Item>, tag: nat): (vs: seq<Octets>) {
    if items == [] then []
    else (if items[0].tag == tag then [items[0].value] else []) + Select(items[1..], tag)
  }

  /** `decodeValue` into a variable that holds `current`. */
  function DecodeInto(shape: Shape, b: Octets, current: Value): (r: Option<Value>)
    decreases shape, 0, 0
  {
    match shape
    case Number(w, signed) =>
      if w in {1, 2, 4, 8} && w <= |b| then Some(Num(Signed(NumberOf(b[..w]), w, signed))) else None
    case Text => Some(Str(b))
    case Bytes => Some(Bin(b))
    case Custom(c) => (match c.dec(b) case None => None case Some(x) => Some(Own(x)))
    case Pointer(to) =>
      if !Pointable(to) then None
      else
        (match DecodeInto(to, b, if current.Ref? then current.target else Zero(to))
         case None => None
         case Some(x) => Some(Ref(x)))
    case Struct(fields) =>
      if !current.Rec? || |current.vals| != |fields| then None
      else
        (match Parse(b, 0, 0)
         case None => None
         case Some(items) =>
           match DecodeFields(fields, items, current.vals, 0)
           case None => None
           case Some(vals) => Some(Rec(vals)))
    case Slice(elem) =>
      if !Listable(elem) then None
      else
        (match DecodeInto(elem, b, Zero(elem))
         case None => None
         case Some(x) => Some(List((if current.List? then current.elems else []) + [x])))
  }

  /** The fragments of one field, one after the other. */
  function DecodeAll(shape: Shape, bufs: seq<Octets>, current: Value): (r: Option<Value>)
    decreases shape, 1, |bufs|
  {
    if bufs == [] then Some(current)
    else
      match DecodeInto(shape, bufs[0], current)
      case None => None
      case Some(v) => DecodeAll(shape, bufs[1..], v)
  }

  /** The fields from `i` on. */
  function DecodeFields(fields: seq<Field>, items: seq<Item>, vals: seq<Value>, i: nat): (r: Option<seq<Value>>)
    requires i <= |fields| == |vals|
    ensures r.Some? ==> |r.value| == |fields|
    decreases fields, 0, |fields| - i
  {
    if i == |fields| then Some(vals)
    else
      var f := fields[i];
      assert fields decreases to f;
      match DecodeAll(f.shape, Select(items, f.tag), vals[i])
      case None => None
      case Some(v) => DecodeFields(fields, items, vals[i := v], i + 1)
  }

  /** `Unmarshal` into a fresh variable. */
  function Unmarshal(shape: Shape, b: Octets): (r: Option<Value>) {
    DecodeInto(shape, b, Zero(shape))
  }
}
