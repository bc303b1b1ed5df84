/** The loops of lib/tlv, each against the functions of `Tlv`. */
module TlvCodec {
  import opened Wrappers
  import opened OctetStrings
  import opened Tlv
  import opened TlvRoundTrip

  /** `fragments`: the values found under each tag, in order. */
  class Fragments {
    var entries: map<nat, seq<Octets>>

    constructor ()
      ensures entries == map[]
    {
      entries := map[];
    }

    function Get(tag: nat): (r: seq<Octets>)
      reads this
    {
      if tag in entries then entries[tag] else []
    }

    ghost predicate Holds(items: seq<Item>)
      reads this
    {
      forall tag: nat :: Get(tag) == Select(items, tag)
    }

    /** One more value under one tag; the other tags keep theirs. */
    method Add(tag: nat, value: Octets, ghost items: seq<Item>)
      requires Holds(items)
      modifies this
      ensures Holds(items + [Item(tag, value)])
    {
      entries := entries[tag := Get(tag) + [value]];
      forall t: nat ensures Get(t) == Select(items + [Item(tag, value)], t) {
        SelectJoins(items, [Item(tag, value)], t);
        assert Select([Item(tag, value)], t) == if t == tag then [value] else [];
      }
    }
  }

  lemma ParseStep(b: Octets, tag: nat, length: nat, tag1: nat, length1: nat, body: Octets)
    requires tag1 == if |b| >= 2 then U16At(b, 0) else tag
    requires length1 == if |b| >= 4 then U16At(b, 2) else length
    requires body == if |b| >= 4 then b[4..] else []
    ensures body == [] && length1 > 0 ==> Parse(b, tag, length) == None
    ensures (body != [] || length1 == 0) && length1 >= |body| ==>
              Parse(b, tag, length) == Some([Item(tag1, Padded(body, length1))])
    ensures length1 < |body| ==>
              Parse(b, tag, length)
                == Prefixed([Item(tag1, Padded(body, length1))], Parse(body[length1..], tag1, length1))
  {
    hide Padded, U16At;
  }

  function Prefixed(items: seq<Item>, r: Option<seq<Item>>): (p: Option<seq<Item>>) {
    match r
    case None => None
    case Some(rest) => Some(items + rest)
  }

  lemma PrefixedTwice(a: seq<Item>, b: seq<Item>, r: Option<seq<Item>>)
    ensures Prefixed(a, Prefixed(b, r)) == Prefixed(a + b, r)
  {
    if r.Some? {
      assert a + (b + r.value) == a + b + r.value;
    }
  }

  /** `parseTLV`: the values of each tag in the order of the input. */
  method ParseTlv(b: Octets) returns (f: Fragments?)
    ensures f != null <==> Parse(b, 0, 0).Some?
    ensures f != null ==> fresh(f) && f.Holds(Parse(b, 0, 0).value)
  {
    hide Parse, Select, Padded, U16At;
    var fragments := new Fragments();
    ghost var items := [];
    var buffer := b;
    var tag: nat, length: nat := 0, 0;
    assert fragments.Holds([]) by {
      assert forall t: nat :: Select([], t) == [] by {
        NothingSelected();
      }
    }
    PrefixedNothing(Parse(b, 0, 0));
    while true
      invariant fresh(fragments) && fragments.Holds(items)
      invariant Parse(b, 0, 0) == Prefixed(items, Parse(buffer, tag, length))
      decreases |buffer|
    {
      ghost var before, tag0, length0 := buffer, tag, length;
      if |buffer| >= 2 {
        tag := U16At(buffer, 0);
      }
      if |buffer| >= 4 {
        length := U16At(buffer, 2);
      }
      buffer := if |buffer| >= 4 then buffer[4..] else [];
      ParseStep(before, tag0, length0, tag, length, buffer);
      if buffer == [] && length > 0 {
        return null;
      }
      var value := Padded(buffer, length);
      fragments.Add(tag, value, items);
      ghost var item := Item(tag, value);
      if length >= |buffer| {
        assert Parse(b, 0, 0) == Some(items + [item]);
        return fragments;
      }
      buffer := buffer[length..];
      PrefixedTwice(items, [item], Parse(buffer, tag, length));
      items := items + [item];
    }
  }

  lemma NothingSelected()
    ensures forall t: nat :: Select([], t) == []
  {
  }

  lemma PrefixedNothing(r: Option<seq<Item>>)
    ensures Prefixed([], r) == r
  {
    if r.Some? {
      assert [] + r.value == r.value;
    }
  }

  // ----------------------------------------------------------------------- encoder

  function After(buf: Octets, r: Option<Octets>): (p: Option<Octets>) {
    match r
    case None => None
    case Some(rest) => Some(buf + rest)
  }

  lemma AfterTwice(a: Octets, b: Octets, r: Option<Octets>)
    ensures After(a, After(b, r)) == After(a + b, r)
    ensures After([], r) == r && After(a, Some([])) == Some(a)
  {
    assert a + [] == a;
    if r.Some? {
      assert [] + r.value == r.value;
      assert a + (b + r.value) == a + b + r.value;
    }
  }

  /** `buildTLV`. */
  method BuildTlv(tag: nat, shape: Shape, v: Value) returns (r: Option<Octets>)
    ensures r == Build(tag, shape, v)
    decreases shape, 1
  {
    hide BuildFields, BuildElems, BigEndian, Header;
    match shape
    case Struct(fields) =>
      if !v.Rec? || |v.vals| != |fields| {
        return None;
      }
      var buf := BuildStruct(fields, v.vals);
      return if buf.Some? then Some(MakeTlv(tag, buf.value)) else None;
    case Pointer(to) =>
      if !v.Ref? || !Pointable(to) {
        return None;
      }
      r := BuildTlv(tag, to, v.target);
    case Slice(elem) =>
      if !v.List? || !Listable(elem) {
        return None;
      }
      r := BuildSlice(tag, elem, v.elems);
    case Custom(codec) =>
      if !v.Own? {
        return None;
      }
      var bin := codec.enc(v.leaf);
      return if bin.Some? then Some(MakeTlv(tag, bin.value)) else None;
    case Number(w, signed) =>
      if !v.Num? || w !in {1, 2, 4, 8} || !InRange(v.n, w, signed) {
        return None;
      }
      return Some(Header(tag, w) + BigEndian(Unsigned(v.n, w, signed), w));
    case Text =>
      return if v.Str? then Some(Header(tag, |v.text|) + v.text) else None;
    case Bytes =>
      return if v.Bin? then Some(Header(tag, |v.octets|) + v.octets) else None;
  }

  /** The loop over the elements of a slice. */
  method BuildSlice(tag: nat, elem: Shape, vs: seq<Value>) returns (r: Option<Octets>)
    ensures r == BuildElems(tag, elem, vs)
    decreases elem, 2
  {
    hide Build;
    var buf: Octets, i := [], 0;
    AfterTwice([], [], BuildElems(tag, elem, vs));
    assert vs[0..] == vs;
    while i < |vs|
      invariant i <= |vs|
      invariant BuildElems(tag, elem, vs) == After(buf, BuildElems(tag, elem, vs[i..]))
    {
      assert vs[i..][0] == vs[i] && vs[i..][1..] == vs[i + 1..];
      var part := BuildTlv(tag, elem, vs[i]);
      if part.None? {
        return None;
      }
      AfterTwice(buf, part.value, BuildElems(tag, elem, vs[i + 1..]));
      buf := buf + part.value;
      i := i + 1;
    }
    AfterTwice(buf, [], None);
    return Some(buf);
  }

  /** The loop over the fields of a struct; nil ones are skipped. */
  method BuildStruct(fields: seq<Field>, vals: seq<Value>) returns (r: Option<Octets>)
    requires |fields| == |vals|
    ensures r == BuildFields(fields, vals, 0)
    decreases fields, 0
  {
    hide Build;
    var buf: Octets, i := [], 0;
    AfterTwice([], [], BuildFields(fields, vals, 0));
    while i < |fields|
      invariant i <= |fields|
      invariant BuildFields(fields, vals, 0) == After(buf, BuildFields(fields, vals, i))
    {
      var f := fields[i];
      assert fields decreases to f;
      if vals[i].Nil? {
        if !Nillable(f.shape) {
          return None;
        }
      } else {
        var part := BuildTlv(f.tag, f.shape, vals[i]);
        if part.None? {
          return None;
        }
        AfterTwice(buf, part.value, BuildFields(fields, vals, i + 1));
        buf := buf + part.value;
      }
      i := i + 1;
    }
    AfterTwice(buf, [], None);
    return Some(buf);
  }

  // ----------------------------------------------------------------------- decoder

  /** `decodeValue` into a variable that holds `current`. */
  method DecodeValue(shape: Shape, b: Octets, current: Value) returns (r: Option<Value>)
    ensures r == DecodeInto(shape, b, current)
    decreases shape, 0
  {
    hide Parse, DecodeFields, NumberOf;
    match shape
    case Pointer(to) =>
      if !Pointable(to) {
        return None;
      }
      var target := DecodeValue(to, b, if current.Ref? then current.target else Zero(to));
      return if target.Some? then Some(Ref(target.value)) else None;
    case Struct(fields) =>
      if !current.Rec? || |current.vals| != |fields| {
        return None;
      }
      var f := ParseTlv(b);
      if f == null {
        return None;
      }
      var vals := DecodeStruct(fields, f, Parse(b, 0, 0).value, current.vals);
      return if vals.Some? then Some(Rec(vals.value)) else None;
    case Slice(elem) =>
      if !Listable(elem) {
        return None;
      }
      var x := DecodeValue(elem, b, Zero(elem));
      return if x.Some? then Some(List((if current.List? then current.elems else []) + [x.value])) else None;
    case Number(w, signed) =>
      if w !in {1, 2, 4, 8} || |b| < w {
        return None;
      }
      return Some(Num(Signed(NumberOf(b[..w]), w, signed)));
    case Text =>
      return Some(Str(b));
    case Bytes =>
      return Some(Bin(b));
    case Custom(codec) =>
      var x := codec.dec(b);
      return if x.Some? then Some(Own(x.value)) else None;
  }

  /** The loop over the fields, and for each over the values under its tag. */
  method DecodeStruct(fields: seq<Field>, f: Fragments, ghost items: seq<Item>, current: seq<Value>)
    returns (r: Option<seq<Value>>)
    requires |fields| == |current| && f.Holds(items)
    ensures r == DecodeFields(fields, items, current, 0)
    decreases fields, 0
  {
    hide DecodeInto, Select;
    var vals, i := current, 0;
    while i < |fields|
      invariant i <= |fields| == |vals|
      invariant DecodeFields(fields, items, current, 0) == DecodeFields(fields, items, vals, i)
    {
      var field := fields[i];
      assert fields decreases to field;
      var bufs := f.Get(field.tag);
      var value := vals[i];
      var j := 0;
      assert bufs[0..] == bufs;
      while j < |bufs|
        invariant j <= |bufs|
        invariant DecodeAll(field.shape, bufs, vals[i]) == DecodeAll(field.shape, bufs[j..], value)
      {
        assert bufs[j..][0] == bufs[j] && bufs[j..][1..] == bufs[j + 1..];
        var next := DecodeValue(field.shape, bufs[j], value);
        if next.None? {
          return None;
        }
        value := next.value;
        j := j + 1;
      }
      vals := vals[i := value];
      i := i + 1;
    }
    return Some(vals);
  }
}
