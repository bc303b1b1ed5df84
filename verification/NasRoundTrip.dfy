/** What a NAS decoder makes of the encoded elements, in any order. */
module NasRoundTrip {
  import opened Wrappers
  import opened OctetStrings
  import opened Nas

  // ---------------------------------------------------------------------- one part

  lemma TakenBack(c: Octets, rest: Octets)
    ensures Taken(c + rest, |c|) == c && Left(c + rest, |c|) == rest
  {
  }

  lemma LengthBack(n: nat, w: nat, rest: Octets)
    requires n < Pow256(w)
    ensures LengthAt(BigEndian(n, w) + rest, w) == n && Left(BigEndian(n, w) + rest, w) == rest
  {
    hide BigEndian, NumberOf;
    assert (BigEndian(n, w) + rest)[..w] == BigEndian(n, w);
    BigEndianReadsBack(n, w);
  }

  /** A part whose length matches is read back, whatever follows. */
  lemma PartReadsBack(f: Format, p: Part, rest: Octets)
    requires Typed(f, p) && Matching(f, p)
    ensures EncodePart(f, p).Some?
    ensures ReadPart(f, EncodePart(f, p).value + rest) == Some(Reading(p, rest))
  {
    hide BigEndian, LengthAt, Taken, Left;
    var b := EncodePart(f, p).value;
    match f
    case Fixed(n) =>
      TakenBack(p.content, rest);
    case Sized(w, n) =>
      assert b + rest == BigEndian(p.len, w) + (p.content + rest);
      LengthBack(p.len, w, p.content + rest);
      TakenBack(p.content, rest);
    case Prefix(w, capacity) =>
      var c := p.content[..p.len];
      assert b + rest == BigEndian(p.len, w) + (c + rest);
      LengthBack(p.len, w, c + rest);
      TakenBack(c, rest);
      assert p.content == c + p.content[p.len..];
    case Buffered(w) =>
      assert b + rest == BigEndian(p.len, w) + (p.content + rest);
      LengthBack(p.len, w, p.content + rest);
      TakenBack(p.content, rest);
  }

  /** The decoder undoes the encoder of a part exactly when its length matches. */
  lemma PartExact(f: Format, p: Part)
    requires EncodePart(f, p).Some?
    ensures Matching(f, p) <==> ReadPart(f, EncodePart(f, p).value) == Some(Reading(p, []))
  {
    var b := EncodePart(f, p).value;
    if Matching(f, p) {
      hide EncodePart, ReadPart, Matching;
      PartReadsBack(f, p, []);
      assert b + [] == b;
    } else {
      hide BigEndian, LengthAt, Taken, Left;
      match f
      case Prefix(w, capacity) =>
        var c := p.content[..p.len];
        LengthBack(p.len, w, c);
        assert (Taken(c, p.len) + Zeros(capacity - p.len))[p.len..] == Zeros(capacity - p.len);
      case Buffered(w) =>
        LengthBack(p.len, w, p.content);
    }
  }

  lemma {:induction false} PartsReadBack(fs: seq<Format>, ps: seq<Part>, rest: Octets)
    requires |fs| == |ps|
    requires forall i :: 0 <= i < |fs| ==> Typed(fs[i], ps[i]) && Matching(fs[i], ps[i])
    ensures EncodeParts(fs, ps).Some?
    ensures ReadParts(fs, EncodeParts(fs, ps).value + rest) == Some(Start(ps, rest))
  {
    hide EncodePart, ReadPart, Typed, Matching;
    if fs != [] {
      PartsReadBack(fs[1..], ps[1..], rest);
      var more := EncodeParts(fs[1..], ps[1..]).value;
      PartReadsBack(fs[0], ps[0], more + rest);
      assert EncodeParts(fs, ps).value + rest == EncodePart(fs[0], ps[0]).value + (more + rest);
      assert ps == [ps[0]] + ps[1..];
    } else {
      assert [] + rest == rest;
    }
  }

  // ----------------------------------------------------------------- optional elements

  /** Identifiers are told apart: halves in 8..15, full ones below 128 and outside 8..15, none twice. */
  predicate Separate(rows: seq<Row>) {
    && (forall i :: 0 <= i < |rows| && rows[i].HalfRow? ==> 8 <= rows[i].iei < 16)
    && (forall i :: 0 <= i < |rows| && rows[i].FullRow? ==> rows[i].iei < 0x80 && !(8 <= rows[i].iei < 16))
    && (forall i, j :: 0 <= i < j < |rows| ==> rows[i].iei != rows[j].iei)
  }

  /** The element carries the identifier of its row and a matching length. */
  predicate Belongs(row: Row, e: Element) {
    match (row, e)
    case (HalfRow(iei), Half(octet)) => Key(octet) == iei
    case (FullRow(iei, f), Full(i, p)) => i == iei && Typed(f, p) && Matching(f, p)
    case _ => false
  }

  datatype Entry = Entry(row: nat, element: Element)

  predicate Placed(rows: seq<Row>, e: Entry) {
    e.row < |rows| && Belongs(rows[e.row], e.element)
  }

  predicate AllPlaced(rows: seq<Row>, es: seq<Entry>) {
    forall i :: 0 <= i < |es| ==> Placed(rows, es[i])
  }

  lemma Encodes(row: Row, e: Element)
    requires Belongs(row, e)
    ensures EncodeElement(row, e).Some?
  {
    hide BigEndian;
  }

  /** The octets of elements, one after the other. */
  function Wire(rows: seq<Row>, es: seq<Entry>): (b: Octets)
    requires AllPlaced(rows, es)
  {
    if es == [] then []
    else
      assert Placed(rows, es[0]);
      Encodes(rows[es[0].row], es[0].element);
      EncodeElement(rows[es[0].row], es[0].element).value + Wire(rows, es[1..])
  }

  /** Slots after elements have arrived in that order. */
  function Arrive(es: seq<Entry>, slots: seq<Option<Element>>): (r: seq<Option<Element>>)
    ensures |r| == |slots|
  {
    if es == [] then slots
    else Arrive(es[1..], if es[0].row < |slots| then slots[es[0].row := Some(es[0].element)] else slots)
  }

  lemma OwnRow(rows: seq<Row>, k: nat)
    requires Separate(rows) && k < |rows|
    ensures RowOf(rows, rows[k].iei, 0) == k
  {
  }

  lemma FullKey(rows: seq<Row>, k: nat)
    requires Separate(rows) && k < |rows| && rows[k].FullRow?
    ensures Key(rows[k].iei) == rows[k].iei
  {
  }

  lemma DecodeHalf(rows: seq<Row>, b: Octets, slots: seq<Option<Element>>, k: nat)
    requires |slots| == |rows| && b != [] && k < |rows| && RowOf(rows, Key(b[0]), 0) == k && rows[k].HalfRow?
    ensures DecodeSlots(rows, b, slots) == DecodeSlots(rows, b[1..], slots[k := Some(Half(b[0]))])
  {
    hide RowOf, ReadPart;
  }

  lemma DecodeFull(rows: seq<Row>, b: Octets, slots: seq<Option<Element>>, k: nat, x: Reading)
    requires |slots| == |rows| && b != [] && k < |rows| && RowOf(rows, Key(b[0]), 0) == k && rows[k].FullRow?
    requires ReadPart(rows[k].format, b[1..]) == Some(x)
    ensures |x.rest| < |b|
            && DecodeSlots(rows, b, slots) == DecodeSlots(rows, x.rest, slots[k := Some(Full(b[0], x.part))])
  {
    hide RowOf, ReadPart;
  }

  lemma EntryDecodes(rows: seq<Row>, e: Entry, rest: Octets, slots: seq<Option<Element>>)
    requires |slots| == |rows| && Separate(rows) && Placed(rows, e)
    ensures EncodeElement(rows[e.row], e.element).Some?
    ensures DecodeSlots(rows, EncodeElement(rows[e.row], e.element).value + rest, slots)
         == DecodeSlots(rows, rest, slots[e.row := Some(e.element)])
  {
    hide DecodeSlots, RowOf, ReadPart, Key, Separate, EncodePart;
    OwnRow(rows, e.row);
    match e.element
    case Half(octet) =>
      DecodeHalf(rows, [octet] + rest, slots, e.row);
    case Full(iei, p) =>
      var f := rows[e.row].format;
      PartReadsBack(f, p, rest);
      FullKey(rows, e.row);
      var b := EncodePart(f, p).value;
      assert ([iei] + b + rest)[1..] == b + rest;
      DecodeFull(rows, [iei] + b + rest, slots, e.row, Reading(p, rest));
  }

  /** Elements decode to their slots in the order of arrival. */
  lemma {:induction false} EntriesDecode(rows: seq<Row>, es: seq<Entry>, slots: seq<Option<Element>>)
    requires |slots| == |rows| && Separate(rows) && AllPlaced(rows, es)
    ensures DecodeSlots(rows, Wire(rows, es), slots) == Some(Arrive(es, slots))
  {
    hide Separate, Placed, EncodeElement;
    if es != [] {
      assert Placed(rows, es[0]);
      InRow(rows, es[0]);
      EntryDecodes(rows, es[0], Wire(rows, es[1..]), slots);
      EntriesDecode(rows, es[1..], slots[es[0].row := Some(es[0].element)]);
    }
  }

  lemma InRow(rows: seq<Row>, e: Entry)
    requires Placed(rows, e)
    ensures e.row < |rows|
  {
  }

  // ------------------------------------------------------------------ order of arrival

  predicate Distinct(es: seq<Entry>) {
    forall i, j :: 0 <= i < j < |es| ==> es[i].row != es[j].row
  }

  /** A slot that no element names keeps what it held. */
  lemma {:induction false} NotNamed(es: seq<Entry>, slots: seq<Option<Element>>, k: nat)
    requires k < |slots| && forall i :: 0 <= i < |es| ==> es[i].row != k
    ensures Arrive(es, slots)[k] == slots[k]
  {
    if es != [] {
      assert es[0].row != k;
      NotNamed(es[1..], if es[0].row < |slots| then slots[es[0].row := Some(es[0].element)] else slots, k);
    }
  }

  /** A slot that one element names holds that element. */
  lemma {:induction false} Named(es: seq<Entry>, slots: seq<Option<Element>>, i: nat)
    requires i < |es| && Distinct(es) && es[i].row < |slots|
    ensures Arrive(es, slots)[es[i].row] == Some(es[i].element)
  {
    var next := if es[0].row < |slots| then slots[es[0].row := Some(es[0].element)] else slots;
    if i == 0 {
      NotNamed(es[1..], next, es[0].row);
    } else {
      Named(es[1..], next, i - 1);
    }
  }

  lemma CountOne(es: seq<Entry>, i: nat)
    requires Distinct(es) && i < |es|
    ensures multiset(es)[es[i]] == 1
  {
    assert es == es[..i] + [es[i]] + es[i + 1..];
    assert es[i] !in es[..i] && es[i] !in es[i + 1..];
  }

  lemma CountTwo(es: seq<Entry>, i: nat, j: nat)
    requires i < j < |es| && es[i] == es[j]
    ensures multiset(es)[es[i]] >= 2
  {
    assert es == es[..i] + [es[i]] + es[i + 1..j] + [es[j]] + es[j + 1..];
  }

  /** A rearrangement names every slot once if the original does. */
  lemma StillDistinct(a: seq<Entry>, b: seq<Entry>)
    requires Distinct(a) && multiset(a) == multiset(b)
    ensures Distinct(b)
  {
    forall i, j | 0 <= i < j < |b| ensures b[i].row != b[j].row {
      if b[i].row == b[j].row {
        SameMembers(a, b, i);
        SameMembers(a, b, j);
        var x :| 0 <= x < |a| && a[x] == b[i];
        var y :| 0 <= y < |a| && a[y] == b[j];
        assert x == y;
        CountOne(a, x);
        CountTwo(b, i, j);
      }
    }
  }

  lemma SameMembers(a: seq<Entry>, b: seq<Entry>, i: nat)
    requires multiset(a) == multiset(b) && i < |b|
    ensures b[i] in a
  {
    assert b[i] in multiset(b);
  }

  lemma ArrivalOrderIgnored(a: seq<Entry>, b: seq<Entry>, slots: seq<Option<Element>>)
    requires Distinct(a) && multiset(a) == multiset(b)
    ensures Arrive(a, slots) == Arrive(b, slots)
  {
    hide Arrive;
    StillDistinct(a, b);
    forall k | 0 <= k < |slots| ensures Arrive(a, slots)[k] == Arrive(b, slots)[k] {
      if i :| 0 <= i < |a| && a[i].row == k {
        SameMembers(b, a, i);
        var j :| 0 <= j < |b| && b[j] == a[i];
        Named(a, slots, i);
        Named(b, slots, j);
      } else {
        forall j | 0 <= j < |b| ensures b[j].row != k {
          SameMembers(a, b, j);
        }
        NotNamed(a, slots, k);
        NotNamed(b, slots, k);
      }
    }
  }

  lemma StillPlaced(rows: seq<Row>, a: seq<Entry>, b: seq<Entry>)
    requires AllPlaced(rows, a) && multiset(a) == multiset(b)
    ensures AllPlaced(rows, b)
  {
    forall i | 0 <= i < |b| ensures Placed(rows, b[i]) {
      SameMembers(a, b, i);
    }
  }

  /** Any order of the same elements decodes to the same slots. */
  lemma OrderIgnored(rows: seq<Row>, a: seq<Entry>, b: seq<Entry>, slots: seq<Option<Element>>)
    requires |slots| == |rows| && Separate(rows) && AllPlaced(rows, a) && Distinct(a) && multiset(a) == multiset(b)
    ensures AllPlaced(rows, b) && DecodeSlots(rows, Wire(rows, a), slots) == DecodeSlots(rows, Wire(rows, b), slots)
  {
    hide DecodeSlots, Wire, Arrive, Separate, Placed;
    StillPlaced(rows, a, b);
    EntriesDecode(rows, a, slots);
    EntriesDecode(rows, b, slots);
    ArrivalOrderIgnored(a, b, slots);
  }

  // --------------------------------------------------------------------- whole messages

  /** The elements present, in the order of the rows from `i` on. */
  function Present(slots: seq<Option<Element>>, i: nat): (es: seq<Entry>)
    requires i <= |slots|
    decreases |slots| - i
  {
    if i == |slots| then []
    else (if slots[i].Some? then [Entry(i, slots[i].value)] else []) + Present(slots, i + 1)
  }

  predicate InPlace(rows: seq<Row>, slots: seq<Option<Element>>) {
    |rows| == |slots| && forall i :: 0 <= i < |slots| && slots[i].Some? ==> Belongs(rows[i], slots[i].value)
  }

  predicate Tells(slots: seq<Option<Element>>, i: nat, e: Entry) {
    i <= e.row < |slots| && slots[e.row] == Some(e.element)
  }

  lemma {:induction false} PresentEntries(slots: seq<Option<Element>>, i: nat)
    requires i <= |slots|
    ensures forall k :: 0 <= k < |Present(slots, i)| ==> Tells(slots, i, Present(slots, i)[k])
    ensures Distinct(Present(slots, i))
    decreases |slots| - i
  {
    if i < |slots| {
      PresentEntries(slots, i + 1);
      var es, more := Present(slots, i), Present(slots, i + 1);
      hide Present;
      assert forall k :: 0 <= k < |more| ==> Tells(slots, i, more[k]) && more[k].row != i;
    }
  }

  lemma {:induction false} PresentComplete(slots: seq<Option<Element>>, i: nat, j: nat)
    requires i <= j < |slots| && slots[j].Some?
    ensures Entry(j, slots[j].value) in Present(slots, i)
    decreases |slots| - i
  {
    if i < j {
      PresentComplete(slots, i + 1, j);
    } else {
      assert Entry(j, slots[j].value) in [Entry(j, slots[j].value)];
    }
  }

  lemma {:induction false} SlotsAreWire(rows: seq<Row>, slots: seq<Option<Element>>, i: nat)
    requires InPlace(rows, slots) && i <= |rows|
    ensures AllPlaced(rows, Present(slots, i))
    ensures EncodeSlots(rows, slots, i) == Some(Wire(rows, Present(slots, i)))
    decreases |rows| - i
  {
    hide Belongs, EncodeElement;
    if i < |rows| {
      SlotsAreWire(rows, slots, i + 1);
      var more := Present(slots, i + 1);
      if slots[i].Some? {
        var e := Entry(i, slots[i].value);
        Encodes(rows[i], slots[i].value);
        assert Placed(rows, e);
        assert Present(slots, i) == [e] + more;
        assert ([e] + more)[1..] == more;
      } else {
        assert Present(slots, i) == more;
      }
    }
  }

  /** The elements of a message fill exactly its slots. */
  lemma PresentArrives(rows: seq<Row>, slots: seq<Option<Element>>)
    requires |rows| == |slots|
    ensures Arrive(Present(slots, 0), NoSlots(rows)) == slots
  {
    hide Arrive, Present;
    var es := Present(slots, 0);
    PresentEntries(slots, 0);
    forall k | 0 <= k < |slots| ensures Arrive(es, NoSlots(rows))[k] == slots[k] {
      if slots[k].Some? {
        PresentComplete(slots, 0, k);
        var i :| 0 <= i < |es| && es[i] == Entry(k, slots[k].value);
        Named(es, NoSlots(rows), i);
      } else {
        assert forall i :: 0 <= i < |es| ==> Tells(slots, 0, es[i]);
        NotNamed(es, NoSlots(rows), k);
      }
    }
  }

  /** Typed, with matching lengths and every element in its own row. */
  predicate Sound(l: Layout, m: Message) {
    && Separate(l.rows)
    && |m.parts| == |l.mandatory|
    && (forall i :: 0 <= i < |m.parts| ==> Typed(l.mandatory[i], m.parts[i]) && Matching(l.mandatory[i], m.parts[i]))
    && InPlace(l.rows, m.slots)
  }

  /** Decoding the mandatory parts followed by the optional elements in any order gives the message. */
  lemma MessageInAnyOrder(l: Layout, m: Message, es: seq<Entry>)
    requires Sound(l, m) && multiset(es) == multiset(Present(m.slots, 0))
    ensures EncodeParts(l.mandatory, m.parts).Some? && AllPlaced(l.rows, es)
    ensures Decode(l, EncodeParts(l.mandatory, m.parts).value + Wire(l.rows, es)) == Some(m)
  {
    hide EncodeParts, ReadParts, DecodeSlots, Separate, InPlace, Typed, Matching, Present, Arrive, EncodeSlots, Wire,
    Placed;
    var own := Present(m.slots, 0);
    PresentEntries(m.slots, 0);
    SlotsAreWire(l.rows, m.slots, 0);
    StillPlaced(l.rows, own, es);
    PartsReadBack(l.mandatory, m.parts, Wire(l.rows, es));
    SameSize(l.rows, m.slots);
    OrderIgnored(l.rows, own, es, NoSlots(l.rows));
    EntriesDecode(l.rows, own, NoSlots(l.rows));
    PresentArrives(l.rows, m.slots);
  }

  lemma SameSize(rows: seq<Row>, slots: seq<Option<Element>>)
    requires InPlace(rows, slots)
    ensures |rows| == |slots|
  {
  }

  /** Decoding undoes encoding. */
  lemma MessageRoundTrip(l: Layout, m: Message)
    requires Sound(l, m)
    ensures Encode(l, m).Some? && Decode(l, Encode(l, m).value) == Some(m)
  {
    hide Decode, EncodeParts, Separate, Typed, Matching, Present, EncodeSlots, Wire;
    MessageInAnyOrder(l, m, Present(m.slots, 0));
    SlotsAreWire(l.rows, m.slots, 0);
  }

  // ----------------------------------------------------------- what a decoder returns

  /** The length field of a part that was read matches its content, whatever the data were. */
  lemma ReadMatches(f: Format, b: Octets)
    ensures var r := ReadPart(f, b); r.Some? ==> Typed(f, r.value.part) && Matching(f, r.value.part)
  {
    hide NumberOf, Left, Taken;
    if !f.Fixed? {
      LengthBelow(b, f.width);
    }
  }

  lemma LengthBelow(b: Octets, w: nat)
    ensures LengthAt(b, w) < Pow256(w)
  {
    hide NumberOf;
    if w <= |b| {
      NumberInRange(b[..w]);
    }
  }

  lemma {:induction false} ReadPartsMatch(fs: seq<Format>, b: Octets)
    ensures var r := ReadParts(fs, b);
            r.Some? ==> forall i :: 0 <= i < |fs| ==>
              Typed(fs[i], r.value.parts[i]) && Matching(fs[i], r.value.parts[i])
  {
    hide ReadPart, Typed, Matching;
    if fs != [] {
      ReadMatches(fs[0], b);
      var x := ReadPart(fs[0], b);
      if x.Some? {
        ReadPartsMatch(fs[1..], x.value.rest);
      }
    }
  }

  /** Every slot that is filled holds an element of its row. */
  lemma {:induction false} DecodedInPlace(rows: seq<Row>, b: Octets, slots: seq<Option<Element>>)
    requires Separate(rows) && InPlace(rows, slots)
    ensures var r := DecodeSlots(rows, b, slots); r.Some? ==> InPlace(rows, r.value)
    decreases |b|
  {
    hide RowOf, ReadPart, Key, Separate, Belongs;
    if b != [] {
      var k := RowOf(rows, Key(b[0]), 0);
      if k == |rows| {
        DecodedInPlace(rows, b[1..], slots);
      } else if rows[k].HalfRow? {
        TakenInPlace(rows, k, b);
        DecodedInPlace(rows, b[1..], slots[k := Some(Half(b[0]))]);
      } else {
        var x := ReadPart(rows[k].format, b[1..]);
        if x.Some? {
          TakenInPlace(rows, k, b);
          DecodedInPlace(rows, x.value.rest, slots[k := Some(Full(b[0], x.value.part))]);
        }
      }
    }
  }

  lemma TakenInPlace(rows: seq<Row>, k: nat, b: Octets)
    requires Separate(rows) && b != [] && k < |rows| && k == RowOf(rows, Key(b[0]), 0)
    ensures rows[k].HalfRow? ==> Belongs(rows[k], Half(b[0]))
    ensures rows[k].FullRow? ==>
              var x := ReadPart(rows[k].format, b[1..]);
              x.Some? ==> Belongs(rows[k], Full(b[0], x.value.part))
  {
    hide ReadPart, Typed, Matching, RowOf;
    if rows[k].FullRow? {
      ReadMatches(rows[k].format, b[1..]);
    }
  }

  /** Whatever octets are decoded, the message has matching lengths and every element in its own row. */
  lemma DecodedIsSound(l: Layout, b: Octets)
    requires Separate(l.rows)
    ensures Decode(l, b).Some? ==> Sound(l, Decode(l, b).value)
  {
    hide ReadParts, DecodeSlots, Separate, Typed, Matching;
    ReadPartsMatch(l.mandatory, b);
    var start := ReadParts(l.mandatory, b);
    if start.Some? {
      DecodedInPlace(l.rows, start.value.rest, NoSlots(l.rows));
    }
  }

  /** A message that is encoded at all comes back if and only if it is sound. */
  lemma MessageExact(l: Layout, m: Message)
    requires Separate(l.rows) && Encode(l, m).Some?
    ensures Decode(l, Encode(l, m).value) == Some(m) <==> Sound(l, m)
  {
    hide Encode, Decode, Separate, Sound;
    if Sound(l, m) {
      MessageRoundTrip(l, m);
    }
    DecodedIsSound(l, Encode(l, m).value);
  }

  /** So what was decoded from any octets at all can be encoded, and comes back as it is. */
  lemma DecodedComesBack(l: Layout, b: Octets)
    requires Separate(l.rows) && Decode(l, b).Some?
    ensures var m := Decode(l, b).value; Encode(l, m).Some? && Decode(l, Encode(l, m).value) == Some(m)
  {
    hide Encode, Decode, Separate, Sound;
    DecodedIsSound(l, b);
    MessageRoundTrip(l, Decode(l, b).value);
  }

  // -------------------------------------------------------------- unknown identifiers

  predicate Unknown(rows: seq<Row>, octet: Octet) {
    RowOf(rows, Key(octet), 0) == |rows|
  }

  /** Octets that name no row leave no trace. */
  lemma {:induction false} UnknownSkipped(rows: seq<Row>, u: Octets, rest: Octets, slots: seq<Option<Element>>)
    requires |slots| == |rows| && forall i :: 0 <= i < |u| ==> Unknown(rows, u[i])
    ensures DecodeSlots(rows, u + rest, slots) == DecodeSlots(rows, rest, slots)
  {
    hide RowOf, ReadPart;
    if u == [] {
      assert u + rest == rest;
    } else {
      assert Unknown(rows, u[0]);
      assert (u + rest)[1..] == u[1..] + rest;
      UnknownSkipped(rows, u[1..], rest, slots);
    }
  }

  /** A slot once filled stays filled. */
  lemma {:induction false} FilledStays(rows: seq<Row>, b: Octets, slots: seq<Option<Element>>, k: nat)
    requires |slots| == |rows| && k < |rows| && slots[k].Some?
    requires DecodeSlots(rows, b, slots).Some?
    ensures DecodeSlots(rows, b, slots).value[k].Some?
    decreases |b|
  {
    hide RowOf, ReadPart, Key;
    if b != [] {
      var i := RowOf(rows, Key(b[0]), 0);
      if i == |rows| {
        FilledStays(rows, b[1..], slots, k);
      } else if rows[i].HalfRow? {
        FilledStays(rows, b[1..], slots[i := Some(Half(b[0]))], k);
      } else {
        var x := ReadPart(rows[i].format, b[1..]).value;
        FilledStays(rows, x.rest, slots[i := Some(Full(b[0], x.part))], k);
      }
    }
  }

  /** The first octet that names a row fills a slot, or breaks off the decoding. */
  lemma KnownFills(rows: seq<Row>, b: Octets)
    requires b != [] && !Unknown(rows, b[0])
    ensures DecodeSlots(rows, b, NoSlots(rows)) != Some(NoSlots(rows))
  {
    hide RowOf, ReadPart, Key;
    var i := RowOf(rows, Key(b[0]), 0);
    var slots := NoSlots(rows);
    if DecodeSlots(rows, b, slots).Some? {
      if rows[i].HalfRow? {
        FilledStays(rows, b[1..], slots[i := Some(Half(b[0]))], i);
      } else {
        var x := ReadPart(rows[i].format, b[1..]).value;
        FilledStays(rows, x.rest, slots[i := Some(Full(b[0], x.part))], i);
      }
      assert slots[i].None?;
    }
  }

  /**
    An element with a foreign identifier is passed over exactly if none of its octets, those
    of its content included, names a row.
  */
  lemma IgnoredExact(rows: seq<Row>, u: Octets)
    ensures DecodeSlots(rows, u, NoSlots(rows)) == Some(NoSlots(rows))
            <==> forall i :: 0 <= i < |u| ==> Unknown(rows, u[i])
  {
    hide DecodeSlots, Unknown;
    assert u + [] == u;
    if forall i :: 0 <= i < |u| ==> Unknown(rows, u[i]) {
      UnknownSkipped(rows, u, [], NoSlots(rows));
      EmptyDecodes(rows);
    } else {
      var i := FirstKnown(rows, u);
      UnknownSkipped(rows, u[..i], u[i..], NoSlots(rows));
      assert u == u[..i] + u[i..];
      KnownFills(rows, u[i..]);
    }
  }

  lemma EmptyDecodes(rows: seq<Row>)
    ensures DecodeSlots(rows, [], NoSlots(rows)) == Some(NoSlots(rows))
  {
  }

  function FirstKnown(rows: seq<Row>, u: Octets): (i: nat)
    requires exists i :: 0 <= i < |u| && !Unknown(rows, u[i])
    ensures i < |u| && !Unknown(rows, u[i]) && forall j :: 0 <= j < i ==> Unknown(rows, u[j])
  {
    if !Unknown(rows, u[0]) then 0
    else
      assert exists i :: 0 <= i < |u[1..]| && !Unknown(rows, u[1..][i]) by {
        var i :| 0 <= i < |u| && !Unknown(rows, u[i]);
        assert u[1..][i - 1] == u[i];
      }
      1 + FirstKnown(rows, u[1..])
  }
}
