/** The layouts of the largest NAS messages, dispatch by message type and the message object. */
module NasMessages {
  import opened Wrappers
  import opened OctetStrings
  import opened Nas
  import opened NasRoundTrip

  // ------------------------------------------------------------------------- layouts

  const REGISTRATION_REQUEST: Layout := Layout(
    [Fixed(1), Fixed(1), Fixed(1), Fixed(1), Buffered(2)],
    [HalfRow(0x0C), FullRow(0x10, Prefix(1, 13)), FullRow(0x2E, Buffered(1)), FullRow(0x2F, Buffered(1)),
     FullRow(0x52, Fixed(7)), FullRow(0x17, Buffered(1)), FullRow(0x40, Buffered(1)),
     FullRow(0x50, Buffered(1)), HalfRow(0x0B), FullRow(0x2B, Sized(1, 1)), FullRow(0x77, Prefix(2, 11)),
     FullRow(0x25, Buffered(1)), FullRow(0x18, Sized(1, 1)), FullRow(0x51, Sized(1, 1)),
     FullRow(0x70, Buffered(2)), FullRow(0x74, Buffered(2)), FullRow(0x7B, Buffered(2)), HalfRow(0x09),
     FullRow(0x53, Sized(1, 1)), FullRow(0x71, Buffered(2))])

  const REGISTRATION_ACCEPT: Layout := Layout(
    [Fixed(1), Fixed(1), Fixed(1), Sized(1, 1)],
    [FullRow(0x77, Prefix(2, 11)), FullRow(0x4A, Prefix(1, 45)), FullRow(0x54, Buffered(1)),
     FullRow(0x15, Buffered(1)), FullRow(0x11, Buffered(1)), FullRow(0x31, Buffered(1)),
     FullRow(0x21, Prefix(1, 3)), FullRow(0x50, Buffered(1)), FullRow(0x26, Buffered(1)),
     FullRow(0x72, Buffered(2)), FullRow(0x79, Buffered(2)), HalfRow(0x0B), HalfRow(0x09),
     FullRow(0x27, Buffered(1)), FullRow(0x5E, Sized(1, 1)), FullRow(0x5D, Sized(1, 1)),
     FullRow(0x16, Sized(1, 1)), FullRow(0x34, Buffered(1)), FullRow(0x7A, Buffered(2)),
     FullRow(0x73, Buffered(2)), FullRow(0x78, Buffered(2)), HalfRow(0x0A), FullRow(0x76, Buffered(2)),
     FullRow(0x51, Sized(1, 1))])

  const PDU_SESSION_ESTABLISHMENT_ACCEPT: Layout := Layout(
    [Fixed(1), Fixed(1), Fixed(1), Fixed(1), Fixed(1), Buffered(2), Sized(1, 6)],
    [FullRow(0x59, Fixed(1)), FullRow(0x29, Prefix(1, 13)), FullRow(0x56, Fixed(1)),
     FullRow(0x22, Prefix(1, 8)), HalfRow(0x08), FullRow(0x75, Buffered(2)), FullRow(0x78, Buffered(2)),
     FullRow(0x79, Buffered(2)), FullRow(0x7B, Buffered(2)), FullRow(0x25, Buffered(1))])

  /** The identifier of a row is of the right kind and leads back to the row. */
  predicate Numbered(row: Row, number: Octet -> nat, i: nat) {
    number(row.iei) == i && (row.HalfRow? <==> 8 <= row.iei < 16) && row.iei < 0x80
  }

  lemma SeparateByNumber(rows: seq<Row>, number: Octet -> nat)
    requires forall i :: 0 <= i < |rows| ==> Numbered(rows[i], number, i)
    ensures Separate(rows)
  {
    forall i, j | 0 <= i < j < |rows| ensures rows[i].iei != rows[j].iei {
      assert Numbered(rows[i], number, i) && Numbered(rows[j], number, j);
    }
  }

  /** The row of each identifier of this layout. */
  function RequestRow(iei: Octet): (k: nat) {
    match iei
    case 0x0C => 0
    case 0x10 => 1
    case 0x2E => 2
    case 0x2F => 3
    case 0x52 => 4
    case 0x17 => 5
    case 0x40 => 6
    case 0x50 => 7
    case 0x0B => 8
    case 0x2B => 9
    case 0x77 => 10
    case 0x25 => 11
    case 0x18 => 12
    case 0x51 => 13
    case 0x70 => 14
    case 0x74 => 15
    case 0x7B => 16
    case 0x09 => 17
    case 0x53 => 18
    case 0x71 => 19
    case _ => 20
  }

  lemma RequestRowOf(i: nat)
    requires i < 20
    ensures |REGISTRATION_REQUEST.rows| == 20 && Numbered(REGISTRATION_REQUEST.rows[i], RequestRow, i)
  {
  }

  lemma RequestSeparate()
    ensures |REGISTRATION_REQUEST.rows| == 20 && Separate(REGISTRATION_REQUEST.rows)
    ensures forall i :: 0 <= i < 20 ==> Numbered(REGISTRATION_REQUEST.rows[i], RequestRow, i)
  {
    hide RequestRow, Separate, Numbered;
    forall i | 0 <= i < 20
      ensures |REGISTRATION_REQUEST.rows| == 20 && Numbered(REGISTRATION_REQUEST.rows[i], RequestRow, i) {
      RequestRowOf(i);
    }
    SeparateByNumber(REGISTRATION_REQUEST.rows, RequestRow);
  }

  /** The row of each identifier of this layout. */
  function AcceptRow(iei: Octet): (k: nat) {
    match iei
    case 0x77 => 0
    case 0x4A => 1
    case 0x54 => 2
    case 0x15 => 3
    case 0x11 => 4
    case 0x31 => 5
    case 0x21 => 6
    case 0x50 => 7
    case 0x26 => 8
    case 0x72 => 9
    case 0x79 => 10
    case 0x0B => 11
    case 0x09 => 12
    case 0x27 => 13
    case 0x5E => 14
    case 0x5D => 15
    case 0x16 => 16
    case 0x34 => 17
    case 0x7A => 18
    case 0x73 => 19
    case 0x78 => 20
    case 0x0A => 21
    case 0x76 => 22
    case 0x51 => 23
    case _ => 24
  }

  lemma AcceptRowOf(i: nat)
    requires i < 24
    ensures |REGISTRATION_ACCEPT.rows| == 24 && Numbered(REGISTRATION_ACCEPT.rows[i], AcceptRow, i)
  {
  }

  lemma AcceptSeparate()
    ensures |REGISTRATION_ACCEPT.rows| == 24 && Separate(REGISTRATION_ACCEPT.rows)
    ensures forall i :: 0 <= i < 24 ==> Numbered(REGISTRATION_ACCEPT.rows[i], AcceptRow, i)
  {
    hide AcceptRow, Separate, Numbered;
    forall i | 0 <= i < 24
      ensures |REGISTRATION_ACCEPT.rows| == 24 && Numbered(REGISTRATION_ACCEPT.rows[i], AcceptRow, i) {
      AcceptRowOf(i);
    }
    SeparateByNumber(REGISTRATION_ACCEPT.rows, AcceptRow);
  }

  /** The row of each identifier of this layout. */
  function SessionRow(iei: Octet): (k: nat) {
    match iei
    case 0x59 => 0
    case 0x29 => 1
    case 0x56 => 2
    case 0x22 => 3
    case 0x08 => 4
    case 0x75 => 5
    case 0x78 => 6
    case 0x79 => 7
    case 0x7B => 8
    case 0x25 => 9
    case _ => 10
  }

  lemma SessionRowOf(i: nat)
    requires i < 10
    ensures |PDU_SESSION_ESTABLISHMENT_ACCEPT.rows| == 10
            && Numbered(PDU_SESSION_ESTABLISHMENT_ACCEPT.rows[i], SessionRow, i)
  {
  }

  lemma SessionSeparate()
    ensures |PDU_SESSION_ESTABLISHMENT_ACCEPT.rows| == 10 && Separate(PDU_SESSION_ESTABLISHMENT_ACCEPT.rows)
    ensures forall i :: 0 <= i < 10 ==> Numbered(PDU_SESSION_ESTABLISHMENT_ACCEPT.rows[i], SessionRow, i)
  {
    hide SessionRow, Separate, Numbered;
    forall i | 0 <= i < 10
      ensures |PDU_SESSION_ESTABLISHMENT_ACCEPT.rows| == 10
              && Numbered(PDU_SESSION_ESTABLISHMENT_ACCEPT.rows[i], SessionRow, i) {
      SessionRowOf(i);
    }
    SeparateByNumber(PDU_SESSION_ESTABLISHMENT_ACCEPT.rows, SessionRow);
  }

  lemma NotARow(rows: seq<Row>, number: Octet -> nat, octet: Octet)
    requires forall i :: 0 <= i < |rows| ==> Numbered(rows[i], number, i)
    requires octet < 0x80 && number(octet) == |rows|
    ensures Unknown(rows, octet)
  {
    var k := RowOf(rows, Key(octet), 0);
    assert k < |rows| ==> Numbered(rows[k], number, k);
  }

  /** An octet inside an unknown element is taken for a MICO indication. */
  lemma UnknownContentTaken()
    ensures var rows := REGISTRATION_REQUEST.rows;
            |rows| == 20 && Unknown(rows, 0x7f) &&
            DecodeSlots(rows, [0x7f, 0x01, 0xb3], NoSlots(rows)) == Some(NoSlots(rows)[8 := Some(Half(0xb3))])
  {
    hide ReadPart, DecodeSlots, RowOf, Separate;
    var rows := REGISTRATION_REQUEST.rows;
    var b: Octets := [0x7f, 0x01, 0xb3];
    RequestSeparate();
    assert Unknown(rows, b[0]) && Unknown(rows, b[1]) by {
      NotARow(rows, RequestRow, 0x7f);
      NotARow(rows, RequestRow, 0x01);
    }
    UnknownSkipped(rows, b[..2], b[2..], NoSlots(rows));
    assert b == b[..2] + b[2..];
    RequestRowOf(8);
    OwnRow(rows, 8);
    DecodeHalf(rows, b[2..], NoSlots(rows), 8);
    assert b[2..][1..] == [];
    NothingLeft(rows, NoSlots(rows)[8 := Some(Half(0xb3))]);
  }

  // ------------------------------------------------------------------------- dispatch

  const EPD_SESSION: Octet := 0x2e
  const EPD_MOBILITY: Octet := 0x7e

  /** Message types of mobility management and of session management. */
  predicate MobilityType(kind: Octet) {
    65 <= kind <= 72 || 76 <= kind <= 78 || 84 <= kind <= 95 || 100 <= kind <= 104
  }

  predicate SessionType(kind: Octet) {
    193 <= kind <= 195 || 197 <= kind <= 199 || 201 <= kind <= 205 || 209 <= kind <= 212 || kind == 214
  }

  /** `GmmMessage` or `GsmMessage`: a header of its own beside the message. */
  datatype Plain =
    | Gmm(header: Octets, message: Message)
    | Gsm(header: Octets, message: Message)

  type Catalogue = Octet -> Layout

  /** `PlainNasDecode`. */
  function PlainDecode(layouts: Catalogue, b: Octets): (r: Option<Plain>) {
    if b == [] then None
    else if b[0] == EPD_MOBILITY then
      var header := Taken(b, 3);
      if !MobilityType(header[2]) then None
      else (match Decode(layouts(header[2]), b) case None => None case Some(m) => Some(Gmm(header, m)))
    else if b[0] == EPD_SESSION then
      var header := Taken(b, 4);
      if !SessionType(header[3]) then None
      else (match Decode(layouts(header[3]), b) case None => None case Some(m) => Some(Gsm(header, m)))
    else None
  }

  /** `PlainNasEncode`: only the type is taken from the header. */
  function PlainEncode(layouts: Catalogue, p: Plain): (r: Option<Octets>)
    requires p.Gmm? ==> |p.header| == 3
    requires p.Gsm? ==> |p.header| == 4
  {
    var kind := p.header[|p.header| - 1];
    if p.Gmm? then if MobilityType(kind) then Encode(layouts(kind), p.message) else None
    else if SessionType(kind) then Encode(layouts(kind), p.message) else None
  }

  /** The first parts of a message are single octets and repeat its header. */
  predicate Heads(l: Layout, header: Octets, m: Message) {
    && |header| <= |l.mandatory| == |m.parts|
    && forall i :: 0 <= i < |header| ==> l.mandatory[i] == Fixed(1) && m.parts[i] == Part(0, [header[i]])
  }

  /** Leading single octets come first on the wire. */
  lemma {:induction false} HeaderFirst(fs: seq<Format>, ps: seq<Part>, header: Octets)
    requires |header| <= |fs| == |ps| && EncodeParts(fs, ps).Some?
    requires forall i :: 0 <= i < |header| ==> fs[i] == Fixed(1) && ps[i] == Part(0, [header[i]])
    ensures header <= EncodeParts(fs, ps).value
  {
    hide BigEndian;
    if header != [] {
      assert fs[0] == Fixed(1) && ps[0] == Part(0, [header[0]]);
      HeaderFirst(fs[1..], ps[1..], header[1..]);
      assert header == [header[0]] + header[1..];
    }
  }

  lemma HeaderOnWire(l: Layout, header: Octets, m: Message)
    requires Heads(l, header, m) && Encode(l, m).Some?
    ensures header <= Encode(l, m).value
  {
    hide EncodeParts, EncodeSlots;
    HeaderFirst(l.mandatory, m.parts, header);
  }

  /** A header that fits the message behind it. */
  predicate Consistent(layouts: Catalogue, p: Plain) {
    && (p.Gmm? ==> |p.header| == 3 && p.header[0] == EPD_MOBILITY && MobilityType(p.header[2]))
    && (p.Gsm? ==> |p.header| == 4 && p.header[0] == EPD_SESSION && SessionType(p.header[3]))
    && var l := layouts(p.header[|p.header| - 1]);
       Heads(l, p.header, p.message) && Sound(l, p.message)
  }

  /** A plain message with a consistent header comes back, header included. */
  lemma PlainRoundTrip(layouts: Catalogue, p: Plain)
    requires Consistent(layouts, p)
    ensures PlainEncode(layouts, p).Some?
    ensures PlainDecode(layouts, PlainEncode(layouts, p).value) == Some(p)
  {
    hide Encode, Decode, Sound, Heads, MobilityType, SessionType;
    var l := layouts(p.header[|p.header| - 1]);
    MessageRoundTrip(l, p.message);
    HeaderOnWire(l, p.header, p.message);
    var b := Encode(l, p.message).value;
    assert b[..|p.header|] == p.header;
    assert b[0] == p.header[0];
  }

  // ------------------------------------------------------- dispatch into an object

  /** A message pointer: nil, left behind by a decoding that failed, or decoded. */
  datatype Held = Unset | Undecoded | Holds(plain: Plain)

  /** The two message pointers of a `Message` object. */
  datatype Pair = Pair(gmm: Held, gsm: Held)

  predicate InFamily(pair: Pair) {
    && (pair.gmm.Holds? ==> pair.gmm.plain.Gmm? && |pair.gmm.plain.header| == 3)
    && (pair.gsm.Holds? ==> pair.gsm.plain.Gsm? && |pair.gsm.plain.header| == 4)
  }

  /** A decoded message replaces its own family and leaves the other one alone. */
  function Decoded(pair: Pair, p: Plain): (after: Pair) {
    if p.Gmm? then pair.(gmm := Holds(p)) else pair.(gsm := Holds(p))
  }

  /** `PlainNasEncode` of the object: mobility management goes first. */
  function PairEncode(layouts: Catalogue, pair: Pair): (r: Option<Octets>)
    requires InFamily(pair)
  {
    var first := if pair.gmm.Unset? then pair.gsm else pair.gmm;
    if first.Holds? then PlainEncode(layouts, first.plain) else None
  }

  lemma DecodedIsTyped(layouts: Catalogue, b: Octets, pair: Pair)
    requires InFamily(pair) && PlainDecode(layouts, b).Some?
    ensures InFamily(Decoded(pair, PlainDecode(layouts, b).value))
  {
    hide Decode;
  }

  /**
    Decoding into an object and encoding the object again gives the same octets, except
    that a session management message is hidden by a mobility management message that
    the object already held: then that one is encoded, or nothing if it was never decoded.
  */
  lemma RelayExact(layouts: Catalogue, pair: Pair, p: Plain)
    requires InFamily(pair) && Consistent(layouts, p)
    ensures PlainEncode(layouts, p).Some?
    ensures var b := PlainEncode(layouts, p);
            && PlainDecode(layouts, b.value) == Some(p)
            && InFamily(Decoded(pair, p))
            && PairEncode(layouts, Decoded(pair, p)) ==
               if p.Gsm? && !pair.gmm.Unset? then PairEncode(layouts, pair) else b
  {
    hide PlainDecode, PlainEncode, Heads, Sound;
    PlainRoundTrip(layouts, p);
  }

  // --------------------------------------------------------------------- the object

  lemma StepSlots(rows: seq<Row>, b: Octets, slots: seq<Option<Element>>, k: nat)
    requires |slots| == |rows| && b != [] && k == RowOf(rows, Key(b[0]), 0)
    ensures k == |rows| ==> DecodeSlots(rows, b, slots) == DecodeSlots(rows, b[1..], slots)
    ensures k < |rows| && rows[k].FullRow? && ReadPart(rows[k].format, b[1..]).None?
            ==> DecodeSlots(rows, b, slots).None?
  {
    hide RowOf, ReadPart, Key;
  }

  function AfterPart(p: seq<Part>, r: Option<Start>): (s: Option<Start>) {
    match r
    case None => None
    case Some(start) => Some(Start(p + start.parts, start.rest))
  }

  lemma AfterParts(a: seq<Part>, b: seq<Part>, r: Option<Start>)
    ensures AfterPart(a, AfterPart(b, r)) == AfterPart(a + b, r) && AfterPart([], r) == r
  {
    if r.Some? {
      assert a + (b + r.value.parts) == a + b + r.value.parts;
      assert [] + r.value.parts == r.value.parts;
    }
  }

  function AfterOctets(p: Octets, r: Option<Octets>): (s: Option<Octets>) {
    match r
    case None => None
    case Some(rest) => Some(p + rest)
  }

  lemma AfterMore(a: Octets, b: Octets, r: Option<Octets>)
    ensures AfterOctets(a, AfterOctets(b, r)) == AfterOctets(a + b, r)
    ensures AfterOctets([], r) == r && AfterOctets(a, Some([])) == Some(a)
  {
    assert a + [] == a;
    if r.Some? {
      assert a + (b + r.value) == a + b + r.value;
      assert [] + r.value == r.value;
    }
  }

  class NasMessage {
    var parts: seq<Part>
    var slots: seq<Option<Element>>

    constructor ()
      ensures parts == [] && slots == []
    {
      parts, slots := [], [];
    }

    function Value(): (m: Message)
      reads this
    {
      Message(parts, slots)
    }

    /** `Encode...`: the mandatory parts, then the elements that are there. */
    method EncodeMessage(l: Layout) returns (r: Option<Octets>)
      ensures r == Encode(l, Value())
    {
      hide EncodeParts, EncodeSlots;
      if |parts| != |l.mandatory| || |slots| != |l.rows| {
        return None;
      }
      var front := EncodeMandatory(l);
      if front.None? {
        return None;
      }
      var back := EncodeOptional(l);
      return if back.None? then None else Some(front.value + back.value);
    }

    method EncodeMandatory(l: Layout) returns (r: Option<Octets>)
      requires |parts| == |l.mandatory|
      ensures r == EncodeParts(l.mandatory, parts)
    {
      hide EncodePart;
      var buffer: Octets, i := [], 0;
      AfterMore([], [], EncodeParts(l.mandatory, parts));
      assert l.mandatory[0..] == l.mandatory && parts[0..] == parts;
      while i < |parts|
        invariant i <= |parts|
        invariant EncodeParts(l.mandatory, parts) == AfterOctets(buffer, EncodeParts(l.mandatory[i..], parts[i..]))
      {
        var b := EncodePart(l.mandatory[i], parts[i]);
        assert l.mandatory[i..][1..] == l.mandatory[i + 1..] && parts[i..][1..] == parts[i + 1..];
        if b.None? {
          return None;
        }
        AfterMore(buffer, b.value, EncodeParts(l.mandatory[i + 1..], parts[i + 1..]));
        buffer := buffer + b.value;
        i := i + 1;
      }
      AfterMore(buffer, [], None);
      return Some(buffer);
    }

    method EncodeOptional(l: Layout) returns (r: Option<Octets>)
      requires |slots| == |l.rows|
      ensures r == EncodeSlots(l.rows, slots, 0)
    {
      hide EncodeElement;
      var buffer: Octets, i := [], 0;
      AfterMore([], [], EncodeSlots(l.rows, slots, 0));
      while i < |slots|
        invariant i <= |slots|
        invariant EncodeSlots(l.rows, slots, 0) == AfterOctets(buffer, EncodeSlots(l.rows, slots, i))
      {
        if slots[i].Some? {
          var b := EncodeElement(l.rows[i], slots[i].value);
          if b.None? {
            return None;
          }
          AfterMore(buffer, b.value, EncodeSlots(l.rows, slots, i + 1));
          buffer := buffer + b.value;
        }
        i := i + 1;
      }
      AfterMore(buffer, [], None);
      return Some(buffer);
    }

    /** `Decode...` into a fresh object; a length past the end of an array breaks it off. */
    method DecodeMessage(l: Layout, b: Octets) returns (ok: bool)
      modifies this
      ensures ok <==> Decode(l, b).Some?
      ensures ok ==> Decode(l, b) == Some(Value())
    {
      hide ReadParts, DecodeSlots;
      var rest;
      ok, rest := DecodeMandatory(l, b);
      if ok {
        slots := NoSlots(l.rows);
        ok := DecodeOptional(l, rest);
      }
    }

    method DecodeMandatory(l: Layout, b: Octets) returns (ok: bool, rest: Octets)
      modifies this`parts
      ensures ok <==> ReadParts(l.mandatory, b).Some?
      ensures ok ==> ReadParts(l.mandatory, b) == Some(Start(parts, rest))
    {
      hide ReadPart;
      rest, parts := b, [];
      var i := 0;
      AfterParts([], [], ReadParts(l.mandatory, b));
      assert l.mandatory[0..] == l.mandatory;
      while i < |l.mandatory|
        invariant i <= |l.mandatory|
        invariant ReadParts(l.mandatory, b) == AfterPart(parts, ReadParts(l.mandatory[i..], rest))
      {
        assert l.mandatory[i..][1..] == l.mandatory[i + 1..];
        var x := ReadPart(l.mandatory[i], rest);
        if x.None? {
          return false, rest;
        }
        AfterParts(parts, [x.value.part], ReadParts(l.mandatory[i + 1..], x.value.rest));
        parts := parts + [x.value.part];
        rest := x.value.rest;
        i := i + 1;
      }
      assert parts + [] == parts;
      return true, rest;
    }

    /** The loop over the rest of the buffer, by identifier. */
    method DecodeOptional(l: Layout, b: Octets) returns (ok: bool)
      requires |slots| == |l.rows|
      modifies this`slots
      ensures ok <==> DecodeSlots(l.rows, b, old(slots)).Some?
      ensures ok ==> DecodeSlots(l.rows, b, old(slots)) == Some(slots)
    {
      hide DecodeSlots, ReadPart, RowOf, Key;
      var buffer := b;
      while |buffer| > 0
        invariant |slots| == |l.rows|
        invariant DecodeSlots(l.rows, b, old(slots)) == DecodeSlots(l.rows, buffer, slots)
        decreases |buffer|
      {
        var iei := buffer[0];
        var k := RowOf(l.rows, Key(iei), 0);
        StepSlots(l.rows, buffer, slots, k);
        if k == |l.rows| {
          buffer := buffer[1..];
        } else if l.rows[k].HalfRow? {
          DecodeHalf(l.rows, buffer, slots, k);
          slots := slots[k := Some(Half(iei))];
          buffer := buffer[1..];
        } else {
          var x := ReadPart(l.rows[k].format, buffer[1..]);
          if x.None? {
            return false;
          }
          DecodeFull(l.rows, buffer, slots, k, x.value);
          slots := slots[k := Some(Full(iei, x.value.part))];
          buffer := x.value.rest;
        }
      }
      NothingLeft(l.rows, slots);
      return true;
    }
  }

  lemma NothingLeft(rows: seq<Row>, slots: seq<Option<Element>>)
    requires |slots| == |rows|
    ensures DecodeSlots(rows, [], slots) == Some(slots)
  {
  }

  /** The `Message` object of lib/nas/nas.go. */
  class PlainMessage {
    var pair: Pair

    /** Each of the two messages is of its own family. */
    predicate Valid()
      reads this
    {
      InFamily(pair)
    }

    constructor ()
      ensures Valid() && pair == Pair(Unset, Unset)
    {
      pair := Pair(Unset, Unset);
    }

    /** Dispatch by discriminator and message type; a failure leaves the other family alone. */
    method PlainNasDecode(layouts: Catalogue, b: Octets) returns (ok: bool)
      requires Valid()
      modifies this
      ensures Valid()
      ensures ok <==> PlainDecode(layouts, b).Some?
      ensures ok ==> pair == Decoded(old(pair), PlainDecode(layouts, b).value)
      ensures !ok && b != [] && b[0] == EPD_MOBILITY ==> pair == Pair(Undecoded, old(pair.gsm))
      ensures !ok && b != [] && b[0] == EPD_SESSION ==> pair == Pair(old(pair.gmm), Undecoded)
      ensures !ok && (b == [] || (b[0] != EPD_MOBILITY && b[0] != EPD_SESSION)) ==> pair == old(pair)
    {
      hide Decode;
      if PlainDecode(layouts, b).Some? {
        DecodedIsTyped(layouts, b, pair);
      }
      if b == [] {
        return false;
      }
      var message := new NasMessage();
      if b[0] == EPD_MOBILITY {
        pair := pair.(gmm := Undecoded);
        var header := Taken(b, 3);
        if !MobilityType(header[2]) {
          return false;
        }
        ok := message.DecodeMessage(layouts(header[2]), b);
        if ok {
          pair := pair.(gmm := Holds(Gmm(header, message.Value())));
        }
      } else if b[0] == EPD_SESSION {
        pair := pair.(gsm := Undecoded);
        var header := Taken(b, 4);
        if !SessionType(header[3]) {
          return false;
        }
        ok := message.DecodeMessage(layouts(header[3]), b);
        if ok {
          pair := pair.(gsm := Holds(Gsm(header, message.Value())));
        }
      } else {
        return false;
      }
    }

    method PlainNasEncode(layouts: Catalogue) returns (r: Option<Octets>)
      requires Valid()
      ensures r == PairEncode(layouts, pair)
    {
      hide Encode;
      var message := new NasMessage();
      if pair.gmm.Holds? {
        var p := pair.gmm.plain;
        if !MobilityType(p.header[2]) {
          return None;
        }
        message.parts, message.slots := p.message.parts, p.message.slots;
        r := message.EncodeMessage(layouts(p.header[2]));
      } else if pair.gmm.Unset? && pair.gsm.Holds? {
        var p := pair.gsm.plain;
        if !SessionType(p.header[3]) {
          return None;
        }
        message.parts, message.slots := p.message.parts, p.message.slots;
        r := message.EncodeMessage(layouts(p.header[3]));
      } else {
        return None;
      }
    }
  }
}
