/** Which message types dispatch knows, and what the layouts of the modelled messages are on the wire. */
module NasDispatch {
  import opened Wrappers
  import opened OctetStrings
  import opened Nas
  import opened NasRoundTrip
  import opened NasMessages

  // -------------------------------------------------------------------- message types

  /** Registration, deregistration, service, configuration update, authentication, identity, security mode, and rest. */
  const MOBILITY_TYPES: set<Octet> := {
    65, 66, 67, 68, 69, 70, 71, 72, 76, 77, 78, 84, 85, 86, 87, 88, 89, 90, 91, 92, 93, 94, 95, 100, 101, 102, 103, 104}

  /** Session establishment, authentication, modification, release and status. */
  const SESSION_TYPES: set<Octet> := {193, 194, 195, 197, 198, 199, 201, 202, 203, 204, 205, 209, 210, 211, 212, 214}

  lemma TypesListed(kind: Octet)
    ensures MobilityType(kind) <==> kind in MOBILITY_TYPES
    ensures SessionType(kind) <==> kind in SESSION_TYPES
  {
  }

  /** The type octet is the third one of a mobility message and the fourth one of a session message. */
  predicate Dispatched(b: Octets) {
    || (|b| >= 3 && b[0] == 0x7e && b[2] in MOBILITY_TYPES)
    || (|b| >= 4 && b[0] == 0x2e && b[3] in SESSION_TYPES)
  }

  /**
    Dispatch refuses data if and only if the type octet is not one of those listed for the
    discriminator; otherwise the layout of that type decides.
  */
  lemma DispatchExact(layouts: Catalogue, b: Octets)
    ensures !Dispatched(b) ==> PlainDecode(layouts, b) == None
    ensures Dispatched(b) && b[0] == 0x7e ==>
              PlainDecode(layouts, b) ==
              match Decode(layouts(b[2]), b) case None => None case Some(m) => Some(Gmm(b[..3], m))
    ensures Dispatched(b) && b[0] == 0x2e ==>
              PlainDecode(layouts, b) ==
              match Decode(layouts(b[3]), b) case None => None case Some(m) => Some(Gsm(b[..4], m))
  {
    hide Decode, MobilityType, SessionType;
    TypesListed(0);
    if b != [] && b[0] == 0x7e {
      TypesListed(Taken(b, 3)[2]);
    } else if b != [] && b[0] == 0x2e {
      TypesListed(Taken(b, 4)[3]);
    }
  }

  /** Encoding goes by the type octet of the message's own header. */
  lemma EncodeDispatchExact(layouts: Catalogue, p: Plain)
    requires (p.Gmm? ==> |p.header| == 3) && (p.Gsm? ==> |p.header| == 4)
    ensures p.Gmm? ==>
              PlainEncode(layouts, p) ==
              if p.header[2] in MOBILITY_TYPES then Encode(layouts(p.header[2]), p.message) else None
    ensures p.Gsm? ==>
              PlainEncode(layouts, p) ==
              if p.header[3] in SESSION_TYPES then Encode(layouts(p.header[3]), p.message) else None
  {
    hide Encode, MobilityType, SessionType;
    TypesListed(p.header[|p.header| - 1]);
  }

  // ----------------------------------------------------------- the modelled messages

  /** The catalogue of the code, as far as it is modelled. */
  predicate Lists(layouts: Catalogue) {
    && layouts(65) == REGISTRATION_REQUEST && layouts(66) == REGISTRATION_ACCEPT
    && layouts(194) == PDU_SESSION_ESTABLISHMENT_ACCEPT
  }

  /** A message whose mandatory parts begin with these octets. */
  predicate BeginsWith(m: Message, header: Octets) {
    |header| <= |m.parts| && forall i :: 0 <= i < |header| ==> m.parts[i] == Part(0, [header[i]])
  }

  /** Every sound registration request, header 7e .. 41, is encoded and decoded back. */
  lemma RequestRoundTrip(layouts: Catalogue, m: Message, security: Octet)
    requires Lists(layouts) && Sound(REGISTRATION_REQUEST, m) && BeginsWith(m, [0x7e, security, 65])
    ensures PlainEncode(layouts, Gmm([0x7e, security, 65], m)).Some?
    ensures var b := PlainEncode(layouts, Gmm([0x7e, security, 65], m)).value;
            PlainDecode(layouts, b) == Some(Gmm([0x7e, security, 65], m))
  {
    hide PlainDecode, PlainEncode, Sound, MobilityType, SessionType;
    TypesListed(65);
    MessageHeads(REGISTRATION_REQUEST, m, [0x7e, security, 65]);
    PlainRoundTrip(layouts, Gmm([0x7e, security, 65], m));
  }

  /** Every sound registration accept, header 7e .. 42. */
  lemma AcceptRoundTrip(layouts: Catalogue, m: Message, security: Octet)
    requires Lists(layouts) && Sound(REGISTRATION_ACCEPT, m) && BeginsWith(m, [0x7e, security, 66])
    ensures PlainEncode(layouts, Gmm([0x7e, security, 66], m)).Some?
    ensures var b := PlainEncode(layouts, Gmm([0x7e, security, 66], m)).value;
            PlainDecode(layouts, b) == Some(Gmm([0x7e, security, 66], m))
  {
    hide PlainDecode, PlainEncode, Sound, MobilityType, SessionType;
    TypesListed(66);
    MessageHeads(REGISTRATION_ACCEPT, m, [0x7e, security, 66]);
    PlainRoundTrip(layouts, Gmm([0x7e, security, 66], m));
  }

  /** Every sound PDU session establishment accept, header 2e .. .. c2. */
  lemma SessionRoundTrip(layouts: Catalogue, m: Message, session: Octet, transaction: Octet)
    requires Lists(layouts) && Sound(PDU_SESSION_ESTABLISHMENT_ACCEPT, m)
    requires BeginsWith(m, [0x2e, session, transaction, 194])
    ensures PlainEncode(layouts, Gsm([0x2e, session, transaction, 194], m)).Some?
    ensures var b := PlainEncode(layouts, Gsm([0x2e, session, transaction, 194], m)).value;
            PlainDecode(layouts, b) == Some(Gsm([0x2e, session, transaction, 194], m))
  {
    hide PlainDecode, PlainEncode, Sound, MobilityType, SessionType;
    TypesListed(194);
    MessageHeads(PDU_SESSION_ESTABLISHMENT_ACCEPT, m, [0x2e, session, transaction, 194]);
    PlainRoundTrip(layouts, Gsm([0x2e, session, transaction, 194], m));
  }

  lemma MessageHeads(l: Layout, m: Message, header: Octets)
    requires l in {REGISTRATION_REQUEST, REGISTRATION_ACCEPT, PDU_SESSION_ESTABLISHMENT_ACCEPT}
    requires Sound(l, m) && BeginsWith(m, header)
    requires |header| <= if l == PDU_SESSION_ESTABLISHMENT_ACCEPT then 4 else 3
    ensures Heads(l, header, m)
  {
    hide Typed, Matching, Separate, InPlace;
  }

  // ---------------------------------------------------- how long elements are

  /** The least and the greatest number of octets of an element, identifier included. */
  datatype Span = Span(least: nat, most: nat)

  /** Section 11.2 of TS 24.007: T or TV, TLV and TLV-E. */
  function SpanOf(row: Row): (s: Span) {
    match row
    case HalfRow(_) => Span(1, 1)
    case FullRow(_, Fixed(n)) => Span(1 + n, 1 + n)
    case FullRow(_, Sized(w, n)) => Span(1 + w + n, 1 + w + n)
    case FullRow(_, Prefix(w, capacity)) => Span(1 + w, 1 + w + capacity)
    case FullRow(_, Buffered(w)) => Span(1 + w, w + Pow256(w))
  }

  /** Elements of a row take exactly the lengths of its span. */
  lemma SpanExact(row: Row, n: nat)
    requires row.FullRow? && row.format.Prefix? ==> row.format.capacity < Pow256(row.format.width)
    requires row.HalfRow? ==> 8 <= row.iei < 16
    ensures SpanOf(row).least <= n <= SpanOf(row).most
            <==> exists e :: Belongs(row, e) && EncodeElement(row, e).Some? && |EncodeElement(row, e).value| == n
  {
    hide BigEndian, Pow256;
    forall e | Belongs(row, e) && EncodeElement(row, e).Some? && |EncodeElement(row, e).value| == n
      ensures SpanOf(row).least <= n <= SpanOf(row).most
    {
    }
    if SpanOf(row).least <= n <= SpanOf(row).most {
      var e := Sample(row, n);
      SampleFits(row, n);
      assert Belongs(row, e) && EncodeElement(row, e).Some? && |EncodeElement(row, e).value| == n;
    }
  }

  /** An element of the given length: zeros behind the identifier. */
  function Sample(row: Row, n: nat): (e: Element)
    requires row.HalfRow? ==> row.iei < 16
  {
    match row
    case HalfRow(iei) => Half(16 * iei)
    case FullRow(iei, Fixed(size)) => Full(iei, Part(0, Zeros(size)))
    case FullRow(iei, Sized(_, size)) => Full(iei, Part(0, Zeros(size)))
    case FullRow(iei, Prefix(w, capacity)) => Full(iei, Part(if n > w then n - 1 - w else 0, Zeros(capacity)))
    case FullRow(iei, Buffered(w)) =>
      var size := if n > w then n - 1 - w else 0;
      Full(iei, Part(size, Zeros(size)))
  }

  lemma SampleFits(row: Row, n: nat)
    requires row.FullRow? && row.format.Prefix? ==> row.format.capacity < Pow256(row.format.width)
    requires row.HalfRow? ==> 8 <= row.iei < 16
    requires SpanOf(row).least <= n <= SpanOf(row).most
    ensures Belongs(row, Sample(row, n)) && EncodeElement(row, Sample(row, n)).Some?
    ensures |EncodeElement(row, Sample(row, n)).value| == n
  {
    hide BigEndian, Pow256;
    match row
    case FullRow(iei, Prefix(w, capacity)) =>
      var k := n - 1 - w;
      assert Zeros(capacity)[k..] == Zeros(capacity - k);
    case _ =>
  }

  /** The lengths that TS 24.501 lists, by identifier; content of unlimited types goes up to the length field. */
  function RequestSpan(iei: Octet): (s: Span) {
    match iei
    case 0x0C => Span(1, 1)
    case 0x10 => Span(2, 15)
    case 0x2E => Span(2, 257)
    case 0x2F => Span(2, 257)
    case 0x52 => Span(8, 8)
    case 0x17 => Span(2, 257)
    case 0x40 => Span(2, 257)
    case 0x50 => Span(2, 257)
    case 0x0B => Span(1, 1)
    case 0x2B => Span(3, 3)
    case 0x77 => Span(3, 14)
    case 0x25 => Span(2, 257)
    case 0x18 => Span(3, 3)
    case 0x51 => Span(3, 3)
    case 0x70 => Span(3, 65538)
    case 0x74 => Span(3, 65538)
    case 0x7B => Span(3, 65538)
    case 0x09 => Span(1, 1)
    case 0x53 => Span(3, 3)
    case 0x71 => Span(3, 65538)
    case _ => Span(0, 0)
  }

  function AcceptSpan(iei: Octet): (s: Span) {
    match iei
    case 0x77 => Span(3, 14)
    case 0x4A => Span(2, 47)
    case 0x54 => Span(2, 257)
    case 0x15 => Span(2, 257)
    case 0x11 => Span(2, 257)
    case 0x31 => Span(2, 257)
    case 0x21 => Span(2, 5)
    case 0x50 => Span(2, 257)
    case 0x26 => Span(2, 257)
    case 0x72 => Span(3, 65538)
    case 0x79 => Span(3, 65538)
    case 0x0B => Span(1, 1)
    case 0x09 => Span(1, 1)
    case 0x27 => Span(2, 257)
    case 0x5E => Span(3, 3)
    case 0x5D => Span(3, 3)
    case 0x16 => Span(3, 3)
    case 0x34 => Span(2, 257)
    case 0x7A => Span(3, 65538)
    case 0x73 => Span(3, 65538)
    case 0x78 => Span(3, 65538)
    case 0x0A => Span(1, 1)
    case 0x76 => Span(3, 65538)
    case 0x51 => Span(3, 3)
    case _ => Span(0, 0)
  }

  function SessionSpan(iei: Octet): (s: Span) {
    match iei
    case 0x59 => Span(2, 2)
    case 0x29 => Span(2, 15)
    case 0x56 => Span(2, 2)
    case 0x22 => Span(2, 10)
    case 0x08 => Span(1, 1)
    case 0x75 => Span(3, 65538)
    case 0x78 => Span(3, 65538)
    case 0x79 => Span(3, 65538)
    case 0x7B => Span(3, 65538)
    case 0x25 => Span(2, 257)
    case _ => Span(0, 0)
  }

  /** A length field has two octets exactly for the identifiers 70 to 7F, section 11.2.4 of TS 24.007. */
  predicate WidthByIdentifier(row: Row) {
    match row
    case HalfRow(_) => true
    case FullRow(_, Fixed(_)) => row.iei < 0x70
    case FullRow(_, f) => f.width == if 0x70 <= row.iei < 0x80 then 2 else 1
  }

  lemma Powers()
    ensures Pow256(1) == 256 && Pow256(2) == 65536
  {
  }

  lemma RequestLengths(i: nat)
    requires i < 20
    ensures |REGISTRATION_REQUEST.rows| == 20
    ensures SpanOf(REGISTRATION_REQUEST.rows[i]) == RequestSpan(REGISTRATION_REQUEST.rows[i].iei)
    ensures WidthByIdentifier(REGISTRATION_REQUEST.rows[i])
  {
    hide Pow256;
    Powers();
  }

  lemma AcceptLengths(i: nat)
    requires i < 24
    ensures |REGISTRATION_ACCEPT.rows| == 24
    ensures SpanOf(REGISTRATION_ACCEPT.rows[i]) == AcceptSpan(REGISTRATION_ACCEPT.rows[i].iei)
    ensures WidthByIdentifier(REGISTRATION_ACCEPT.rows[i])
  {
    hide Pow256;
    Powers();
  }

  lemma SessionLengths(i: nat)
    requires i < 10
    ensures |PDU_SESSION_ESTABLISHMENT_ACCEPT.rows| == 10
    ensures SpanOf(PDU_SESSION_ESTABLISHMENT_ACCEPT.rows[i])
         == SessionSpan(PDU_SESSION_ESTABLISHMENT_ACCEPT.rows[i].iei)
    ensures WidthByIdentifier(PDU_SESSION_ESTABLISHMENT_ACCEPT.rows[i])
  {
    hide Pow256;
    Powers();
  }

  // ------------------------------------------------------------------ mandatory parts

  function Joined(a: Option<Octets>, b: Option<Octets>): (r: Option<Octets>) {
    if a.Some? && b.Some? then Some(a.value + b.value) else None
  }

  /** One part after the other. */
  lemma PartsFrom(fs: seq<Format>, ps: seq<Part>, i: nat)
    requires |fs| == |ps| && i < |fs|
    ensures EncodeParts(fs[i..], ps[i..]) == Joined(EncodePart(fs[i], ps[i]), EncodeParts(fs[i + 1..], ps[i + 1..]))
  {
    hide EncodePart;
    assert fs[i..][1..] == fs[i + 1..] && ps[i..][1..] == ps[i + 1..];
  }

  lemma NoParts(fs: seq<Format>, ps: seq<Part>)
    requires |fs| == |ps|
    ensures EncodeParts(fs[|fs|..], ps[|fs|..]) == Some([])
  {
  }

  lemma TwoOctets(n: nat)
    requires n < 65536
    ensures BigEndian(n, 2) == [n / 256, n % 256]
  {
    assert BigEndian(n / 256, 1) == BigEndian(n / 256 / 256, 0) + [n / 256 % 256];
    assert BigEndian(n / 256 / 256, 0) == [];
  }

  lemma OneLengthOctet(n: nat)
    requires n < 256
    ensures BigEndian(n, 1) == [n]
  {
    assert BigEndian(n / 256, 0) == [];
  }

  /** A registration request: four single octets, then the identity behind a length of two octets. */
  lemma RequestFront(m: Message)
    requires Sound(REGISTRATION_REQUEST, m)
    ensures |m.parts| == 5
    ensures var ps := m.parts;
            EncodeParts(REGISTRATION_REQUEST.mandatory, ps) ==
            Some(ps[0].content + ps[1].content + ps[2].content + ps[3].content
                 + [ps[4].len / 256, ps[4].len % 256] + ps[4].content)
    ensures forall i :: 0 <= i < 4 ==> |m.parts[i].content| == 1
    ensures m.parts[4].len == |m.parts[4].content| < 65536
  {
    hide EncodeParts, InPlace, Separate, BigEndian;
    var fs, ps := REGISTRATION_REQUEST.mandatory, m.parts;
    Powers();
    TwoOctets(ps[4].len);
    PartsFrom(fs, ps, 0);
    PartsFrom(fs, ps, 1);
    PartsFrom(fs, ps, 2);
    PartsFrom(fs, ps, 3);
    PartsFrom(fs, ps, 4);
    NoParts(fs, ps);
    assert fs[0..] == fs && ps[0..] == ps;
    var tail := [ps[4].len / 256, ps[4].len % 256] + ps[4].content;
    assert tail + [] == tail;
    assert ps[0].content + (ps[1].content + (ps[2].content + (ps[3].content + tail)))
        == ps[0].content + ps[1].content + ps[2].content + ps[3].content
           + [ps[4].len / 256, ps[4].len % 256] + ps[4].content;
  }

  /** A registration accept: three single octets, then a length octet and one octet of registration result. */
  lemma AcceptFront(m: Message)
    requires Sound(REGISTRATION_ACCEPT, m)
    ensures |m.parts| == 4
    ensures var ps := m.parts;
            ps[3].len < 256 &&
            EncodeParts(REGISTRATION_ACCEPT.mandatory, ps) ==
            Some(ps[0].content + ps[1].content + ps[2].content + [ps[3].len] + ps[3].content)
    ensures forall i :: 0 <= i < 4 ==> |m.parts[i].content| == 1
  {
    hide EncodeParts, InPlace, Separate, BigEndian;
    var fs, ps := REGISTRATION_ACCEPT.mandatory, m.parts;
    Powers();
    OneLengthOctet(ps[3].len);
    PartsFrom(fs, ps, 0);
    PartsFrom(fs, ps, 1);
    PartsFrom(fs, ps, 2);
    PartsFrom(fs, ps, 3);
    NoParts(fs, ps);
    assert fs[0..] == fs && ps[0..] == ps;
    var tail := [ps[3].len] + ps[3].content;
    assert tail + [] == tail;
    assert ps[0].content + (ps[1].content + (ps[2].content + tail))
        == ps[0].content + ps[1].content + ps[2].content + [ps[3].len] + ps[3].content;
  }

  /** A session establishment accept: five single octets, QoS rules behind two octets of length, six octets of AMBR. */
  lemma SessionFront(m: Message)
    requires Sound(PDU_SESSION_ESTABLISHMENT_ACCEPT, m)
    ensures |m.parts| == 7
    ensures var ps := m.parts;
            ps[6].len < 256 &&
            EncodeParts(PDU_SESSION_ESTABLISHMENT_ACCEPT.mandatory, ps) ==
            Some(ps[0].content + ps[1].content + ps[2].content + ps[3].content + ps[4].content
                 + [ps[5].len / 256, ps[5].len % 256] + ps[5].content + [ps[6].len] + ps[6].content)
    ensures forall i :: 0 <= i < 5 ==> |m.parts[i].content| == 1
    ensures m.parts[5].len == |m.parts[5].content| < 65536 && |m.parts[6].content| == 6
  {
    hide EncodeParts, InPlace, Separate, BigEndian;
    var fs, ps := PDU_SESSION_ESTABLISHMENT_ACCEPT.mandatory, m.parts;
    Powers();
    TwoOctets(ps[5].len);
    OneLengthOctet(ps[6].len);
    PartsFrom(fs, ps, 0);
    PartsFrom(fs, ps, 1);
    PartsFrom(fs, ps, 2);
    PartsFrom(fs, ps, 3);
    PartsFrom(fs, ps, 4);
    PartsFrom(fs, ps, 5);
    PartsFrom(fs, ps, 6);
    NoParts(fs, ps);
    assert fs[0..] == fs && ps[0..] == ps;
    var rules, tail := [ps[5].len / 256, ps[5].len % 256] + ps[5].content, [ps[6].len] + ps[6].content;
    assert tail + [] == tail;
    Regrouped(ps[0].content, ps[1].content, ps[2].content, ps[3].content, ps[4].content, rules + tail);
    var front := ps[0].content + ps[1].content + ps[2].content + ps[3].content + ps[4].content;
    assert front + (rules + tail)
        == front + [ps[5].len / 256, ps[5].len % 256] + ps[5].content + [ps[6].len] + ps[6].content;
  }

  lemma Regrouped(a: Octets, b: Octets, c: Octets, d: Octets, e: Octets, rest: Octets)
    ensures a + (b + (c + (d + (e + rest)))) == a + b + c + d + e + rest
  {
  }

  // -------------------------------------------------------------------- one element

  /** The octets of a length field. */
  function LengthOctets(width: nat, n: nat): (b: Octets)
    requires (width == 1 && n < 256) || (width == 2 && n < 65536)
  {
    if width == 1 then [n] else [n / 256, n % 256]
  }

  /**
    A half-octet identifier is the upper half of its octet, or all of it; any other comes
    first, then length and content.
  */
  lemma ElementInOctets(row: Row, e: Element)
    requires Belongs(row, e) && (row.HalfRow? ==> 8 <= row.iei < 16)
    requires row.FullRow? && !row.format.Fixed? ==> row.format.width in {1, 2}
    ensures row.HalfRow? ==>
              EncodeElement(row, e) == Some([e.octet]) && (e.octet / 16 == row.iei || e.octet == row.iei)
    ensures row.FullRow? && row.format.Fixed? ==> EncodeElement(row, e) == Some([row.iei] + e.part.content)
    ensures row.FullRow? && !row.format.Fixed? ==> e.part.len < Pow256(row.format.width)
    ensures row.FullRow? && row.format.Sized? ==>
              EncodeElement(row, e)
                == Some([row.iei] + (LengthOctets(row.format.width, e.part.len) + e.part.content))
    ensures row.FullRow? && (row.format.Prefix? || row.format.Buffered?) ==>
              && e.part.len <= |e.part.content|
              && EncodeElement(row, e)
                 == Some([row.iei] + (LengthOctets(row.format.width, e.part.len) + e.part.content[..e.part.len]))
  {
    hide BigEndian, Pow256;
    Powers();
    if row.FullRow? && !row.format.Fixed? {
      if row.format.width == 1 {
        OneLengthOctet(e.part.len);
      } else {
        TwoOctets(e.part.len);
      }
      if row.format.Buffered? {
        assert e.part.content[..e.part.len] == e.part.content;
      }
    }
  }

  /** The octets of the elements that the first `n` rows hold, one after the other. */
  function Elements(rows: seq<Row>, slots: seq<Option<Element>>, n: nat): (b: Octets)
    requires n <= |rows| == |slots|
  {
    if n == 0 then []
    else
      var element := if slots[n - 1].None? then None else EncodeElement(rows[n - 1], slots[n - 1].value);
      Elements(rows, slots, n - 1) + if element.None? then [] else element.value
  }

  lemma {:induction false} ElementsInOrder(rows: seq<Row>, slots: seq<Option<Element>>, i: nat)
    requires i <= |rows| == |slots| && EncodeSlots(rows, slots, i).Some?
    ensures Elements(rows, slots, i) + EncodeSlots(rows, slots, i).value == Elements(rows, slots, |rows|)
    decreases |rows| - i
  {
    hide EncodeElement;
    if i < |rows| {
      ElementsInOrder(rows, slots, i + 1);
      if slots[i].Some? {
        var first, rest := EncodeElement(rows[i], slots[i].value).value, EncodeSlots(rows, slots, i + 1).value;
        assert Elements(rows, slots, i) + (first + rest) == Elements(rows, slots, i) + first + rest;
      }
    }
  }

  /** Every sound message is its mandatory parts and then the elements it holds, in the order of the rows. */
  lemma MessageInOctets(l: Layout, m: Message)
    requires Sound(l, m)
    ensures |m.parts| == |l.mandatory| && |m.slots| == |l.rows|
    ensures var front := EncodeParts(l.mandatory, m.parts);
            front.Some? && Encode(l, m) == Some(front.value + Elements(l.rows, m.slots, |l.rows|))
  {
    hide Decode, EncodeParts, EncodeSlots, Elements, Separate;
    MessageRoundTrip(l, m);
    ElementsInOrder(l.rows, m.slots, 0);
    NoElements(l.rows, m.slots);
    assert [] + EncodeSlots(l.rows, m.slots, 0).value == EncodeSlots(l.rows, m.slots, 0).value;
  }

  lemma NoElements(rows: seq<Row>, slots: seq<Option<Element>>)
    requires |rows| == |slots|
    ensures Elements(rows, slots, 0) == []
  {
  }

  // ---------------------------------------------------------------- reading any data

  /** `n` octets are taken off the front; if there are fewer, all of them are, and zeros are left behind. */
  predicate Reads(b: Octets, n: nat, octets: Octets, rest: Octets) {
    && |octets| == n
    && if n <= |b| then b == octets + rest else rest == [] && forall i :: 0 <= i < n ==> octets[i] == 0
  }

  lemma TakenReads(b: Octets, n: nat)
    ensures Reads(b, n, Taken(b, n), Left(b, n))
  {
  }

  lemma {:induction false} ZerosAreZero(b: Octets)
    requires forall i :: 0 <= i < |b| ==> b[i] == 0
    ensures NumberOf(b) == 0
  {
    if b != [] {
      ZerosAreZero(b[..|b| - 1]);
    }
  }

  lemma LengthReads(b: Octets, w: nat)
    ensures LengthAt(b, w) == NumberOf(Taken(b, w))
  {
    if w > |b| {
      ZerosAreZero(Taken(b, w));
    }
  }

  /**
    Any data, too short ones included: a length and then octets are read, as many as the type
    has or as the length says; only a length beyond the capacity of an array fails.
  */
  lemma ReadExact(f: Format, b: Octets)
    ensures f.Fixed? ==>
              var r := ReadPart(f, b);
              r.Some? && r.value.part.len == 0 && Reads(b, f.size, r.value.part.content, r.value.rest)
    ensures !f.Fixed? ==>
              exists head, body ::
                && Reads(b, f.width, head, body)
                && (ReadPart(f, b).None? <==> f.Prefix? && NumberOf(head) > f.capacity)
                && (ReadPart(f, b).Some? ==>
                      var part, rest := ReadPart(f, b).value.part, ReadPart(f, b).value.rest;
                      && part.len == NumberOf(head)
                      && (f.Sized? ==> Reads(body, f.size, part.content, rest))
                      && (f.Buffered? ==> Reads(body, part.len, part.content, rest))
                      && (f.Prefix? ==>
                            && part.len <= f.capacity == |part.content|
                            && Reads(body, part.len, part.content[..part.len], rest)
                            && forall i :: part.len <= i < f.capacity ==> part.content[i] == 0))
  {
    hide Reads, Taken, Left, LengthAt;
    if f.Fixed? {
      TakenReads(b, f.size);
    } else {
      var head, body := Taken(b, f.width), Left(b, f.width);
      TakenReads(b, f.width);
      LengthReads(b, f.width);
      var n := if f.Sized? then f.size else NumberOf(head);
      TakenReads(body, n);
      if f.Prefix? && n <= f.capacity {
        var content := ReadPart(f, b).value.part.content;
        assert content[..n] == Taken(body, n);
      }
      assert Reads(b, f.width, head, body);
    }
  }
}
