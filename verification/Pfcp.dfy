/** Framing of PFCP messages, lib/pfcp (section 7.2.2 of 3GPP TS 29.244). */
module Pfcp {
  import opened Wrappers
  import opened OctetStrings
  import Tlv
  import TlvRoundTrip
  import TlvCodec

  type Uint16 = x: nat | x < 0x1_0000
  type Uint32 = x: nat | x < 0x1_0000_0000
  type Uint64 = x: nat | x < 0x1_0000_0000_0000_0000

  /** The fields of a header. */
  datatype Fields = Fields(version: Octet, mp: Octet, s: Octet, kind: Octet, length: Uint16, seid: Uint64,
                           sequence: Uint32, priority: Octet)

  const NO_FIELDS: Fields := Fields(0, 0, 0, 0, 0, 0, 0, 0)

  // ------------------------------------------------------------------------ header

  predicate HasSeid(h: Fields) { h.s % 2 == 1 }
  predicate HasPriority(h: Fields) { h.mp % 2 == 1 }

  /** Version in the top three bits, MP and S in the two lowest. */
  function Flags(h: Fields): (b: Octet) {
    var v: int, m: int, s: int := h.version % 8, h.mp % 2, h.s % 2;
    32 * v + 2 * m + s
  }

  /** 24 bits of sequence number and, in the upper half of the last octet, the priority. */
  function SequenceWord(h: Fields): (n: Uint32) {
    var number: int, p: int := h.sequence % 0x100_0000, h.priority % 16;
    256 * number + if HasPriority(h) then 16 * p else 0
  }

  /** `Header.MarshalBinary`. */
  function HeaderOctets(h: Fields): (b: Octets)
    ensures |b| == if HasSeid(h) then 16 else 8
  {
    [Flags(h), h.kind] + BigEndian(h.length, 2) + (if HasSeid(h) then BigEndian(h.seid, 8) else [])
    + BigEndian(SequenceWord(h), 4)
  }

  /** A number of `width` octets at `p`, if they are there; otherwise the variable keeps its value. */
  function ReadNumber(b: Octets, p: nat, width: nat, kept: nat): (n: nat)
    requires kept < Pow256(width)
    ensures n < Pow256(width)
  {
    if p + width <= |b| then NumberInRange(b[p..p + width]); NumberOf(b[p..p + width]) else kept
  }

  /** The reader is drained by a read that comes too late. */
  function Advance(b: Octets, p: nat, width: nat): (q: nat) {
    if p + width <= |b| then p + width else |b|
  }

  lemma Pow256Values()
    ensures Pow256(1) == 0x100 && Pow256(2) == 0x1_0000 && Pow256(4) == 0x1_0000_0000
    ensures Pow256(8) == 0x1_0000_0000_0000_0000
  {
    assert Pow256(4) == 0x1_0000_0000;
  }

  /** `Header.UnmarshalBinary` over a header that holds `g`. */
  function ParseHeader(b: Octets, g: Fields): (r: Option<Fields>) {
    if b == [] then None
    else
      Pow256Values();
      var mp := b[0] / 2 % 2;
      var s := b[0] % 2;
      var kind := ReadNumber(b, 1, 1, g.kind);
      var p1 := Advance(b, 1, 1);
      var length := ReadNumber(b, p1, 2, g.length);
      var p2 := Advance(b, p1, 2);
      var seid := if s == 1 then ReadNumber(b, p2, 8, g.seid) else g.seid;
      var p3 := if s == 1 then Advance(b, p2, 8) else p2;
      var word := ReadNumber(b, p3, 4, 0);
      Some(Fields(b[0] / 32, mp, s, kind, length, seid, word / 256, if mp == 1 then word % 256 / 16 else g.priority))
  }

  /** What of `h` goes over the wire; the rest is as in `g`. */
  function Canonical(h: Fields, g: Fields): (c: Fields) {
    Fields(h.version % 8, h.mp % 2, h.s % 2, h.kind, h.length, if HasSeid(h) then h.seid else g.seid,
           h.sequence % 0x100_0000, if HasPriority(h) then h.priority % 16 else g.priority)
  }

  lemma FlagsReadBack(h: Fields)
    ensures Flags(h) / 32 == h.version % 8 && Flags(h) / 2 % 2 == h.mp % 2 && Flags(h) % 2 == h.s % 2
  {
  }

  lemma SequenceReadsBack(h: Fields)
    ensures SequenceWord(h) / 256 == h.sequence % 0x100_0000
    ensures HasPriority(h) ==> SequenceWord(h) % 256 / 16 == h.priority % 16
  {
  }

  lemma NumberAt(before: Octets, n: nat, width: nat, rest: Octets, kept: nat)
    requires n < Pow256(width) && kept < Pow256(width)
    ensures ReadNumber(before + BigEndian(n, width) + rest, |before|, width, kept) == n
    ensures Advance(before + BigEndian(n, width) + rest, |before|, width) == |before| + width
  {
    hide BigEndian, NumberOf;
    var b := before + BigEndian(n, width) + rest;
    assert b[|before|..|before| + width] == BigEndian(n, width);
    BigEndianReadsBack(n, width);
  }

  /** Any header comes back cut to the width of its fields, whatever follows it. */
  lemma HeaderReadsBack(h: Fields, g: Fields, rest: Octets)
    ensures ParseHeader(HeaderOctets(h) + rest, g) == Some(Canonical(h, g))
  {
    hide BigEndian, NumberOf, ReadNumber, Advance, Flags, SequenceWord, Pow256;
    Pow256Values();
    var b := HeaderOctets(h) + rest;
    var seid := if HasSeid(h) then BigEndian(h.seid, 8) else [];
    var flags, length, word := [Flags(h)], BigEndian(h.length, 2), BigEndian(SequenceWord(h), 4);
    FlagsReadBack(h);
    SequenceReadsBack(h);
    OneOctet(h.kind);
    assert b == flags + [h.kind] + (length + seid + word + rest);
    NumberAt(flags, h.kind, 1, length + seid + word + rest, g.kind);
    assert b == flags + [h.kind] + length + (seid + word + rest);
    NumberAt(flags + [h.kind], h.length, 2, seid + word + rest, g.length);
    var front := flags + [h.kind] + length;
    if HasSeid(h) {
      assert b == front + seid + (word + rest);
      NumberAt(front, h.seid, 8, word + rest, g.seid);
    }
    assert b == front + seid + word + rest;
    NumberAt(front + seid, SequenceWord(h), 4, rest, 0);
  }

  lemma OneOctet(n: Octet)
    ensures BigEndian(n, 1) == [n]
  {
    assert BigEndian(n / 256, 0) == [];
  }

  // ----------------------------------------------------------------------- framing

  /** `Header.Len`, which goes by the message type. */
  function Len(h: Fields): (n: nat) {
    if h.kind < 50 then 8 else 16
  }

  /** The header that `Marshal` writes before `n` octets of body. */
  function Framed(h: Fields, n: nat): (f: Fields) {
    h.(length := ((if HasSeid(h) then 12 else 4) + n % 0x1_0000) % 0x1_0000)
  }

  /** The length field counts what follows the first four octets, modulo 2^16. */
  lemma FramedLength(h: Fields, n: nat)
    ensures Framed(h, n).length == (n + if h.s % 2 == 1 then 12 else 4) % 0x1_0000
    ensures Framed(h, n) == h.(length := Framed(h, n).length)
  {
    assert n == n / 0x1_0000 * 0x1_0000 + n % 0x1_0000;
  }

  /** The length field agrees with the data, as `Unmarshal` checks it. */
  predicate LengthAgrees(h: Fields, n: nat) {
    h.length == n - 4
  }

  /** The check passes exactly for bodies that the length field can count. */
  lemma LengthCheckExact(h: Fields, body: Octets)
    ensures LengthAgrees(Framed(h, |body|), |HeaderOctets(Framed(h, |body|)) + body|) <==>
            |body| + (if HasSeid(h) then 12 else 4) < 0x1_0000
  {
    hide HeaderOctets;
  }

  /** The body is found exactly if the SEID is there for session messages and only for those. */
  lemma BodyStartExact(h: Fields, body: Octets)
    ensures Len(h) <= |HeaderOctets(h) + body| && (HeaderOctets(h) + body)[Len(h)..] == body
            <==> (HasSeid(h) <==> h.kind >= 50)
  {
    var b := HeaderOctets(h) + body;
    if HasSeid(h) <==> h.kind >= 50 {
      hide HeaderOctets;
      assert b[Len(h)..] == body;
    } else {
      hide HeaderOctets;
      assert Len(h) <= |b| ==> |b[Len(h)..]| != |body|;
    }
  }

  /** The message types that `Unmarshal` has a body for. */
  predicate Supported(kind: Octet) {
    1 <= kind <= 10 || 12 <= kind <= 15 || 50 <= kind <= 57
  }

  datatype Outcome =
    | BadHeader
    | Rejected(header: Fields)
    | Delivered(header: Fields, body: Tlv.Value)

  /** The struct type of each message body. */
  type Catalogue = Octet -> Tlv.Shape

  /** `Message.Unmarshal` over a header that holds `g`. */
  function Receive(bodies: Catalogue, data: Octets, g: Fields): (r: Outcome) {
    match ParseHeader(data, g)
    case None => BadHeader
    case Some(h) =>
      if !LengthAgrees(h, |data|) || !Supported(h.kind) || |data| < Len(h) then Rejected(h)
      else
        match Tlv.Unmarshal(bodies(h.kind), data[Len(h)..])
        case None => Rejected(h)
        case Some(v) => Delivered(h, v)
  }

  /** `Message.Marshal`: the header as it is left and the octets. */
  function Send(bodies: Catalogue, h: Fields, v: Tlv.Value): (r: Option<(Fields, Octets)>) {
    match Tlv.Marshal(bodies(h.kind), v)
    case None => None
    case Some(body) => Some((Framed(h, |body|), HeaderOctets(Framed(h, |body|)) + body))
  }

  /** A message is delivered with the header it was sent with and its body, up to nil and empty slices. */
  lemma MessageRoundTrip(bodies: Catalogue, h: Fields, v: Tlv.Value, g: Fields)
    requires Send(bodies, h, v).Some? && Tlv.WellFormed(bodies(h.kind)) && Supported(h.kind)
    requires HasSeid(h) <==> h.kind >= 50
    requires |Tlv.Marshal(bodies(h.kind), v).value| + (if HasSeid(h) then 12 else 4) < 0x1_0000
    ensures Receive(bodies, Send(bodies, h, v).value.1, g) ==
            Delivered(Canonical(Send(bodies, h, v).value.0, g), TlvRoundTrip.Normal(v))
  {
    hide HeaderOctets, ParseHeader, LengthAgrees, Tlv.Unmarshal, Tlv.Marshal, Tlv.WellFormed, TlvRoundTrip.Normal;
    var body := Tlv.Marshal(bodies(h.kind), v).value;
    var f := Framed(h, |body|);
    HeaderReadsBack(f, g, body);
    LengthCheckExact(h, body);
    BodyStartExact(f, body);
    assert LengthAgrees(Canonical(f, g), |HeaderOctets(f) + body|) by {
      SameLength(f, Canonical(f, g), |HeaderOctets(f) + body|);
    }
    TlvRoundTrip.ShortRoundTrip(bodies(h.kind), v);
  }

  lemma SameLength(f: Fields, c: Fields, n: nat)
    requires f.length == c.length && LengthAgrees(f, n)
    ensures LengthAgrees(c, n)
  {
  }

  /** The types of lib/pfcp/message_type.go without the version response, which has no body. */
  const SUPPORTED_TYPES: set<Octet> := {
    1, 2, 3, 4, 5, 6, 7, 8, 9, 10, 12, 13, 14, 15, 50, 51, 52, 53, 54, 55, 56, 57}

  lemma SupportedListed(kind: Octet)
    ensures Supported(kind) <==> kind in SUPPORTED_TYPES
  {
  }

  /** With the S flag right and a countable body, a message is delivered if and only if its type is listed. */
  lemma DeliveredExact(bodies: Catalogue, h: Fields, v: Tlv.Value, g: Fields)
    requires Send(bodies, h, v).Some? && Tlv.WellFormed(bodies(h.kind))
    requires h.s % 2 == 1 <==> h.kind >= 50
    requires |Tlv.Marshal(bodies(h.kind), v).value| + (if h.s % 2 == 1 then 12 else 4) < 0x1_0000
    ensures var sent := Send(bodies, h, v).value;
            Receive(bodies, sent.1, g) ==
            if h.kind in SUPPORTED_TYPES then Delivered(Canonical(sent.0, g), TlvRoundTrip.Normal(v))
            else Rejected(Canonical(sent.0, g))
  {
    hide HeaderOctets, ParseHeader, LengthAgrees, Tlv.Unmarshal, Tlv.Marshal, Tlv.WellFormed, TlvRoundTrip.Normal,
    Supported;
    SupportedListed(h.kind);
    if h.kind in SUPPORTED_TYPES {
      MessageRoundTrip(bodies, h, v, g);
    } else {
      var body := Tlv.Marshal(bodies(h.kind), v).value;
      HeaderReadsBack(Framed(h, |body|), g, body);
    }
  }

  /** A header octet by octet, figure 7.2.2.1-1 of TS 29.244. */
  lemma HeaderInOctets(h: Fields, i: nat)
    requires i < 8
    ensures var b := HeaderOctets(h);
            && b[0] / 32 == h.version % 8 && b[0] / 4 % 8 == 0 && b[0] / 2 % 2 == h.mp % 2 && b[0] % 2 == h.s % 2
            && b[1] == h.kind && b[2] == h.length / 256 && b[3] == h.length % 256
            && (h.s % 2 == 1 ==> b[4 + i] == h.seid / Pow256(7 - i) % 256)
            && var k := if h.s % 2 == 1 then 12 else 4;
               && |b| == k + 4 && b[k] == h.sequence / 0x1_0000 % 256 && b[k + 1] == h.sequence / 256 % 256
               && b[k + 2] == h.sequence % 256 && b[k + 3] == if h.mp % 2 == 1 then h.priority % 16 * 16 else 0
  {
    hide BigEndian, Flags, SequenceWord, Pow256;
    FlagsReadBack(h);
    FlagsSpare(h);
    SequenceDigits(h);
    TwoOctets(h.length);
    BigEndianDigit(h.seid, 8, i);
  }

  /**
    The header of any data over a header that holds `g`: a field that is cut short keeps its
    value, but the sequence number and a priority that is announced become 0.
  */
  lemma HeaderOfAnyData(b: Octets, g: Fields)
    ensures b == [] ==> ParseHeader(b, g) == None
    ensures b != [] ==>
              var k := if b[0] % 2 == 1 then 12 else 4;
              ParseHeader(b, g).Some? &&
              var r := ParseHeader(b, g).value;
              && r.version == b[0] / 32 && r.mp == b[0] / 2 % 2 && r.s == b[0] % 2
              && r.kind == (if |b| >= 2 then b[1] else g.kind)
              && r.length == (if |b| >= 4 then TwoDigits(b[2], b[3]) else g.length)
              && r.seid == (if b[0] % 2 == 1 && |b| >= 12 then NumberOf(b[4..12]) else g.seid)
              && r.sequence == (if |b| >= k + 4 then NumberOf(b[k..k + 3]) else 0)
              && r.priority == (if r.mp == 0 then g.priority else if |b| >= k + 4 then b[k + 3] / 16 else 0)
  {
    hide NumberOf;
    if |b| >= 2 {
      OneDigit(b[1]);
      assert b[1..2] == [b[1]];
    }
    if |b| >= 4 {
      OneDigit(b[2]);
      LastDigit(b[2..4]);
      assert b[2..4][..1] == [b[2]];
    }
    var k := if b != [] && b[0] % 2 == 1 then 12 else 4;
    if |b| >= k + 4 {
      LastDigit(b[k..k + 4]);
      assert b[k..k + 4][..3] == b[k..k + 3];
    }
  }

  function TwoDigits(high: Octet, low: Octet): (n: nat) {
    var h: int := high;
    256 * h + low
  }

  lemma OneDigit(x: Octet)
    ensures NumberOf([x]) == x
  {
    assert [x][..0] == [];
  }

  lemma LastDigit(b: Octets)
    requires b != []
    ensures NumberOf(b) == 256 * NumberOf(b[..|b| - 1]) + b[|b| - 1]
  {
  }

  lemma FlagsSpare(h: Fields)
    ensures Flags(h) / 4 % 8 == 0
  {
  }

  lemma TwoOctets(n: Uint16)
    ensures BigEndian(n, 2) == [n / 256, n % 256]
  {
    assert BigEndian(n / 256, 1) == BigEndian(n / 256 / 256, 0) + [n / 256 % 256];
    assert BigEndian(n / 256 / 256, 0) == [];
  }

  lemma SequenceDigits(h: Fields)
    ensures BigEndian(SequenceWord(h), 4) ==
            [h.sequence / 0x1_0000 % 256, h.sequence / 256 % 256, h.sequence % 256,
             if HasPriority(h) then h.priority % 16 * 16 else 0]
  {
    hide BigEndian, Pow256, SequenceWord;
    var number := h.sequence % 0x100_0000;
    WordDigits(SequenceWord(h));
    SequenceReadsBack(h);
    LastOctet(h);
    LowDigits(h.sequence, number);
  }

  lemma LastOctet(h: Fields)
    ensures SequenceWord(h) % 256 == if HasPriority(h) then h.priority % 16 * 16 else 0
  {
  }

  lemma WordDigits(word: Uint32)
    ensures BigEndian(word, 4) == [word / 256 / 0x1_0000 % 256, word / 256 / 256 % 256, word / 256 % 256, word % 256]
  {
    hide BigEndian, Pow256;
    Pow256Values();
    Pow256Three();
    BigEndianDigit(word, 4, 0);
    BigEndianDigit(word, 4, 1);
    BigEndianDigit(word, 4, 2);
    BigEndianDigit(word, 4, 3);
    DivideTwice(word, 0x1_0000);
    DivideTwice(word, 256);
  }

  lemma Pow256Three()
    ensures Pow256(0) == 1 && Pow256(3) == 0x100_0000
  {
  }

  lemma LowDigits(n: nat, m: nat)
    requires m == n % 0x100_0000
    ensures m / 0x1_0000 % 256 == n / 0x1_0000 % 256 && m / 256 % 256 == n / 256 % 256 && m % 256 == n % 256
  {
    CutOnce(n, m);
    CutTwice(n / 256, m / 256);
    DivideTwice(n, 256);
    DivideTwice(m, 256);
  }

  lemma CutOnce(n: nat, m: nat)
    requires m == n % 0x100_0000
    ensures m % 256 == n % 256 && m / 256 == n / 256 % 0x1_0000
  {
  }

  lemma CutTwice(n: nat, m: nat)
    requires m == n % 0x1_0000
    ensures m % 256 == n % 256 && m / 256 == n / 256 % 256
  {
  }

  predicate InRange(h: Fields) {
    h.version < 8 && h.mp < 2 && h.s < 2 && h.sequence < 0x100_0000 && h.priority < 16
  }

  /** For fields in their range the header is the same but for what was absent. */
  lemma CanonicalInRange(h: Fields)
    requires InRange(h)
    ensures Canonical(h, NO_FIELDS)
            == h.(seid := if HasSeid(h) then h.seid else 0, priority := if HasPriority(h) then h.priority else 0)
  {
  }

  // ----------------------------------------------------------------- the objects

  class Header {
    var version: Octet
    var mp: Octet
    var s: Octet
    var kind: Octet
    var length: Uint16
    var seid: Uint64
    var sequence: Uint32
    var priority: Octet

    constructor ()
      ensures Value() == NO_FIELDS
    {
      version, mp, s, kind, length, seid, sequence, priority := 0, 0, 0, 0, 0, 0, 0, 0;
    }

    function Value(): (h: Fields)
      reads this
    {
      Fields(version, mp, s, kind, length, seid, sequence, priority)
    }

    method MarshalBinary() returns (b: Octets)
      ensures b == HeaderOctets(Value())
    {
      hide BigEndian;
      var v: int, m: int, sbit: int := version % 8, mp % 2, s % 2;
      var flags: Octet := 32 * v + 2 * m + sbit;
      b := [flags, kind] + BigEndian(length, 2);
      if s % 2 != 0 {
        b := b + BigEndian(seid, 8);
      }
      var spareAndPriority: int := 0;
      if mp % 2 != 0 {
        var p: int := priority % 16;
        spareAndPriority := 16 * p;
      }
      var number: int := sequence % 0x100_0000;
      b := b + BigEndian(256 * number + spareAndPriority, 4);
    }

    /** An empty input is an error and changes nothing; a short one fills what it can. */
    method UnmarshalBinary(data: Octets) returns (ok: bool)
      modifies this
      ensures ok <==> data != []
      ensures ok ==> ParseHeader(data, old(Value())) == Some(Value())
      ensures !ok ==> Value() == old(Value())
    {
      hide ReadNumber, Advance, Pow256;
      if data == [] {
        return false;
      }
      Pow256Values();
      version, mp, s := data[0] / 32, data[0] / 2 % 2, data[0] % 2;
      kind := ReadNumber(data, 1, 1, kind);
      var p := Advance(data, 1, 1);
      length := ReadNumber(data, p, 2, length);
      p := Advance(data, p, 2);
      if s == 1 {
        seid := ReadNumber(data, p, 8, seid);
        p := Advance(data, p, 8);
      }
      var word := ReadNumber(data, p, 4, 0);
      sequence := word / 256;
      if mp == 1 {
        priority := word % 256 / 16;
      }
      return true;
    }
  }

  class Message {
    const header: Header
    var body: Tlv.Value

    constructor ()
      ensures fresh(header) && header.Value() == NO_FIELDS && body == Tlv.Nil
    {
      header := new Header();
      body := Tlv.Nil;
    }

    /** Sets the length field and returns header and body. */
    method Marshal(bodies: Catalogue) returns (r: Option<Octets>)
      modifies header
      ensures match Send(bodies, old(header.Value()), body)
              case None => r == None && header.Value() == old(header.Value())
              case Some(sent) => r == Some(sent.1) && header.Value() == sent.0
    {
      hide HeaderOctets, Tlv.Build;
      var shape := bodies(header.kind);
      if !shape.Struct? {
        return None;
      }
      var octets := TlvCodec.BuildTlv(0, shape, body);
      if octets.None? {
        return None;
      }
      var length := if header.s % 2 != 0 then 12 else 4;
      header.length := (length + |octets.value| % 0x1_0000) % 0x1_0000;
      var front := header.MarshalBinary();
      return Some(front + octets.value);
    }

    /** Fills the header and, if everything is in order, the body. */
    method Unmarshal(bodies: Catalogue, data: Octets) returns (ok: bool)
      modifies this, header
      ensures match Receive(bodies, data, old(header.Value()))
              case BadHeader => !ok && header.Value() == old(header.Value()) && body == old(body)
              case Rejected(h) => !ok && header.Value() == h && body == old(body)
              case Delivered(h, v) => ok && header.Value() == h && body == v
    {
      hide ParseHeader, Tlv.DecodeInto;
      ok := header.UnmarshalBinary(data);
      if !ok {
        assert ParseHeader(data, old(header.Value())).None? by {
          EmptyHeader(old(header.Value()));
        }
        return;
      }
      if header.length != |data| - 4 || !Supported(header.kind) || |data| < Len(header.Value()) {
        return false;
      }
      var shape := bodies(header.kind);
      var v := TlvCodec.DecodeValue(shape, data[Len(header.Value())..], Tlv.Zero(shape));
      if v.None? {
        return false;
      }
      body := v.value;
      return true;
    }
  }

  lemma EmptyHeader(g: Fields)
    ensures ParseHeader([], g) == None
  {
  }
}
