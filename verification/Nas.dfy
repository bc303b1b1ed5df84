/**
  The NAS message codec, lib/nas (section 8.2 of 3GPP TS 24.501; formats of information
  elements in section 11.2 of TS 24.007).  Every message type of the code follows one
  pattern, given here by a `Layout`.
*/
module Nas {
  import opened Wrappers
  import opened OctetStrings

  // ------------------------------------------------------------------------- formats

  /** How the value part of an information element is laid out. */
  datatype Format =
    | Fixed(size: nat)                    // octets only
    | Sized(width: nat, size: nat)        // a length, then always the same number of octets
    | Prefix(width: nat, capacity: nat)   // a length, then so many octets of an array
    | Buffered(width: nat)                // a length, then the buffer

  /** The length field and the octets of an element; `Fixed` ones have no length field. */
  datatype Part = Part(len: nat, content: Octets)

  /** A row of optional elements: a half-octet identifier shares its octet with the value. */
  datatype Row =
    | HalfRow(iei: Octet)
    | FullRow(iei: Octet, format: Format)

  datatype Element =
    | Half(octet: Octet)
    | Full(iei: Octet, part: Part)

  datatype Layout = Layout(mandatory: seq<Format>, rows: seq<Row>)

  datatype Message = Message(parts: seq<Part>, slots: seq<Option<Element>>)

  // -------------------------------------------------------------------------- encoder

  /** What the Go types of an element allow. */
  predicate Typed(f: Format, p: Part) {
    match f
    case Fixed(n) => p.len == 0 && |p.content| == n
    case Sized(w, n) => p.len < Pow256(w) && |p.content| == n
    case Prefix(w, capacity) => p.len < Pow256(w) && |p.content| == capacity
    case Buffered(w) => p.len < Pow256(w)
  }

  function EncodePart(f: Format, p: Part): (r: Option<Octets>) {
    if !Typed(f, p) then None
    else
      match f
      case Fixed(_) => Some(p.content)
      case Sized(w, _) => Some(BigEndian(p.len, w) + p.content)
      case Prefix(w, capacity) => if p.len <= capacity then Some(BigEndian(p.len, w) + p.content[..p.len]) else None
      case Buffered(w) => Some(BigEndian(p.len, w) + p.content)
  }

  function EncodeParts(fs: seq<Format>, ps: seq<Part>): (r: Option<Octets>)
    requires |fs| == |ps|
  {
    if fs == [] then Some([])
    else
      match (EncodePart(fs[0], ps[0]), EncodeParts(fs[1..], ps[1..]))
      case (Some(a), Some(b)) => Some(a + b)
      case _ => None
  }

  function EncodeElement(row: Row, e: Element): (r: Option<Octets>) {
    match (row, e)
    case (HalfRow(_), Half(octet)) => Some([octet])
    case (FullRow(_, f), Full(iei, p)) =>
      (match EncodePart(f, p)
       case None => None
       case Some(b) => Some([iei] + b))
    case _ => None
  }

  /** The elements present, in the order of the rows from `i` on. */
  function EncodeSlots(rows: seq<Row>, slots: seq<Option<Element>>, i: nat): (r: Option<Octets>)
    requires i <= |rows| == |slots|
    decreases |rows| - i
  {
    if i == |rows| then Some([])
    else if slots[i].None? then EncodeSlots(rows, slots, i + 1)
    else
      match (EncodeElement(rows[i], slots[i].value), EncodeSlots(rows, slots, i + 1))
      case (Some(a), Some(b)) => Some(a + b)
      case _ => None
  }

  function Encode(l: Layout, m: Message): (r: Option<Octets>) {
    if |m.parts| != |l.mandatory| || |m.slots| != |l.rows| then None
    else
      match (EncodeParts(l.mandatory, m.parts), EncodeSlots(l.rows, m.slots, 0))
      case (Some(a), Some(b)) => Some(a + b)
      case _ => None
  }

  // -------------------------------------------------------------------------- decoder

  function Zeros(n: nat): (b: Octets)
    ensures |b| == n
  {
    seq(n, _ => 0)
  }

  /** A read of `n` octets that comes too late drains the buffer and leaves zeros. */
  function Taken(b: Octets, n: nat): (c: Octets)
    ensures |c| == n
  {
    if n <= |b| then b[..n] else Zeros(n)
  }

  function Left(b: Octets, n: nat): (rest: Octets)
    ensures |rest| <= |b|
  {
    if n <= |b| then b[n..] else []
  }

  function LengthAt(b: Octets, w: nat): (n: nat) {
    if w <= |b| then NumberOf(b[..w]) else 0
  }

  datatype Reading = Reading(part: Part, rest: Octets)

  function ReadPart(f: Format, b: Octets): (r: Option<Reading>)
    ensures r.Some? ==> |r.value.rest| <= |b|
  {
    match f
    case Fixed(n) => Some(Reading(Part(0, Taken(b, n)), Left(b, n)))
    case Sized(w, n) =>
      var body := Left(b, w);
      Some(Reading(Part(LengthAt(b, w), Taken(body, n)), Left(body, n)))
    case Prefix(w, capacity) =>
      var n, body := LengthAt(b, w), Left(b, w);
      if n > capacity then None
      else Some(Reading(Part(n, Taken(body, n) + Zeros(capacity - n)), Left(body, n)))
    case Buffered(w) =>
      var n, body := LengthAt(b, w), Left(b, w);
      Some(Reading(Part(n, Taken(body, n)), Left(body, n)))
  }

  datatype Start = Start(parts: seq<Part>, rest: Octets)

  function ReadParts(fs: seq<Format>, b: Octets): (r: Option<Start>)
    ensures r.Some? ==> |r.value.parts| == |fs| && |r.value.rest| <= |b|
  {
    if fs == [] then Some(Start([], b))
    else
      match ReadPart(fs[0], b)
      case None => None
      case Some(x) =>
        match ReadParts(fs[1..], x.rest)
        case None => None
        case Some(more) => Some(Start([x.part] + more.parts, more.rest))
  }

  /** The identifier that an octet stands for: the upper half if its top bit is set. */
  function Key(octet: Octet): (key: Octet) {
    if octet >= 0x80 then octet / 16 else octet
  }

  /** The row from `i` on with that identifier, or the number of rows. */
  function RowOf(rows: seq<Row>, key: Octet, i: nat): (k: nat)
    requires i <= |rows|
    ensures i <= k <= |rows|
    ensures k < |rows| ==> rows[k].iei == key
    ensures forall j :: i <= j < k ==> rows[j].iei != key
    decreases |rows| - i
  {
    if i == |rows| || rows[i].iei == key then i else RowOf(rows, key, i + 1)
  }

  /** The loop over the optional elements; an unknown identifier costs one octet. */
  function DecodeSlots(rows: seq<Row>, b: Octets, slots: seq<Option<Element>>): (r: Option<seq<Option<Element>>>)
    requires |slots| == |rows|
    ensures r.Some? ==> |r.value| == |rows|
    decreases |b|
  {
    if b == [] then Some(slots)
    else
      var k := RowOf(rows, Key(b[0]), 0);
      if k == |rows| then DecodeSlots(rows, b[1..], slots)
      else
        match rows[k]
        case HalfRow(_) => DecodeSlots(rows, b[1..], slots[k := Some(Half(b[0]))])
        case FullRow(_, f) =>
          match ReadPart(f, b[1..])
          case None => None
          case Some(x) => DecodeSlots(rows, x.rest, slots[k := Some(Full(b[0], x.part))])
  }

  function NoSlots(rows: seq<Row>): (slots: seq<Option<Element>>)
    ensures |slots| == |rows|
  {
    seq(|rows|, _ => None)
  }

  function Decode(l: Layout, b: Octets): (r: Option<Message>) {
    match ReadParts(l.mandatory, b)
    case None => None
    case Some(start) =>
      match DecodeSlots(l.rows, start.rest, NoSlots(l.rows))
      case None => None
      case Some(slots) => Some(Message(start.parts, slots))
  }

  // ------------------------------------------------------------------- one element

  /** The length field says how much of the element is content, and nothing hides behind it. */
  predicate Matching(f: Format, p: Part)
    requires Typed(f, p)
  {
    match f
    case Prefix(_, capacity) => p.len <= capacity && p.content[p.len..] == Zeros(capacity - p.len)
    case Buffered(_) => p.len == |p.content|
    case _ => true
  }
}
