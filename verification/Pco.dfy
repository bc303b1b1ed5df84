/**
  Protocol configuration options, lib/nas/nasConvert (section 10.5.6.3 of 3GPP TS 24.008):
  a list of containers, written in one pass and read by a state machine.
*/
module Pco {
  import opened OctetStrings

  type Uint16 = x: nat | x < 0x1_0000

  datatype Container = Container(id: Uint16, length: Octet, contents: Octets)

  const NEW_CONTAINER: Container := Container(0, 0, [])

  /** Extension bit set, spare and configuration protocol zero. */
  const META: Octet := 0x80

  // ------------------------------------------------------------------------- writing

  function ContainerOctets(c: Container): (b: Octets) {
    U16(c.id) + [c.length] + c.contents
  }

  function Wire(cs: seq<Container>): (b: Octets) {
    if cs == [] then [] else ContainerOctets(cs[0]) + Wire(cs[1..])
  }

  // ------------------------------------------------------------- the reader's states

  datatype State = ReadingID | ReadingLength | ReadingContent

  /** The variables of the reading loop: `count` is the code's own byte counter, `rest` what the reader still holds. */
  datatype Machine = Machine(state: State, current: Container, list: seq<Container>, count: int, rest: Octets)

  /** The list so far, and whether the reading ended without an error. */
  datatype Outcome = Outcome(list: seq<Container>, ok: bool)

  /** One turn of the loop; `None` is a read past the end. */
  datatype Turn = Next(m: Machine) | Failed(list: seq<Container>)

  function Step(m: Machine): (t: Turn) {
    match m.state
    case ReadingID =>
      if |m.rest| < 2 then Failed(m.list)
      else Next(Machine(ReadingLength, NEW_CONTAINER.(id := U16At(m.rest, 0)), m.list, m.count - 2, m.rest[2..]))
    case ReadingLength =>
      if |m.rest| < 1 then Failed(m.list)
      else
        var c := m.current.(length := m.rest[0]);
        Next(Machine(ReadingContent, c, if c.length == 0 then m.list + [c] else m.list, m.count - 1, m.rest[1..]))
    case ReadingContent =>
      var n := m.current.length;
      if n == 0 then Next(m.(state := ReadingID))
      else if |m.rest| < n then Failed(m.list)
      else
        var c := m.current.(contents := m.rest[..n]);
        Next(Machine(ReadingID, c, m.list + [c], m.count - n, m.rest[n..]))
  }

  /** The byte counter is the number of octets left in the reader. */
  predicate Tracks(m: Machine) {
    m.count == |m.rest|
  }

  function Rank(s: State): (n: nat) {
    if s.ReadingContent? then 1 else 0
  }

  /** Every turn keeps the counter right and brings (octets left, state) down. */
  lemma StepKeepsCount(m: Machine)
    requires Tracks(m)
    ensures Step(m).Next? ==> Tracks(Step(m).m)
    ensures Step(m).Next?
            ==> |Step(m).m.rest| < |m.rest| || (|Step(m).m.rest| == |m.rest| && Rank(Step(m).m.state) < Rank(m.state))
    ensures Step(m).Next? ==> m.list <= Step(m).m.list
  {
  }

  /** The whole loop. */
  function Run(m: Machine): (r: Outcome)
    requires Tracks(m)
    decreases |m.rest|, Rank(m.state)
  {
    if m.count <= 0 then Outcome(m.list, true)
    else
      StepKeepsCount(m);
      match Step(m)
      case Failed(list) => Outcome(list, false)
      case Next(next) => Run(next)
  }

  /** `UnMarshal` into an object that holds `list`. */
  function UnMarshal(data: Octets, list: seq<Container>): (r: Outcome) {
    if data == [] then Outcome(list, false)
    else Run(Machine(ReadingID, NEW_CONTAINER, list, |data| - 1, data[1..]))
  }

  // ---------------------------------------------------------------- what is accepted

  /** The grammar that the states spell out: a header cut off at the end of the data is dropped. */
  function Parse(b: Octets): (r: Outcome)
    decreases |b|
  {
    if |b| < 2 then Outcome([], b == [])
    else if |b| == 2 then Outcome([], true)
    else
      var n: nat := b[2];
      if n > 0 && |b| == 3 then Outcome([], true)
      else if |b| < 3 + n then Outcome([], false)
      else
        var more := Parse(b[3 + n..]);
        Outcome([Container(U16At(b, 0), b[2], b[3..3 + n])] + more.list, more.ok)
  }

  function Prefixed(list: seq<Container>, r: Outcome): (o: Outcome) {
    Outcome(list + r.list, r.ok)
  }

  lemma ParseShort(b: Octets)
    requires |b| < 3 || (|b| == 3 && b[2] > 0) || |b| < 3 + b[2] as int
    ensures Parse(b) == Outcome([], b == [] || |b| == 2 || |b| == 3)
  {
    hide U16At;
  }

  lemma ParseOne(b: Octets, n: nat)
    requires |b| >= 3 && n == b[2] && |b| >= 3 + n && (n == 0 || |b| > 3)
    ensures Parse(b) == Prefixed([Container(U16At(b, 0), b[2], b[3..3 + n])], Parse(b[3 + n..]))
  {
    hide U16At;
  }

  lemma RunOn(m: Machine)
    requires Tracks(m) && m.count > 0
    ensures Step(m).Failed? ==> Run(m) == Outcome(Step(m).list, false)
    ensures Step(m).Next? ==> Tracks(Step(m).m) && Run(m) == Run(Step(m).m)
  {
    hide Step;
    StepKeepsCount(m);
  }

  /** Identifier and length. */
  lemma HeaderSteps(m: Machine, c: Container)
    requires Tracks(m) && m.state == ReadingID && |m.rest| >= 3
    requires c == Container(U16At(m.rest, 0), m.rest[2], [])
    ensures Run(m)
            == Run(Machine(ReadingContent, c, if c.length == 0 then m.list + [c] else m.list, m.count - 3, m.rest[3..]))
  {
    hide Run, U16At;
    RunOn(m);
    var m1 := Step(m).m;
    RunOn(m1);
    assert m1.rest[1..] == m.rest[3..];
  }

  /** Contents, or none. */
  lemma ContentStep(m: Machine, n: nat, c: Container)
    requires Tracks(m) && m.state == ReadingContent && m.current.length == n && m.current.contents == []
    requires c == m.current.(contents := if n <= |m.rest| then m.rest[..n] else [])
    ensures m.count > 0 && |m.rest| < n ==> Run(m) == Outcome(m.list, false)
    ensures m.count > 0 && n <= |m.rest| ==>
              Run(m) == Run(Machine(ReadingID, c, if n == 0 then m.list else m.list + [c], m.count - n, m.rest[n..]))
    ensures m.count == 0 ==> Run(m) == Outcome(m.list, true)
  {
    if m.count > 0 {
      hide Run;
      RunOn(m);
      assert n == 0 ==> m.rest[..n] == [] && m.rest[n..] == m.rest;
    }
  }

  lemma RunShort(m: Machine)
    requires Tracks(m) && m.state == ReadingID && |m.rest| < 3
    ensures Run(m) == Outcome(m.list, |m.rest| != 1)
  {
    if |m.rest| == 2 {
      RunOn(m);
    }
  }

  lemma PrefixedMore(list: seq<Container>, c: Container, r: Outcome)
    ensures Prefixed(list, Prefixed([c], r)) == Prefixed(list + [c], r)
  {
    assert list + ([c] + r.list) == list + [c] + r.list;
  }

  /** The machine at a container's start reads what the grammar says. */
  lemma {:induction false} RunParses(m: Machine)
    requires Tracks(m) && m.state == ReadingID
    ensures Run(m) == Prefixed(m.list, Parse(m.rest))
    decreases |m.rest|
  {
    hide U16At, Run, Parse, Step;
    var b := m.rest;
    assert m.list + [] == m.list;
    if |b| < 3 {
      RunShort(m);
      ParseShort(b);
    } else {
      var n: nat := b[2];
      var start := Container(U16At(b, 0), b[2], []);
      HeaderSteps(m, start);
      var m2 := Machine(ReadingContent, start, if n == 0 then m.list + [start] else m.list, m.count - 3, b[3..]);
      var c := start.(contents := if n <= |m2.rest| then m2.rest[..n] else []);
      ContentStep(m2, n, c);
      if |b| >= 3 + n && (n == 0 || |b| > 3) {
        ParseOne(b, n);
        assert c == Container(U16At(b, 0), b[2], b[3..3 + n]);
        var m3 := Machine(ReadingID, c, m.list + [c], m2.count - n, m2.rest[n..]);
        assert m3.rest == b[3 + n..];
        RunParses(m3);
        PrefixedMore(m.list, c, Parse(m3.rest));
        if m2.count == 0 {
          NothingParsed();
          assert m3.rest == [];
          assert m.list + [c] + [] == m.list + [c];
        }
      } else {
        ParseShort(b);
      }
    }
  }

  // -------------------------------------------------------------------- the round trip

  predicate Matching(c: Container) {
    c.length == |c.contents|
  }

  predicate AllMatching(cs: seq<Container>) {
    forall i :: 0 <= i < |cs| ==> Matching(cs[i])
  }

  /** What is read always has matching lengths. */
  lemma {:induction false} ParsedMatch(b: Octets)
    ensures AllMatching(Parse(b).list)
    decreases |b|
  {
    if |b| >= 3 && |b| >= 3 + b[2] as int {
      var n: nat := b[2];
      ParsedMatch(b[3 + n..]);
    }
  }

  lemma ContainerReadsBack(c: Container, rest: Octets)
    requires Matching(c)
    ensures var b := ContainerOctets(c) + rest;
            |b| >= 3 + |c.contents| && U16At(b, 0) == c.id && b[2] == c.length
            && b[3..3 + |c.contents|] == c.contents && b[3 + |c.contents|..] == rest
  {
    assert c.id < 0x1_0000;
  }

  /** Containers of any length, empty ones included, are read back; what follows is read on. */
  lemma {:induction false} WireParses(cs: seq<Container>, rest: Octets)
    requires AllMatching(cs)
    ensures Parse(Wire(cs) + rest) == Prefixed(cs, Parse(rest))
  {
    hide ContainerOctets, U16At, Parse;
    if cs == [] {
      assert Wire(cs) + rest == rest;
      assert [] + Parse(rest).list == Parse(rest).list;
    } else {
      var c, b := cs[0], Wire(cs) + rest;
      assert b == ContainerOctets(c) + (Wire(cs[1..]) + rest);
      assert Matching(cs[0]);
      ContainerReadsBack(c, Wire(cs[1..]) + rest);
      WireParses(cs[1..], rest);
      if |b| == 3 && c.length > 0 {
        assert false;
      }
      ParseOne(b, |c.contents|);
      assert cs == [c] + cs[1..];
      assert [c] + (cs[1..] + Parse(rest).list) == cs + Parse(rest).list;
    }
  }

  function MarshalOf(cs: seq<Container>): (b: Octets) {
    [META] + Wire(cs)
  }

  /** Reading undoes writing exactly for lists whose lengths match. */
  lemma RoundTripExact(cs: seq<Container>)
    ensures UnMarshal(MarshalOf(cs), []) == Outcome(cs, true) <==> AllMatching(cs)
  {
    hide Run, Parse, Wire;
    var b := Wire(cs);
    assert MarshalOf(cs)[1..] == b;
    RunParses(Machine(ReadingID, NEW_CONTAINER, [], |b|, b));
    ParsedMatch(b);
    assert [] + Parse(b).list == Parse(b).list;
    if AllMatching(cs) {
      WireParses(cs, []);
      assert b + [] == b;
      NothingParsed();
      assert cs + [] == cs;
    }
  }

  lemma NothingParsed()
    ensures Parse([]) == Outcome([], true)
  {
  }

  /** The beginning of a container that ends the data before its contents begin. */
  predicate CutHeader(b: Octets) {
    b == [] || |b| == 2 || (|b| == 3 && b[2] > 0)
  }

  lemma HeaderOctets(b: Octets, n: nat)
    requires |b| >= 3 + n && n == b[2]
    ensures ContainerOctets(Container(U16At(b, 0), b[2], b[3..3 + n])) == b[..3 + n]
  {
    var h: int, l: int := b[0], b[1];
    assert (256 * h + l) / 256 == h && (256 * h + l) % 256 == l;
  }

  lemma {:induction false} ParsedWire(b: Octets) returns (cs: seq<Container>, tail: Octets)
    requires Parse(b).ok
    ensures AllMatching(cs) && CutHeader(tail) && b == Wire(cs) + tail && Parse(b).list == cs
    decreases |b|
  {
    hide U16At, ContainerOctets, Parse;
    if CutHeader(b) {
      cs, tail := [], b;
      ParseShort(b);
    } else {
      if |b| < 3 || |b| < 3 + b[2] as int {
        ParseShort(b);
        assert false;
      }
      var n: nat := b[2];
      var c := Container(U16At(b, 0), b[2], b[3..3 + n]);
      ParseOne(b, n);
      var more;
      more, tail := ParsedWire(b[3 + n..]);
      cs := [c] + more;
      assert cs[1..] == more;
      HeaderOctets(b, n);
      assert b == b[..3 + n] + b[3 + n..];
    }
  }

  ghost predicate Accepted(b: Octets, cs: seq<Container>, tail: Octets) {
    AllMatching(cs) && CutHeader(tail) && b == Wire(cs) + tail
  }

  /**
    Data is accepted exactly if it is one octet, which is not looked at, and a list of
    containers, perhaps with a header cut off behind it.
  */
  lemma AcceptedExactly(data: Octets, list: seq<Container>)
    ensures data == [] ==> UnMarshal(data, list) == Outcome(list, false)
    ensures UnMarshal(data, list).ok <==> data != [] && exists cs, tail :: Accepted(data[1..], cs, tail)
    ensures data != [] ==>
              forall cs, tail :: Accepted(data[1..], cs, tail) ==> UnMarshal(data, list) == Outcome(list + cs, true)
  {
    hide Run, Parse, Wire, CutHeader;
    if data == [] {
      return;
    }
    var b := data[1..];
    RunParses(Machine(ReadingID, NEW_CONTAINER, list, |b|, b));
    if Parse(b).ok {
      var cs, tail := ParsedWire(b);
      assert Accepted(b, cs, tail);
    }
    forall cs, tail | Accepted(b, cs, tail) ensures UnMarshal(data, list) == Outcome(list + cs, true) {
      WireParses(cs, tail);
      TailDropped(tail);
      assert cs + [] == cs;
    }
  }

  lemma TailDropped(tail: Octets)
    requires CutHeader(tail)
    ensures Parse(tail) == Outcome([], true)
  {
  }

  // ------------------------------------------------------------------- octet by octet

  /** What is written: the octet 80, then of each container two octets of identifier, one of length and the contents. */
  lemma {:induction false} WrittenOctets(cs: seq<Container>, c: Container)
    ensures MarshalOf([]) == [0x80]
    ensures MarshalOf(cs + [c]) == MarshalOf(cs) + [c.id / 256, c.id % 256, c.length] + c.contents
    decreases |cs|
  {
    hide ContainerOctets;
    if cs == [] {
      assert [c][1..] == [];
      OneContainer(c);
      assert Wire([c]) == ContainerOctets(c) + [];
      assert [] + [c] == [c];
    } else {
      WrittenOctets(cs[1..], c);
      assert (cs + [c])[1..] == cs[1..] + [c];
      assert MarshalOf(cs[1..] + [c]) == [META] + Wire(cs[1..] + [c]);
      assert Wire(cs[1..] + [c]) == Wire(cs[1..]) + [c.id / 256, c.id % 256, c.length] + c.contents by {
        assert MarshalOf(cs[1..] + [c])[1..] == Wire(cs[1..] + [c]);
        assert (MarshalOf(cs[1..]) + [c.id / 256, c.id % 256, c.length] + c.contents)[1..]
            == Wire(cs[1..]) + [c.id / 256, c.id % 256, c.length] + c.contents;
      }
    }
  }

  lemma OneContainer(c: Container)
    ensures ContainerOctets(c) == [c.id / 256, c.id % 256, c.length] + c.contents
  {
  }

  // ------------------------------------------------------------------------ the object

  class ProtocolConfigurationOptions {
    var list: seq<Container>

    constructor ()
      ensures list == []
    {
      list := [];
    }

    method Marshal() returns (b: Octets)
      ensures b == MarshalOf(list)
    {
      hide ContainerOctets;
      b := [META];
      var i := 0;
      assert list[0..] == list;
      while i < |list|
        invariant i <= |list|
        invariant MarshalOf(list) == b + Wire(list[i..])
      {
        assert list[i..][1..] == list[i + 1..];
        assert b + (ContainerOctets(list[i]) + Wire(list[i + 1..]))
          == b + ContainerOctets(list[i]) + Wire(list[i + 1..]);
        b := b + ContainerOctets(list[i]);
        i := i + 1;
      }
    }

    /** The loop with its counter, state and current container. */
    method UnMarshalInto(data: Octets) returns (ok: bool)
      modifies this
      ensures Outcome(list, ok) == UnMarshal(data, old(list))
    {
      hide U16At;
      if data == [] {
        return false;
      }
      var reader := data[1..];
      var numOfBytes: int := |data| - 1;
      var state := ReadingID;
      var current := NEW_CONTAINER;
      while numOfBytes > 0
        invariant numOfBytes == |reader|
        invariant UnMarshal(data, old(list)) == Run(Machine(state, current, list, numOfBytes, reader))
        decreases |reader|, Rank(state)
      {
        match state
        case ReadingID =>
          if |reader| < 2 {
            return false;
          }
          current := NEW_CONTAINER.(id := U16At(reader, 0));
          reader := reader[2..];
          state := ReadingLength;
          numOfBytes := numOfBytes - 2;
        case ReadingLength =>
          current := current.(length := reader[0]);
          reader := reader[1..];
          state := ReadingContent;
          numOfBytes := numOfBytes - 1;
          if current.length == 0 {
            list := list + [current];
          }
        case ReadingContent =>
          if current.length > 0 {
            if |reader| < current.length {
              return false;
            }
            current := current.(contents := reader[..current.length]);
            reader := reader[current.length..];
            list := list + [current];
          }
          numOfBytes := numOfBytes - current.length;
          state := ReadingID;
      }
      return true;
    }
  }
}
