/** Exactly which BIT STRING and OCTET STRING lengths survive the encoding. */
module PerStrings {
  import opened Wrappers
  import opened PerBits
  import opened PerSpec
  import opened PerPrimitives

  // ------------------------------------------------------------------ one fragment

  lemma ChunkReadsBack(w: Bits, unit: nat, data: Bits, n: nat, s: Bits)
    requires unit == 1 || unit == 8
    requires |data| >= 8 * OctetsFor(Scale(unit, n))
    requires Aligned(w) + data[..Scale(unit, n)] <= s && |s| % 8 == 0
    ensures var r := GetChunk(s, |w|, unit, n);
            && r.Got? && r.pos == |Aligned(w)| + Scale(unit, n)
            && |r.value| == 8 * OctetsFor(Scale(unit, n))
            && r.value[..Scale(unit, n)] == data[..Scale(unit, n)]
  {
    assert Aligned(w) <= s;
    AlignReadsBack(w, s);
    PrefixSlice(Aligned(w), data[..Scale(unit, n)], s);
    var a, take := |Aligned(w)|, 8 * OctetsFor(Scale(unit, n));
    assert a + take <= |s| by {
      WholeOctetsFit(a, Scale(unit, n), |s|);
    }
    assert s[a..a + take][..Scale(unit, n)] == s[a..a + Scale(unit, n)];
  }

  lemma WholeOctetsFit(a: nat, n: nat, total: nat)
    requires a % 8 == 0 && total % 8 == 0 && a + n <= total
    ensures a + 8 * OctetsFor(n) <= total
  {
  }

  /** The last turn of the writer's loop. */
  lemma WriterLastTurn(w: Bits, unit: nat, sizeRange: int, lb: nat, data: Bits, raw: nat, length: Bits)
    requires unit == 1 || unit == 8
    requires FragmentSize(raw) == raw && |data| >= 8 * OctetsFor(Scale(unit, raw + lb))
    requires PutLength(w, sizeRange, raw) == Some(length)
    ensures PutFragments(w, unit, sizeRange, lb, data, raw) ==
            Some(if raw + lb == 0 then length else Aligned(length) + data[..Scale(unit, raw + lb)])
  {
    hide PutLength, Aligned, FragmentSize, OctetsFor, Scale;
  }

  /** The last turn of the reader's loop. */
  lemma ReaderLastTurn(s: Bits, p: nat, unit: nat, sizeRange: int, lb: nat, n: nat, q: nat)
    requires unit == 1 || unit == 8
    requires p <= |s| && |s| % 8 == 0
    requires GetLength(s, p, sizeRange) == Got((n, false), q)
    ensures GetFragments(s, p, unit, sizeRange, lb) ==
            if n + lb == 0 then Got(Collected([], 0), q)
            else
              var chunk := GetChunk(s, q, unit, n + lb);
              if chunk.Fail? then Fail(chunk.pos) else Got(Collected(chunk.value, n + lb), chunk.pos)
  {
    hide GetLength, GetChunk, Scale;
  }

  /** A string that goes out in one piece comes back, whatever its bound and length field. */
  lemma OneFragmentReadsBack(w: Bits, unit: nat, sizeRange: int, lb: nat, data: Bits, raw: nat, w': Bits, s: Bits)
    requires unit == 1 || unit == 8
    requires |data| >= 8 * OctetsFor(Scale(unit, raw + lb))
    requires FragmentSize(raw) == raw && (raw < 16384 || 0 < sizeRange <= 65536)
    requires PutFragments(w, unit, sizeRange, lb, data, raw) == Some(w') && w' <= s && |s| % 8 == 0
    ensures var r := GetFragments(s, |w|, unit, sizeRange, lb);
            && r.Got? && r.pos == |w'| && r.value.units == raw + lb
            && r.value.octets[..Scale(unit, raw + lb)] == data[..Scale(unit, raw + lb)]
  {
    hide PutFragments, GetFragments, PutLength, GetLength, GetChunk, Aligned, OctetsFor, FragmentSize, Scale;
    var w1 := LengthWritten(w, unit, sizeRange, lb, data, raw, w');
    WriterLastTurn(w, unit, sizeRange, lb, data, raw, w1);
    var n := raw + lb;
    LastChunk(w1, unit, data, n, w', s);
    LengthReadsBack(w, sizeRange, raw, w1, s);
    ReaderLastTurn(s, |w|, unit, sizeRange, lb, raw, |w1|);
    if n == 0 {
      ScaleOfZero(unit);
    }
  }

  lemma LastChunk(w1: Bits, unit: nat, data: Bits, n: nat, w': Bits, s: Bits)
    requires unit == 1 || unit == 8
    requires |data| >= 8 * OctetsFor(Scale(unit, n)) && w' <= s && |s| % 8 == 0
    requires w' == if n == 0 then w1 else Aligned(w1) + data[..Scale(unit, n)]
    ensures w1 <= s
    ensures var r := GetChunk(s, |w1|, unit, n);
            n > 0 ==> r.Got? && r.pos == |w'| && r.value[..Scale(unit, n)] == data[..Scale(unit, n)]
  {
    hide GetChunk, OctetsFor, Scale, Zeros, PadLen;
    if n > 0 {
      assert Aligned(w1) <= w';
      assert w1 <= Aligned(w1);
      assert w1 <= s;
      ChunkReadsBack(w1, unit, data, n, s);
    }
  }

  lemma ScaleOfZero(unit: nat)
    ensures Scale(unit, 0) == 0
  {
  }

  lemma LengthWritten(w: Bits, unit: nat, sizeRange: int, lb: nat, data: Bits, raw: nat, w': Bits) returns (w1: Bits)
    requires unit == 1 || unit == 8
    requires PutFragments(w, unit, sizeRange, lb, data, raw) == Some(w')
    ensures PutLength(w, sizeRange, FragmentSize(raw)) == Some(w1)
  {
    hide PutLength, Aligned, FragmentSize, OctetsFor, Scale;
    w1 := PutLength(w, sizeRange, FragmentSize(raw)).value;
  }

  // ---------------------------------------------------------------- many fragments

  lemma FragmentShape(raw: nat)
    ensures raw >= 16384 ==> FragmentSize(raw) % 16384 == 0
    ensures raw % 16384 != 0 && raw >= 16384 ==> 16384 <= FragmentSize(raw) <= 65536 && FragmentSize(raw) < raw
    ensures FragmentSize(raw) == raw <==> raw < 16384 || (raw % 16384 == 0 && raw < 65536)
  {
  }

  lemma FragmentRest(unit: nat, part: nat, raw: nat)
    requires unit == 1 || unit == 8
    requires part <= raw && part % 16384 == 0
    ensures 8 * OctetsFor(Scale(unit, part)) == Scale(unit, part)
    ensures 8 * OctetsFor(Scale(unit, raw)) == Scale(unit, part) + 8 * OctetsFor(Scale(unit, raw - part))
  {
    assert part == 8 * (part / 8);
  }

  /** One turn of the writer's loop that is not the last one. */
  lemma WriterTurn(w: Bits, unit: nat, sizeRange: int, lb: nat, data: Bits, raw: nat, part: nat)
    requires unit == 1 || unit == 8
    requires part == FragmentSize(raw) < raw && part + lb > 0
    ensures PutFragments(w, unit, sizeRange, lb, data, raw) ==
            var take := 8 * OctetsFor(Scale(unit, part + lb));
            var length := PutLength(w, sizeRange, part);
            if length.None? || take > |data| then None
            else PutFragments(Aligned(length.value) + data[..take], unit, sizeRange, lb, data[take..], raw - part)
  {
    hide PutLength, Aligned, FragmentSize, OctetsFor, Scale;
  }

  /** One turn of the reader's loop that is not the last one. */
  lemma ReaderTurn(s: Bits, p: nat, unit: nat, lb: nat, n: nat, q: nat, octets: Bits, a: nat)
    requires unit == 1 || unit == 8
    requires p <= |s| && |s| % 8 == 0 && n > 0
    requires GetLength(s, p, -1) == Got((n, true), q) && GetChunk(s, q, unit, n + lb) == Got(octets, a)
    ensures GetFragments(s, p, unit, -1, lb) ==
            var rest := GetFragments(s, a, unit, -1, lb);
            if rest.Fail? then Fail(rest.pos)
            else Got(Collected(octets + rest.value.octets, n + lb + rest.value.units), rest.pos)
  {
    hide GetLength, GetChunk, Scale;
  }

  /** The reader follows the writer through one full fragment. */
  lemma FullFragmentReadsBack(w: Bits, unit: nat, data: Bits, part: nat, w1: Bits, w2: Bits, s: Bits)
    requires unit == 1 || unit == 8
    requires 16384 <= part <= 65536 && part % 16384 == 0 && Scale(unit, part) <= |data|
    requires PutLength(w, -1, part) == Some(w1)
    requires w2 == Aligned(w1) + data[..Scale(unit, part)] && w2 <= s && |s| % 8 == 0
    ensures GetLength(s, |w|, -1) == Got((part, true), |w1|)
    ensures GetChunk(s, |w1|, unit, part) == Got(data[..Scale(unit, part)], |w2|)
  {
    hide GetLength, PutLength, GetChunk, Aligned, OctetsFor;
    FragmentRest(unit, part, part);
    var chunk := data[..Scale(unit, part)];
    assert chunk[..Scale(unit, part)] == chunk;
    assert w1 <= s;
    LengthReadsBack(w, -1, part, w1, s);
    ChunkReadsBack(w1, unit, chunk, part, s);
    var r := GetChunk(s, |w1|, unit, part).value;
    assert r == r[..Scale(unit, part)];
  }

  /**
    Fragmentation loses nothing: unless the length is a positive multiple of 16384,
    the reader's loop collects exactly the octets that were split up.
  */
  lemma {:induction false} FragmentsReadBack(w: Bits, unit: nat, data: Bits, raw: nat, w': Bits, s: Bits)
    requires unit == 1 || unit == 8
    requires |data| >= 8 * OctetsFor(Scale(unit, raw))
    requires raw % 16384 != 0 || raw == 0
    requires PutFragments(w, unit, -1, 0, data, raw) == Some(w') && w' <= s && |s| % 8 == 0
    ensures var r := GetFragments(s, |w|, unit, -1, 0);
            && r.Got? && r.pos == |w'| && r.value.units == raw
            && r.value.octets[..Scale(unit, raw)] == data[..Scale(unit, raw)]
    decreases raw
  {
    hide PutFragments, GetFragments, PutLength, GetLength, GetChunk, Aligned, OctetsFor, FragmentSize, Scale;
    if raw < 16384 {
      FragmentShape(raw);
      OneFragmentReadsBack(w, unit, -1, 0, data, raw, w', s);
    } else {
      var part := FragmentSize(raw);
      var rest := raw - part;
      assert 16384 <= part <= 65536 && part < raw && part % 16384 == 0 && rest % 16384 != 0 by {
        FragmentShape(raw);
        RestNotMultiple(raw, part);
      }
      var take := Scale(unit, part);
      FragmentRest(unit, part, raw);
      ScaleAdds(unit, part, rest);
      WriterTurn(w, unit, -1, 0, data, raw, part);
      var w1 := LengthWritten(w, unit, -1, 0, data, raw, w');
      var w2 := Aligned(w1) + data[..take];
      FullFragmentReadsBack(w, unit, data, part, w1, w2, s);
      FragmentsReadBack(w2, unit, data[take..], rest, w', s);
      ReaderTurn(s, |w|, unit, 0, part, |w1|, data[..take], |w2|);
      JoinChunks(data, take, GetFragments(s, |w2|, unit, -1, 0).value.octets, Scale(unit, rest));
    }
  }

  lemma RestNotMultiple(raw: nat, part: nat)
    requires part <= raw && part % 16384 == 0
    ensures (raw - part) % 16384 == raw % 16384
  {
  }

  lemma JoinChunks(data: Bits, take: nat, rest: Bits, n: nat)
    requires take + n <= |data| && n <= |rest| && rest[..n] == data[take..][..n]
    ensures (data[..take] + rest)[..take + n] == data[..take + n]
  {
    assert (data[..take] + rest)[..take + n] == data[..take] + rest[..n];
    assert data[..take + n] == data[..take] + data[take..][..n];
  }

  /** For a positive multiple of 16384 the reader never ends where the writer did with all of the data. */
  lemma {:induction false} FragmentsLose(w: Bits, unit: nat, data: Bits, raw: nat, w': Bits, s: Bits)
    requires unit == 1 || unit == 8
    requires |data| >= 8 * OctetsFor(Scale(unit, raw))
    requires raw % 16384 == 0 && raw > 0
    requires PutFragments(w, unit, -1, 0, data, raw) == Some(w') && w' <= s && |s| % 8 == 0
    ensures var r := GetFragments(s, |w|, unit, -1, 0);
            !(r.Got? && r.pos == |w'| && r.value.units == raw)
    decreases raw
  {
    hide PutFragments, GetFragments, GetLength, PutLength, GetChunk, Aligned, OctetsFor, FragmentSize;
    var part := FragmentSize(raw);
    FragmentShape(raw);
    RestNotMultiple(raw, part);
    FragmentRest(unit, part, raw);
    var w1 := LengthWritten(w, unit, -1, 0, data, raw, w');
    if part == 0 {
      // Only for 65536, whose masked size is 0: the writer stops after an empty fragment.
      EmptyFragment(w, unit, data, raw, w1);
      LengthReadsBack(w, -1, 0, w1, s);
      ReaderLastTurn(s, |w|, unit, -1, 0, 0, |w1|);
    } else {
      var take := Scale(unit, part);
      var w2 := Aligned(w1) + data[..take];
      if part < raw {
        WriterTurn(w, unit, -1, 0, data, raw, part);
        FragmentsLose(w2, unit, data[take..], raw - part, w', s);
      } else {
        WriterLastTurn(w, unit, -1, 0, data, raw, w1);
      }
      FullFragmentReadsBack(w, unit, data, part, w1, w2, s);
      ReaderTurn(s, |w|, unit, 0, part, |w1|, data[..take], |w2|);
    }
  }

  lemma EmptyFragment(w: Bits, unit: nat, data: Bits, raw: nat, length: Bits)
    requires unit == 1 || unit == 8
    requires FragmentSize(raw) == 0 && PutLength(w, -1, 0) == Some(length)
    ensures PutFragments(w, unit, -1, 0, data, raw) == Some(length)
  {
    hide PutLength, Aligned, FragmentSize, OctetsFor, Scale;
  }

  lemma OctetsForSum(unit: nat, a: nat, b: nat, lb: nat)
    requires unit == 1 || unit == 8
    ensures OctetsFor(Scale(unit, a + b + lb)) <= OctetsFor(Scale(unit, a + lb)) + OctetsFor(Scale(unit, b + lb))
  {
  }

  /** With a lower bound, too few octets stop the writer in the end. */
  lemma {:induction false} ShortDataFails(w: Bits, unit: nat, sizeRange: int, lb: nat, data: Bits, raw: nat)
    requires unit == 1 || unit == 8
    requires lb > 0 && |data| < 8 * OctetsFor(Scale(unit, raw + lb))
    ensures PutFragments(w, unit, sizeRange, lb, data, raw).None?
    decreases |data|
  {
    hide PutLength, Aligned, OctetsFor, FragmentSize;
    var part := FragmentSize(raw);
    if part < raw {
      WriterTurn(w, unit, sizeRange, lb, data, raw, part);
      var take := 8 * OctetsFor(Scale(unit, part + lb));
      var length := PutLength(w, sizeRange, part);
      if length.Some? && take <= |data| {
        OctetsForSum(unit, part, raw - part, lb);
        ShortDataFails(Aligned(length.value) + data[..take], unit, sizeRange, lb, data[take..], raw - part);
      }
    }
  }

  /** A slice without spare capacity has no second fragment under a lower bound, which every fragment repeats. */
  lemma ManyFragmentsNeedNoBound(w: Bits, unit: nat, sizeRange: int, lb: nat, data: Bits, raw: nat)
    requires unit == 1 || unit == 8
    requires lb > 0 && |data| == 8 * OctetsFor(Scale(unit, raw + lb)) && FragmentSize(raw) != raw
    ensures PutFragments(w, unit, sizeRange, lb, data, raw).None?
  {
    hide PutFragments, PutLength, Aligned, OctetsFor, FragmentSize, Scale;
    var part := FragmentSize(raw);
    FragmentShape(raw);
    WriterTurn(w, unit, sizeRange, lb, data, raw, part);
    var take := 8 * OctetsFor(Scale(unit, part + lb));
    var length := PutLength(w, sizeRange, part);
    if length.Some? && take <= |data| {
      BoundTakesAnOctet(unit, part, raw, lb);
      ShortDataFails(Aligned(length.value) + data[..take], unit, sizeRange, lb, data[take..], raw - part);
    }
  }

  lemma BoundTakesAnOctet(unit: nat, part: nat, raw: nat, lb: nat)
    requires unit == 1 || unit == 8
    requires part <= raw && part % 16384 == 0 && lb > 0
    ensures OctetsFor(Scale(unit, raw + lb)) < OctetsFor(Scale(unit, part + lb)) + OctetsFor(Scale(unit,
            raw - part + lb))
  {
    FragmentRest(unit, part, raw + lb);
    FragmentRest(unit, part, part + lb);
  }

  /** A last fragment that is announced as "more to come" makes the reader run on. */
  lemma MarkedLastFragmentLoses(w: Bits, unit: nat, lb: nat, data: Bits, raw: nat, w': Bits, s: Bits)
    requires unit == 1 || unit == 8
    requires |data| >= 8 * OctetsFor(Scale(unit, raw + lb)) && raw >= 16384 && FragmentSize(raw) == raw
    requires PutFragments(w, unit, -1, lb, data, raw) == Some(w') && w' <= s && |s| % 8 == 0
    ensures var r := GetFragments(s, |w|, unit, -1, lb); !(r.Got? && r.pos == |w'|)
  {
    hide PutFragments, GetFragments, PutLength, GetLength, GetChunk, Aligned, OctetsFor, FragmentSize, Scale;
    var w1 := LengthWritten(w, unit, -1, lb, data, raw, w');
    WriterLastTurn(w, unit, -1, lb, data, raw, w1);
    assert GetLength(s, |w|, -1) == Got((raw, true), |w1|) by {
      FragmentShape(raw);
      LengthReadsBack(w, -1, raw, w1, s);
    }
    ChunkReadsBack(w1, unit, data, raw + lb, s);
    ReaderTurn(s, |w|, unit, lb, raw, |w1|, GetChunk(s, |w1|, unit, raw + lb).value, |w'|);
  }

  /** Under a constrained length field the reader stops after the first fragment. */
  lemma SplitConstrainedLoses(w: Bits, unit: nat, sizeRange: int, lb: nat, data: Bits, raw: nat, w': Bits, s: Bits)
    requires (unit == 1 || unit == 8) && 0 < sizeRange <= 65536
    requires PutFragments(w, unit, sizeRange, lb, data, raw) == Some(w') && w' <= s && |s| % 8 == 0
    ensures var r := GetFragments(s, |w|, unit, sizeRange, lb); r.Got? ==> r.value.units == FragmentSize(raw) + lb
  {
    hide PutFragments, GetFragments, PutLength, GetLength, GetChunk, Aligned, OctetsFor, FragmentSize, Scale;
    var w1 := LengthWritten(w, unit, sizeRange, lb, data, raw, w');
    assert w1 <= s by {
      LengthIsPrefix(w, unit, sizeRange, lb, data, raw, w1, w');
    }
    var part := FragmentSize(raw);
    LengthReadsBack(w, sizeRange, part, w1, s);
    ReaderLastTurn(s, |w|, unit, sizeRange, lb, part, |w1|);
  }

  lemma LengthIsPrefix(w: Bits, unit: nat, sizeRange: int, lb: nat, data: Bits, raw: nat, w1: Bits, w': Bits)
    requires unit == 1 || unit == 8
    requires PutFragments(w, unit, sizeRange, lb, data, raw) == Some(w')
    requires PutLength(w, sizeRange, FragmentSize(raw)) == Some(w1)
    ensures w1 <= w'
  {
    hide PutLength, FragmentSize, OctetsFor, Scale;
  }

  // -------------------------------------------- many fragments under a lower bound

  /** The size masked to 0 never goes down, so the writer runs through all of the capacity. */
  lemma {:induction false} MaskedSizeFails(w: Bits, unit: nat, sizeRange: int, lb: nat, data: Bits)
    requires (unit == 1 || unit == 8) && lb > 0
    ensures PutFragments(w, unit, sizeRange, lb, data, 65536).None?
    decreases |data|
  {
    hide PutLength, Aligned, OctetsFor, Scale;
    WriterTurn(w, unit, sizeRange, lb, data, 65536, 0);
    var take := 8 * OctetsFor(Scale(unit, lb));
    var length := PutLength(w, sizeRange, 0);
    if length.Some? && take <= |data| {
      PositiveSize(unit, lb);
      MaskedSizeFails(Aligned(length.value) + data[..take], unit, sizeRange, lb, data[take..]);
    }
  }

  lemma PositiveSize(unit: nat, n: nat)
    requires (unit == 1 || unit == 8) && n > 0
    ensures OctetsFor(Scale(unit, n)) > 0
  {
  }

  /** Reading a length starts with an alignment, so it may as well start at the boundary. */
  lemma AlignFirst(s: Bits, p: nat, unit: nat, lb: nat)
    requires (unit == 1 || unit == 8) && p <= |s| && |s| % 8 == 0
    ensures p + PadLen(p) <= |s|
    ensures GetAlign(s, p).Got? ==> GetFragments(s, p, unit, -1, lb) == GetFragments(s, p + PadLen(p), unit, -1, lb)
    ensures GetAlign(s, p).Fail? ==> GetFragments(s, p, unit, -1, lb).Fail?
  {
    hide GetChunk, GetFragments, PadLen, Zeros;
    var q := GetAlign(s, p).pos;
    LengthFromBoundary(s, p);
    SameLengthSameRest(s, p, q, unit, lb);
  }

  lemma LengthFromBoundary(s: Bits, p: nat)
    requires p <= |s| && |s| % 8 == 0
    ensures var q := GetAlign(s, p).pos;
            && q == p + PadLen(p)
            && (GetAlign(s, p).Fail? ==> GetLength(s, p, -1).Fail?)
            && (GetAlign(s, p).Got? ==> GetLength(s, p, -1) == GetLength(s, q, -1))
  {
    hide GetValue;
    var q := p + PadLen(p);
    assert PadLen(q) == 0;
    assert s[q..q] == Zeros(0);
  }

  lemma SameLengthSameRest(s: Bits, p: nat, q: nat, unit: nat, lb: nat)
    requires (unit == 1 || unit == 8) && p <= |s| && q <= |s| && |s| % 8 == 0
    ensures GetLength(s, p, -1) == GetLength(s, q, -1) ==>
              GetFragments(s, p, unit, -1, lb) == GetFragments(s, q, unit, -1, lb)
    ensures GetLength(s, p, -1).Fail? ==> GetFragments(s, p, unit, -1, lb).Fail?
  {
    hide GetLength, GetChunk;
  }

  /**
    Every fragment repeats the lower bound: where the reader ends with the writer, it has
    collected more units than were counted whenever there was more than one fragment.
  */
  lemma {:induction false} BoundRepeated(w: Bits, unit: nat, lb: nat, data: Bits, raw: nat, w': Bits, s: Bits)
    requires (unit == 1 || unit == 8) && lb > 0
    requires PutFragments(w, unit, -1, lb, data, raw) == Some(w') && w' <= s && |s| % 8 == 0
    ensures var r := GetFragments(s, |w|, unit, -1, lb);
            r.Got? && r.pos == |w'| ==>
              r.value.units >= raw + lb && (FragmentSize(raw) != raw ==> r.value.units > raw + lb)
    decreases |data|
  {
    hide PutFragments, GetFragments, PutLength, GetLength, GetChunk, GetAlign, Aligned, OctetsFor, FragmentSize, Scale;
    var part := FragmentSize(raw);
    FragmentShape(raw);
    DataSuffices(w, unit, lb, data, raw, w');
    if part == raw && raw < 16384 {
      OneFragmentReadsBack(w, unit, -1, lb, data, raw, w', s);
    } else if part == raw {
      MarkedLastFragmentLoses(w, unit, lb, data, raw, w', s);
    } else if part == 0 {
      MaskedSize(raw);
      MaskedSizeFails(w, unit, -1, lb, data);
    } else {
      BoundRepeatedTurn(w, unit, lb, data, raw, part, w', s);
    }
  }

  lemma MaskedSize(raw: nat)
    requires FragmentSize(raw) == 0 && raw > 0
    ensures raw == 65536
  {
  }

  lemma DataSuffices(w: Bits, unit: nat, lb: nat, data: Bits, raw: nat, w': Bits)
    requires (unit == 1 || unit == 8) && lb > 0
    requires PutFragments(w, unit, -1, lb, data, raw) == Some(w')
    ensures |data| >= 8 * OctetsFor(Scale(unit, FragmentSize(raw) + lb))
  {
    hide PutLength, Aligned, OctetsFor, FragmentSize, Scale;
  }

  lemma {:induction false} BoundRepeatedTurn(w: Bits, unit: nat, lb: nat, data: Bits, raw: nat, part: nat, w': Bits,
                                             s: Bits)
    requires (unit == 1 || unit == 8) && lb > 0 && part == FragmentSize(raw) < raw && part >= 16384 && part % 16384 == 0
    requires |data| >= 8 * OctetsFor(Scale(unit, part + lb))
    requires PutFragments(w, unit, -1, lb, data, raw) == Some(w') && w' <= s && |s| % 8 == 0
    ensures var r := GetFragments(s, |w|, unit, -1, lb); r.Got? && r.pos == |w'| ==> r.value.units > raw + lb
    decreases |data|, 0
  {
    hide PutFragments, GetFragments, PutLength, GetLength, GetChunk, GetAlign, Aligned, OctetsFor, FragmentSize, Scale;
    var n, take := part + lb, 8 * OctetsFor(Scale(unit, part + lb));
    PositiveSize(unit, n);
    WriterTurn(w, unit, -1, lb, data, raw, part);
    var w1 := LengthWritten(w, unit, -1, lb, data, raw, w');
    var w2 := Aligned(w1) + data[..take];
    WholeChunk(w1, unit, data, n, w2, s);
    LengthReadsBack(w, -1, part, w1, s);
    var chunk := GetChunk(s, |w1|, unit, n);
    ReaderTurn(s, |w|, unit, lb, part, |w1|, chunk.value, chunk.pos);
    AlignFirst(s, chunk.pos, unit, lb);
    BoundRepeated(w2, unit, lb, data[take..], raw - part, w', s);
  }

  /** A fragment written in whole octets is read up to its last unit; the next boundary is the writer's. */
  lemma WholeChunk(w1: Bits, unit: nat, data: Bits, n: nat, w2: Bits, s: Bits)
    requires (unit == 1 || unit == 8) && |data| >= 8 * OctetsFor(Scale(unit, n))
    requires w2 == Aligned(w1) + data[..8 * OctetsFor(Scale(unit, n))] && w2 <= s && |s| % 8 == 0
    ensures w1 <= s && GetChunk(s, |w1|, unit, n).Got?
    ensures var q := GetChunk(s, |w1|, unit, n).pos; q + PadLen(q) == |w2|
  {
    hide GetChunk, OctetsFor, Scale, Aligned;
    var bits := Scale(unit, n);
    ChunkEnd(|Aligned(w1)|, bits);
    assert data[..bits] == data[..8 * OctetsFor(bits)][..bits];
    assert Aligned(w1) + data[..bits] <= w2;
    ChunkReadsBack(w1, unit, data, n, s);
  }

  lemma ChunkEnd(a: nat, n: nat)
    requires a % 8 == 0
    ensures n <= 8 * OctetsFor(n) && a + n + PadLen(a + n) == a + 8 * OctetsFor(n)
  {
    DivUnique(a + n, 8, a / 8 + n / 8, n % 8);
    PadToOctets(n);
  }

  lemma PadToOctets(n: nat)
    ensures n + PadLen(n) == 8 * OctetsFor(n)
  {
  }

  // ------------------------------------------------------------- exactly which lengths

  /** Whether `raw` units above the lower bound `low` survive splitting into fragments. */
  predicate FragmentsSurvive(constrained: bool, low: nat, raw: int) {
    0 <= raw && (raw < 16384 || (if constrained then raw % 16384 == 0 else low == 0 && raw % 16384 != 0))
  }

  /** Every size range that is not positive is treated alike. */
  lemma {:induction false} UnconstrainedWrites(w: Bits, unit: nat, sizeRange: int, lb: nat, data: Bits, raw: nat)
    requires (unit == 1 || unit == 8) && sizeRange <= 0
    ensures PutFragments(w, unit, sizeRange, lb, data, raw) == PutFragments(w, unit, -1, lb, data, raw)
    decreases |data|
  {
    hide PutLength, Aligned, OctetsFor, FragmentSize, Scale;
    var part := FragmentSize(raw);
    WrittenForms(w, sizeRange, part);
    var length := PutLength(w, -1, part);
    var take := 8 * OctetsFor(Scale(unit, part + lb));
    if length.Some? && part + lb > 0 && take <= |data| && part < raw {
      PositiveSize(unit, part + lb);
      UnconstrainedWrites(Aligned(length.value) + data[..take], unit, sizeRange, lb, data[take..], raw - part);
    }
  }

  lemma {:induction false} UnconstrainedReads(s: Bits, p: nat, unit: nat, sizeRange: int, lb: nat)
    requires (unit == 1 || unit == 8) && sizeRange <= 0 && p <= |s| && |s| % 8 == 0
    ensures GetFragments(s, p, unit, sizeRange, lb) == GetFragments(s, p, unit, -1, lb)
    decreases |s| - p
  {
    hide GetFragments, GetLength, GetChunk;
    LengthForms(s, p, sizeRange);
    var length := GetLength(s, p, -1);
    if length.Got? && length.value.1 {
      var chunk := GetChunk(s, length.pos, unit, length.value.0 + lb);
      if chunk.Got? {
        UnconstrainedReads(s, chunk.pos, unit, sizeRange, lb);
      }
    }
    SameTurns(s, p, unit, sizeRange, lb);
  }

  lemma SameTurns(s: Bits, p: nat, unit: nat, sizeRange: int, lb: nat)
    requires (unit == 1 || unit == 8) && p <= |s| && |s| % 8 == 0
    requires GetLength(s, p, sizeRange) == GetLength(s, p, -1)
    requires var length := GetLength(s, p, -1);
             length.Got? && length.value.1 ==>
               var chunk := GetChunk(s, length.pos, unit, length.value.0 + lb);
               chunk.Got? ==>
                 GetFragments(s, chunk.pos, unit, sizeRange, lb) == GetFragments(s, chunk.pos, unit, -1, lb)
    ensures GetFragments(s, p, unit, sizeRange, lb) == GetFragments(s, p, unit, -1, lb)
  {
    hide GetLength, GetChunk, Scale;
  }

  lemma WrittenForms(w: Bits, sizeRange: int, v: nat)
    requires sizeRange <= 0
    ensures PutLength(w, sizeRange, v) == PutLength(w, -1, v)
  {
    hide Aligned, PutValue, WithTopBits;
  }

  lemma LengthForms(s: Bits, p: nat, sizeRange: int)
    requires sizeRange <= 0 && p <= |s| && |s| % 8 == 0
    ensures GetLength(s, p, sizeRange) == GetLength(s, p, -1)
  {
    hide GetConstrained, GetAlign, GetValue;
  }

  lemma TrimmedUnits(c: Read<Collected>, unit: nat, data: Bits, len: nat, pos: nat)
    requires unit == 1 || unit == 8
    requires Scale(unit, len) <= |data| && (c.Got? ==> Scale(unit, c.value.units) <= |c.value.octets|)
    ensures Trimmed(c, unit) == Got(data[..Scale(unit, len)], pos) <==>
            && c.Got? && c.pos == pos && c.value.units == len
            && c.value.octets[..Scale(unit, len)] == data[..Scale(unit, len)]
  {
  }

  /** The reader's fragment loop at `p` returns the first `len` units of `data` and ends at `pos`. */
  predicate Returns(s: Bits, p: nat, unit: nat, sizeRange: int, low: nat, data: Bits, len: nat, pos: nat) {
    && (unit == 1 || unit == 8) && p <= |s| && |s| % 8 == 0 && Scale(unit, len) <= |data|
    && Trimmed(GetFragments(s, p, unit, sizeRange, low), unit) == Got(data[..Scale(unit, len)], pos)
  }

  lemma VariableExact(w: Bits, unit: nat, sizeRange: int, low: nat, data: Bits, len: nat, w': Bits, s: Bits)
    requires unit == 1 || unit == 8
    requires |data| >= 8 * OctetsFor(Scale(unit, len)) && len < TWO64 && low < TWO63
    requires sizeRange <= 0 || (sizeRange <= 65536 && len < low + sizeRange)
    requires PutFragments(w, unit, sizeRange, low, data, Minus64(len, low)) == Some(w') && w' <= s && |s| % 8 == 0
    ensures |w| < |s|
            && (Returns(s, |w|, unit, sizeRange, low, data, len, |w'|)
                <==> FragmentsSurvive(sizeRange > 0, low, len - low))
  {
    hide PutFragments, GetFragments, OctetsFor, FragmentSize, Scale, Trimmed;
    var raw := Minus64(len, low);
    FragmentShape(raw);
    if sizeRange <= 0 {
      UnconstrainedWrites(w, unit, sizeRange, low, data, raw);
      UnconstrainedReads(s, |w|, unit, sizeRange, low);
    }
    TrimmedUnits(GetFragments(s, |w|, unit, sizeRange, low), unit, data, len, |w'|);
    if len >= low && (raw < 16384 || (FragmentSize(raw) == raw && sizeRange > 0)) {
      OneFragmentReadsBack(w, unit, sizeRange, low, data, raw, w', s);
    } else if sizeRange > 0 {
      SplitConstrainedLoses(w, unit, sizeRange, low, data, raw, w', s);
    } else if low > 0 {
      BoundRepeated(w, unit, low, data, raw, w', s);
      if len >= low && FragmentSize(raw) == raw {
        MarkedLastFragmentLoses(w, unit, low, data, raw, w', s);
      }
    } else if raw % 16384 != 0 {
      FragmentsReadBack(w, unit, data, raw, w', s);
    } else {
      FragmentsLose(w, unit, data, raw, w', s);
    }
  }

  lemma FlagReadsBack(w: Bits, present: bool, bit: bool, s: Bits)
    requires (if present then w + [bit] else w) <= s && |s| % 8 == 0
    ensures GetFlag(s, |w|, present) == Got(present && bit, if present then |w| + 1 else |w|)
  {
    if present {
      assert (w + [bit])[|w|] == bit;
    }
  }

  lemma FixedExact(w: Bits, unit: nat, data: Bits, extra: Bits, len: nat, size: nat, w': Bits, s: Bits)
    requires unit == 1 || unit == 8
    requires |data| == 8 * OctetsFor(Scale(unit, len)) && len <= size
    requires OctetsFor(Scale(unit, len)) > 2 || unit == 8 ==> len == size
    requires Some(w') == if OctetsFor(Scale(unit, len)) > 2 then Some(Aligned(w) + WholeSlice(unit, data, extra, len))
                         else PutString(w, data[..Scale(unit, len)])
    requires w' <= s && |s| % 8 == 0
    ensures GetFixed(s, |w|, unit, size) == Got(data[..Scale(unit, len)], |w'|)
            <==> len == size && size >= 1 && (extra == [] || OctetsFor(Scale(unit, len)) <= 2)
  {
    if len == size {
      if OctetsFor(Scale(unit, len)) > 2 {
        hide GetChunk, Aligned, OctetsFor, WholeSlice;
        assert Aligned(w) + data[..Scale(unit, len)] <= s by {
          SlicePrefix(unit, data, extra, len);
          PrefixChain(Aligned(w), data[..Scale(unit, len)], WholeSlice(unit, data, extra, len), s);
        }
        ChunkReadsBack(w, unit, data, len, s);
      } else {
        PrefixSlice(w, data[..Scale(unit, len)], s);
      }
    }
  }

  lemma SlicePrefix(unit: nat, data: Bits, extra: Bits, len: nat)
    requires |data| == 8 * OctetsFor(Scale(unit, len))
    ensures data[..Scale(unit, len)] <= WholeSlice(unit, data, extra, len)
  {
  }

  lemma PrefixChain(a: Bits, b: Bits, c: Bits, s: Bits)
    requires b <= c && a + c <= s
    ensures a + b <= s
  {
    assert a + b <= a + c;
  }

  // ----------------------------------------------- an extension bit that is not there

  /** What a string costs the reader: a length octet for each fragment, then its units. */
  lemma {:induction false} FragmentsCost(s: Bits, p: nat, unit: nat, lb: nat)
    requires (unit == 1 || unit == 8) && p <= |s| && |s| % 8 == 0 && p % 8 == 0
    ensures var r := GetFragments(s, p, unit, -1, lb);
            r.Got? ==> && p + 8 + Scale(unit, r.value.units) <= r.pos
                       && (s[p] ==> p + 16 + Scale(unit, r.value.units) <= r.pos)
    decreases |s| - p
  {
    hide GetFragments, GetLength, GetChunk, PadLen;
    var length := GetLength(s, p, -1);
    LengthCost(s, p);
    if length.Got? {
      var n, q := length.value.0 + lb, length.pos;
      if length.value.1 {
        var chunk := GetChunk(s, q, unit, n);
        ReaderStops(s, p, unit, lb);
        if chunk.Got? {
          ChunkCost(s, q, unit, n);
          ReaderTurn(s, p, unit, lb, length.value.0, q, chunk.value, chunk.pos);
          AlignFirst(s, chunk.pos, unit, lb);
          var next := chunk.pos + PadLen(chunk.pos);
          FragmentsCost(s, next, unit, lb);
          var rest := GetFragments(s, next, unit, -1, lb);
          ScaleAdds(unit, n, if rest.Got? then rest.value.units else 0);
        }
      } else {
        ReaderLastTurn(s, p, unit, -1, lb, length.value.0, q);
        ScaleOfZero(unit);
        if n > 0 {
          ChunkCost(s, q, unit, n);
        }
      }
    } else {
      ReaderStops(s, p, unit, lb);
    }
  }

  lemma ScaleAdds(unit: nat, m: nat, n: nat)
    ensures Scale(unit, m + n) == Scale(unit, m) + Scale(unit, n)
  {
  }

  lemma ReaderStops(s: Bits, p: nat, unit: nat, lb: nat)
    requires (unit == 1 || unit == 8) && p <= |s| && |s| % 8 == 0
    ensures GetLength(s, p, -1).Fail? ==> GetFragments(s, p, unit, -1, lb).Fail?
    ensures var length := GetLength(s, p, -1);
            length.Got? && length.value.0 + lb > 0 && GetChunk(s, length.pos, unit, length.value.0 + lb).Fail? ==>
              GetFragments(s, p, unit, -1, lb).Fail?
  {
    hide GetLength, GetChunk;
  }

  lemma LengthCost(s: Bits, p: nat)
    requires p <= |s| && |s| % 8 == 0 && p % 8 == 0
    ensures var r := GetLength(s, p, -1);
            r.Got? ==> p + 8 <= r.pos <= |s| && (s[p] && !r.value.1 ==> p + 16 <= r.pos)
  {
    hide GetValue, Zeros;
    assert PadLen(p) == 0;
    if p + 8 <= |s| && GetValue(s, p, 8).Got? && s[p] {
      TopBitIsLarge(s, p);
    }
  }

  lemma TopBitIsLarge(s: Bits, p: nat)
    requires p + 8 <= |s|
    ensures GetValue(s, p, 8).Got?
    ensures s[p] <==> GetValue(s, p, 8).value >= 128
  {
    hide ValueOf, Pow2;
    var bits := s[p..p + 8];
    Pow2Values();
    TopBit(s[p], s[p + 1..p + 8]);
    assert bits == [s[p]] + s[p + 1..p + 8];
    ValueBelow(bits);
  }

  lemma TopBit(top: bool, low: Bits)
    requires |low| == 7
    ensures ValueOf([top] + low) >= 128 <==> top
  {
    hide ValueOf, Pow2;
    Pow2Values();
    ValueOfConcat([top], low);
    OneBitValue(top);
    ValueBelow(low);
  }

  lemma OneBitValue(b: bool)
    ensures ValueOf([b]) == if b then 1 else 0
  {
    assert [b][..0] == [];
  }

  lemma ValueBelow(bits: Bits)
    ensures ValueOf(bits) < Pow2(|bits|)
  {
  }

  lemma ChunkCost(s: Bits, p: nat, unit: nat, n: nat)
    requires (unit == 1 || unit == 8) && p <= |s| && |s| % 8 == 0
    ensures var r := GetChunk(s, p, unit, n); r.Got? ==> p + Scale(unit, n) <= r.pos <= |s|
  {
  }
}
