/** `perBitData`: the reader, method by method, against the bits it must have read. */
module PerReader {
  import opened Wrappers
  import opened PerBits
  import opened PerSpec
  import opened PerBitString
  import opened PerSchema

  /** A call returned what the specification does and left the cursor where it says. */
  ghost predicate Done<T>(ok: bool, value: T, pos: nat, spec: Read<T>) {
    ok == spec.Got? && pos == spec.pos && (ok ==> value == spec.value)
  }

  /** The same for a string returned in octets of which the first `n` bits count. */
  ghost predicate DoneBits(ok: bool, octets: seq<Byte>, n: nat, pos: nat, spec: Read<Bits>) {
    ok == spec.Got? && pos == spec.pos && (ok ==> n <= 8 * |octets| && BytesToBits(octets)[..n] == spec.value)
  }

  ghost predicate InBounds(bytes: seq<Byte>, byteOffset: nat, bitsOffset: nat) {
    bitsOffset < 8 && byteOffset <= |bytes| && (bitsOffset > 0 ==> byteOffset < |bytes|)
  }

  lemma BitsFromHere(bytes: seq<Byte>, byteOffset: nat, bitsOffset: nat, n: nat)
    requires InBounds(bytes, byteOffset, bitsOffset) && bitsOffset + n <= 8 * |bytes[byteOffset..]|
    ensures var p := 8 * byteOffset + bitsOffset;
            p + n <= 8 * |bytes|
            && BytesToBits(bytes[byteOffset..])[bitsOffset..bitsOffset + n] == BytesToBits(bytes)[p..p + n]
  {
    hide BytesToBits;
    BytesToBitsSlice(bytes, byteOffset, |bytes|);
    assert bytes[byteOffset..|bytes|] == bytes[byteOffset..];
    var s, p := BytesToBits(bytes), 8 * byteOffset + bitsOffset;
    assert s[8 * byteOffset..8 * |bytes|][bitsOffset..bitsOffset + n] == s[p..p + n];
  }

  /** The cursor after `bitCarry`. */
  lemma Carried(bytes: seq<Byte>, byteOffset: nat, bits: nat)
    requires 8 * byteOffset + bits <= 8 * |bytes|
    ensures InBounds(bytes, byteOffset + bits / 8, bits % 8)
    ensures 8 * (byteOffset + bits / 8) + bits % 8 == 8 * byteOffset + bits
  {
  }

  class BitData {
    var bytes: seq<Byte>
    var byteOffset: nat
    var bitsOffset: nat

    ghost predicate Valid()
      reads this
    {
      InBounds(bytes, byteOffset, bitsOffset)
    }

    ghost function Src(): (s: Bits)
      reads this
      ensures |s| % 8 == 0
    {
      BytesToBits(bytes)
    }

    /** The cursor as a bit position; it never leaves the data. */
    ghost function Pos(): (p: nat)
      requires Valid()
      reads this
      ensures p <= |Src()|
    {
      8 * byteOffset + bitsOffset
    }

    constructor (data: seq<Byte>)
      ensures Valid() && bytes == data && Pos() == 0
    {
      bytes, byteOffset, bitsOffset := data, 0, 0;
    }

    /** Moves the cursor forward by `numBits`: the addition and `bitCarry`. */
    method Advance(numBits: nat)
      requires Valid() && Pos() + numBits <= |Src()|
      modifies `byteOffset, `bitsOffset
      ensures Valid() && Pos() == old(Pos()) + numBits
    {
      bitsOffset := bitsOffset + numBits;
      Carried(bytes, byteOffset, bitsOffset);
      byteOffset := byteOffset + bitsOffset / 8;
      bitsOffset := bitsOffset % 8;
    }

    method ReadBitString(numBits: nat) returns (ok: bool, dst: seq<Byte>)
      requires Valid()
      modifies `byteOffset, `bitsOffset
      ensures Valid() && DoneBits(ok, dst, numBits, Pos(), GetBits(Src(), old(Pos()), numBits))
      ensures ok ==> |dst| == OctetsFor(numBits)
    {
      hide BytesToBits, Cut;
      ok, dst := GetBitString(bytes[byteOffset..], bitsOffset, numBits);
      if ok {
        CutBits(bytes[byteOffset..], bitsOffset, numBits, dst);
        BitsFromHere(bytes, byteOffset, bitsOffset, numBits);
        Advance(numBits);
      }
    }

    method ReadBitsValue(numBits: nat) returns (ok: bool, value: nat)
      requires Valid()
      modifies `byteOffset, `bitsOffset
      ensures Valid() && Done(ok, value, Pos(), GetValue(Src(), old(Pos()), numBits))
    {
      hide BytesToBits, ValueOf;
      ok, value := GetBitsValue(bytes[byteOffset..], bitsOffset, numBits);
      if ok {
        BitsFromHere(bytes, byteOffset, bitsOffset, numBits);
        Advance(numBits);
      }
    }

    method ParseAlignBits() returns (ok: bool)
      requires Valid()
      modifies `byteOffset, `bitsOffset
      ensures Valid() && Done(ok, (), Pos(), GetAlign(Src(), old(Pos())))
    {
      hide BytesToBits, Zeros;
      ghost var s, p := Src(), Pos();
      if bitsOffset > 0 {
        var alignBits := 8 - bitsOffset;
        AlignBits(p, bitsOffset);
        var val;
        ok, val := ReadBitsValue(alignBits);
        AlignValue(s[p..p + alignBits]);
        ok := ok && val == 0;
      } else {
        AlignBits(p, 0);
        assert s[p..p] == Zeros(0);
        ok := true;
      }
    }

    method ParseConstraintValue(valueRange: int) returns (ok: bool, value: nat)
      requires Valid()
      modifies `byteOffset, `bitsOffset
      ensures Valid() && Done(ok, value, Pos(), GetConstrained(Src(), old(Pos()), valueRange))
    {
      hide BytesToBits, GetValue, GetAlign, BitsForRange;
      value := 0;
      var octets := 0;
      if valueRange <= 255 {
        if valueRange < 0 {
          return false, 0;
        }
        var i := RangeBitsLoop(valueRange);
        ok, value := ReadBitsValue(i);
        return;
      } else if valueRange == 256 {
        octets := 1;
      } else if valueRange <= 65536 {
        octets := 2;
      } else {
        return false, 0;
      }
      ok := ParseAlignBits();
      if !ok {
        return;
      }
      ok, value := ReadBitsValue(8 * octets);
    }

    method ParseLength(sizeRange: int) returns (ok: bool, value: nat, more: bool)
      requires Valid()
      modifies `byteOffset, `bitsOffset
      ensures Valid() && Done(ok, (value, more), Pos(), GetLength(Src(), old(Pos()), sizeRange))
    {
      hide BytesToBits, GetValue, GetAlign, GetConstrained;
      value, more := 0, false;
      if sizeRange <= 65536 && sizeRange > 0 {
        ok, value := ParseConstraintValue(sizeRange);
        return;
      }
      ok := ParseAlignBits();
      if !ok {
        return;
      }
      var firstByte;
      ok, firstByte := ReadBitsValue(8);
      if !ok {
        return;
      }
      if firstByte < 128 {
        value := firstByte;
      } else if firstByte % 128 < 64 {
        var secondByte;
        ok, secondByte := ReadBitsValue(8);
        value := firstByte % 64 * 256 + secondByte;
      } else if firstByte % 64 < 1 || firstByte % 64 > 4 {
        ok := false;
      } else {
        more := true;
        value := 16384 * (firstByte % 64);
      }
    }

    /** `n` units on an octet boundary; the cursor stops inside the last octet if they do. */
    method ParseChunk(unit: nat, n: nat) returns (ok: bool, octets: seq<Byte>)
      requires Valid() && (unit == 1 || unit == 8)
      modifies `byteOffset, `bitsOffset
      ensures Valid() && Done(ok, BytesToBits(octets), Pos(), GetChunk(Src(), old(Pos()), unit, n))
      ensures ok ==> |octets| == OctetsFor(Scale(unit, n))
    {
      hide BytesToBits, GetAlign;
      octets := [];
      ok := ParseAlignBits();
      if !ok {
        return;
      }
      OnBoundary(bytes, byteOffset, bitsOffset);
      var sizes := OctetsFor(Scale(unit, n));
      if byteOffset + sizes > |bytes| {
        return false, [];
      }
      octets := bytes[byteOffset..byteOffset + sizes];
      BytesToBitsSlice(bytes, byteOffset, byteOffset + sizes);
      Advance(Scale(unit, n));
    }

    /** The loop shared by bit strings, octet strings and open types. */
    method ParseFragments(unit: nat, sizeRange: int, lb: nat) returns (ok: bool, octets: seq<Byte>, units: nat)
      requires Valid() && (unit == 1 || unit == 8)
      modifies `byteOffset, `bitsOffset
      ensures Valid()
      ensures Done(ok, Collected(BytesToBits(octets), units), Pos(),
                   GetFragments(Src(), old(Pos()), unit, sizeRange, lb))
      ensures ok && unit == 8 ==> |octets| == units
    {
      hide BytesToBits, GetLength, GetChunk, GetFragments, Scale;
      ghost var s, all := Src(), GetFragments(Src(), Pos(), unit, sizeRange, lb);
      octets, units := [], 0;
      NothingCollected(all);
      while true
        invariant Valid() && Src() == s && (unit == 8 ==> |octets| == units)
        invariant all == Prepended(BytesToBits(octets), units, GetFragments(s, Pos(), unit, sizeRange, lb))
        decreases |s| - Pos()
      {
        CollectTurn(s, Pos(), unit, sizeRange, lb);
        var length, more;
        ok, length, more := ParseLength(sizeRange);
        if !ok {
          return;
        }
        var rawLength := length + lb;
        if rawLength == 0 {
          assert BytesToBits(octets) + [] == BytesToBits(octets);
          return true, octets, units;
        }
        var chunk;
        ok, chunk := ParseChunk(unit, rawLength);
        if !ok {
          return;
        }
        OctetUnits(rawLength);
        BytesToBitsConcat(octets, chunk);
        PrependTwice(BytesToBits(octets), units, BytesToBits(chunk), rawLength,
                     GetFragments(s, Pos(), unit, sizeRange, lb));
        octets := octets + chunk;
        units := units + rawLength;
        if !more {
          return true, octets, units;
        }
      }
    }

    /** One bit, when the type is marked extensible. */
    method ParseFlag(present: bool) returns (ok: bool, flag: bool)
      requires Valid()
      modifies `byteOffset, `bitsOffset
      ensures Valid() && Done(ok, flag, Pos(), GetFlag(Src(), old(Pos()), present))
    {
      hide BytesToBits, ValueOf;
      if !present {
        return true, false;
      }
      ghost var s, p := Src(), Pos();
      var value;
      ok, value := ReadBitsValue(1);
      if ok {
        SingleBit(s, p);
      }
      flag := value == 1;
    }

    method ParseFixed(unit: nat, n: nat) returns (ok: bool, octets: seq<Byte>)
      requires Valid() && (unit == 1 || unit == 8)
      modifies `byteOffset, `bitsOffset
      ensures Valid() && DoneBits(ok, octets, Scale(unit, n), Pos(), GetFixed(Src(), old(Pos()), unit, n))
      ensures ok && unit == 8 ==> |octets| == n
    {
      hide BytesToBits, GetChunk, GetBits, OctetsFor, Scale;
      OctetUnits(n);
      if OctetsFor(Scale(unit, n)) > 2 {
        ok, octets := ParseChunk(unit, n);
      } else {
        ok, octets := ReadBitString(Scale(unit, n));
      }
    }

    /** `parseBitString` (`unit` 1) and `parseOctetString` (`unit` 8). */
    method ParseSized(unit: nat, extended: bool, lb: Option<nat>, ub: Option<nat>)
      returns (ok: bool, octets: seq<Byte>, units: nat)
      requires Valid() && (unit == 1 || unit == 8)
      modifies `byteOffset, `bitsOffset
      ensures Valid()
      ensures DoneBits(ok, octets, Scale(unit, units), Pos(), GetSized(Src(), old(Pos()), unit, extended, lb, ub))
      ensures ok && unit == 8 ==> |octets| == units
    {
      hide BytesToBits, GetFixed, GetFragments, Scale;
      var low: nat, high: int, sizeRange: int := 0, -1, -1;
      if !extended {
        if lb.Some? {
          low := lb.value;
        }
        if ub.Some? {
          high := ub.value;
          sizeRange := high - low + 1;
        }
      }
      if high > 65535 {
        sizeRange := -1;
      }
      if sizeRange == 1 {
        units := ub.value;
        ok, octets := ParseFixed(unit, units);
        return;
      }
      ok, octets, units := ParseFragments(unit, sizeRange, low);
    }

    method ParseInteger(extended: bool, lb: Option<Int64>, ub: Option<Int64>) returns (ok: bool, value: Int64)
      requires Valid()
      modifies `byteOffset, `bitsOffset
      ensures Valid() && Done(ok, value, Pos(), GetInteger(Src(), old(Pos()), extended, lb, ub))
    {
      hide BytesToBits, GetOctetCounted, GetWide, GetConstrained, Wrap64;
      value := 0;
      var low: Int64, high: Int64, valueRange: int := 0, -1, 0;
      if !extended {
        if lb.None? {
          valueRange := -1;
        } else {
          low := lb.value;
          if ub.Some? {
            high := ub.value;
            valueRange := Wrap64(high - low + 1);
          }
        }
      } else {
        valueRange := -1;
      }
      if valueRange == 1 {
        return true, high;
      } else if valueRange <= 0 {
        ok, value := ParseOctetCounted(low, valueRange < 0);
      } else if valueRange <= 65536 {
        var raw;
        ok, raw := ParseConstraintValue(valueRange);
        value := Wrap64(raw + low);
      } else {
        ok, value := ParseWide(low, valueRange - 1);
      }
    }

    /** `parseInteger` for unconstrained and semi-constrained numbers. */
    method ParseOctetCounted(low: Int64, signed: bool) returns (ok: bool, value: Int64)
      requires Valid()
      modifies `byteOffset, `bitsOffset
      ensures Valid() && Done(ok, value, Pos(), GetOctetCounted(Src(), old(Pos()), low, signed))
    {
      hide BytesToBits, GetAlign, GetValue, SignedOf, Wrap64;
      value := 0;
      ok := ParseAlignBits();
      if !ok {
        return;
      }
      var rawLength, raw;
      ok, rawLength := ReadBitsValue(8);
      if !ok {
        return;
      }
      ok, raw := ReadBitsValue(8 * rawLength);
      if ok {
        value := if signed then SignedOf(raw, rawLength, low) else Wrap64(raw + low);
      }
    }

    /** `parseInteger` for ranges above 65536. */
    method ParseWide(low: Int64, range: nat) returns (ok: bool, value: Int64)
      requires Valid()
      modifies `byteOffset, `bitsOffset
      ensures Valid() && Done(ok, value, Pos(), GetWide(Src(), old(Pos()), low, range))
    {
      hide BytesToBits, GetAlign, GetValue, BitsForRange, ReaderRangeOctets, Wrap64;
      value := 0;
      var byteLen := ReaderRangeLoop(range);
      var i := RangeBitsLoop(byteLen);
      var rawLength, raw;
      ok, rawLength := ReadBitsValue(i);
      if !ok {
        return;
      }
      rawLength := rawLength + 1;
      ok := ParseAlignBits();
      if !ok {
        return;
      }
      ok, raw := ReadBitsValue(8 * rawLength);
      value := Wrap64(raw + low);
    }

    method ParseEnumerated(extended: bool, lb: Option<Int64>, ub: Option<Int64>) returns (ok: bool, value: nat)
      requires Valid()
      modifies `byteOffset, `bitsOffset
      ensures Valid() && Done(ok, value, Pos(), GetEnumerated(Src(), old(Pos()), extended, lb, ub))
    {
      hide BytesToBits, GetConstrained, Wrap64;
      if extended || lb.None? || ub.None? {
        return false, 0;
      }
      var valueRange := Wrap64(ub.value - lb.value + 1);
      if valueRange > 1 {
        ok, value := ParseConstraintValue(valueRange);
        return;
      }
      return true, 0;
    }

    method ParseChoiceIndex(extended: bool, ub: Option<Int64>) returns (ok: bool, present: nat)
      requires Valid()
      modifies `byteOffset, `bitsOffset
      ensures Valid() && Done(ok, present, Pos(), GetChoiceIndex(Src(), old(Pos()), extended, ub))
    {
      hide BytesToBits, GetConstrained, Wrap64;
      if extended || ub.None? || ub.value < 0 {
        return false, 0;
      }
      var rawChoice;
      ok, rawChoice := ParseConstraintValue(Wrap64(ub.value + 1));
      present := rawChoice + 1;
    }

    /** The first half of `parseSequenceOf`: the element count. */
    method ParseCount(extended: bool, lb: Option<nat>, ub: Option<nat>) returns (ok: bool, numElements: nat)
      requires Valid()
      modifies `byteOffset, `bitsOffset
      ensures Valid() && Done(ok, numElements, Pos(), GetCount(Src(), old(Pos()), extended, lb, ub))
    {
      hide BytesToBits, GetConstrained, GetAlign, GetValue;
      var low: nat, sizeRange: int := 0, -1;
      if lb.Some? && lb.value < 65536 {
        low := lb.value;
      }
      if !extended && ub.Some? && ub.value < 65536 {
        sizeRange := ub.value - low + 1;
      }
      if sizeRange > 1 {
        var got, counted := ParseConstraintValue(sizeRange);
        numElements := if got then counted else 0; // a failed count is only logged
        return true, numElements + low;
      } else if sizeRange == 1 {
        return true, low;
      }
      ok := ParseAlignBits();
      numElements := 0;
      if ok {
        ok, numElements := ReadBitsValue(8);
      }
    }

    // ----------------------------------------------------------------- parseField

    /** `parseField`: reads exactly what `Decode` says, or fails exactly when it does. */
    method ParseField(schema: Schema, ref: Option<Int64>) returns (ok: bool, v: Value)
      requires Valid()
      modifies `byteOffset, `bitsOffset
      ensures Valid() && Done(ok, v, Pos(), Decode(schema, ref, Src(), old(Pos())))
      decreases schema, 0
    {
      hide BytesToBits, GetValue, GetFlag, GetCount, GetChoiceIndex, GetFragments, Scale;
      hide DecodeElems, DecodeFields, FindCase, OptionalCount, GetInteger, GetEnumerated, GetSized;
      ok, v := false, VBool(false);
      AtEnd(bytes, byteOffset, bitsOffset);
      if byteOffset == |bytes| {
        return;
      }
      match schema
      case SequenceOf(_, _, _, _) =>
        ok, v := ParseSequenceOf(schema, ref);
      case Sequence(_, _) =>
        ok, v := ParseStruct(schema, ref);
      case Choice(_, _, _) =>
        ok, v := ParseChoice(schema, ref);
      case OpenType(_, cases) =>
        if ref.Some? {
          var present, x := FindCase(cases, ref.value), VBool(false);
          if present > 0 {
            ok, x := ParseOpenType(cases[present - 1].schema);
            v := VChoice(present, x);
          }
        }
      case _ =>
        ok, v := ParseLeaf(schema, ref);
    }

    method ParseSequenceOf(schema: Schema, ghost ref: Option<Int64>) returns (ok: bool, v: Value)
      requires Valid() && Pos() < |Src()| && schema.SequenceOf?
      modifies `byteOffset, `bitsOffset
      ensures Valid() && Done(ok, v, Pos(), Decode(schema, ref, Src(), old(Pos())))
      decreases schema.elem, 2
    {
      hide BytesToBits, GetFlag, GetCount, DecodeElems;
      v := VBool(false);
      var extended, n, vs;
      ok, extended := ParseFlag(schema.ext);
      if ok {
        ok, n := ParseCount(extended, schema.lb, schema.ub);
        if ok {
          ok, vs := ParseElems(schema.elem, n);
          v := VList(vs);
        }
      }
    }

    /** SEQUENCE: extension bit, presence bits, then the fields that are there. */
    method ParseChoice(schema: Schema, ghost ref: Option<Int64>) returns (ok: bool, v: Value)
      requires Valid() && Pos() < |Src()| && schema.Choice?
      modifies `byteOffset, `bitsOffset
      ensures Valid() && Done(ok, v, Pos(), Decode(schema, ref, Src(), old(Pos())))
      decreases schema.alts, 0
    {
      hide BytesToBits, Decode, GetFlag, GetChoiceIndex;
      ChoiceIs(schema, ref, Src(), Pos());
      v := VBool(false);
      var extended, present, x;
      ok, extended := ParseFlag(schema.ext);
      if ok {
        ok, present := ParseChoiceIndex(extended, schema.vub);
        if ok && 1 <= present <= |schema.alts| {
          ok, x := ParseField(schema.alts[present - 1], None);
          v := VChoice(present, x);
        } else {
          ok := false;
        }
      }
    }

    method ParseStruct(schema: Schema, ghost ref: Option<Int64>) returns (ok: bool, v: Value)
      requires Valid() && Pos() < |Src()| && schema.Sequence?
      modifies `byteOffset, `bitsOffset
      ensures Valid() && Done(ok, v, Pos(), Decode(schema, ref, Src(), old(Pos())))
      decreases schema.fields, |schema.fields| + 2
    {
      hide BytesToBits, GetFlag, GetValue, DecodeFields, OptionalCount;
      v := VBool(false);
      var extended, vals;
      ok, extended := ParseFlag(schema.ext);
      if ok {
        var count, presents := OptionalCount(schema.fields, 0), 0;
        if count > 0 {
          ok, presents := ReadBitsValue(count);
        }
        if ok {
          ok, vals := ParseFields(schema.fields, presents, count);
          v := VStruct(vals);
        }
      }
    }

    /** The cases of `parseField` without nested fields. */
    method ParseLeaf(schema: Schema, ghost ref: Option<Int64>) returns (ok: bool, v: Value)
      requires Valid() && Pos() < |Src()|
      requires schema.Boolean? || schema.Integer? || schema.Enumerated? || schema.BitStr? || schema.OctetStr?
      modifies `byteOffset, `bitsOffset
      ensures Valid() && Done(ok, v, Pos(), Decode(schema, ref, Src(), old(Pos())))
    {
      hide BytesToBits, GetValue, GetFlag, GetInteger, GetEnumerated, GetSized, PackBytes, Scale;
      ok, v := false, VBool(false);
      match schema
      case Boolean =>
        var bit;
        ok, bit := ReadBitsValue(1);
        v := VBool(bit == 1);
      case Integer(ext, lb, ub) =>
        var extended, i;
        ok, extended := ParseFlag(ext);
        if ok {
          ok, i := ParseInteger(extended, lb, ub);
          v := VInt(i);
        }
      case Enumerated(ext, lb, ub) =>
        var extended, e;
        ok, extended := ParseFlag(ext);
        if ok {
          ok, e := ParseEnumerated(extended, lb, ub);
          if ok && e < TWO64 {
            v := VEnum(e);
          } else {
            ok := false;
          }
        }
      case BitStr(ext, lb, ub) =>
        var extended, octets, n;
        ok, extended := ParseFlag(ext);
        if ok {
          ok, octets, n := ParseSized(1, extended, lb, ub);
          if ok {
            v := VBits(BytesToBits(octets)[..Scale(1, n)], [], []);
          }
        }
      case OctetStr(ext, lb, ub) =>
        var extended, octets, n;
        ok, extended := ParseFlag(ext);
        if ok {
          ok, octets, n := ParseSized(8, extended, lb, ub);
          if ok {
            OctetUnits(n);
            assert BytesToBits(octets)[..8 * n] == BytesToBits(octets);
            PackUnpacked(octets);
            v := VOctets(octets, []);
          }
        }
    }

    /** The element loop of `parseSequenceOf`. */
    method ParseElems(elem: Schema, n: nat) returns (ok: bool, vs: seq<Value>)
      requires Valid()
      modifies `byteOffset, `bitsOffset
      ensures Valid() && Done(ok, vs, Pos(), DecodeElems(elem, n, Src(), old(Pos())))
      decreases elem, 1
    {
      hide BytesToBits, Decode, DecodeElems;
      ghost var s, all := Src(), DecodeElems(elem, n, Src(), Pos());
      vs := [];
      NothingRead(all);
      var i := 0;
      while i < n
        invariant Valid() && Src() == s && 0 <= i <= n
        invariant all == PrependElems(vs, DecodeElems(elem, n - i, s, Pos()))
      {
        ElemTurn(elem, n - i, s, Pos());
        var v;
        ok, v := ParseField(elem, None);
        if !ok {
          return;
        }
        PrependElem(vs, v, DecodeElems(elem, n - i - 1, s, Pos()));
        vs := vs + [v];
        i := i + 1;
      }
      NoElems(elem, s, Pos());
      assert vs + [] == vs;
      ok := true;
    }

    /** The field loop of a SEQUENCE. */
    method ParseFields(fields: seq<Field>, presents: nat, count: nat) returns (ok: bool, vals: seq<Option<Value>>)
      requires Valid()
      modifies `byteOffset, `bitsOffset
      ensures Valid() && Done(ok, vals, Pos(), DecodeFields(fields, [], presents, count, Src(), old(Pos())))
      decreases fields, |fields| + 1
    {
      hide BytesToBits, Decode, DecodeFields, TestBit, LookupRef;
      ghost var s, all := Src(), DecodeFields(fields, [], presents, count, Src(), Pos());
      var optionalCount := count;
      vals := [];
      while |vals| < |fields|
        invariant Valid() && Src() == s && |vals| <= |fields| && 0 <= optionalCount
        invariant all == DecodeFields(fields, vals, presents, optionalCount, s, Pos())
        decreases |fields| - |vals|
      {
        FieldReadTurn(fields, vals, presents, optionalCount, s, Pos());
        var f := fields[|vals|];
        var skip := false;
        if f.optional && optionalCount > 0 {
          optionalCount := optionalCount - 1;
          skip := !TestBit(presents, optionalCount);
        }
        if skip {
          vals := vals + [None];
        } else {
          var ref := None;
          if f.schema.OpenType? {
            ref := LookupRef(fields, vals, f.schema.refName);
            if ref.None? {
              return false, [];
            }
          }
          var v;
          ok, v := ParseField(f.schema, ref);
          if !ok {
            return;
          }
          vals := vals + [Some(v)];
        }
      }
      NoFields(fields, vals, presents, optionalCount, s, Pos());
      ok := true;
    }

    /** Collects the fragments, then reads the wrapped field on its own. */
    method ParseOpenType(schema: Schema) returns (ok: bool, x: Value)
      requires Valid()
      modifies `byteOffset, `bitsOffset
      ensures Valid()
      ensures var c := GetFragments(Src(), old(Pos()), 8, -1, 0);
              if c.Fail? then !ok && Pos() == c.pos
              else
                var inner := Decode(schema, None, c.value.octets[..Scale(8, c.value.units)], 0);
                ok == inner.Got? && Pos() == c.pos && (ok ==> x == inner.value)
      decreases schema, 1
    {
      hide BytesToBits, GetFragments, Decode, Scale, PackBytes, GetAlign;
      var octets, units;
      x := VBool(false);
      ghost var s, p := Src(), Pos();
      ok, octets, units := ParseFragments(8, -1, 0);
      if !ok {
        return;
      }
      FragmentsStayAligned(s, p);
      AlignedAlready(s, Pos());
      ok := ParseAlignBits();
      OctetUnits(units);
      assert BytesToBits(octets)[..8 * units] == BytesToBits(octets);
      var pd := new BitData(octets);
      ok, x := pd.ParseField(schema, None);
    }
  }

  /** `UnmarshalWithParams`. */
  method UnmarshalValue(schema: Schema, ref: Option<Int64>, data: seq<Byte>) returns (r: Option<Value>)
    ensures r == Unmarshal(schema, ref, data)
  {
    hide BytesToBits, Decode;
    var pd := new BitData(data);
    var ok, v := pd.ParseField(schema, ref);
    r := if ok then Some(v) else None;
  }

  lemma AtEnd(bytes: seq<Byte>, byteOffset: nat, bitsOffset: nat)
    requires InBounds(bytes, byteOffset, bitsOffset)
    ensures byteOffset == |bytes| <==> 8 * byteOffset + bitsOffset == 8 * |bytes|
  {
  }

  lemma AlignedAlready(s: Bits, p: nat)
    requires p <= |s| && |s| % 8 == 0 && p % 8 == 0
    ensures GetAlign(s, p) == Got((), p)
  {
    assert s[p..p] == Zeros(0);
  }

  /** Octets behind an unconstrained length end on an octet boundary. */
  lemma {:induction false} FragmentsStayAligned(s: Bits, p: nat)
    requires p <= |s| && |s| % 8 == 0
    ensures var r := GetFragments(s, p, 8, -1, 0); r.Got? ==> r.pos % 8 == 0
    decreases |s| - p
  {
    hide GetFragments, GetLength, GetChunk, Scale;
    CollectTurn(s, p, 8, -1, 0);
    var length := GetLength(s, p, -1);
    if length.Got? {
      LengthStaysAligned(s, p);
      if length.value.0 > 0 {
        var chunk := GetChunk(s, length.pos, 8, length.value.0 + 0);
        ChunkStaysAligned(s, length.pos, length.value.0);
        if chunk.Got? && length.value.1 {
          FragmentsStayAligned(s, chunk.pos);
        }
      }
    }
  }

  lemma ChoiceIs(schema: Schema, ref: Option<Int64>, s: Bits, p: nat)
    requires schema.Choice? && p < |s| && |s| % 8 == 0
    ensures var flag := GetFlag(s, p, schema.ext);
            Decode(schema, ref, s, p) ==
            if flag.Fail? then Fail(flag.pos)
            else
              var index := GetChoiceIndex(s, flag.pos, flag.value, schema.vub);
              if index.Fail? || index.value == 0 || index.value > |schema.alts| then Fail(index.pos)
              else DecodedChoice(index.value, Decode(schema.alts[index.value - 1], None, s, index.pos))
  {
    hide GetFlag, GetChoiceIndex;
  }

  lemma LengthStaysAligned(s: Bits, p: nat)
    requires p <= |s| && |s| % 8 == 0
    ensures var r := GetLength(s, p, -1); r.Got? ==> r.pos % 8 == 0
  {
    hide GetValue, GetAlign;
    StillOnBoundary(GetAlign(s, p).pos);
  }

  lemma StillOnBoundary(p: nat)
    ensures p % 8 == 0 ==> (p + 8) % 8 == 0 && (p + 16) % 8 == 0
  {
  }

  lemma ChunkStaysAligned(s: Bits, p: nat, n: nat)
    requires p <= |s| && |s| % 8 == 0
    ensures var r := GetChunk(s, p, 8, n); r.Got? ==> r.pos % 8 == 0
  {
    hide Zeros, OctetsFor;
  }

  // -------------------------------------------------------- turns of the two loops

  ghost function PrependElems(vs: seq<Value>, rest: Read<seq<Value>>): (r: Read<seq<Value>>) {
    if rest.Fail? then Fail(rest.pos) else Got(vs + rest.value, rest.pos)
  }

  lemma NothingRead(r: Read<seq<Value>>)
    ensures PrependElems([], r) == r
  {
    if r.Got? {
      assert [] + r.value == r.value;
    }
  }

  lemma PrependElem(vs: seq<Value>, v: Value, rest: Read<seq<Value>>)
    ensures PrependElems(vs, PrependElems([v], rest)) == PrependElems(vs + [v], rest)
  {
    if rest.Got? {
      assert vs + ([v] + rest.value) == vs + [v] + rest.value;
    }
  }

  lemma ElemTurn(elem: Schema, n: nat, s: Bits, p: nat)
    requires p <= |s| && |s| % 8 == 0 && n > 0
    ensures DecodeElems(elem, n, s, p) ==
            var one := Decode(elem, None, s, p);
            if one.Fail? then Fail(one.pos) else PrependElems([one.value], DecodeElems(elem, n - 1, s, one.pos))
  {
    hide Decode;
  }

  lemma NoElems(elem: Schema, s: Bits, p: nat)
    requires p <= |s| && |s| % 8 == 0
    ensures DecodeElems(elem, 0, s, p) == Got([], p)
  {
  }

  lemma FieldReadTurn(fields: seq<Field>, done: seq<Option<Value>>, presents: nat, remaining: nat, s: Bits, p: nat)
    requires |done| < |fields| && p <= |s| && |s| % 8 == 0
    ensures var f := fields[|done|];
            var counted := f.optional && remaining > 0;
            var rest := if counted then remaining - 1 else remaining;
            var ref := if f.schema.OpenType? then LookupRef(fields, done, f.schema.refName) else None;
            DecodeFields(fields, done, presents, remaining, s, p) ==
            if counted && !TestBit(presents, rest) then DecodeFields(fields, done + [None], presents, rest, s, p)
            else if f.schema.OpenType? && ref.None? then Fail(p)
            else
              var one := Decode(f.schema, ref, s, p);
              if one.Fail? then Fail(one.pos)
              else DecodeFields(fields, done + [Some(one.value)], presents, rest, s, one.pos)
  {
    hide Decode, TestBit, LookupRef;
  }

  lemma NoFields(fields: seq<Field>, done: seq<Option<Value>>, presents: nat, remaining: nat, s: Bits, p: nat)
    requires |done| == |fields| && p <= |s| && |s| % 8 == 0
    ensures DecodeFields(fields, done, presents, remaining, s, p) == Got(done, p)
  {
  }

  lemma SingleBit(s: Bits, p: nat)
    requires p < |s|
    ensures ValueOf(s[p..p + 1]) % TWO64 == (if s[p] then 1 else 0)
  {
    assert s[p..p + 1] == [s[p]];
  }

  method ReaderRangeLoop(r: nat) returns (n: nat)
    ensures n == ReaderRangeOctets(r)
  {
    n := 1;
    var rest: nat := r / 256;
    while rest != 0
      invariant n >= 1
      invariant ReaderRangeOctets(r) == if rest == 0 then n else n + ReaderRangeOctets(rest)
      decreases rest
    {
      rest := rest / 256;
      n := n + 1;
    }
  }

  lemma OctetUnits(n: nat)
    ensures Scale(8, n) == 8 * n && OctetsFor(Scale(8, n)) == n
  {
  }

  lemma OnBoundary(bytes: seq<Byte>, byteOffset: nat, bitsOffset: nat)
    requires InBounds(bytes, byteOffset, bitsOffset) && (8 * byteOffset + bitsOffset) % 8 == 0
    ensures bitsOffset == 0
  {
  }

  lemma AlignBits(p: nat, offset: nat)
    requires offset < 8 && p % 8 == offset
    ensures PadLen(p) == if offset == 0 then 0 else 8 - offset
  {
  }

  lemma AlignValue(bits: Bits)
    requires |bits| <= 8
    ensures ValueOf(bits) % TWO64 == 0 <==> bits == Zeros(|bits|)
  {
    hide ValueOf, Zeros;
    ValueOfZeros(bits);
    Pow2Monotone(|bits|, 8);
    Pow2Values();
  }

  /** What the loop will return, given what it has collected and what it will still read. */
  ghost function Prepended(octets: Bits, units: nat, rest: Read<Collected>): (r: Read<Collected>) {
    if rest.Fail? then Fail(rest.pos)
    else Got(Collected(octets + rest.value.octets, units + rest.value.units), rest.pos)
  }

  lemma NothingCollected(r: Read<Collected>)
    ensures BytesToBits([]) == [] && Prepended([], 0, r) == r
  {
    if r.Got? {
      assert [] + r.value.octets == r.value.octets;
    }
  }

  lemma PrependTwice(a: Bits, m: nat, b: Bits, n: nat, rest: Read<Collected>)
    ensures Prepended(a, m, Prepended(b, n, rest)) == Prepended(a + b, m + n, rest)
  {
    if rest.Got? {
      assert a + (b + rest.value.octets) == a + b + rest.value.octets;
    }
  }

  /** One turn of `GetFragments`. */
  lemma CollectTurn(s: Bits, p: nat, unit: nat, sizeRange: int, lb: nat)
    requires unit == 1 || unit == 8
    requires p <= |s| && |s| % 8 == 0
    ensures GetFragments(s, p, unit, sizeRange, lb) ==
            var length := GetLength(s, p, sizeRange);
            if length.Fail? then Fail(length.pos)
            else if length.value.0 + lb == 0 then Got(Collected([], 0), length.pos)
            else
              var n := length.value.0 + lb;
              var chunk := GetChunk(s, length.pos, unit, n);
              if chunk.Fail? then Fail(chunk.pos)
              else if !length.value.1 then Got(Collected(chunk.value, n), chunk.pos)
              else Prepended(chunk.value, n, GetFragments(s, chunk.pos, unit, sizeRange, lb))
  {
    hide GetLength, GetChunk, Scale;
  }
}
