/** Supported features and their negotiation, lib/openapi (section 6.6 of 3GPP TS 29.500). */
module Features {
  import opened Wrappers

  type Feature = seq<bv8>

  // -------------------------------------------------------------------------- features

  /** `0x01 << k`. */
  function Mask(k: nat): (m: bv8)
    requires k < 8
  {
    if k == 0 then 0x01 else if k == 1 then 0x02 else if k == 2 then 0x04 else if k == 3 then 0x08
    else if k == 4 then 0x10 else if k == 5 then 0x20 else if k == 6 then 0x40 else 0x80
  }

  predicate Bit(b: bv8, k: nat)
    requires k < 8
  {
    b & Mask(k) > 0
  }

  /** Feature `n`, counted from 1 at the right end. */
  predicate HasFeature(f: Feature, n: nat)
    requires n >= 1
  {
    var byte := |f| - (n - 1) / 8 - 1;
    byte >= 0 && Bit(f[byte], (n - 1) % 8)
  }

  /** Go's quotient and remainder, rounded towards zero. */
  function Quotient(a: int, b: nat): (q: int)
    requires b > 0
  {
    if a >= 0 then a / b else 0 - (0 - a) / b
  }

  /** `0x01 << k` on an octet for a shift count that was converted to `uint8`. */
  function ShiftedOne(k: int): (m: bv8)
    requires -8 < k < 8
  {
    if k >= 0 then Mask(k) else 0
  }

  /**
    For numbers from 1 on, the feature.  Zero and a few numbers below it count as absent, and
    the others make the code index past the end, which is a failure.
  */
  method GetFeature(f: Feature, n: int) returns (r: Option<bool>)
    ensures n >= 1 ==> r == Some(HasFeature(f, n))
    ensures -6 <= n <= 0 ==> r == Some(false)
    ensures n <= -7 ==> r == None
  {
    var quotient := Quotient(n - 1, 8);
    var byteIndex := |f| - quotient - 1;
    var bitShift := n - 1 - 8 * quotient;
    if byteIndex < 0 {
      return Some(false);
    }
    if byteIndex >= |f| {
      return None;
    }
    return Some(f[byteIndex] & ShiftedOne(bitShift) > 0);
  }

  // ----------------------------------------------------------------------- negotiation

  function And(a: bv8, b: bv8): (c: bv8) { a & b }

  /** Octet `j` from the right, zero past the left end. */
  function FromRight(f: Feature, j: nat): (b: bv8) {
    if j < |f| then f[|f| - 1 - j] else 0
  }

  lemma AndBit(a: bv8, b: bv8, k: nat)
    requires k < 8
    ensures Bit(And(a, b), k) <==> Bit(a, k) && Bit(b, k)
    ensures !Bit(0, k)
  {
    if k < 4 {
      if k < 2 {
      } else {
      }
    } else {
      if k < 6 {
      } else {
      }
    }
  }

  lemma FeatureFromRight(f: Feature, n: nat)
    requires n >= 1
    ensures HasFeature(f, n) <==> Bit(FromRight(f, (n - 1) / 8), (n - 1) % 8)
  {
    hide Bit;
    AndBit(0, 0, (n - 1) % 8);
  }

  /** What `NegotiateWith` computes, octet by octet from the right. */
  ghost predicate Negotiated(a: Feature, b: Feature, r: Feature) {
    && |r| == (if |a| < |b| then |b| else |a|)
    && forall j :: 0 <= j < |r| ==> FromRight(r, j) == And(FromRight(a, j), FromRight(b, j))
  }

  /** A negotiation holds exactly the features that both sides hold. */
  lemma NegotiationIsIntersection(a: Feature, b: Feature, r: Feature, n: nat)
    requires Negotiated(a, b, r) && n >= 1
    ensures HasFeature(r, n) <==> HasFeature(a, n) && HasFeature(b, n)
  {
    hide HasFeature, Bit, And, FromRight;
    var j, k := (n - 1) / 8, (n - 1) % 8;
    FeatureFromRight(a, n);
    FeatureFromRight(b, n);
    FeatureFromRight(r, n);
    AndBit(FromRight(a, j), FromRight(b, j), k);
    if j >= |r| {
      PastTheEnd(a, j);
      PastTheEnd(r, j);
    }
  }

  lemma PastTheEnd(f: Feature, j: nat)
    requires j >= |f|
    ensures FromRight(f, j) == 0
  {
  }

  /** `NegotiateWith`: the shorter side is padded on the left, then the octets are combined. */
  method NegotiateWith(own: Feature, incoming: Feature) returns (r: Feature)
    ensures Negotiated(own, incoming, r)
    ensures forall n :: n >= 1 ==> (HasFeature(r, n) <==> HasFeature(own, n) && HasFeature(incoming, n))
  {
    hide HasFeature, And;
    var long, short := own, incoming;
    if |own| < |incoming| {
      long, short := incoming, own;
    }
    var padded := new bv8[|long|](_ => 0);
    var diff := |long| - |short|;
    var i := 0;
    while i < |short|
      invariant i <= |short|
      invariant forall k :: 0 <= k < diff ==> padded[k] == 0
      invariant forall k :: 0 <= k < i ==> padded[..][diff..][k] == short[k]
    {
      padded[diff + i] := short[i];
      i := i + 1;
    }
    ghost var zeros := padded[..];
    assert zeros[diff..] == short;
    var result := new bv8[|long|](_ => 0);
    i := 0;
    while i < |long|
      invariant i <= |long|
      invariant padded[..] == zeros
      invariant forall k :: 0 <= k < i ==> result[k] == And(long[k], padded[k])
    {
      result[i] := And(long[i], padded[i]);
      i := i + 1;
    }
    r := result[..];
    assert Negotiated(own, incoming, r) by {
      Combined(own, incoming, long, short, padded[..], r);
    }
    forall n: nat | n >= 1 ensures HasFeature(r, n) <==> HasFeature(own, n) && HasFeature(incoming, n) {
      NegotiationIsIntersection(own, incoming, r, n);
    }
  }

  lemma AndCommutes(a: bv8, b: bv8)
    ensures And(a, b) == And(b, a)
  {
  }

  lemma WithinTheEnd(f: Feature, j: nat)
    requires j < |f|
    ensures FromRight(f, j) == f[|f| - 1 - j]
  {
  }

  /** Zeros on the left change no octet counted from the right. */
  lemma PaddingFromRight(short: Feature, padded: Feature, j: nat)
    requires |short| <= |padded| && j < |padded|
    requires forall k :: 0 <= k < |padded| - |short| ==> padded[k] == 0
    requires padded[|padded| - |short|..] == short
    ensures padded[|padded| - 1 - j] == FromRight(short, j)
  {
    hide FromRight;
    if j < |short| {
      WithinTheEnd(short, j);
      assert padded[|padded| - |short|..][|short| - 1 - j] == padded[|padded| - 1 - j];
    } else {
      PastTheEnd(short, j);
    }
  }

  lemma Combined(own: Feature, incoming: Feature, long: Feature, short: Feature, padded: Feature, r: Feature)
    requires if |own| < |incoming| then long == incoming && short == own else long == own && short == incoming
    requires |padded| == |r| == |long|
    requires forall k :: 0 <= k < |long| - |short| ==> padded[k] == 0
    requires padded[|long| - |short|..] == short
    requires forall k :: 0 <= k < |long| ==> r[k] == And(long[k], padded[k])
    ensures Negotiated(own, incoming, r)
  {
    hide And, FromRight;
    forall j | 0 <= j < |r| ensures FromRight(r, j) == And(FromRight(own, j), FromRight(incoming, j)) {
      var k := |r| - 1 - j;
      assert r[k] == And(long[k], padded[k]);
      WithinTheEnd(r, j);
      WithinTheEnd(long, j);
      PaddingFromRight(short, padded, j);
      AndCommutes(FromRight(own, j), FromRight(incoming, j));
    }
  }

  ghost predicate SameFeatures(a: Feature, b: Feature) {
    forall n :: n >= 1 ==> (HasFeature(a, n) <==> HasFeature(b, n))
  }

  /** Neither the order of the two sides nor that of three negotiations matters. */
  lemma NegotiationLaws(a: Feature, b: Feature, c: Feature, ab: Feature, ba: Feature, bc: Feature, x: Feature,
                        y: Feature, aa: Feature)
    requires Negotiated(a, b, ab) && Negotiated(b, a, ba) && Negotiated(b, c, bc)
    requires Negotiated(ab, c, x) && Negotiated(a, bc, y) && Negotiated(a, a, aa)
    ensures SameFeatures(ab, ba) && SameFeatures(x, y) && SameFeatures(aa, a)
  {
    hide HasFeature, Negotiated;
    forall n: nat | n >= 1
      ensures (HasFeature(ab, n) <==> HasFeature(ba, n)) && (HasFeature(x, n) <==> HasFeature(y, n))
              && (HasFeature(aa, n) <==> HasFeature(a, n))
    {
      NegotiationIsIntersection(a, b, ab, n);
      NegotiationIsIntersection(b, a, ba, n);
      NegotiationIsIntersection(b, c, bc, n);
      NegotiationIsIntersection(ab, c, x, n);
      NegotiationIsIntersection(a, bc, y, n);
      NegotiationIsIntersection(a, a, aa, n);
    }
  }

  // --------------------------------------------------------------------- hexadecimal

  /** The value of a hexadecimal digit of either case. */
  function DigitValue(c: char): (d: Option<bv8>) {
    match c
    case '0' => Some(0)
    case '1' => Some(1)
    case '2' => Some(2)
    case '3' => Some(3)
    case '4' => Some(4)
    case '5' => Some(5)
    case '6' => Some(6)
    case '7' => Some(7)
    case '8' => Some(8)
    case '9' => Some(9)
    case 'a' => Some(10)
    case 'A' => Some(10)
    case 'b' => Some(11)
    case 'B' => Some(11)
    case 'c' => Some(12)
    case 'C' => Some(12)
    case 'd' => Some(13)
    case 'D' => Some(13)
    case 'e' => Some(14)
    case 'E' => Some(14)
    case 'f' => Some(15)
    case 'F' => Some(15)
    case _ => None
  }

  /** The digit that `hex.EncodeToString` writes. */
  function Digit(d: bv8): (c: char) {
    if d < 8 then
      if d < 4 then if d == 0 then '0' else if d == 1 then '1' else if d == 2 then '2' else '3'
      else if d == 4 then '4' else if d == 5 then '5' else if d == 6 then '6' else '7'
    else
      if d < 12 then if d == 8 then '8' else if d == 9 then '9' else if d == 10 then 'a' else 'b'
      else if d == 12 then 'c' else if d == 13 then 'd' else if d == 14 then 'e' else 'f'
  }

  function Join(high: bv8, low: bv8): (b: bv8) { (high << 4) | low }

  /** `hex.DecodeString` of an even number of digits. */
  function DecodeHex(s: string): (r: Option<Feature>) {
    if s == [] then Some([])
    else if |s| == 1 then None
    else
      match (DigitValue(s[0]), DigitValue(s[1]), DecodeHex(s[2..]))
      case (Some(high), Some(low), Some(rest)) => Some([Join(high, low)] + rest)
      case _ => None
  }

  /** `NewSupportedFeature`: an odd number of digits is padded on the left. */
  function NewSupportedFeature(s: string): (r: Option<Feature>) {
    DecodeHex(if |s| % 2 != 0 then "0" + s else s)
  }

  /** Digit `j` from the right, zero past the left end. */
  function DigitFromRight(s: string, j: nat): (d: bv8) {
    if j < |s| && DigitValue(s[|s| - 1 - j]).Some? then DigitValue(s[|s| - 1 - j]).value else 0
  }

  /** The rule of section 6.6: digit j from the right holds features 4 * j + 1 to 4 * j + 4. */
  predicate DigitHasFeature(s: string, n: nat)
    requires n >= 1
  {
    Bit(DigitFromRight(s, (n - 1) / 4), (n - 1) % 4)
  }

  lemma DigitsAreSmall(c: char)
    ensures DigitValue(c).Some? ==> DigitValue(c).value < 16
  {
  }

  lemma JoinBit(high: bv8, low: bv8, k: nat)
    requires high < 16 && low < 16 && k < 8
    ensures Bit(Join(high, low), k) <==> if k < 4 then Bit(low, k) else Bit(high, k - 4)
  {
    if k < 4 {
      if k < 2 {
      } else {
      }
    } else {
      if k < 6 {
      } else {
      }
    }
  }

  lemma SmallDigit(s: string, j: nat)
    ensures DigitFromRight(s, j) < 16
  {
    hide DigitValue;
    if j < |s| {
      DigitsAreSmall(s[|s| - 1 - j]);
    }
  }

  lemma JoinZeros()
    ensures Join(0, 0) == 0
  {
  }

  lemma DigitOfTail(s: string, j: nat, m: nat)
    requires m <= |s| && j < |s| - m
    ensures DigitFromRight(s[m..], j) == DigitFromRight(s, j)
  {
    hide DigitValue;
    assert s[m..][|s| - m - 1 - j] == s[|s| - 1 - j];
  }

  lemma DecodeStep(s: string)
    requires |s| >= 2 && DecodeHex(s).Some?
    ensures DecodeHex(s[2..]).Some? && DigitValue(s[0]).Some? && DigitValue(s[1]).Some?
    ensures DecodeHex(s) == Some([Join(DigitValue(s[0]).value, DigitValue(s[1]).value)] + DecodeHex(s[2..]).value)
  {
    hide DigitValue, Join;
  }

  /** Octet j from the right is made of digits 2j and 2j + 1 from the right. */
  lemma {:induction false} DecodedFromRight(s: string, j: nat)
    requires DecodeHex(s).Some?
    ensures |s| == 2 * |DecodeHex(s).value|
    ensures FromRight(DecodeHex(s).value, j) == Join(DigitFromRight(s, 2 * j + 1), DigitFromRight(s, 2 * j))
  {
    hide DigitValue, Join, FromRight, DigitFromRight, DecodeHex;
    if s == [] {
      NoDigits(j);
    } else {
      assert |s| != 1 by {
        OneDigit(s);
      }
      DecodeStep(s);
      DecodedFromRight(s[2..], j);
      var rest := DecodeHex(s[2..]).value;
      var f := DecodeHex(s).value;
      if j < |rest| {
        DigitOfTail(s, 2 * j, 2);
        DigitOfTail(s, 2 * j + 1, 2);
        WithinTheEnd(f, j);
        WithinTheEnd(rest, j);
      } else if j == |rest| {
        WithinTheEnd(f, j);
        DigitAt(s, 2 * j);
        DigitAt(s, 2 * j + 1);
      } else {
        PastTheEnd(f, j);
        DigitPast(s, 2 * j);
        DigitPast(s, 2 * j + 1);
        JoinZeros();
      }
    }
  }

  lemma OneDigit(s: string)
    requires DecodeHex(s).Some?
    ensures |s| != 1
  {
    hide DigitValue;
  }

  lemma NoDigits(j: nat)
    ensures DecodeHex([]) == Some([])
    ensures FromRight([], j) == Join(DigitFromRight([], 2 * j + 1), DigitFromRight([], 2 * j))
  {
    JoinZeros();
  }

  lemma DigitAt(s: string, j: nat)
    requires j < |s| && DigitValue(s[|s| - 1 - j]).Some?
    ensures DigitFromRight(s, j) == DigitValue(s[|s| - 1 - j]).value
  {
    hide DigitValue;
  }

  lemma DigitPast(s: string, j: nat)
    requires j >= |s|
    ensures DigitFromRight(s, j) == 0
  {
  }

  lemma PaddingDigit(s: string, j: nat)
    ensures DigitFromRight("0" + s, j) == DigitFromRight(s, j)
  {
    hide DigitFromRight;
    var p := "0" + s;
    if j < |s| {
      DigitOfTail(p, j, 1);
      assert p[1..] == s;
    } else {
      DigitPast(s, j);
      if j == |s| {
        DigitAt(p, j);
      } else {
        DigitPast(p, j);
      }
    }
  }

  lemma Quarters(m: nat)
    ensures m / 4 == 2 * (m / 8) + (if m % 8 < 4 then 0 else 1)
    ensures m % 4 == if m % 8 < 4 then m % 8 else m % 8 - 4
  {
  }

  /** The features of a string are those that its digits name, for any number of digits. */
  lemma FeatureOfString(s: string, n: nat)
    requires NewSupportedFeature(s).Some? && n >= 1
    ensures HasFeature(NewSupportedFeature(s).value, n) <==> DigitHasFeature(s, n)
  {
    hide HasFeature, Bit, DecodeHex, FromRight, DigitFromRight, Join;
    var p := if |s| % 2 != 0 then "0" + s else s;
    var q, k := (n - 1) / 8, (n - 1) % 8;
    FeatureFromRight(DecodeHex(p).value, n);
    DecodedFromRight(p, q);
    var low, high := DigitFromRight(p, 2 * q), DigitFromRight(p, 2 * q + 1);
    SmallDigit(p, 2 * q);
    SmallDigit(p, 2 * q + 1);
    JoinBit(high, low, k);
    PaddingDigit(s, 2 * q);
    PaddingDigit(s, 2 * q + 1);
    Quarters(n - 1);
  }

  function HighHalf(b: bv8): (d: bv8) { b >> 4 }
  function LowHalf(b: bv8): (d: bv8) { b & 0x0f }

  /** `String`. */
  function ToString(f: Feature): (s: string) {
    if f == [] then [] else [Digit(HighHalf(f[0])), Digit(LowHalf(f[0]))] + ToString(f[1..])
  }

  lemma DigitReadsBack(d: bv8)
    requires d < 16
    ensures DigitValue(Digit(d)) == Some(d)
  {
  }

  lemma Halves(b: bv8)
    ensures HighHalf(b) < 16 && LowHalf(b) < 16 && Join(HighHalf(b), LowHalf(b)) == b
  {
  }

  lemma DecodeTwo(a: char, b: char, s: string)
    requires DigitValue(a).Some? && DigitValue(b).Some? && DecodeHex(s).Some?
    ensures DecodeHex([a, b] + s) == Some([Join(DigitValue(a).value, DigitValue(b).value)] + DecodeHex(s).value)
  {
    hide DigitValue, Join;
    var p := [a, b] + s;
    assert p[0] == a && p[1] == b && p[2..] == s;
  }

  lemma {:induction false} StringDecodes(f: Feature)
    ensures |ToString(f)| == 2 * |f| && DecodeHex(ToString(f)) == Some(f)
  {
    hide Digit, DigitValue, Join, HighHalf, LowHalf, DecodeHex;
    if f == [] {
      NoDigits(0);
    } else {
      StringDecodes(f[1..]);
      Halves(f[0]);
      DigitReadsBack(HighHalf(f[0]));
      DigitReadsBack(LowHalf(f[0]));
      DecodeTwo(Digit(HighHalf(f[0])), Digit(LowHalf(f[0])), ToString(f[1..]));
      assert f == [f[0]] + f[1..];
    }
  }

  /** The text of a feature set leads back to its octets. */
  lemma StringReadsBack(f: Feature)
    ensures NewSupportedFeature(ToString(f)) == Some(f)
  {
    hide ToString, DecodeHex;
    StringDecodes(f);
  }
}
