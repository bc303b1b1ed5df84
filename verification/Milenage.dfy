/**
  MILENAGE as a two-party protocol: the network generates a challenge, the subscriber
  checks it or asks for resynchronisation, and the network accepts that request.  The
  block cipher is a parameter, so the results hold for every cipher.  The definitions
  `Out1` and `OutOf` are those of section 4.1 of 3GPP TS 35.206.
*/
module Milenage {
  import opened Wrappers

  type Block = b: seq<bv8> | |b| == 16 witness seq(16, _ => 0)

  /** E_K: the cipher under a key. */
  type Cipher = (seq<bv8>, Block) -> Block

  /** The AMF of a resynchronisation request (section 6.3.3 of 3GPP TS 33.102). */
  const AUTS_AMF: seq<bv8> := [0, 0]

  predicate KeySizeOk(k: seq<bv8>) {
    |k| == 16 || |k| == 24 || |k| == 32
  }

  // ------------------------------------------------------------------ specification

  /** The exclusive-or of two octets. */
  function Sum(a: bv8, b: bv8): (r: bv8) { a ^ b }

  function Xor(a: seq<bv8>, b: seq<bv8>): (r: seq<bv8>)
    requires |a| == |b|
    ensures |r| == |a| && forall i :: 0 <= i < |r| ==> r[i] == Sum(a[i], b[i])
  {
    seq(|a|, i requires 0 <= i < |a| => Sum(a[i], b[i]))
  }

  lemma XorCancels(a: seq<bv8>, b: seq<bv8>)
    requires |a| == |b|
    ensures Xor(Xor(a, b), b) == a
  {
    forall i | 0 <= i < |a| ensures Xor(Xor(a, b), b)[i] == a[i] {
      XorByte(a[i], b[i]);
    }
  }

  lemma XorByte(a: bv8, b: bv8)
    ensures Sum(Sum(a, b), b) == a
  {
  }

  /** rot(x, 8 * n): rotation by `n` octets towards the most significant one. */
  function Rot(x: Block, n: nat): (r: Block)
    requires n < 16
    ensures forall j :: 0 <= j < 16 ==> r[j] == x[(j + n) % 16]
  {
    seq(16, j requires 0 <= j < 16 => x[(j + n) % 16])
  }

  /** The constants c1..c5 are zero except for the last octet. */
  function WithConstant(x: Block, c: bv8): (r: Block) {
    x[15 := Sum(x[15], c)]
  }

  function Temp(e: Cipher, opc: Block, k: seq<bv8>, rand: Block): (t: Block) {
    e(k, Xor(rand, opc))
  }

  /** IN1 = SQN || AMF || SQN || AMF. */
  function In1(sqn: seq<bv8>, amf: seq<bv8>): (r: Block)
    requires |sqn| == 6 && |amf| == 2
  {
    sqn + amf + sqn + amf
  }

  function Out1(e: Cipher, opc: Block, k: seq<bv8>, rand: Block, sqn: seq<bv8>, amf: seq<bv8>): (r: Block)
    requires |sqn| == 6 && |amf| == 2
  {
    Xor(e(k, Xor(Rot(Xor(In1(sqn, amf), opc), 8), Temp(e, opc, k, rand))), opc)
  }

  /** OUT2 to OUT5, for rotation `n` octets and constant `c`. */
  function OutOf(e: Cipher, opc: Block, k: seq<bv8>, rand: Block, n: nat, c: bv8): (r: Block)
    requires n < 16
  {
    Xor(e(k, WithConstant(Rot(Xor(Temp(e, opc, k, rand), opc), n), c)), opc)
  }

  function MacA(e: Cipher, opc: Block, k: seq<bv8>, rand: Block, sqn: seq<bv8>, amf: seq<bv8>): (r: seq<bv8>)
    requires |sqn| == 6 && |amf| == 2
    ensures |r| == 8
  {
    Out1(e, opc, k, rand, sqn, amf)[..8]
  }

  function MacS(e: Cipher, opc: Block, k: seq<bv8>, rand: Block, sqn: seq<bv8>, amf: seq<bv8>): (r: seq<bv8>)
    requires |sqn| == 6 && |amf| == 2
    ensures |r| == 8
  {
    Out1(e, opc, k, rand, sqn, amf)[8..]
  }

  function Res(e: Cipher, opc: Block, k: seq<bv8>, rand: Block): (r: seq<bv8>)
    ensures |r| == 8
  {
    OutOf(e, opc, k, rand, 0, 1)[8..]
  }

  function Ak(e: Cipher, opc: Block, k: seq<bv8>, rand: Block): (r: seq<bv8>)
    ensures |r| == 6
  {
    OutOf(e, opc, k, rand, 0, 1)[..6]
  }

  function Ck(e: Cipher, opc: Block, k: seq<bv8>, rand: Block): (r: Block) {
    OutOf(e, opc, k, rand, 4, 2)
  }

  function Ik(e: Cipher, opc: Block, k: seq<bv8>, rand: Block): (r: Block) {
    OutOf(e, opc, k, rand, 8, 4)
  }

  function AkStar(e: Cipher, opc: Block, k: seq<bv8>, rand: Block): (r: seq<bv8>)
    ensures |r| == 6
  {
    OutOf(e, opc, k, rand, 12, 8)[..6]
  }

  // ------------------------------------------------------------ the outputs in octets

  /** OPc added to each octet. */
  function Masked(x: Block, opc: Block): (r: Block) {
    seq(16, j requires 0 <= j < 16 => Sum(x[j], opc[j]))
  }

  /** TEMP with OPc added. */
  function Hidden(e: Cipher, opc: Block, k: seq<bv8>, rand: Block): (x: Block) {
    Masked(e(k, Masked(rand, opc)), opc)
  }

  /** The constant is added to the last octet only. */
  function WithLast(x: bv8, j: nat, c: bv8): (r: bv8) {
    Sum(x, if j == 15 then c else 0)
  }

  /** The octets moved `n` places to the front, the constant added to the last one. */
  function Moved(x: Block, n: nat, c: bv8): (y: Block) {
    seq(16, j requires 0 <= j < 16 => WithLast(x[(j + n) % 16], j, c))
  }

  /** One more encryption and OPc once more. */
  function Output(e: Cipher, opc: Block, k: seq<bv8>, rand: Block, n: nat, c: bv8): (out: Block) {
    Masked(e(k, Moved(Hidden(e, opc, k, rand), n, c)), opc)
  }

  /** The input of f1: SQN and AMF twice, and octet j comes from octet j + 8 of it. */
  function CodeInput(e: Cipher, opc: Block, k: seq<bv8>, rand: Block, sqn: seq<bv8>, amf: seq<bv8>): (z: Block)
    requires |sqn| == 6 && |amf| == 2
  {
    var data: seq<bv8> := sqn + amf;
    seq(16, j requires 0 <= j < 16 => Sum(Sum(data[j % 8], opc[(j + 8) % 16]), e(k, Masked(rand, opc))[j]))
  }

  function CodeOutput(e: Cipher, opc: Block, k: seq<bv8>, rand: Block, sqn: seq<bv8>, amf: seq<bv8>): (out: Block)
    requires |sqn| == 6 && |amf| == 2
  {
    Masked(e(k, CodeInput(e, opc, k, rand, sqn, amf)), opc)
  }

  lemma XorIsMasked(x: Block, opc: Block)
    ensures Xor(x, opc) == Masked(x, opc)
  {
  }

  lemma OutOfIsOutput(e: Cipher, opc: Block, k: seq<bv8>, rand: Block, n: nat, c: bv8)
    requires n < 16
    ensures OutOf(e, opc, k, rand, n, c) == Output(e, opc, k, rand, n, c)
  {
    hide Masked, Xor, Rot, WithConstant, Moved;
    XorIsMasked(rand, opc);
    XorIsMasked(Temp(e, opc, k, rand), opc);
    WithConstantIs(Hidden(e, opc, k, rand), n, c);
    XorIsMasked(e(k, Moved(Hidden(e, opc, k, rand), n, c)), opc);
  }

  lemma WithConstantIs(x: Block, n: nat, c: bv8)
    requires n < 16
    ensures WithConstant(Rot(x, n), c) == Moved(x, n, c)
  {
    hide WithLast, Rot, Sum;
    var r := Rot(x, n);
    forall j | 0 <= j < 16 ensures WithConstant(r, c)[j] == Moved(x, n, c)[j] {
      WithLastIs(r[j], j, c);
    }
  }

  lemma WithLastIs(x: bv8, j: nat, c: bv8)
    ensures WithLast(x, j, c) == if j == 15 then Sum(x, c) else x
  {
    hide Sum;
    XorNothing(x);
  }

  lemma XorNothing(a: bv8)
    ensures Sum(a, 0) == a
  {
  }

  /** RES, CK, IK, AK and AK* are parts of OUT2 to OUT5: rotations by 0, 4, 8 and 12 octets, constants 1, 2, 4 and 8. */
  ghost predicate KeysAre(e: Cipher, opc: Block, k: seq<bv8>, rand: Block, res: seq<bv8>, ck: seq<bv8>, ik: seq<bv8>,
                          ak: seq<bv8>, akstar: seq<bv8>) {
    && res == Output(e, opc, k, rand, 0, 1)[8..16] && ak == Output(e, opc, k, rand, 0, 1)[0..6]
    && ck == Output(e, opc, k, rand, 4, 2) && ik == Output(e, opc, k, rand, 8, 4)
    && akstar == Output(e, opc, k, rand, 12, 8)[0..6]
  }

  /** MAC-A and MAC-S are the halves of OUT1. */
  ghost predicate CodesAre(e: Cipher, opc: Block, k: seq<bv8>, rand: Block, sqn: seq<bv8>, amf: seq<bv8>,
                           macA: seq<bv8>, macS: seq<bv8>)
    requires |sqn| == 6 && |amf| == 2
  {
    && macA == CodeOutput(e, opc, k, rand, sqn, amf)[0..8]
    && macS == CodeOutput(e, opc, k, rand, sqn, amf)[8..16]
  }

  lemma KeysInOctets(e: Cipher, opc: Block, k: seq<bv8>, rand: Block)
    ensures KeysAre(e, opc, k, rand, Res(e, opc, k, rand), Ck(e, opc, k, rand), Ik(e, opc, k, rand),
                    Ak(e, opc, k, rand), AkStar(e, opc, k, rand))
  {
    hide Output, OutOf;
    OutOfIsOutput(e, opc, k, rand, 0, 1);
    OutOfIsOutput(e, opc, k, rand, 4, 2);
    OutOfIsOutput(e, opc, k, rand, 8, 4);
    OutOfIsOutput(e, opc, k, rand, 12, 8);
  }

  lemma CodesInOctets(e: Cipher, opc: Block, k: seq<bv8>, rand: Block, sqn: seq<bv8>, amf: seq<bv8>)
    requires |sqn| == 6 && |amf| == 2
    ensures CodesAre(e, opc, k, rand, sqn, amf, MacA(e, opc, k, rand, sqn, amf), MacS(e, opc, k, rand, sqn, amf))
  {
    hide Masked, Xor, Rot, In1, CodeInput;
    var z: Block := Xor(Rot(Xor(In1(sqn, amf), opc), 8), Temp(e, opc, k, rand));
    CodeInputIs(e, opc, k, rand, sqn, amf);
    XorIsMasked(e(k, z), opc);
  }

  lemma CodeInputIs(e: Cipher, opc: Block, k: seq<bv8>, rand: Block, sqn: seq<bv8>, amf: seq<bv8>)
    requires |sqn| == 6 && |amf| == 2
    ensures Xor(Rot(Xor(In1(sqn, amf), opc), 8), Temp(e, opc, k, rand)) == CodeInput(e, opc, k, rand, sqn, amf)
  {
    hide Masked, Xor, Rot, Sum;
    XorIsMasked(rand, opc);
    var data: seq<bv8> := sqn + amf;
    forall j | 0 <= j < 16 ensures In1(sqn, amf)[(j + 8) % 16] == data[j % 8] {
      assert In1(sqn, amf) == data + data;
    }
  }

  // --------------------------------------------------------- the loops over buffers

  /** Where octet `i` goes when the loop rotates by `shift`. */
  function Target(i: nat, shift: nat): (j: nat)
    ensures j < 16
  {
    (i + shift) % 16
  }

  /** Where octet `j` of the rotated block comes from. */
  function Source(j: nat, shift: nat): (i: nat)
    requires shift <= 16
    ensures i < 16
  {
    (j + (16 - shift) % 16) % 16
  }

  lemma Mod16(x: nat)
    requires x < 48
    ensures x % 16 == if x < 16 then x else if x < 32 then x - 16 else x - 32
  {
  }

  lemma TargetOfSource(j: nat, shift: nat)
    requires j < 16 && shift <= 16
    ensures Target(Source(j, shift), shift) == j
  {
    Mod16(16 - shift);
    Mod16(j + (16 - shift) % 16);
    Mod16(Source(j, shift) + shift);
  }

  lemma SourceOfTarget(i: nat, shift: nat)
    requires i < 16 && shift <= 16
    ensures Source(Target(i, shift), shift) == i
  {
    Mod16(i + shift);
    Mod16(16 - shift);
    Mod16(Target(i, shift) + (16 - shift) % 16);
  }

  /** `dst[(i + shift) % 16] = a[i] ^ b[i]` for all i, which rotates by `16 - shift`. */
  method XorRotated(a: Block, b: Block, shift: nat) returns (dst: Block)
    requires 0 < shift <= 16
    ensures dst == Rot(Xor(a, b), (16 - shift) % 16)
  {
    forall j | 0 <= j < 16 ensures Target(Source(j, shift), shift) == j {
      TargetOfSource(j, shift);
    }
    dst := RotateLoop(a, b, shift);
    assert forall j :: 0 <= j < 16 ==> dst[j] == Rot(Xor(a, b), (16 - shift) % 16)[j];
  }

  method RotateLoop(a: Block, b: Block, shift: nat) returns (dst: Block)
    requires shift <= 16 && forall j :: 0 <= j < 16 ==> Target(Source(j, shift), shift) == j
    ensures forall j :: 0 <= j < 16 ==> dst[j] == Sum(a[Source(j, shift)], b[Source(j, shift)])
  {
    hide Target, Source;
    var tmp := new bv8[16](_ => 0);
    var i := 0;
    while i < 16
      invariant 0 <= i <= 16
      invariant forall j :: 0 <= j < 16 && Source(j, shift) < i ==>
                tmp[j] == Sum(a[Source(j, shift)], b[Source(j, shift)])
    {
      SourceOfTarget(i, shift);
      tmp[Target(i, shift)] := Sum(a[i], b[i]);
      i := i + 1;
    }
    dst := tmp[..];
  }

  method XorInPlace(dst: array<bv8>, b: seq<bv8>)
    requires dst.Length == |b|
    modifies dst
    ensures dst[..] == Xor(old(dst[..]), b)
  {
    var i := 0;
    while i < dst.Length
      invariant 0 <= i <= dst.Length
      invariant forall m :: 0 <= m < i ==> dst[m] == Sum(old(dst[m]), b[m])
      invariant forall m :: i <= m < dst.Length ==> dst[m] == old(dst[m])
    {
      dst[i] := Sum(dst[i], b[i]);
      i := i + 1;
    }
  }

  method XorOf(a: seq<bv8>, b: seq<bv8>) returns (r: seq<bv8>)
    requires |a| == |b|
    ensures r == Xor(a, b)
  {
    var buffer := new bv8[|a|](i requires 0 <= i < |a| => a[i]);
    XorInPlace(buffer, b);
    r := buffer[..];
    assert r == Xor(a, b);
  }

  // ----------------------------------------------------------------------- functions

  /** `milenageF1`; fails when the cipher refuses the key. */
  method MilenageF1(e: Cipher, opc: Block, k: seq<bv8>, rand: Block, sqn: seq<bv8>, amf: seq<bv8>)
    returns (ok: bool, macA: seq<bv8>, macS: seq<bv8>)
    requires |sqn| == 6 && |amf| >= 2
    ensures ok <==> |k| in {16, 24, 32}
    ensures ok ==> macA == MacA(e, opc, k, rand, sqn, amf[..2]) && macS == MacS(e, opc, k, rand, sqn, amf[..2])
    ensures ok ==> CodesAre(e, opc, k, rand, sqn, amf[..2], macA, macS)
  {
    macA, macS := [], [];
    var input := XorOf(rand, opc);
    if !KeySizeOk(k) {
      return false, macA, macS;
    }
    var tmp1 := e(k, input);
    var tmp2: seq<bv8> := sqn + amf[..2];
    tmp2 := tmp2 + tmp2;
    assert tmp2 == In1(sqn, amf[..2]);
    var tmp3 := XorRotated(tmp2, opc, 8);
    var tmp4 := XorOf(tmp3, tmp1);
    tmp1 := e(k, tmp4);
    var out := XorOf(tmp1, opc);
    CodesInOctets(e, opc, k, rand, sqn, amf[..2]);
    return true, out[..8], out[8..];
  }

  /** The rotation, the constant, the cipher and the final addition of OPc. */
  method OutputBlock(e: Cipher, opc: Block, k: seq<bv8>, temp: Block, shift: nat, c: bv8) returns (out: Block)
    requires 0 < shift <= 16
    ensures out == Xor(e(k, WithConstant(Rot(Xor(temp, opc), (16 - shift) % 16), c)), opc)
  {
    var tmp1 := XorRotated(temp, opc, shift);
    tmp1 := tmp1[15 := Sum(tmp1[15], c)];
    out := XorOf(e(k, tmp1), opc);
  }

  /** `milenageF2345` with every output asked for. */
  method MilenageF2345(e: Cipher, opc: Block, k: seq<bv8>, rand: Block)
    returns (ok: bool, res: seq<bv8>, ck: seq<bv8>, ik: seq<bv8>, ak: seq<bv8>, akstar: seq<bv8>)
    ensures ok <==> |k| in {16, 24, 32}
    ensures ok ==> res == Res(e, opc, k, rand) && ck == Ck(e, opc, k, rand) && ik == Ik(e, opc, k, rand)
    ensures ok ==> ak == Ak(e, opc, k, rand) && akstar == AkStar(e, opc, k, rand)
    ensures ok ==> KeysAre(e, opc, k, rand, res, ck, ik, ak, akstar)
  {
    KeysInOctets(e, opc, k, rand);
    hide KeysAre;
    res, ck, ik, ak, akstar := [], [], [], [], [];
    var tmp1 := XorOf(rand, opc);
    if !KeySizeOk(k) {
      return false, res, ck, ik, ak, akstar;
    }
    ok := true;
    var tmp2 := e(k, tmp1);
    var tmp3 := OutputBlock(e, opc, k, tmp2, 16, 1);
    res, ak := tmp3[8..], tmp3[..6];
    ck := OutputBlock(e, opc, k, tmp2, 12, 2);
    ik := OutputBlock(e, opc, k, tmp2, 8, 4);
    var tmp5 := OutputBlock(e, opc, k, tmp2, 4, 8);
    akstar := tmp5[..6];
  }

  // ------------------------------------------------------------------------- compare

  /** The index of the first difference, or `num`. */
  function FirstDifference(a: seq<bv8>, b: seq<bv8>, i: nat): (d: nat)
    requires i <= |a| <= |b|
    ensures i <= d <= |a| && (forall j :: i <= j < d ==> a[j] == b[j]) && (d < |a| ==> a[d] != b[d])
    decreases |a| - i
  {
    if i < |a| && a[i] == b[i] then FirstDifference(a, b, i + 1) else i
  }

  /** `os_memcmp`: plus or minus the index of the first difference, hence 0 for one at index 0. */
  method OsMemcmp(a: seq<bv8>, b: seq<bv8>, num: nat) returns (r: int)
    requires num == |a| <= |b|
    ensures var d := FirstDifference(a, b, 0);
            r == if d == num then 0 else if a[d] < b[d] then 0 - d else d
  {
    var i := 0;
    while i < num
      invariant 0 <= i <= num && FirstDifference(a, b, 0) == FirstDifference(a, b, i)
    {
      if a[i] < b[i] {
        return 0 - i;
      }
      if a[i] > b[i] {
        return i;
      }
      i := i + 1;
    }
    return 0;
  }

  /** What the check takes for "newer": greater at the first difference, which is not at index 0. */
  predicate TakenAsNewer(received: seq<bv8>, stored: seq<bv8>)
    requires |received| == |stored|
  {
    var d := FirstDifference(received, stored, 0);
    0 < d < |received| && received[d] > stored[d]
  }

  /** What the check takes for equal codes: no difference, or one at index 0. */
  predicate TakenAsEqual(a: seq<bv8>, b: seq<bv8>)
    requires |a| == |b|
  {
    var d := FirstDifference(a, b, 0);
    d == 0 || d == |a|
  }

  /** The number a big-endian octet string stands for: the order sequence numbers are meant to have. */
  function NumberOf(s: seq<bv8>): (n: nat) {
    if s == [] then 0 else 256 * NumberOf(s[..|s| - 1]) + Uint(s[|s| - 1])
  }

  function Uint(b: bv8): (n: nat)
    ensures n < 256
  {
    b as nat
  }

  // ------------------------------------------------------------------- the protocol

  datatype Challenge = Challenge(autn: seq<bv8>, res: seq<bv8>, ck: seq<bv8>, ik: seq<bv8>, ak: seq<bv8>)

  /** AUTN = (SQN ^ AK) || AMF || MAC. */
  function ChallengeFor(e: Cipher, opc: Block, amf: seq<bv8>, k: seq<bv8>, sqn: seq<bv8>, rand: Block): (c: Challenge)
    requires |sqn| == 6 && |amf| == 2
  {
    Challenge(Xor(sqn, Ak(e, opc, k, rand)) + amf + MacA(e, opc, k, rand, sqn, amf),
              Res(e, opc, k, rand), Ck(e, opc, k, rand), Ik(e, opc, k, rand), Ak(e, opc, k, rand))
  }

  method MilenageGenerate(e: Cipher, opc: Block, amf: seq<bv8>, k: seq<bv8>, sqn: seq<bv8>, rand: Block, resRoom: nat)
    returns (resLen: nat, c: Challenge)
    requires |sqn| == 6 && |amf| == 2
    ensures resLen == if resRoom >= 8 && |k| in {16, 24, 32} then 8 else 0
    ensures resLen == 8 ==> c == ChallengeFor(e, opc, amf, k, sqn, rand)
  {
    c := Challenge([], [], [], [], []);
    if resRoom < 8 {
      return 0, c;
    }
    var ok1, macA, _ := MilenageF1(e, opc, k, rand, sqn, amf);
    assert amf[..2] == amf;
    var ok2, res, ck, ik, ak, _ := MilenageF2345(e, opc, k, rand);
    if !ok1 || !ok2 {
      return 0, c;
    }
    var hidden := XorOf(sqn, ak);
    return 8, Challenge(hidden + amf + macA, res, ck, ik, ak);
  }

  datatype Verdict = Accepted(res: seq<bv8>, ck: seq<bv8>, ik: seq<bv8>) | Resync(auts: seq<bv8>) | Refused

  /** What the subscriber decides on an AUTN, as a function of everything it depends on. */
  function VerdictOn(e: Cipher, opc: Block, k: seq<bv8>, sqn: seq<bv8>, rand: Block, autn: Block): (v: Verdict)
    requires |sqn| == 6
  {
    if !KeySizeOk(k) then Refused
    else
      var received := Xor(autn[..6], Ak(e, opc, k, rand));
      if !TakenAsNewer(received, sqn) then
        Resync(Xor(sqn, AkStar(e, opc, k, rand)) + MacS(e, opc, k, rand, sqn, AUTS_AMF))
      else if TakenAsEqual(MacA(e, opc, k, rand, received, autn[6..8]), autn[8..]) then
        Accepted(Res(e, opc, k, rand), Ck(e, opc, k, rand), Ik(e, opc, k, rand))
      else Refused
  }

  /** `Milenage_check`: 0 is `Accepted`, -2 `Resync` and -1 `Refused`. */
  method MilenageCheck(e: Cipher, opc: Block, k: seq<bv8>, sqn: seq<bv8>, rand: Block, autn: Block) returns (v: Verdict)
    requires |sqn| == 6
    ensures v == VerdictOn(e, opc, k, sqn, rand, autn)
  {
    hide MacA, MacS, Ak, AkStar, Res, Ck, Ik, Xor, FirstDifference, KeysAre, CodesAre;
    var ok, res, ck, ik, ak, akstar := MilenageF2345(e, opc, k, rand);
    if !ok {
      return Refused;
    }
    var rxSqn := XorOf(autn[..6], ak);
    var order := OsMemcmp(rxSqn, sqn, 6);
    if order <= 0 {
      var hidden := XorOf(sqn, akstar);
      var okS, _, macS := MilenageF1(e, opc, k, rand, sqn, AUTS_AMF);
      assert AUTS_AMF[..2] == AUTS_AMF;
      if !okS {
        return Refused;
      }
      return Resync(hidden + macS);
    }
    var okA, macA, _ := MilenageF1(e, opc, k, rand, rxSqn, autn[6..]);
    if !okA {
      return Refused;
    }
    assert autn[6..][..2] == autn[6..8];
    var difference := OsMemcmp(macA, autn[8..], 8);
    if difference != 0 {
      return Refused;
    }
    return Accepted(res, ck, ik);
  }

  /** `Milenage_auts`: the sequence number of the subscriber, if the request is genuine. */
  method MilenageAuts(e: Cipher, opc: Block, k: seq<bv8>, rand: Block, auts: seq<bv8>) returns (sqn: Option<seq<bv8>>)
    requires |auts| == 14
    ensures sqn == AutsOpens(e, opc, k, rand, auts)
  {
    hide MacA, MacS, Res, Ck, Ik, Ak, AkStar, Xor, Sum, KeysAre, CodesAre;
    var ok, _, _, _, _, akstar := MilenageF2345(e, opc, k, rand);
    if !ok {
      return None;
    }
    var recovered := XorOf(auts[..6], akstar);
    var okS, _, macS := MilenageF1(e, opc, k, rand, recovered, AUTS_AMF);
    assert AUTS_AMF[..2] == AUTS_AMF;
    if !okS || macS != auts[6..14] {
      return None;
    }
    return Some(recovered);
  }

  function AutsOpens(e: Cipher, opc: Block, k: seq<bv8>, rand: Block, auts: seq<bv8>): (sqn: Option<seq<bv8>>)
    requires |auts| == 14
  {
    var recovered := Xor(auts[..6], AkStar(e, opc, k, rand));
    if KeySizeOk(k) && MacS(e, opc, k, rand, recovered, AUTS_AMF) == auts[6..14] then Some(recovered) else None
  }

  // ---------------------------------------------------------------------- agreement

  lemma ReceivedIsSent(e: Cipher, opc: Block, amf: seq<bv8>, k: seq<bv8>, sqn: seq<bv8>, rand: Block)
    requires |sqn| == 6 && |amf| == 2
    ensures var autn := ChallengeFor(e, opc, amf, k, sqn, rand).autn;
            && |autn| == 16
            && Xor(autn[..6], Ak(e, opc, k, rand)) == sqn && autn[6..8] == amf
            && autn[8..] == MacA(e, opc, k, rand, sqn, amf)
  {
    var ak := Ak(e, opc, k, rand);
    var c := ChallengeFor(e, opc, amf, k, sqn, rand);
    assert c.autn[..6] == Xor(sqn, ak);
    XorCancels(sqn, ak);
  }

  /**
    Agreement, for every cipher and key: a generated challenge is accepted with the
    network's own RES, CK and IK exactly when the sequence number is greater than the
    stored one at the first octet in which they differ and that is not octet 0; in every
    other case the subscriber asks for resynchronisation.  It is never refused.
  */
  lemma ChallengeAgreement(e: Cipher, opc: Block, amf: seq<bv8>, k: seq<bv8>, sent: seq<bv8>, stored: seq<bv8>,
                           rand: Block)
    requires |sent| == 6 && |stored| == 6 && |amf| == 2 && |k| in {16, 24, 32}
    ensures var c := ChallengeFor(e, opc, amf, k, sent, rand);
            && |c.autn| == 16
            && var v := VerdictOn(e, opc, k, stored, rand, c.autn);
               && (v.Accepted? <==> TakenAsNewer(sent, stored))
               && (v.Accepted? ==> v == Accepted(c.res, c.ck, c.ik))
               && (!v.Accepted? ==> v.Resync?)
  {
    ReceivedIsSent(e, opc, amf, k, sent, rand);
  }

  /** Codes are taken as equal if they are, or if they differ in their first octet. */
  lemma TakenAsEqualExact(a: seq<bv8>, b: seq<bv8>)
    requires |a| == |b| > 0
    ensures TakenAsEqual(a, b) <==> a == b || a[0] != b[0]
  {
    var d := FirstDifference(a, b, 0);
    assert d == |a| ==> a == b;
  }

  /**
    For every cipher, key and AUTN: it is accepted if and only if the key has the size of an AES key,
    the sequence number is taken as newer and the code is the right one or has a wrong first octet;
    a sequence number that is not taken as newer is answered by a resynchronisation.
  */
  lemma AcceptedExact(e: Cipher, opc: Block, k: seq<bv8>, stored: seq<bv8>, rand: Block, autn: Block)
    requires |stored| == 6
    ensures var received := Xor(autn[..6], Ak(e, opc, k, rand));
            var mac := MacA(e, opc, k, rand, received, autn[6..8]);
            var verdict := VerdictOn(e, opc, k, stored, rand, autn);
            && (verdict.Accepted? <==>
                && |k| in {16, 24, 32} && TakenAsNewer(received, stored)
                && (mac == autn[8..] || mac[0] != autn[8]))
            && (verdict.Resync? <==> |k| in {16, 24, 32} && !TakenAsNewer(received, stored))
  {
    hide TakenAsNewer, TakenAsEqual, MacA, Ak, Res, Ck, Ik, AkStar, MacS, Xor;
    var received := Xor(autn[..6], Ak(e, opc, k, rand));
    TakenAsEqualExact(MacA(e, opc, k, rand, received, autn[6..8]), autn[8..]);
  }

  /** A genuine challenge is accepted with its first code octet changed to anything else, whatever follows it. */
  lemma WrongFirstOctetAccepted(e: Cipher, opc: Block, amf: seq<bv8>, k: seq<bv8>, sent: seq<bv8>, stored: seq<bv8>,
                                rand: Block, other: Block)
    requires |sent| == 6 && |stored| == 6 && |amf| == 2 && |k| in {16, 24, 32} && TakenAsNewer(sent, stored)
    requires var autn := ChallengeFor(e, opc, amf, k, sent, rand).autn;
             |autn| == 16 && other[..8] == autn[..8] && other[8] != autn[8]
    ensures VerdictOn(e, opc, k, stored, rand, other).Accepted?
  {
    hide TakenAsNewer, MacA, Ak, VerdictOn, Xor;
    ReceivedIsSent(e, opc, amf, k, sent, rand);
    var autn := ChallengeFor(e, opc, amf, k, sent, rand).autn;
    assert other[..6] == other[..8][..6] == autn[..6];
    assert other[6..8] == other[..8][6..] == autn[6..8];
    AcceptedExact(e, opc, k, stored, rand, other);
  }

  /** Whenever the check answers with a resynchronisation request, it opens to the stored number. */
  lemma ResyncRecovers(e: Cipher, opc: Block, k: seq<bv8>, stored: seq<bv8>, rand: Block, autn: Block)
    requires |stored| == 6 && VerdictOn(e, opc, k, stored, rand, autn).Resync?
    ensures var auts := VerdictOn(e, opc, k, stored, rand, autn).auts;
            |auts| == 14 && AutsOpens(e, opc, k, rand, auts) == Some(stored)
  {
    hide Out1, OutOf, MacA, MacS, Ak, AkStar, Res, Ck, Ik, Xor, FirstDifference;
    var auts := VerdictOn(e, opc, k, stored, rand, autn).auts;
    var akstar := AkStar(e, opc, k, rand);
    assert auts[..6] == Xor(stored, akstar);
    assert auts[6..14] == MacS(e, opc, k, rand, stored, AUTS_AMF);
    XorCancels(stored, akstar);
  }

  /** Two full rounds: after resynchronisation a number above the recovered one is accepted. */
  lemma ResyncThenAccept(e: Cipher, opc: Block, amf: seq<bv8>, k: seq<bv8>, stored: seq<bv8>, rand: Block, autn: Block,
                         next: seq<bv8>, rand2: Block)
    requires |stored| == 6 && |amf| == 2 && VerdictOn(e, opc, k, stored, rand, autn).Resync?
    requires var sqn := AutsOpens(e, opc, k, rand, VerdictOn(e, opc, k, stored, rand, autn).auts);
             sqn.Some? && |next| == |sqn.value| && TakenAsNewer(next, sqn.value)
    ensures |next| == 6
    ensures var c := ChallengeFor(e, opc, amf, k, next, rand2);
            |c.autn| == 16 && VerdictOn(e, opc, k, stored, rand2, c.autn) == Accepted(c.res, c.ck, c.ik)
  {
    ResyncRecovers(e, opc, k, stored, rand, autn);
    ChallengeAgreement(e, opc, amf, k, next, stored, rand2);
  }

  // ------------------------------------------------- the order on sequence numbers

  lemma ByteOrder(a: bv8, b: bv8)
    ensures a > b <==> Uint(a) > Uint(b)
    ensures a == b <==> Uint(a) == Uint(b)
  {
  }

  /** The last octet decides between equal numbers only. */
  lemma OneMoreOctet(a: seq<bv8>, b: seq<bv8>, n: nat)
    requires |a| == |b| == n + 1
    ensures var x, y := NumberOf(a[..n]), NumberOf(b[..n]);
            && (NumberOf(a) > NumberOf(b) <==> x > y || (x == y && a[n] > b[n]))
            && (NumberOf(a) == NumberOf(b) <==> x == y && a[n] == b[n])
  {
    hide NumberOf, Uint;
    LastOctetCounts(a, n);
    LastOctetCounts(b, n);
    ByteOrder(a[n], b[n]);
    LastDigit(NumberOf(a[..n]), NumberOf(b[..n]), Uint(a[n]), Uint(b[n]));
  }

  lemma LastOctetCounts(a: seq<bv8>, n: nat)
    requires |a| == n + 1
    ensures NumberOf(a) == 256 * NumberOf(a[..n]) + Uint(a[n])
  {
  }

  lemma LastDigit(x: nat, y: nat, p: nat, q: nat)
    requires p < 256 && q < 256
    ensures 256 * x + p > 256 * y + q <==> x > y || (x == y && p > q)
    ensures 256 * x + p == 256 * y + q <==> x == y && p == q
  {
  }

  /** A difference decides the order, whatever octets follow it. */
  lemma {:induction false} DifferenceDecides(a: seq<bv8>, b: seq<bv8>)
    requires |a| == |b|
    ensures var d := FirstDifference(a, b, 0);
            NumberOf(a) > NumberOf(b) <==> d < |a| && a[d] > b[d]
    ensures NumberOf(a) == NumberOf(b) <==> FirstDifference(a, b, 0) == |a|
    decreases |a|
  {
    if a != [] {
      hide FirstDifference, NumberOf;
      var n := |a| - 1;
      DifferenceDecides(a[..n], b[..n]);
      FirstDifferenceOfPrefix(a, b, n);
      OneMoreOctet(a, b, n);
    }
  }

  lemma FirstDifferenceOfPrefix(a: seq<bv8>, b: seq<bv8>, n: nat)
    requires |a| == |b| == n + 1
    ensures var d := FirstDifference(a[..n], b[..n], 0);
            FirstDifference(a, b, 0) == if d < n then d else if a[n] == b[n] then n + 1 else n
  {
    hide FirstDifference;
    var d := FirstDifference(a[..n], b[..n], 0);
    forall j | 0 <= j < d ensures a[j] == b[j] {
      assert a[..n][j] == b[..n][j];
    }
    if d < n {
      assert a[..n][d] != b[..n][d];
    }
  }

  /**
    The check's comparison against the numeric order: they agree for all pairs of numbers
    with the same first octet, and a number that differs there is never taken as newer.
  */
  lemma NewerIsGreater(received: seq<bv8>, stored: seq<bv8>)
    requires |received| == |stored| == 6
    ensures received[0] == stored[0] ==> (TakenAsNewer(received, stored) <==> NumberOf(received) > NumberOf(stored))
    ensures received[0] != stored[0] ==> !TakenAsNewer(received, stored)
  {
    DifferenceDecides(received, stored);
  }
}
