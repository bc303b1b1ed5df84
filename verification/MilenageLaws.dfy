/** What the choice of rotations and constants in Milenage is for: the outputs never coincide. */
module MilenageLaws {
  import opened Wrappers
  import opened Milenage

  /** Under this key the cipher is a permutation of the blocks. */
  ghost predicate InjectiveUnder(e: Cipher, k: seq<bv8>) {
    forall x: Block, y: Block :: e(k, x) == e(k, y) ==> x == y
  }

  function Sum4(a: bv8, b: bv8, c: bv8, d: bv8): (r: bv8) { Sum(Sum(a, b), Sum(c, d)) }

  lemma SumLaws(a: bv8, b: bv8, c: bv8)
    ensures Sum(a, b) == Sum(b, a) && Sum(a, Sum(b, c)) == Sum(Sum(a, b), c)
  {
  }

  lemma SumMovesOn(a: bv8, b: bv8, c: bv8, d: bv8)
    ensures Sum4(a, b, c, d) == Sum4(b, c, d, a)
  {
    hide Sum;
    SumLaws(a, b, 0);
    SumLaws(b, a, Sum(c, d));
    SumLaws(a, Sum(c, d), 0);
    SumLaws(c, d, a);
    SumLaws(b, c, Sum(d, a));
  }

  /** The exclusive-or of four octets from `i` on. */
  function Quarter(x: Block, i: nat): (r: bv8)
    requires i <= 12
  {
    Sum4(x[i], x[i + 1], x[i + 2], x[i + 3])
  }

  /** The exclusive-or of all octets of a block. */
  function Total(x: Block): (r: bv8) {
    Sum4(Quarter(x, 0), Quarter(x, 4), Quarter(x, 8), Quarter(x, 12))
  }

  lemma LastChanges(a: bv8, b: bv8, c: bv8, d: bv8, k: bv8)
    ensures Sum4(a, b, c, Sum(d, k)) == Sum(Sum4(a, b, c, d), k)
  {
    hide Sum;
    SumLaws(c, d, k);
    SumLaws(Sum(a, b), Sum(c, d), k);
  }

  /** Moving by whole quarters keeps the total, and the constant is added to it. */
  lemma TotalOfMoved(x: Block, n: nat, c: bv8)
    requires n in {0, 4, 8, 12}
    ensures Total(Moved(x, n, c)) == Sum(Total(x), c)
  {
    hide Sum, Sum4, Quarter, Moved;
    var q0, q1, q2, q3 := Quarter(x, 0), Quarter(x, 4), Quarter(x, 8), Quarter(x, 12);
    QuartersOfMoved(x, n, c);
    SumMovesOn(q0, q1, q2, q3);
    SumMovesOn(q1, q2, q3, q0);
    SumMovesOn(q2, q3, q0, q1);
    if n == 0 {
      LastChanges(q0, q1, q2, q3, c);
    } else if n == 4 {
      LastChanges(q1, q2, q3, q0, c);
    } else if n == 8 {
      LastChanges(q2, q3, q0, q1, c);
    } else {
      LastChanges(q3, q0, q1, q2, c);
    }
  }

  lemma QuartersOfMoved(x: Block, n: nat, c: bv8)
    requires n in {0, 4, 8, 12}
    ensures var y := Moved(x, n, c);
            && Quarter(y, 0) == Quarter(x, n % 16) && Quarter(y, 4) == Quarter(x, (4 + n) % 16)
            && Quarter(y, 8) == Quarter(x, (8 + n) % 16)
            && Quarter(y, 12) == Sum(Quarter(x, (12 + n) % 16), c)
  {
    hide Sum4, Sum, Moved;
    var y := Moved(x, n, c);
    MovedAt(x, n, c, 0);
    MovedAt(x, n, c, 4);
    MovedAt(x, n, c, 8);
    MovedAt(x, n, c, 12);
    var i := (12 + n) % 16;
    LastChanges(x[i], x[i + 1], x[i + 2], x[i + 3], c);
  }

  lemma MovedAt(x: Block, n: nat, c: bv8, i: nat)
    requires n in {0, 4, 8, 12} && i in {0, 4, 8, 12}
    ensures var y, k := Moved(x, n, c), (i + n) % 16;
            && y[i] == x[k] && y[i + 1] == x[k + 1] && y[i + 2] == x[k + 2]
            && y[i + 3] == if i == 12 then Sum(x[k + 3], c) else x[k + 3]
  {
    hide WithLast, Sum, Moved;
    var k := (i + n) % 16;
    InOneQuarter(i + n);
    MovedOctet(x, n, c, i);
    MovedOctet(x, n, c, i + 1);
    MovedOctet(x, n, c, i + 2);
    MovedOctet(x, n, c, i + 3);
  }

  lemma MovedOctet(x: Block, n: nat, c: bv8, j: nat)
    requires j < 16
    ensures var octet := x[(j + n) % 16];
            Moved(x, n, c)[j] == if j == 15 then Sum(octet, c) else octet
  {
    hide WithLast, Sum;
    WithLastIs(x[(j + n) % 16], j, c);
  }

  lemma InOneQuarter(i: nat)
    requires i < 32 && i % 4 == 0
    ensures i % 16 <= 12
    ensures (i + 1) % 16 == i % 16 + 1 && (i + 2) % 16 == i % 16 + 2 && (i + 3) % 16 == i % 16 + 3
  {
    Mod16(i);
    Mod16(i + 1);
    Mod16(i + 2);
    Mod16(i + 3);
  }

  lemma SumCancels(t: bv8, c: bv8, d: bv8)
    requires Sum(t, c) == Sum(t, d)
    ensures c == d
  {
  }

  /** Two outputs with different constants differ, whatever the rotations. */
  lemma OutputsDiffer(e: Cipher, opc: Block, k: seq<bv8>, rand: Block, n: nat, c: bv8, m: nat, d: bv8)
    requires InjectiveUnder(e, k) && n in {0, 4, 8, 12} && m in {0, 4, 8, 12} && c != d
    ensures Output(e, opc, k, rand, n, c) != Output(e, opc, k, rand, m, d)
  {
    hide Hidden, Total, Moved, Sum, Masked;
    var x := Hidden(e, opc, k, rand);
    var y, z := Moved(x, n, c), Moved(x, m, d);
    TotalOfMoved(x, n, c);
    TotalOfMoved(x, m, d);
    if y == z {
      SumCancels(Total(x), c, d);
    }
    MaskedInjective(e(k, y), e(k, z), opc);
  }

  lemma MaskedInjective(p: Block, q: Block, opc: Block)
    ensures Masked(p, opc) == Masked(q, opc) ==> p == q
  {
    hide Sum;
    if Masked(p, opc) == Masked(q, opc) {
      forall i | 0 <= i < 16 ensures p[i] == q[i] {
        assert Masked(p, opc)[i] == Masked(q, opc)[i];
        XorByte(p[i], opc[i]);
        XorByte(q[i], opc[i]);
      }
    }
  }

  /** For every cipher that is a permutation under the key, OUT2 to OUT5 are pairwise different; CK never equals IK. */
  lemma KeysDiffer(e: Cipher, opc: Block, k: seq<bv8>, rand: Block)
    requires InjectiveUnder(e, k)
    ensures var out2, out3 := Output(e, opc, k, rand, 0, 1), Output(e, opc, k, rand, 4, 2);
            var out4, out5 := Output(e, opc, k, rand, 8, 4), Output(e, opc, k, rand, 12, 8);
            && out2 != out3 && out2 != out4 && out2 != out5 && out3 != out4 && out3 != out5 && out4 != out5
    ensures Ck(e, opc, k, rand) != Ik(e, opc, k, rand)
  {
    hide Output, InjectiveUnder, Ck, Ik;
    OutputsDiffer(e, opc, k, rand, 0, 1, 4, 2);
    OutputsDiffer(e, opc, k, rand, 0, 1, 8, 4);
    OutputsDiffer(e, opc, k, rand, 0, 1, 12, 8);
    OutputsDiffer(e, opc, k, rand, 4, 2, 8, 4);
    OutputsDiffer(e, opc, k, rand, 4, 2, 12, 8);
    OutputsDiffer(e, opc, k, rand, 8, 4, 12, 8);
    KeysInOctets(e, opc, k, rand);
  }

  // ------------------------------------------------------------- messages in octets

  /** AUTN is SQN under AK, AMF and MAC-A, and the other outputs are those of f2 to f5. */
  lemma ChallengeInOctets(e: Cipher, opc: Block, amf: seq<bv8>, k: seq<bv8>, sqn: seq<bv8>, rand: Block)
    requires |sqn| == 6 && |amf| == 2
    ensures var c := ChallengeFor(e, opc, amf, k, sqn, rand);
            && |c.autn| == 16
            && (forall i :: 0 <= i < 6 ==> c.autn[i] == Sum(sqn[i], Output(e, opc, k, rand, 0, 1)[i]))
            && c.autn[6..8] == amf
            && c.autn[8..16] == CodeOutput(e, opc, k, rand, sqn, amf)[0..8]
            && c.res == Output(e, opc, k, rand, 0, 1)[8..16] && c.ak == Output(e, opc, k, rand, 0, 1)[0..6]
            && c.ck == Output(e, opc, k, rand, 4, 2) && c.ik == Output(e, opc, k, rand, 8, 4)
  {
    hide Output, CodeOutput, Ak, Res, Ck, Ik, MacA, Sum;
    KeysInOctets(e, opc, k, rand);
    CodesInOctets(e, opc, k, rand, sqn, amf);
    var c := ChallengeFor(e, opc, amf, k, sqn, rand);
    forall i | 0 <= i < 6 ensures c.autn[i] == Sum(sqn[i], Output(e, opc, k, rand, 0, 1)[i]) {
      assert c.autn[i] == Xor(sqn, Ak(e, opc, k, rand))[i];
    }
  }

  /** AUTS is the stored SQN under AK* and MAC-S over it with an AMF of two zero octets. */
  lemma AutsInOctets(e: Cipher, opc: Block, k: seq<bv8>, stored: seq<bv8>, rand: Block, autn: Block)
    requires |stored| == 6 && VerdictOn(e, opc, k, stored, rand, autn).Resync?
    ensures var auts := VerdictOn(e, opc, k, stored, rand, autn).auts;
            && |auts| == 14
            && (forall i :: 0 <= i < 6 ==> auts[i] == Sum(stored[i], Output(e, opc, k, rand, 12, 8)[i]))
            && auts[6..14] == CodeOutput(e, opc, k, rand, stored, [0, 0])[8..16]
  {
    hide Output, CodeOutput, Ak, Res, Ck, Ik, AkStar, MacA, MacS, Sum, TakenAsNewer, TakenAsEqual;
    KeysInOctets(e, opc, k, rand);
    CodesInOctets(e, opc, k, rand, stored, [0, 0]);
    var auts := VerdictOn(e, opc, k, stored, rand, autn).auts;
    forall i | 0 <= i < 6 ensures auts[i] == Sum(stored[i], Output(e, opc, k, rand, 12, 8)[i]) {
      assert auts[i] == Xor(stored, AkStar(e, opc, k, rand))[i];
    }
  }

  /** A request is opened to `sqn` if and only if it is `sqn` under AK* followed by the MAC-S over it. */
  lemma AutsOpensExact(e: Cipher, opc: Block, k: seq<bv8>, rand: Block, auts: seq<bv8>, sqn: seq<bv8>)
    requires |auts| == 14 && |sqn| == 6
    ensures AutsOpens(e, opc, k, rand, auts) == Some(sqn) <==>
            && |k| in {16, 24, 32}
            && (forall i :: 0 <= i < 6 ==> auts[i] == Sum(sqn[i], Output(e, opc, k, rand, 12, 8)[i]))
            && auts[6..14] == CodeOutput(e, opc, k, rand, sqn, [0, 0])[8..16]
  {
    hide Output, CodeOutput, Ak, Res, Ck, Ik, AkStar, MacA, MacS, Sum, TakenAsNewer, TakenAsEqual;
    KeysInOctets(e, opc, k, rand);
    CodesInOctets(e, opc, k, rand, sqn, [0, 0]);
    var out, recovered := Output(e, opc, k, rand, 12, 8), Xor(auts[..6], AkStar(e, opc, k, rand));
    forall i | 0 <= i < 6 ensures auts[i] == Sum(sqn[i], out[i]) <==> recovered[i] == sqn[i] {
      XorByte(auts[i], out[i]);
      XorByte(sqn[i], out[i]);
    }
    if forall i :: 0 <= i < 6 ==> auts[i] == Sum(sqn[i], out[i]) {
      assert recovered == sqn;
    }
  }
}
