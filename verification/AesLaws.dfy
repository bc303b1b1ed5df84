/**
  The plain cipher octet by octet: what one round makes of the state, and the whole cipher
  as a chain of states.  Multiplication in GF(2^8) is the one of section 4.2 of FIPS 197.
*/
module AesLaws {
  import opened Aes

  /** The product of two octets, the bits of `c` taken from the lowest on. */
  function Product(c: bv8, b: bv8): (r: bv8)
    decreases c
  {
    if c == 0 then 0
    else (if c & 1 == 1 then b else 0) ^ Product(c >> 1, if b < 0x80 then b << 1 else (b << 1) ^ 0x1b)
  }

  lemma ProductOfOne(b: bv8)
    ensures Product(1, b) == b
  {
    assert Product(0, if b < 0x80 then b << 1 else (b << 1) ^ 0x1b) == 0;
  }

  lemma XTimeIsProduct(b: bv8)
    ensures XTime(b) == Product(2, b)
  {
    var b2 := if b < 0x80 then b << 1 else (b << 1) ^ 0x1b;
    ProductOfOne(b2);
    assert 2 as bv8 >> 1 == 1;
    XTimeCases(b);
  }

  lemma XTimeCases(b: bv8)
    ensures XTime(b) == if b < 0x80 then b << 1 else (b << 1) ^ 0x1b
  {
  }

  lemma Times3IsProduct(b: bv8)
    ensures Times3(b) == Product(3, b)
  {
    hide XTime;
    var b2 := if b < 0x80 then b << 1 else (b << 1) ^ 0x1b;
    ProductOfOne(b2);
    assert 3 as bv8 >> 1 == 1;
    XTimeCases(b);
    XorCommutes(b2, b);
  }

  lemma XorCommutes(a: bv8, b: bv8)
    ensures Add(a, b) == b ^ a
  {
  }

  // ---------------------------------------------------------------------- one round

  /** Row `row` of column `c`. */
  function At(b: Block, c: nat, row: nat): (x: bv8)
    requires c < 4 && row < 4
  {
    b[4 * c + row]
  }

  /** The octet that ShiftRows brings to row `row` of column `c`, substituted. */
  function Shifted(s: SBox, b: Block, c: nat, row: nat): (x: bv8) {
    s(At(b, (c + row) % 4, row % 4))
  }

  function Xor4(a: bv8, b: bv8, c: bv8, d: bv8): (r: bv8) {
    a ^ b ^ c ^ d
  }

  /** One row of the matrix of MixColumns: each row is the one above moved on by one. */
  function Mixed(s: SBox, b: Block, c: nat, row: nat): (x: bv8) {
    Xor4(Product(2, Shifted(s, b, c, row)), Product(3, Shifted(s, b, c, row + 1)),
         Shifted(s, b, c, row + 2), Shifted(s, b, c, row + 3))
  }

  lemma XorMovesOn(a: bv8, b: bv8, c: bv8, d: bv8)
    ensures Add4(a, b, c, d) == Add4(d, a, b, c)
  {
    hide Add;
    AddLaws(Add(Add(a, b), c), d, 0);
    AddLaws(d, Add(a, b), c);
    AddLaws(d, a, b);
  }

  lemma AddLaws(a: bv8, b: bv8, c: bv8)
    ensures Add(a, b) == Add(b, a) && Add(a, Add(b, c)) == Add(Add(a, b), c)
  {
  }

  lemma XorIsSum(a: bv8, b: bv8, c: bv8, d: bv8)
    ensures Xor4(a, b, c, d) == Add4(a, b, c, d)
  {
  }

  lemma XorInAnyOrder(a: bv8, b: bv8, c: bv8, d: bv8)
    ensures Xor4(a, b, c, d) == Add4(a, b, c, d) == Add4(d, a, b, c) == Add4(c, d, a, b) == Add4(b, c, d, a)
  {
    hide Xor4, Add4;
    XorIsSum(a, b, c, d);
    XorMovesOn(a, b, c, d);
    XorMovesOn(d, a, b, c);
    XorMovesOn(c, d, a, b);
  }

  /** `m` is a column; the four rows of the matrix are one row moved on. */
  lemma MixColumnIs(m: seq<bv8>, row: nat)
    requires |m| == 4 && row < 4
    ensures MixColumn(m[0], m[1], m[2], m[3], row)
         == Xor4(Product(2, m[row]), Product(3, m[(row + 1) % 4]), m[(row + 2) % 4], m[(row + 3) % 4])
  {
    hide XTime, Times3, Product, Xor4, Add4;
    if row == 0 {
      MixedRow(m[0], m[1], m[2], m[3]);
    } else if row == 1 {
      MixedRow(m[1], m[2], m[3], m[0]);
    } else if row == 2 {
      MixedRow(m[2], m[3], m[0], m[1]);
    } else {
      MixedRow(m[3], m[0], m[1], m[2]);
    }
  }

  lemma MixedRow(x: bv8, y: bv8, z: bv8, w: bv8)
    ensures var a, b := XTime(x), Times3(y);
            Xor4(Product(2, x), Product(3, y), z, w) == Add4(a, b, z, w) == Add4(w, a, b, z) == Add4(z, w, a, b)
            == Add4(b, z, w, a)
  {
    hide XTime, Times3, Product, Xor4, Add4;
    XTimeIsProduct(x);
    Times3IsProduct(y);
    XorInAnyOrder(XTime(x), Times3(y), z, w);
  }

  lemma ShiftRowsBrings(s: SBox, b: Block, c: nat, row: nat)
    requires c < 4
    ensures Shifted(s, b, c, row) == ShiftRows(SubBytes(s, b))[4 * c + row % 4]
  {
    hide ShiftRows;
    ShiftRowsAt(SubBytes(s, b), c, row % 4);
    assert (c + row % 4) % 4 == (c + row) % 4;
  }

  lemma ColumnMixes(m: Block, c: nat, row: nat)
    requires c < 4 && row < 4
    ensures MixColumns(m)[4 * c + row]
         == Xor4(Product(2, m[4 * c + row]), Product(3, m[4 * c + (row + 1) % 4]), m[4 * c + (row + 2) % 4],
                 m[4 * c + (row + 3) % 4])
  {
    hide MixColumns, MixColumn, Product, Xor4;
    MixColumnsAt(m, c, row);
    var column := m[4 * c..4 * c + 4];
    assert forall j :: 0 <= j < 4 ==> column[j] == m[4 * c + j];
    MixColumnIs(column, row);
  }

  lemma MixColumnsIs(s: SBox, b: Block, c: nat, row: nat)
    requires c < 4 && row < 4
    ensures MixColumns(ShiftRows(SubBytes(s, b)))[4 * c + row] == Mixed(s, b, c, row)
  {
    hide ShiftRows, SubBytes, MixColumns, Product, Xor4, Shifted;
    ShiftRowsBrings(s, b, c, row);
    ShiftRowsBrings(s, b, c, row + 1);
    ShiftRowsBrings(s, b, c, row + 2);
    ShiftRowsBrings(s, b, c, row + 3);
    ColumnMixes(ShiftRows(SubBytes(s, b)), c, row);
  }

  /** The word of the round key for the column, octet by octet, is added last. */
  ghost predicate FullStep(s: SBox, w: seq<bv32>, r: nat, before: Block, after: Block)
    requires 4 * r + 4 <= |w|
  {
    forall c, row :: 0 <= c < 4 && 0 <= row < 4 ==>
                       At(after, c, row) == Mixed(s, before, c, row) ^ KeyOctet(w[4 * r + c], row)
  }

  ghost predicate LastStep(s: SBox, w: seq<bv32>, r: nat, before: Block, after: Block)
    requires 4 * r + 4 <= |w|
  {
    forall c, row :: 0 <= c < 4 && 0 <= row < 4 ==>
                       At(after, c, row) == Shifted(s, before, c, row) ^ KeyOctet(w[4 * r + c], row)
  }

  ghost predicate FirstStep(w: seq<bv32>, input: Block, after: Block)
    requires 4 <= |w|
  {
    forall c, row :: 0 <= c < 4 && 0 <= row < 4 ==> At(after, c, row) == At(input, c, row) ^ KeyOctet(w[c], row)
  }

  lemma AddIsXor(a: bv8, b: bv8)
    ensures Add(a, b) == a ^ b
  {
  }

  /** Blocks with the same octets. */
  lemma SameOctets(a: Block, b: Block)
    requires forall c, row :: 0 <= c < 4 && 0 <= row < 4 ==> At(a, c, row) == At(b, c, row)
    ensures a == b
  {
    forall i | 0 <= i < 16 ensures a[i] == b[i] {
      assert i == 4 * (i / 4) + i % 4;
      assert At(a, i / 4, i % 4) == At(b, i / 4, i % 4);
    }
  }

  /** A full round is exactly the step given by the matrix. */
  lemma RoundExact(s: SBox, w: seq<bv32>, r: nat, before: Block, after: Block)
    requires 4 * r + 4 <= |w|
    ensures after == Round(s, before, RoundKey(w, r)) <==> FullStep(s, w, r, before, after)
  {
    hide Mixed, KeyOctet, MixColumns, ShiftRows, SubBytes, AddRoundKey, Add;
    var round, k := Round(s, before, RoundKey(w, r)), RoundKey(w, r);
    forall c, row | 0 <= c < 4 && 0 <= row < 4
      ensures At(round, c, row) == Mixed(s, before, c, row) ^ KeyOctet(w[4 * r + c], row)
    {
      AddRoundKeyAt(MixColumns(ShiftRows(SubBytes(s, before))), k, c, row);
      MixColumnsIs(s, before, c, row);
      AddIsXor(Mixed(s, before, c, row), KeyOctet(k[c], row));
    }
    if FullStep(s, w, r, before, after) {
      SameOctets(after, round);
    }
  }

  /** The final round has no MixColumns. */
  lemma FinalRoundExact(s: SBox, w: seq<bv32>, r: nat, before: Block, after: Block)
    requires 4 * r + 4 <= |w|
    ensures after == FinalRound(s, before, RoundKey(w, r)) <==> LastStep(s, w, r, before, after)
  {
    hide Shifted, KeyOctet, ShiftRows, SubBytes, AddRoundKey, Add;
    var round, k := FinalRound(s, before, RoundKey(w, r)), RoundKey(w, r);
    forall c, row | 0 <= c < 4 && 0 <= row < 4
      ensures At(round, c, row) == Shifted(s, before, c, row) ^ KeyOctet(w[4 * r + c], row)
    {
      AddRoundKeyAt(ShiftRows(SubBytes(s, before)), k, c, row);
      ShiftRowsBrings(s, before, c, row);
      AddIsXor(Shifted(s, before, c, row), KeyOctet(k[c], row));
    }
    if LastStep(s, w, r, before, after) {
      SameOctets(after, round);
    }
  }

  lemma FirstExact(w: seq<bv32>, input: Block, after: Block)
    requires 4 <= |w|
    ensures after == AddRoundKey(input, RoundKey(w, 0)) <==> FirstStep(w, input, after)
  {
    hide KeyOctet, AddRoundKey, Add;
    var first := AddRoundKey(input, RoundKey(w, 0));
    forall c, row | 0 <= c < 4 && 0 <= row < 4
      ensures At(first, c, row) == At(input, c, row) ^ KeyOctet(w[c], row)
    {
      AddRoundKeyAt(input, RoundKey(w, 0), c, row);
      AddIsXor(At(input, c, row), KeyOctet(w[c], row));
    }
    if FirstStep(w, input, after) {
      SameOctets(after, first);
    }
  }

  // --------------------------------------------------------------- the whole cipher

  /** A chain of states from the plaintext to the ciphertext: `nr - 1` full rounds and a last one. */
  ghost predicate Chain(s: SBox, w: seq<bv32>, nr: nat, input: Block, states: seq<Block>, output: Block) {
    && nr >= 1 && 4 * nr + 4 <= |w| && |states| == nr
    && FirstStep(w, input, states[0])
    && (forall r :: 1 <= r < nr ==> FullStep(s, w, r, states[r - 1], states[r]))
    && LastStep(s, w, nr, states[nr - 1], output)
  }

  lemma {:induction false} ChainFollowsRounds(s: SBox, w: seq<bv32>, nr: nat, input: Block, states: seq<Block>,
                                              output: Block, r: nat)
    requires Chain(s, w, nr, input, states, output) && r < nr
    ensures states[r] == Rounds(s, w, input, r)
  {
    hide FirstStep, FullStep, LastStep, Round, AddRoundKey;
    if r == 0 {
      FirstExact(w, input, states[0]);
    } else {
      ChainFollowsRounds(s, w, nr, input, states, output, r - 1);
      RoundExact(s, w, r, states[r - 1], states[r]);
    }
  }

  /** Cipher() gives exactly the end of such a chain. */
  lemma CipherExact(s: SBox, w: seq<bv32>, nr: nat, input: Block, output: Block)
    requires nr >= 1 && 4 * nr + 4 <= |w|
    ensures output == Cipher(s, w, nr, input) <==> exists states :: Chain(s, w, nr, input, states, output)
  {
    hide FirstStep, FullStep, LastStep, Round, FinalRound, AddRoundKey, RoundKey;
    if output == Cipher(s, w, nr, input) {
      var states: seq<Block> := seq(nr, r requires 0 <= r < nr => Rounds(s, w, input, r));
      FirstExact(w, input, states[0]);
      forall r | 1 <= r < nr ensures FullStep(s, w, r, states[r - 1], states[r]) {
        RoundExact(s, w, r, states[r - 1], states[r]);
      }
      FinalRoundExact(s, w, nr, states[nr - 1], output);
      assert Chain(s, w, nr, input, states, output);
    }
    forall states | Chain(s, w, nr, input, states, output) ensures output == Cipher(s, w, nr, input) {
      ChainFollowsRounds(s, w, nr, input, states, output, nr - 1);
      FinalRoundExact(s, w, nr, states[nr - 1], output);
    }
  }
}
