/**
  The table-driven cipher of lib/aes against the plain one of FIPS 197 (sections 5.1
  and 5.2).  The byte substitution is a parameter; the tables are any tables that are
  built from it by the MixColumns law.
*/
module Aes {
  // ------------------------------------------------------------- octets and words

  /** `GETU32` of four octets. */
  function Word(a: bv8, b: bv8, c: bv8, d: bv8): (w: bv32) {
    (a as bv32 << 24) ^ (b as bv32 << 16) ^ (c as bv32 << 8) ^ (d as bv32)
  }

  function B0(w: bv32): (b: bv8) { ((w >> 24) & 0xff) as bv8 }
  function B1(w: bv32): (b: bv8) { ((w >> 16) & 0xff) as bv8 }
  function B2(w: bv32): (b: bv8) { ((w >> 8) & 0xff) as bv8 }
  function B3(w: bv32): (b: bv8) { (w & 0xff) as bv8 }

  lemma OctetsOfWord(a: bv8, b: bv8, c: bv8, d: bv8)
    ensures B0(Word(a, b, c, d)) == a && B1(Word(a, b, c, d)) == b
    ensures B2(Word(a, b, c, d)) == c && B3(Word(a, b, c, d)) == d
  {
  }

  /** Addition in GF(2^8) and of words, section 4.1. */
  function Add(a: bv8, b: bv8): (r: bv8) { a ^ b }
  function AddWords(v: bv32, w: bv32): (r: bv32) { v ^ w }

  lemma SumAsWord(v: bv32, w: bv32)
    ensures AddWords(v, w) == Word(Add(B0(v), B0(w)), Add(B1(v), B1(w)), Add(B2(v), B2(w)), Add(B3(v), B3(w)))
  {
  }

  lemma AddIsOctetwise(v: bv32, w: bv32)
    ensures B0(AddWords(v, w)) == Add(B0(v), B0(w)) && B1(AddWords(v, w)) == Add(B1(v), B1(w))
    ensures B2(AddWords(v, w)) == Add(B2(v), B2(w)) && B3(AddWords(v, w)) == Add(B3(v), B3(w))
  {
    hide Word, B0, B1, B2, B3, Add, AddWords;
    SumAsWord(v, w);
    OctetsOfWord(Add(B0(v), B0(w)), Add(B1(v), B1(w)), Add(B2(v), B2(w)), Add(B3(v), B3(w)));
  }

  // ------------------------------------------------------------- the plain cipher

  type SBox = bv8 -> bv8

  /** Multiplication by x in GF(2^8), section 4.2.1. */
  function XTime(b: bv8): (r: bv8) {
    if b & 0x80 == 0 then b << 1 else (b << 1) ^ 0x1b
  }

  function Times3(b: bv8): (r: bv8) {
    Add(XTime(b), b)
  }

  function Add4(a: bv8, b: bv8, c: bv8, d: bv8): (r: bv8) {
    Add(Add(Add(a, b), c), d)
  }

  /** The state array, column by column: octet r of column c is at 4 * c + r. */
  type Block = b: seq<bv8> | |b| == 16 witness seq(16, _ => 0)

  function SubBytes(s: SBox, b: Block): (r: Block) {
    seq(16, i requires 0 <= i < 16 => s(b[i]))
  }

  /** Row r is rotated by r columns. */
  function ShiftRows(b: Block): (r: Block) {
    seq(16, i requires 0 <= i < 16 => b[(i + 4 * (i % 4)) % 16])
  }

  function MixColumn(a0: bv8, a1: bv8, a2: bv8, a3: bv8, row: nat): (r: bv8)
    requires row < 4
  {
    if row == 0 then Add4(XTime(a0), Times3(a1), a2, a3)
    else if row == 1 then Add4(a0, XTime(a1), Times3(a2), a3)
    else if row == 2 then Add4(a0, a1, XTime(a2), Times3(a3))
    else Add4(Times3(a0), a1, a2, XTime(a3))
  }

  function MixColumns(b: Block): (r: Block) {
    seq(16, i requires 0 <= i < 16 =>
              var c := 4 * (i / 4);
              MixColumn(b[c], b[c + 1], b[c + 2], b[c + 3], i % 4))
  }

  /** The four words of a round key, as octets. */
  function KeyOctet(w: bv32, row: nat): (b: bv8)
    requires row < 4
  {
    if row == 0 then B0(w) else if row == 1 then B1(w) else if row == 2 then B2(w) else B3(w)
  }

  function AddRoundKey(b: Block, k: seq<bv32>): (r: Block)
    requires |k| == 4
  {
    seq(16, i requires 0 <= i < 16 => Add(b[i], KeyOctet(k[i / 4], i % 4)))
  }

  function Round(s: SBox, b: Block, k: seq<bv32>): (r: Block)
    requires |k| == 4
  {
    AddRoundKey(MixColumns(ShiftRows(SubBytes(s, b))), k)
  }

  function FinalRound(s: SBox, b: Block, k: seq<bv32>): (r: Block)
    requires |k| == 4
  {
    AddRoundKey(ShiftRows(SubBytes(s, b)), k)
  }

  function RoundKey(w: seq<bv32>, n: nat): (k: seq<bv32>)
    requires 4 * n + 4 <= |w|
    ensures |k| == 4
  {
    w[4 * n..4 * n + 4]
  }

  /** The state after the first addition and `n` full rounds. */
  function Rounds(s: SBox, w: seq<bv32>, input: Block, n: nat): (r: Block)
    requires 4 * n + 4 <= |w|
  {
    if n == 0 then AddRoundKey(input, RoundKey(w, 0)) else Round(s, Rounds(s, w, input, n - 1), RoundKey(w, n))
  }

  /** Cipher() of section 5.1 with `nr` rounds. */
  function Cipher(s: SBox, w: seq<bv32>, nr: nat, input: Block): (r: Block)
    requires nr >= 1 && 4 * nr + 4 <= |w|
  {
    FinalRound(s, Rounds(s, w, input, nr - 1), RoundKey(w, nr))
  }

  // ----------------------------------------------------------------- the tables

  datatype Tables = Tables(te0: bv8 -> bv32, te1: bv8 -> bv32, te2: bv8 -> bv32, te3: bv8 -> bv32, te4: bv8 -> bv32)

  /** One column of SubBytes and MixColumns for each position of the octet, and plain copies in Te4. */
  ghost predicate BuiltFrom(t: Tables, s: SBox) {
    && (forall x :: t.te0(x) == Word(XTime(s(x)), s(x), s(x), Times3(s(x))))
    && (forall x :: t.te1(x) == Word(Times3(s(x)), XTime(s(x)), s(x), s(x)))
    && (forall x :: t.te2(x) == Word(s(x), Times3(s(x)), XTime(s(x)), s(x)))
    && (forall x :: t.te3(x) == Word(s(x), s(x), Times3(s(x)), XTime(s(x))))
    && (forall x :: t.te4(x) == Word(s(x), s(x), s(x), s(x)))
  }

  /** The four state words, one for each column. */
  type Words = v: seq<bv32> | |v| == 4 witness seq(4, _ => 0)

  function Octets(v: Words): (b: Block) {
    seq(16, i requires 0 <= i < 16 => KeyOctet(v[i / 4], i % 4))
  }

  function AddWords5(a: bv32, b: bv32, c: bv32, d: bv32, k: bv32): (r: bv32) {
    AddWords(AddWords(AddWords(AddWords(a, b), c), d), k)
  }

  /** One line of an unrolled round. */
  function TableColumn(t: Tables, a: bv32, b: bv32, c: bv32, d: bv32, k: bv32): (w: bv32) {
    AddWords5(t.te0(B0(a)), t.te1(B1(b)), t.te2(B2(c)), t.te3(B3(d)), k)
  }

  function Keep(w: bv32, mask: bv32): (r: bv32) { w & mask }

  /** One line of the last round. */
  function LastColumn(t: Tables, a: bv32, b: bv32, c: bv32, d: bv32, k: bv32): (w: bv32) {
    AddWords5(Keep(t.te4(B0(a)), 0xff00_0000), Keep(t.te4(B1(b)), 0x00ff_0000), Keep(t.te4(B2(c)), 0x0000_ff00),
              Keep(t.te4(B3(d)), 0x0000_00ff), k)
  }

  lemma OctetOfSum(v: bv32, w: bv32, row: nat)
    requires row < 4
    ensures KeyOctet(AddWords(v, w), row) == Add(KeyOctet(v, row), KeyOctet(w, row))
  {
    hide AddWords, Add, B0, B1, B2, B3;
    AddIsOctetwise(v, w);
  }

  lemma OctetOfWord(a: bv8, b: bv8, c: bv8, d: bv8, row: nat)
    requires row < 4
    ensures KeyOctet(Word(a, b, c, d), row) == if row == 0 then a else if row == 1 then b else if row == 2 then c else d
  {
    hide Word, B0, B1, B2, B3;
    OctetsOfWord(a, b, c, d);
  }

  lemma OctetOfSum5(a: bv32, b: bv32, c: bv32, d: bv32, k: bv32, row: nat)
    requires row < 4
    ensures KeyOctet(AddWords5(a, b, c, d, k), row) ==
            Add(Add4(KeyOctet(a, row), KeyOctet(b, row), KeyOctet(c, row), KeyOctet(d, row)), KeyOctet(k, row))
  {
    hide KeyOctet, AddWords, Add;
    var ab := AddWords(a, b);
    var abc := AddWords(ab, c);
    var abcd := AddWords(abc, d);
    OctetOfSum(a, b, row);
    OctetOfSum(ab, c, row);
    OctetOfSum(abc, d, row);
    OctetOfSum(abcd, k, row);
  }

  /** Octet `row` of the entry that position `position` contributes. */
  lemma TableEntry(t: Tables, s: SBox, x: bv8, row: nat)
    requires BuiltFrom(t, s) && row < 4
    ensures KeyOctet(t.te0(x), row) == if row == 0 then XTime(s(x)) else if row == 3 then Times3(s(x)) else s(x)
    ensures KeyOctet(t.te1(x), row) == if row == 1 then XTime(s(x)) else if row == 0 then Times3(s(x)) else s(x)
    ensures KeyOctet(t.te2(x), row) == if row == 2 then XTime(s(x)) else if row == 1 then Times3(s(x)) else s(x)
    ensures KeyOctet(t.te3(x), row) == if row == 3 then XTime(s(x)) else if row == 2 then Times3(s(x)) else s(x)
    ensures KeyOctet(t.te4(x), row) == s(x)
  {
    hide Word, KeyOctet, XTime, Times3;
    var a, x2, x3 := s(x), XTime(s(x)), Times3(s(x));
    OctetOfWord(x2, a, a, x3, row);
    OctetOfWord(x3, x2, a, a, row);
    OctetOfWord(a, x3, x2, a, row);
    OctetOfWord(a, a, x3, x2, row);
    OctetOfWord(a, a, a, a, row);
  }

  lemma TableColumnMixes(t: Tables, s: SBox, a: bv32, b: bv32, c: bv32, d: bv32, k: bv32, row: nat)
    requires BuiltFrom(t, s) && row < 4
    ensures KeyOctet(TableColumn(t, a, b, c, d, k), row) ==
            Add(MixColumn(s(B0(a)), s(B1(b)), s(B2(c)), s(B3(d)), row), KeyOctet(k, row))
  {
    hide B0, B1, B2, B3, XTime, Times3, KeyOctet, BuiltFrom, AddWords5, Add4, Add;
    OctetOfSum5(t.te0(B0(a)), t.te1(B1(b)), t.te2(B2(c)), t.te3(B3(d)), k, row);
    TableEntry(t, s, B0(a), row);
    TableEntry(t, s, B1(b), row);
    TableEntry(t, s, B2(c), row);
    TableEntry(t, s, B3(d), row);
  }

  lemma KeptOctet(w: bv32, row: nat)
    requires row < 4
    ensures KeyOctet(Keep(w, 0xff00_0000), row) == if row == 0 then KeyOctet(w, row) else 0
    ensures KeyOctet(Keep(w, 0x00ff_0000), row) == if row == 1 then KeyOctet(w, row) else 0
    ensures KeyOctet(Keep(w, 0x0000_ff00), row) == if row == 2 then KeyOctet(w, row) else 0
    ensures KeyOctet(Keep(w, 0x0000_00ff), row) == if row == 3 then KeyOctet(w, row) else 0
  {
    if row == 0 {
    } else if row == 1 {
    } else if row == 2 {
    } else {
      assert row == 3;
    }
  }

  lemma AddZeros(x: bv8)
    ensures Add4(x, 0, 0, 0) == x && Add4(0, x, 0, 0) == x && Add4(0, 0, x, 0) == x && Add4(0, 0, 0, x) == x
  {
  }

  /** The octet of row `row` of four words. */
  function RowOf(a: bv32, b: bv32, c: bv32, d: bv32, row: nat): (x: bv8)
    requires row < 4
  {
    if row == 0 then B0(a) else if row == 1 then B1(b) else if row == 2 then B2(c) else B3(d)
  }

  lemma LastColumnSubstitutes(t: Tables, s: SBox, a: bv32, b: bv32, c: bv32, d: bv32, k: bv32, row: nat)
    requires BuiltFrom(t, s) && row < 4
    ensures KeyOctet(LastColumn(t, a, b, c, d, k), row) == Add(s(RowOf(a, b, c, d, row)), KeyOctet(k, row))
  {
    hide B0, B1, B2, B3, KeyOctet, BuiltFrom, AddWords5, Add4, Add, Keep;
    OctetOfSum5(Keep(t.te4(B0(a)), 0xff00_0000), Keep(t.te4(B1(b)), 0x00ff_0000), Keep(t.te4(B2(c)), 0x0000_ff00),
                Keep(t.te4(B3(d)), 0x0000_00ff), k, row);
    KeptOctet(t.te4(B0(a)), row);
    KeptOctet(t.te4(B1(b)), row);
    KeptOctet(t.te4(B2(c)), row);
    KeptOctet(t.te4(B3(d)), row);
    TableEntry(t, s, RowOf(a, b, c, d, row), row);
    AddZeros(s(RowOf(a, b, c, d, row)));
  }

  // ------------------------------------------------------------ rounds are rounds

  lemma ShiftRowsAt(b: Block, c: nat, row: nat)
    requires c < 4 && row < 4
    ensures ShiftRows(b)[4 * c + row] == b[4 * ((c + row) % 4) + row]
  {
    var i := 4 * c + row;
    assert i % 4 == row;
    assert (i + 4 * row) % 16 == 4 * ((c + row) % 4) + row;
  }

  lemma OctetsAt(v: Words, c: nat, row: nat)
    requires c < 4 && row < 4
    ensures Octets(v)[4 * c + row] == KeyOctet(v[c], row)
  {
    assert (4 * c + row) / 4 == c && (4 * c + row) % 4 == row;
  }

  /** After SubBytes and ShiftRows, row `row` of column `c` comes from column `c + row`. */
  lemma ShiftedOctet(s: SBox, v: Words, c: nat, row: nat)
    requires c < 4 && row < 4
    ensures ShiftRows(SubBytes(s, Octets(v)))[4 * c + row] == s(KeyOctet(v[(c + row) % 4], row))
  {
    hide ShiftRows, Octets, KeyOctet;
    ShiftRowsAt(SubBytes(s, Octets(v)), c, row);
    OctetsAt(v, (c + row) % 4, row);
  }

  lemma MixColumnsAt(b: Block, c: nat, row: nat)
    requires c < 4 && row < 4
    ensures MixColumns(b)[4 * c + row] == MixColumn(b[4 * c], b[4 * c + 1], b[4 * c + 2], b[4 * c + 3], row)
  {
    hide MixColumn;
    assert (4 * c + row) / 4 == c && (4 * c + row) % 4 == row;
  }

  lemma AddRoundKeyAt(b: Block, k: seq<bv32>, c: nat, row: nat)
    requires |k| == 4 && c < 4 && row < 4
    ensures AddRoundKey(b, k)[4 * c + row] == Add(b[4 * c + row], KeyOctet(k[c], row))
  {
    hide Add, KeyOctet;
    assert (4 * c + row) / 4 == c && (4 * c + row) % 4 == row;
  }

  lemma ShiftedColumn(s: SBox, v: Words, c: nat)
    requires c < 4
    ensures ShiftRows(SubBytes(s, Octets(v)))[4 * c] == s(B0(v[c]))
    ensures ShiftRows(SubBytes(s, Octets(v)))[4 * c + 1] == s(B1(v[(c + 1) % 4]))
    ensures ShiftRows(SubBytes(s, Octets(v)))[4 * c + 2] == s(B2(v[(c + 2) % 4]))
    ensures ShiftRows(SubBytes(s, Octets(v)))[4 * c + 3] == s(B3(v[(c + 3) % 4]))
  {
    hide ShiftRows, SubBytes, Octets, B0, B1, B2, B3;
    ShiftedOctet(s, v, c, 0);
    ShiftedOctet(s, v, c, 1);
    ShiftedOctet(s, v, c, 2);
    ShiftedOctet(s, v, c, 3);
  }

  /** One line of an unrolled round is one column of a plain round. */
  lemma RoundColumn(t: Tables, s: SBox, v: Words, k: seq<bv32>, c: nat, row: nat)
    requires BuiltFrom(t, s) && |k| == 4 && c < 4 && row < 4
    ensures KeyOctet(TableColumn(t, v[c], v[(c + 1) % 4], v[(c + 2) % 4], v[(c + 3) % 4], k[c]), row)
            == Round(s, Octets(v), k)[4 * c + row]
  {
    hide TableColumn, KeyOctet, B0, B1, B2, B3, MixColumn, MixColumns, ShiftRows, SubBytes, Octets, AddRoundKey,
    BuiltFrom, Add;
    var b := ShiftRows(SubBytes(s, Octets(v)));
    ShiftedColumn(s, v, c);
    MixColumnsAt(b, c, row);
    AddRoundKeyAt(MixColumns(b), k, c, row);
    TableColumnMixes(t, s, v[c], v[(c + 1) % 4], v[(c + 2) % 4], v[(c + 3) % 4], k[c], row);
  }

  /** One line of the last round is one column of the final round. */
  lemma FinalColumn(t: Tables, s: SBox, v: Words, k: seq<bv32>, c: nat, row: nat)
    requires BuiltFrom(t, s) && |k| == 4 && c < 4 && row < 4
    ensures KeyOctet(LastColumn(t, v[c], v[(c + 1) % 4], v[(c + 2) % 4], v[(c + 3) % 4], k[c]), row)
            == FinalRound(s, Octets(v), k)[4 * c + row]
  {
    hide LastColumn, KeyOctet, B0, B1, B2, B3, ShiftRows, SubBytes, Octets, AddRoundKey, BuiltFrom, Add;
    ShiftedColumn(s, v, c);
    AddRoundKeyAt(ShiftRows(SubBytes(s, Octets(v))), k, c, row);
    LastColumnSubstitutes(t, s, v[c], v[(c + 1) % 4], v[(c + 2) % 4], v[(c + 3) % 4], k[c], row);
  }

  ghost predicate HasColumn(b: Block, c: nat, w: bv32)
    requires c < 4
  {
    forall row :: 0 <= row < 4 ==> KeyOctet(w, row) == b[4 * c + row]
  }

  /** A block is its four columns. */
  lemma SameBlock(v: Words, b: Block)
    requires HasColumn(b, 0, v[0]) && HasColumn(b, 1, v[1]) && HasColumn(b, 2, v[2]) && HasColumn(b, 3, v[3])
    ensures Octets(v) == b
  {
    hide KeyOctet;
    forall i | 0 <= i < 16 ensures Octets(v)[i] == b[i] {
      var c, row := i / 4, i % 4;
      assert HasColumn(b, c, v[c]);
      assert i == 4 * c + row;
    }
  }

  lemma RoundColumns(t: Tables, s: SBox, v: Words, k: seq<bv32>, c: nat)
    requires BuiltFrom(t, s) && |k| == 4 && c < 4
    ensures HasColumn(Round(s, Octets(v), k), c,
                      TableColumn(t, v[c], v[(c + 1) % 4], v[(c + 2) % 4], v[(c + 3) % 4], k[c]))
    ensures HasColumn(FinalRound(s, Octets(v), k), c,
                      LastColumn(t, v[c], v[(c + 1) % 4], v[(c + 2) % 4], v[(c + 3) % 4], k[c]))
  {
    hide TableColumn, LastColumn, KeyOctet, Round, FinalRound, Octets, BuiltFrom;
    var tableLine := TableColumn(t, v[c], v[(c + 1) % 4], v[(c + 2) % 4], v[(c + 3) % 4], k[c]);
    forall row | 0 <= row < 4
      ensures KeyOctet(tableLine, row) == Round(s, Octets(v), k)[4 * c + row]
    {
      RoundColumn(t, s, v, k, c, row);
    }
    var lastLine := LastColumn(t, v[c], v[(c + 1) % 4], v[(c + 2) % 4], v[(c + 3) % 4], k[c]);
    forall row | 0 <= row < 4
      ensures KeyOctet(lastLine, row) == FinalRound(s, Octets(v), k)[4 * c + row]
    {
      FinalColumn(t, s, v, k, c, row);
    }
  }

  /** A table round is a plain round. */
  lemma TableRoundRefines(t: Tables, s: SBox, v: Words, k: seq<bv32>, r: Words)
    requires BuiltFrom(t, s) && |k| == 4
    requires r[0] == TableColumn(t, v[0], v[1], v[2], v[3], k[0])
             && r[1] == TableColumn(t, v[1], v[2], v[3], v[0], k[1])
    requires r[2] == TableColumn(t, v[2], v[3], v[0], v[1], k[2])
             && r[3] == TableColumn(t, v[3], v[0], v[1], v[2], k[3])
    ensures Octets(r) == Round(s, Octets(v), k)
  {
    hide TableColumn, LastColumn, KeyOctet, Round, FinalRound, Octets, BuiltFrom, HasColumn;
    RoundColumns(t, s, v, k, 0);
    RoundColumns(t, s, v, k, 1);
    RoundColumns(t, s, v, k, 2);
    RoundColumns(t, s, v, k, 3);
    SameBlock(r, Round(s, Octets(v), k));
  }

  /** The last table round is the final round. */
  lemma LastRoundRefines(t: Tables, s: SBox, v: Words, k: seq<bv32>, r: Words)
    requires BuiltFrom(t, s) && |k| == 4
    requires r[0] == LastColumn(t, v[0], v[1], v[2], v[3], k[0]) && r[1] == LastColumn(t, v[1], v[2], v[3], v[0], k[1])
    requires r[2] == LastColumn(t, v[2], v[3], v[0], v[1], k[2]) && r[3] == LastColumn(t, v[3], v[0], v[1], v[2], k[3])
    ensures Octets(r) == FinalRound(s, Octets(v), k)
  {
    hide TableColumn, LastColumn, KeyOctet, Round, FinalRound, Octets, BuiltFrom, HasColumn;
    RoundColumns(t, s, v, k, 0);
    RoundColumns(t, s, v, k, 1);
    RoundColumns(t, s, v, k, 2);
    RoundColumns(t, s, v, k, 3);
    SameBlock(r, FinalRound(s, Octets(v), k));
  }

  // -------------------------------------------------------------- key expansion

  /** x to the power n in GF(2^8). */
  function XPower(n: nat): (b: bv8) {
    if n == 0 then 1 else XTime(XPower(n - 1))
  }

  function RotWord(w: bv32): (r: bv32) { Word(B1(w), B2(w), B3(w), B0(w)) }

  function SubWord(s: SBox, w: bv32): (r: bv32) { Word(s(B0(w)), s(B1(w)), s(B2(w)), s(B3(w))) }

  /** What section 5.2 adds to the word `nk` places back. */
  function KeyCore(s: SBox, nk: nat, i: nat, previous: bv32): (w: bv32)
    requires nk > 0 && i >= nk
  {
    if i % nk == 0 then AddWords(SubWord(s, RotWord(previous)), Word(XPower(i / nk - 1), 0, 0, 0))
    else if nk > 6 && i % nk == 4 then SubWord(s, previous)
    else previous
  }

  /** Word i of the key schedule, section 5.2. */
  function KeyWord(s: SBox, key: seq<bv32>, i: nat): (w: bv32)
    requires |key| > 0
  {
    if i < |key| then key[i] else AddWords(KeyWord(s, key, i - |key|), KeyCore(s, |key|, i, KeyWord(s, key, i - 1)))
  }

  /** `rk` starts with the first `n` words of the schedule. */
  ghost predicate Scheduled(s: SBox, key: seq<bv32>, rk: seq<bv32>, n: nat) {
    |key| > 0 && n <= |rk| && forall i :: 0 <= i < n ==> rk[i] == KeyWord(s, key, i)
  }

  lemma ScheduleGrows(s: SBox, key: seq<bv32>, rk: seq<bv32>, n: nat, w: bv32)
    requires Scheduled(s, key, rk, n) && |key| <= n < |rk|
    requires w == AddWords(rk[n - |key|], KeyCore(s, |key|, n, rk[n - 1]))
    ensures Scheduled(s, key, rk[n := w], n + 1)
  {
    hide KeyCore, AddWords;
  }

  // ------------------------------------------------- the schedule, word by word

  /** Each octet of a word substituted, the octets cut out by shifts. */
  function Substituted(s: SBox, w: bv32): (r: bv32) {
    (s(((w >> 24) & 0xff) as bv8) as bv32 << 24) ^ (s(((w >> 16) & 0xff) as bv8) as bv32 << 16)
    ^ (s(((w >> 8) & 0xff) as bv8) as bv32 << 8) ^ (s((w & 0xff) as bv8) as bv32)
  }

  function Rotated(w: bv32): (r: bv32) { (w << 8) | (w >> 24) }
  function Xor3(a: bv32, b: bv32, c: bv32): (r: bv32) { a ^ (b ^ c) }

  /** The three kinds of line of the schedule, written with shifts and exclusive-or. */
  function StartWord(s: SBox, back: bv32, previous: bv32, rcon: bv32): (w: bv32) {
    Xor3(back, Substituted(s, Rotated(previous)), rcon)
  }

  function MiddleWord(s: SBox, back: bv32, previous: bv32): (w: bv32) { back ^ Substituted(s, previous) }
  function NextWord(back: bv32, previous: bv32): (w: bv32) { back ^ previous }

  /** What word `i` of a schedule of `nk` key words owes to the words before it, section 5.2 of FIPS 197. */
  ghost predicate Follows(s: SBox, rk: seq<bv32>, nk: nat, i: nat) {
    0 < nk <= i < |rk| &&
    if i % nk == 0 then i / nk <= 10 && rk[i] == StartWord(s, rk[i - nk], rk[i - 1], RCON[i / nk - 1])
    else if nk == 8 && i % 8 == 4 then rk[i] == MiddleWord(s, rk[i - nk], rk[i - 1])
    else rk[i] == NextWord(rk[i - nk], rk[i - 1])
  }

  /** Four octets of a key as a word. */
  function KeyWordAt(key: seq<bv8>, i: nat): (w: bv32)
    requires 4 * i + 4 <= |key|
  {
    (key[4 * i] as bv32 << 24) ^ (key[4 * i + 1] as bv32 << 16) ^ (key[4 * i + 2] as bv32 << 8) ^ key[4 * i + 3] as bv32
  }

  /** The key itself, then words that follow from those before them. */
  ghost predicate ExpandedFrom(s: SBox, key: seq<bv8>, nk: nat, rk: seq<bv32>, n: nat) {
    && 0 < nk <= n <= |rk| && 4 * nk <= |key|
    && (forall i :: 0 <= i < nk ==> rk[i] == KeyWordAt(key, i))
    && (forall i :: nk <= i < n ==> Follows(s, rk, nk, i))
  }

  lemma SubWordIs(s: SBox, w: bv32)
    ensures SubWord(s, w) == Substituted(s, w)
  {
  }

  lemma RotWordIs(w: bv32)
    ensures RotWord(w) == Rotated(w)
  {
  }

  lemma StartWordIs(s: SBox, back: bv32, previous: bv32, rcon: bv32)
    ensures AddWords(back, AddWords(SubWord(s, RotWord(previous)), rcon)) == StartWord(s, back, previous, rcon)
  {
    hide SubWord, RotWord, Substituted, Rotated, AddWords, Xor3;
    SubWordIs(s, RotWord(previous));
    RotWordIs(previous);
    SumOfThree(back, SubWord(s, RotWord(previous)), rcon);
  }

  lemma SumOfThree(a: bv32, b: bv32, c: bv32)
    ensures AddWords(a, AddWords(b, c)) == Xor3(a, b, c)
  {
    hide AddWords;
    NextWordIs(b, c);
    NextWordIs(a, b ^ c);
  }

  lemma MiddleWordIs(s: SBox, back: bv32, previous: bv32)
    ensures AddWords(back, SubWord(s, previous)) == MiddleWord(s, back, previous)
  {
    hide SubWord, Substituted;
    SubWordIs(s, previous);
  }

  lemma NextWordIs(back: bv32, previous: bv32)
    ensures AddWords(back, previous) == NextWord(back, previous)
  {
  }

  /** The recursion of the schedule says the same as the lines written out. */
  lemma WordFollows(s: SBox, key: seq<bv32>, rk: seq<bv32>, n: nat, i: nat)
    requires Scheduled(s, key, rk, n) && |key| in {4, 6, 8} && |key| <= i < n && i / |key| <= 10
    ensures Follows(s, rk, |key|, i)
  {
    hide Scheduled, AddWords, StartWord, MiddleWord, NextWord, KeyCore;
    ScheduledWord(s, key, rk, n, i);
    LineFollows(s, |key|, i, rk[i - |key|], rk[i - 1]);
  }

  lemma ScheduledWord(s: SBox, key: seq<bv32>, rk: seq<bv32>, n: nat, i: nat)
    requires Scheduled(s, key, rk, n) && 0 < |key| <= i < n
    ensures n <= |rk| && rk[i] == AddWords(rk[i - |key|], KeyCore(s, |key|, i, rk[i - 1]))
  {
    hide AddWords, KeyCore;
  }

  lemma LineFollows(s: SBox, nk: nat, i: nat, back: bv32, previous: bv32)
    requires nk in {4, 6, 8} && nk <= i && i / nk <= 10
    ensures AddWords(back, KeyCore(s, nk, i, previous)) ==
            if i % nk == 0 then StartWord(s, back, previous, RCON[i / nk - 1])
            else if nk == 8 && i % 8 == 4 then MiddleWord(s, back, previous)
            else NextWord(back, previous)
  {
    hide SubWord, RotWord, Word, AddWords, XPower, StartWord, MiddleWord, NextWord;
    if i % nk == 0 {
      assert i / nk >= 1;
      RconIsPower(i / nk - 1);
      StartWordIs(s, back, previous, RCON[i / nk - 1]);
    } else if nk == 8 && i % 8 == 4 {
      MiddleWordIs(s, back, previous);
    } else {
      NextWordIs(back, previous);
    }
  }

  /** So what key setup leaves in the array is the expansion of the key. */
  lemma ScheduleExpands(s: SBox, key: seq<bv8>, nk: nat, rk: seq<bv32>, n: nat)
    requires nk in {4, 6, 8} && 4 * nk <= |key| && nk <= n <= 4 * nk + 28
    requires Scheduled(s, KeyWords(key, nk), rk, n)
    ensures ExpandedFrom(s, key, nk, rk, n)
  {
    hide Follows, KeyWord, KeyWordAt, WordAt;
    forall i | 0 <= i < nk ensures rk[i] == KeyWordAt(key, i) {
      KeyWordsFirst(s, KeyWords(key, nk), rk, n, i);
      WordAtIs(key, i);
    }
    forall i | nk <= i < n ensures Follows(s, rk, nk, i) {
      BlocksOf(nk, i);
      WordFollows(s, KeyWords(key, nk), rk, n, i);
    }
  }

  lemma WordAtIs(key: seq<bv8>, i: nat)
    requires 4 * i + 4 <= |key|
    ensures WordAt(key, 4 * i) == KeyWordAt(key, i)
  {
  }

  lemma KeyWordsFirst(s: SBox, key: seq<bv32>, rk: seq<bv32>, n: nat, i: nat)
    requires Scheduled(s, key, rk, n) && i < |key| <= n
    ensures rk[i] == key[i]
  {
    hide KeyCore;
  }

  /** No key size needs more round constants than there are. */
  lemma BlocksOf(nk: nat, i: nat)
    requires nk in {4, 6, 8} && i < 4 * nk + 28
    ensures i / nk <= 10
  {
  }

  /** Four entries of Te4, each masked to its own octet. */
  function Spread(t: Tables, w: bv32, a: bv8, b: bv8, c: bv8, d: bv8): (r: bv32) {
    AddWords5(w, Keep(t.te4(a), 0xff00_0000), Keep(t.te4(b), 0x00ff_0000), Keep(t.te4(c), 0x0000_ff00),
              Keep(t.te4(d), 0x0000_00ff))
  }

  lemma KeptWord(a: bv8)
    ensures Keep(Word(a, a, a, a), 0xff00_0000) == Word(a, 0, 0, 0)
    ensures Keep(Word(a, a, a, a), 0x00ff_0000) == Word(0, a, 0, 0)
    ensures Keep(Word(a, a, a, a), 0x0000_ff00) == Word(0, 0, a, 0)
    ensures Keep(Word(a, a, a, a), 0x0000_00ff) == Word(0, 0, 0, a)
  {
  }

  lemma AddedWords(a: bv8, b: bv8, c: bv8, d: bv8, e: bv8, f: bv8, g: bv8, h: bv8)
    ensures AddWords(Word(a, b, c, d), Word(e, f, g, h)) == Word(Add(a, e), Add(b, f), Add(c, g), Add(d, h))
  {
    hide Word, AddWords, Add, B0, B1, B2, B3;
    SumAsWord(Word(a, b, c, d), Word(e, f, g, h));
    OctetsOfWord(a, b, c, d);
    OctetsOfWord(e, f, g, h);
  }

  lemma AddZero(a: bv8)
    ensures Add(a, 0) == a && Add(0, a) == a
  {
  }

  lemma PartsJoin(a: bv8, b: bv8, c: bv8, d: bv8)
    ensures AddWords(Word(a, 0, 0, 0), Word(0, b, 0, 0)) == Word(a, b, 0, 0)
    ensures AddWords(Word(a, b, 0, 0), Word(0, 0, c, 0)) == Word(a, b, c, 0)
    ensures AddWords(Word(a, b, c, 0), Word(0, 0, 0, d)) == Word(a, b, c, d)
  {
    hide Word, AddWords, Add;
    AddedWords(a, 0, 0, 0, 0, b, 0, 0);
    AddedWords(a, b, 0, 0, 0, 0, c, 0);
    AddedWords(a, b, c, 0, 0, 0, 0, d);
    AddZero(a);
    AddZero(b);
    AddZero(c);
    AddZero(d);
    AddZero(0);
  }

  lemma AddRegroups(a: bv32, b: bv32, c: bv32)
    ensures AddWords(AddWords(a, b), c) == AddWords(a, AddWords(b, c))
  {
  }

  lemma SumOfParts(w: bv32, a: bv8, b: bv8, c: bv8, d: bv8)
    ensures AddWords5(w, Word(a, 0, 0, 0), Word(0, b, 0, 0), Word(0, 0, c, 0), Word(0, 0, 0, d))
            == AddWords(w, Word(a, b, c, d))
  {
    hide Word, AddWords;
    PartsJoin(a, b, c, d);
    AddRegroups(w, Word(a, 0, 0, 0), Word(0, b, 0, 0));
    AddRegroups(w, Word(a, b, 0, 0), Word(0, 0, c, 0));
    AddRegroups(w, Word(a, b, c, 0), Word(0, 0, 0, d));
  }

  lemma SpreadSubstitutes(t: Tables, s: SBox, w: bv32, a: bv8, b: bv8, c: bv8, d: bv8)
    requires BuiltFrom(t, s)
    ensures Spread(t, w, a, b, c, d) == AddWords(w, Word(s(a), s(b), s(c), s(d)))
  {
    hide Word, Keep, AddWords5, AddWords, XTime, Times3;
    KeptWord(s(a));
    KeptWord(s(b));
    KeptWord(s(c));
    KeptWord(s(d));
    SumOfParts(w, s(a), s(b), s(c), s(d));
  }

  lemma SubRot(s: SBox, w: bv32)
    ensures SubWord(s, RotWord(w)) == Word(s(B1(w)), s(B2(w)), s(B3(w)), s(B0(w)))
  {
    hide Word, B0, B1, B2, B3;
    OctetsOfWord(B1(w), B2(w), B3(w), B0(w));
  }

  /** The round constants, as the table of the code lists them. */
  const RCON: seq<bv32> := [
    0x0100_0000, 0x0200_0000, 0x0400_0000, 0x0800_0000, 0x1000_0000,
    0x2000_0000, 0x4000_0000, 0x8000_0000, 0x1B00_0000, 0x3600_0000]

  lemma PowersOfX()
    ensures XPower(0) == 0x01 && XPower(1) == 0x02 && XPower(2) == 0x04 && XPower(3) == 0x08 && XPower(4) == 0x10
    ensures XPower(5) == 0x20 && XPower(6) == 0x40 && XPower(7) == 0x80 && XPower(8) == 0x1b && XPower(9) == 0x36
  {
    assert XPower(4) == 0x10;
    assert XPower(8) == 0x1b;
  }

  lemma RconIsPower(i: nat)
    requires i < 10
    ensures |RCON| == 10 && RCON[i] == Word(XPower(i), 0, 0, 0)
  {
    hide XPower;
    PowersOfX();
  }

  /** The line that starts a block of words: RotWord, SubWord and the round constant. */
  lemma FirstOfBlock(t: Tables, s: SBox, nk: nat, n: nat, i: nat, back: bv32, previous: bv32)
    requires BuiltFrom(t, s) && 0 < nk <= n && n % nk == 0 && n / nk == i + 1 && i < 10
    ensures |RCON| == 10
    ensures AddWords(Spread(t, back, B1(previous), B2(previous), B3(previous), B0(previous)), RCON[i])
         == AddWords(back, KeyCore(s, nk, n, previous))
  {
    hide Spread, AddWords, XPower, BuiltFrom, Word, RotWord, SubWord;
    SpreadSubstitutes(t, s, back, B1(previous), B2(previous), B3(previous), B0(previous));
    SubRot(s, previous);
    RconIsPower(i);
    AddRegroups(back, SubWord(s, RotWord(previous)), RCON[i]);
  }

  /** The line in the middle of a 256-bit block: SubWord alone. */
  lemma MiddleOfBlock(t: Tables, s: SBox, n: nat, back: bv32, previous: bv32)
    requires BuiltFrom(t, s) && n >= 8 && n % 8 == 4
    ensures Spread(t, back, B0(previous), B1(previous), B2(previous), B3(previous))
         == AddWords(back, KeyCore(s, 8, n, previous))
  {
    hide Spread, AddWords, XPower, BuiltFrom, Word;
    SpreadSubstitutes(t, s, back, B0(previous), B1(previous), B2(previous), B3(previous));
  }

  // ------------------------------------------------------------------ AesSetupEnc

  /** Four octets, most significant first. */
  function WordAt(b: seq<bv8>, i: nat): (w: bv32)
    requires i + 4 <= |b|
  {
    Word(b[i], b[i + 1], b[i + 2], b[i + 3])
  }

  /** The first `n` words of a key. */
  function KeyWords(key: seq<bv8>, n: nat): (w: seq<bv32>)
    requires 4 * n <= |key|
    ensures |w| == n
  {
    seq(n, i requires 0 <= i < n => WordAt(key, 4 * i))
  }

  /** Rounds by key size; zero for a size the code does not know. */
  function RoundsFor(keybits: int): (n: nat) {
    if keybits == 128 then 10 else if keybits == 192 then 12 else if keybits == 256 then 14 else 0
  }

  /** The octets of key that are read and the words that are written. */
  function KeyOctets(keybits: int): (n: nat) { if keybits == 128 then 16 else if keybits == 192 then 24 else 32 }
  function ScheduleWords(keybits: int): (n: nat) { if RoundsFor(keybits) == 0 then 8 else 4 * RoundsFor(keybits) + 4 }

  method GetU32(b: array<bv8>, index: nat) returns (w: bv32)
    requires index + 4 <= b.Length
    ensures w == WordAt(b[..], index)
  {
    w := Word(b[index], b[index + 1], b[index + 2], b[index + 3]);
  }

  /** The first `n` words of `rk` are those of the key. */
  ghost predicate Loaded(key: seq<bv8>, rk: seq<bv32>, n: nat) {
    4 * n <= |key| && n <= |rk| && forall i :: 0 <= i < n ==> rk[i] == WordAt(key, 4 * i)
  }

  lemma LoadedWords(s: SBox, key: seq<bv8>, rk: seq<bv32>, n: nat)
    requires Loaded(key, rk, n) && n > 0
    ensures Scheduled(s, KeyWords(key, n), rk, n) && rk[..n] == KeyWords(key, n)
  {
    hide WordAt;
  }

  lemma NothingLoaded(key: seq<bv8>, rk: seq<bv32>)
    ensures Loaded(key, rk, 0)
  {
  }

  method LoadWord(rk: array<bv32>, key: array<bv8>, n: nat)
    requires n < rk.Length && 4 * n + 4 <= key.Length && Loaded(key[..], rk[..], n)
    modifies rk
    ensures Loaded(key[..], rk[..], n + 1)
    ensures forall j :: n < j < rk.Length ==> rk[j] == old(rk[j])
  {
    hide WordAt;
    rk[n] := GetU32(key, 4 * n);
  }

  /** A line of a block that only adds the word before. */
  method CopyLine(ghost s: SBox, ghost key: seq<bv32>, rk: array<bv32>, n: nat, nk: nat)
    requires nk == |key| && 0 < nk <= n < rk.Length && Scheduled(s, key, rk[..], n)
    requires n % nk != 0 && !(nk > 6 && n % nk == 4)
    modifies rk
    ensures Scheduled(s, key, rk[..], n + 1)
    ensures forall j :: n < j < rk.Length ==> rk[j] == old(rk[j])
  {
    hide AddWords, Scheduled, SubWord, RotWord, Word, KeyWord;
    ghost var was := rk[..];
    rk[n] := AddWords(rk[n - nk], rk[n - 1]);
    ScheduleGrows(s, key, was, n, rk[n]);
    assert rk[..] == was[n := rk[n]];
  }

  /** The line that starts a block. */
  method FirstLine(t: Tables, ghost s: SBox, ghost key: seq<bv32>, rk: array<bv32>, n: nat, nk: nat, i: nat)
    requires BuiltFrom(t, s) && nk == |key| && 0 < nk <= n < rk.Length && Scheduled(s, key, rk[..], n)
    requires n % nk == 0 && n / nk == i + 1 && i < 10
    modifies rk
    ensures Scheduled(s, key, rk[..], n + 1)
    ensures forall j :: n < j < rk.Length ==> rk[j] == old(rk[j])
  {
    hide AddWords, Scheduled, KeyCore, Spread, B0, B1, B2, B3, KeyWord, BuiltFrom;
    ghost var was := rk[..];
    var temp := rk[n - 1];
    FirstOfBlock(t, s, nk, n, i, rk[n - nk], temp);
    rk[n] := AddWords(Spread(t, rk[n - nk], B1(temp), B2(temp), B3(temp), B0(temp)), RCON[i]);
    ScheduleGrows(s, key, was, n, rk[n]);
    assert rk[..] == was[n := rk[n]];
  }

  /** The line in the middle of a block of a 256-bit key. */
  method MiddleLine(t: Tables, ghost s: SBox, ghost key: seq<bv32>, rk: array<bv32>, n: nat)
    requires BuiltFrom(t, s) && |key| == 8 <= n < rk.Length && Scheduled(s, key, rk[..], n) && n % 8 == 4
    modifies rk
    ensures Scheduled(s, key, rk[..], n + 1)
    ensures forall j :: n < j < rk.Length ==> rk[j] == old(rk[j])
  {
    hide AddWords, Scheduled, KeyCore, Spread, B0, B1, B2, B3, KeyWord, BuiltFrom;
    ghost var was := rk[..];
    var temp := rk[n - 1];
    MiddleOfBlock(t, s, n, rk[n - 8], temp);
    rk[n] := Spread(t, rk[n - 8], B0(temp), B1(temp), B2(temp), B3(temp));
    ScheduleGrows(s, key, was, n, rk[n]);
    assert rk[..] == was[n := rk[n]];
  }

  /** The loop of a 128-bit key. */
  method Expand128(t: Tables, ghost s: SBox, ghost key: seq<bv32>, rk: array<bv32>)
    requires BuiltFrom(t, s) && |key| == 4 && rk.Length >= 44 && Scheduled(s, key, rk[..], 4)
    modifies rk
    ensures Scheduled(s, key, rk[..], 44)
    ensures forall j :: 44 <= j < rk.Length ==> rk[j] == old(rk[j])
  {
    hide Scheduled, KeyWord, BuiltFrom;
    var i := 0;
    while true
      invariant 0 <= i < 10
      invariant Scheduled(s, key, rk[..], 4 * i + 4)
      invariant forall j :: 44 <= j < rk.Length ==> rk[j] == old(rk[j])
      decreases 10 - i
    {
      var n := 4 * i + 4;
      FirstLine(t, s, key, rk, n, 4, i);
      CopyLine(s, key, rk, n + 1, 4);
      CopyLine(s, key, rk, n + 2, 4);
      CopyLine(s, key, rk, n + 3, 4);
      i := i + 1;
      if i == 10 {
        break;
      }
    }
  }

  /** The loop of a 192-bit key. */
  method Expand192(t: Tables, ghost s: SBox, ghost key: seq<bv32>, rk: array<bv32>)
    requires BuiltFrom(t, s) && |key| == 6 && rk.Length >= 52 && Scheduled(s, key, rk[..], 6)
    modifies rk
    ensures Scheduled(s, key, rk[..], 52)
    ensures forall j :: 52 <= j < rk.Length ==> rk[j] == old(rk[j])
  {
    hide Scheduled, KeyWord, BuiltFrom;
    var i := 0;
    while true
      invariant 0 <= i < 8
      invariant Scheduled(s, key, rk[..], 6 * i + 6)
      invariant forall j :: 52 <= j < rk.Length ==> rk[j] == old(rk[j])
      decreases 8 - i
    {
      var n := 6 * i + 6;
      FirstLine(t, s, key, rk, n, 6, i);
      CopyLine(s, key, rk, n + 1, 6);
      CopyLine(s, key, rk, n + 2, 6);
      CopyLine(s, key, rk, n + 3, 6);
      i := i + 1;
      if i == 8 {
        break;
      }
      CopyLine(s, key, rk, n + 4, 6);
      CopyLine(s, key, rk, n + 5, 6);
    }
  }

  /** The loop of a 256-bit key. */
  method Expand256(t: Tables, ghost s: SBox, ghost key: seq<bv32>, rk: array<bv32>)
    requires BuiltFrom(t, s) && |key| == 8 && rk.Length >= 60 && Scheduled(s, key, rk[..], 8)
    modifies rk
    ensures Scheduled(s, key, rk[..], 60)
    ensures forall j :: 60 <= j < rk.Length ==> rk[j] == old(rk[j])
  {
    hide Scheduled, KeyWord, BuiltFrom;
    var i := 0;
    while true
      invariant 0 <= i < 7
      invariant Scheduled(s, key, rk[..], 8 * i + 8)
      invariant forall j :: 60 <= j < rk.Length ==> rk[j] == old(rk[j])
      decreases 7 - i
    {
      var n := 8 * i + 8;
      FirstLine(t, s, key, rk, n, 8, i);
      CopyLine(s, key, rk, n + 1, 8);
      CopyLine(s, key, rk, n + 2, 8);
      CopyLine(s, key, rk, n + 3, 8);
      i := i + 1;
      if i == 7 {
        break;
      }
      MiddleLine(t, s, key, rk, n + 4);
      CopyLine(s, key, rk, n + 5, 8);
      CopyLine(s, key, rk, n + 6, 8);
      CopyLine(s, key, rk, n + 7, 8);
    }
  }

  /**
    The round count and the schedule of section 5.2.  A key size that is not known gets
    the first eight words loaded and the count zero.
  */
  method AesSetupEnc(t: Tables, ghost s: SBox, rk: array<bv32>, key: array<bv8>, keybits: int) returns (rounds: nat)
    requires BuiltFrom(t, s)
    requires key.Length >= KeyOctets(keybits) && rk.Length >= ScheduleWords(keybits)
    modifies rk
    ensures rounds == RoundsFor(keybits)
    ensures rounds != 0 ==> Scheduled(s, KeyWords(key[..], rounds - 6), rk[..], 4 * rounds + 4)
    ensures rounds != 0 ==> ExpandedFrom(s, key[..], rounds - 6, rk[..], 4 * rounds + 4)
    ensures rounds == 0 ==> rk[..8] == KeyWords(key[..], 8)
    ensures forall j :: ScheduleWords(keybits) <= j < rk.Length ==> rk[j] == old(rk[j])
  {
    hide Scheduled, KeyWord, BuiltFrom, KeyWords, Loaded, ExpandedFrom;
    NothingLoaded(key[..], rk[..]);
    LoadWord(rk, key, 0);
    LoadWord(rk, key, 1);
    LoadWord(rk, key, 2);
    LoadWord(rk, key, 3);
    if keybits == 128 {
      LoadedWords(s, key[..], rk[..], 4);
      Expand128(t, s, KeyWords(key[..], 4), rk);
      ScheduleExpands(s, key[..], 4, rk[..], 44);
      return 10;
    }
    LoadWord(rk, key, 4);
    LoadWord(rk, key, 5);
    if keybits == 192 {
      LoadedWords(s, key[..], rk[..], 6);
      Expand192(t, s, KeyWords(key[..], 6), rk);
      ScheduleExpands(s, key[..], 6, rk[..], 52);
      return 12;
    }
    LoadWord(rk, key, 6);
    LoadWord(rk, key, 7);
    if keybits == 256 {
      LoadedWords(s, key[..], rk[..], 8);
      Expand256(t, s, KeyWords(key[..], 8), rk);
      ScheduleExpands(s, key[..], 8, rk[..], 60);
      return 14;
    }
    LoadedWords(s, key[..], rk[..], 8);
    return 0;
  }

  // ------------------------------------------------------------------- AesEncrypt

  /** Loading one column of the block and adding its word of the first round key. */
  lemma FirstColumn(w: seq<bv32>, input: Block, c: nat)
    requires |w| >= 4 && c < 4
    ensures HasColumn(AddRoundKey(input, RoundKey(w, 0)), c, AddWords(WordAt(input, 4 * c), w[c]))
  {
    hide KeyOctet, AddWords, Add, Word, AddRoundKey;
    forall row | 0 <= row < 4
      ensures KeyOctet(AddWords(WordAt(input, 4 * c), w[c]), row) == AddRoundKey(input, RoundKey(w, 0))[4 * c + row]
    {
      OctetOfSum(WordAt(input, 4 * c), w[c], row);
      OctetOfWord(input[4 * c], input[4 * c + 1], input[4 * c + 2], input[4 * c + 3], row);
      AddRoundKeyAt(input, RoundKey(w, 0), c, row);
    }
  }

  method LoadState(ghost s: SBox, rk: array<bv32>, plaintext: array<bv8>)
    returns (s0: bv32, s1: bv32, s2: bv32, s3: bv32)
    requires plaintext.Length >= 16 && rk.Length >= 4
    ensures Octets([s0, s1, s2, s3]) == Rounds(s, rk[..], plaintext[..16], 0)
  {
    hide AddWords, WordAt, Octets, AddRoundKey, HasColumn;
    ghost var input: Block := plaintext[..16];
    WordsOfPrefix(plaintext[..]);
    var w := GetU32(plaintext, 0);
    s0 := AddWords(w, rk[0]);
    FirstColumn(rk[..], input, 0);
    w := GetU32(plaintext, 4);
    s1 := AddWords(w, rk[1]);
    FirstColumn(rk[..], input, 1);
    w := GetU32(plaintext, 8);
    s2 := AddWords(w, rk[2]);
    FirstColumn(rk[..], input, 2);
    w := GetU32(plaintext, 12);
    s3 := AddWords(w, rk[3]);
    FirstColumn(rk[..], input, 3);
    SameBlock([s0, s1, s2, s3], AddRoundKey(input, RoundKey(rk[..], 0)));
  }

  lemma WordsOfPrefix(b: seq<bv8>)
    requires |b| >= 16
    ensures WordAt(b, 0) == WordAt(b[..16], 0) && WordAt(b, 4) == WordAt(b[..16], 4)
    ensures WordAt(b, 8) == WordAt(b[..16], 8) && WordAt(b, 12) == WordAt(b[..16], 12)
  {
    hide Word;
  }

  /** The four lines of an unrolled round. */
  method TableLines(t: Tables, ghost s: SBox, rk: array<bv32>, ghost input: Block, n: nat,
                    s0: bv32, s1: bv32, s2: bv32, s3: bv32)
    returns (t0: bv32, t1: bv32, t2: bv32, t3: bv32)
    requires BuiltFrom(t, s) && n >= 1 && rk.Length >= 4 * n + 4
    requires Octets([s0, s1, s2, s3]) == Rounds(s, rk[..], input, n - 1)
    ensures Octets([t0, t1, t2, t3]) == Rounds(s, rk[..], input, n)
  {
    hide TableColumn, Octets, Round, BuiltFrom, AddRoundKey;
    t0 := TableColumn(t, s0, s1, s2, s3, rk[4 * n]);
    t1 := TableColumn(t, s1, s2, s3, s0, rk[4 * n + 1]);
    t2 := TableColumn(t, s2, s3, s0, s1, rk[4 * n + 2]);
    t3 := TableColumn(t, s3, s0, s1, s2, rk[4 * n + 3]);
    TableRoundRefines(t, s, [s0, s1, s2, s3], RoundKey(rk[..], n), [t0, t1, t2, t3]);
  }

  /** The four lines of the last round. */
  method LastLines(t: Tables, ghost s: SBox, rk: array<bv32>, n: nat, t0: bv32, t1: bv32, t2: bv32, t3: bv32)
    returns (s0: bv32, s1: bv32, s2: bv32, s3: bv32)
    requires BuiltFrom(t, s) && rk.Length >= 4 * n + 4
    ensures Octets([s0, s1, s2, s3]) == FinalRound(s, Octets([t0, t1, t2, t3]), RoundKey(rk[..], n))
  {
    hide LastColumn, Octets, FinalRound, BuiltFrom;
    s0 := LastColumn(t, t0, t1, t2, t3, rk[4 * n]);
    s1 := LastColumn(t, t1, t2, t3, t0, rk[4 * n + 1]);
    s2 := LastColumn(t, t2, t3, t0, t1, rk[4 * n + 2]);
    s3 := LastColumn(t, t3, t0, t1, t2, rk[4 * n + 3]);
    LastRoundRefines(t, s, [t0, t1, t2, t3], RoundKey(rk[..], n), [s0, s1, s2, s3]);
  }

  /** Rounds 1 to 9, which every key size has. */
  method NineRounds(t: Tables, ghost s: SBox, rk: array<bv32>, ghost input: Block, a0: bv32, a1: bv32, a2: bv32,
                    a3: bv32)
    returns (t0: bv32, t1: bv32, t2: bv32, t3: bv32)
    requires BuiltFrom(t, s) && rk.Length >= 40
    requires Octets([a0, a1, a2, a3]) == Rounds(s, rk[..], input, 0)
    ensures Octets([t0, t1, t2, t3]) == Rounds(s, rk[..], input, 9)
  {
    hide BuiltFrom, Octets, Rounds;
    var s0, s1, s2, s3 := a0, a1, a2, a3;
    t0, t1, t2, t3 := TableLines(t, s, rk, input, 1, s0, s1, s2, s3);
    s0, s1, s2, s3 := TableLines(t, s, rk, input, 2, t0, t1, t2, t3);
    t0, t1, t2, t3 := TableLines(t, s, rk, input, 3, s0, s1, s2, s3);
    s0, s1, s2, s3 := TableLines(t, s, rk, input, 4, t0, t1, t2, t3);
    t0, t1, t2, t3 := TableLines(t, s, rk, input, 5, s0, s1, s2, s3);
    s0, s1, s2, s3 := TableLines(t, s, rk, input, 6, t0, t1, t2, t3);
    t0, t1, t2, t3 := TableLines(t, s, rk, input, 7, s0, s1, s2, s3);
    s0, s1, s2, s3 := TableLines(t, s, rk, input, 8, t0, t1, t2, t3);
    t0, t1, t2, t3 := TableLines(t, s, rk, input, 9, s0, s1, s2, s3);
  }

  /** The octets of one word, as `PUTU32` stores them. */
  function OctetsOf(w: bv32): (b: seq<bv8>)
    ensures |b| == 4
  {
    [B0(w), B1(w), B2(w), B3(w)]
  }

  /** Four octets overwritten. */
  function Pasted(b: seq<bv8>, index: nat, octets: seq<bv8>): (r: seq<bv8>)
    requires |octets| == 4 && index + 4 <= |b|
    ensures |r| == |b|
  {
    b[..index] + octets + b[index + 4..]
  }

  method PutU32(b: array<bv8>, index: nat, w: bv32)
    requires index + 4 <= b.Length
    modifies b
    ensures b[..] == Pasted(old(b[..]), index, OctetsOf(w))
  {
    hide B0, B1, B2, B3;
    b[index] := B0(w);
    b[index + 1] := B1(w);
    b[index + 2] := B2(w);
    b[index + 3] := B3(w);
  }

  lemma PastedInOrder(b: seq<bv8>, o0: seq<bv8>, o1: seq<bv8>, o2: seq<bv8>, o3: seq<bv8>)
    requires |b| >= 16 && |o0| == 4 && |o1| == 4 && |o2| == 4 && |o3| == 4
    ensures Pasted(Pasted(Pasted(Pasted(b, 0, o0), 4, o1), 8, o2), 12, o3) == o0 + o1 + o2 + o3 + b[16..]
  {
    assert Pasted(b, 0, o0) == o0 + b[4..];
    assert Pasted(o0 + b[4..], 4, o1) == o0 + o1 + b[8..];
    assert Pasted(o0 + o1 + b[8..], 8, o2) == o0 + o1 + o2 + b[12..];
    assert Pasted(o0 + o1 + o2 + b[12..], 12, o3) == o0 + o1 + o2 + o3 + b[16..];
  }

  lemma OctetsInOrder(v: Words)
    ensures Octets(v) == OctetsOf(v[0]) + OctetsOf(v[1]) + OctetsOf(v[2]) + OctetsOf(v[3])
  {
    hide B0, B1, B2, B3;
  }

  /** The full rounds that precede the last one. */
  function FullRounds(nrounds: nat): (n: nat) {
    if nrounds <= 10 then 9 else if nrounds <= 12 then 11 else 13
  }

  /**
    The block cipher of section 5.1 for the round counts of `AesSetupEnc`; for any other
    count, the number of full rounds is fixed by the unrolling and the last round key by
    the count.  Octets past the first block stay as they are.
  */
  method AesEncrypt(t: Tables, ghost s: SBox, rk: array<bv32>, nrounds: nat, plaintext: array<bv8>,
                    ciphertext: array<bv8>)
    requires BuiltFrom(t, s) && plaintext.Length >= 16 && ciphertext.Length >= 16
    requires rk.Length >= 4 * nrounds + 4 && rk.Length >= 4 * FullRounds(nrounds) + 4
    modifies ciphertext
    ensures ciphertext[..16]
            == FinalRound(s, Rounds(s, rk[..], old(plaintext[..16]), FullRounds(nrounds)), RoundKey(rk[..], nrounds))
    ensures nrounds in {10, 12, 14} ==> ciphertext[..16] == Cipher(s, rk[..], nrounds, old(plaintext[..16]))
    ensures ciphertext[16..] == old(ciphertext[16..])
  {
    hide BuiltFrom, Octets, Rounds, FinalRound;
    ghost var w, input: Block := rk[..], plaintext[..16];
    var s0, s1, s2, s3 := LoadState(s, rk, plaintext);
    var t0, t1, t2, t3 := NineRounds(t, s, rk, input, s0, s1, s2, s3);
    if nrounds > 10 {
      s0, s1, s2, s3 := TableLines(t, s, rk, input, 10, t0, t1, t2, t3);
      t0, t1, t2, t3 := TableLines(t, s, rk, input, 11, s0, s1, s2, s3);
      if nrounds > 12 {
        s0, s1, s2, s3 := TableLines(t, s, rk, input, 12, t0, t1, t2, t3);
        t0, t1, t2, t3 := TableLines(t, s, rk, input, 13, s0, s1, s2, s3);
      }
    }
    assert Octets([t0, t1, t2, t3]) == Rounds(s, w, input, FullRounds(nrounds));
    s0, s1, s2, s3 := LastLines(t, s, rk, nrounds, t0, t1, t2, t3);
    StoreState(ciphertext, s0, s1, s2, s3);
  }

  /** Storing the four words. */
  method StoreState(ciphertext: array<bv8>, s0: bv32, s1: bv32, s2: bv32, s3: bv32)
    requires ciphertext.Length >= 16
    modifies ciphertext
    ensures ciphertext[..16] == Octets([s0, s1, s2, s3])
    ensures ciphertext[16..] == old(ciphertext[16..])
  {
    hide Octets, OctetsOf, Pasted;
    PutU32(ciphertext, 0, s0);
    PutU32(ciphertext, 4, s1);
    PutU32(ciphertext, 8, s2);
    PutU32(ciphertext, 12, s3);
    OctetsInOrder([s0, s1, s2, s3]);
    PastedInOrder(old(ciphertext[..]), OctetsOf(s0), OctetsOf(s1), OctetsOf(s2), OctetsOf(s3));
    ghost var stored := Octets([s0, s1, s2, s3]);
    assert ciphertext[..] == stored + old(ciphertext[..])[16..];
    assert ciphertext[..16] == ciphertext[..][..16] == stored;
    assert ciphertext[16..] == ciphertext[..][16..];
  }

  /** KeyExpansion() of section 5.2: `n` words. */
  function Expansion(s: SBox, key: seq<bv32>, n: nat): (w: seq<bv32>)
    requires |key| > 0
    ensures |w| == n
  {
    seq(n, i requires 0 <= i < n => KeyWord(s, key, i))
  }

  /** A schedule whose words are those of section 5.2 drives the cipher of section 5.1. */
  lemma {:induction false} RoundsFollowSchedule(s: SBox, key: seq<bv32>, rk: seq<bv32>, input: Block, m: nat, n: nat)
    requires Scheduled(s, key, rk, m) && 4 * n + 4 <= m
    ensures Rounds(s, rk, input, n) == Rounds(s, Expansion(s, key, m), input, n)
    ensures RoundKey(rk, n) == RoundKey(Expansion(s, key, m), n)
  {
    hide KeyWord, Round, AddRoundKey;
    assert RoundKey(rk, n) == RoundKey(Expansion(s, key, m), n);
    if n > 0 {
      RoundsFollowSchedule(s, key, rk, input, m, n - 1);
    }
  }

  /** Key setup followed by encryption of a block is the cipher of FIPS 197 under that key. */
  method EncryptUnderKey(t: Tables, ghost s: SBox, rk: array<bv32>, key: array<bv8>, keybits: int,
                         plaintext: array<bv8>, ciphertext: array<bv8>)
    requires BuiltFrom(t, s) && keybits in {128, 192, 256}
    requires key.Length >= KeyOctets(keybits) && rk.Length >= ScheduleWords(keybits)
    requires plaintext.Length >= 16 && ciphertext.Length >= 16 && key != ciphertext
    modifies rk, ciphertext
    ensures ciphertext[..16] ==
            Cipher(s, Expansion(s, KeyWords(key[..], keybits / 32), keybits / 8 + 28), keybits / 32 + 6,
                   old(plaintext[..16]))
    ensures ciphertext[16..] == old(ciphertext[16..])
  {
    hide BuiltFrom, KeyWord, Rounds, FinalRound, KeyWords, Scheduled;
    var nrounds := AesSetupEnc(t, s, rk, key, keybits);
    ghost var words := KeyWords(key[..], nrounds - 6);
    RoundsFollowSchedule(s, words, rk[..], plaintext[..16], 4 * nrounds + 4, nrounds - 1);
    RoundsFollowSchedule(s, words, rk[..], plaintext[..16], 4 * nrounds + 4, nrounds);
    assert nrounds == keybits / 32 + 6 && 4 * nrounds + 4 == keybits / 8 + 28;
    AesEncrypt(t, s, rk, nrounds, plaintext, ciphertext);
  }
}
