/** Octet strings and big-endian numbers, as `encoding/binary` writes and reads them. */
module OctetStrings {
  type Octet = x: int | 0 <= x < 256
  type Octets = seq<Octet>

  const TWO16: nat := 65536

  function Pow256(n: nat): (p: nat)
    ensures p > 0
  {
    if n == 0 then 1 else 256 * Pow256(n - 1)
  }

  /** The low `width` octets of `n`, most significant first. */
  function BigEndian(n: nat, width: nat): (b: Octets)
    ensures |b| == width
  {
    if width == 0 then [] else BigEndian(n / 256, width - 1) + [n % 256]
  }

  function NumberOf(b: Octets): (n: nat) {
    if b == [] then 0 else 256 * NumberOf(b[..|b| - 1]) + b[|b| - 1]
  }

  lemma {:induction false} NumberInRange(b: Octets)
    ensures NumberOf(b) < Pow256(|b|)
  {
    if b != [] {
      NumberInRange(b[..|b| - 1]);
    }
  }

  lemma {:induction false} BigEndianReadsBack(n: nat, width: nat)
    requires n < Pow256(width)
    ensures NumberOf(BigEndian(n, width)) == n
  {
    if width > 0 {
      BigEndianReadsBack(n / 256, width - 1);
      var b := BigEndian(n, width);
      assert b[..|b| - 1] == BigEndian(n / 256, width - 1);
    }
  }

  /** The octets are the digits of the number to base 256, the most significant one first. */
  lemma {:induction false} BigEndianDigit(n: nat, width: nat, i: nat)
    requires i < width
    ensures BigEndian(n, width)[i] == n / Pow256(width - 1 - i) % 256
  {
    if i < width - 1 {
      BigEndianDigit(n / 256, width - 1, i);
      DivideTwice(n, Pow256(width - 2 - i));
    }
  }

  lemma DivideTwice(n: nat, p: nat)
    requires p > 0
    ensures n / (256 * p) == n / 256 / p
  {
    var q, r := n / 256, n % 256;
    var a, b := q / p, q % p;
    assert n == 256 * (p * a + b) + r;
    assert n == 256 * p * a + (256 * b + r);
    assert 256 * b + r < 256 * p;
    Quotient(n, 256 * p, a, 256 * b + r);
  }

  lemma MulGrows(d: int, x: int)
    requires d > 0
    ensures x >= 1 ==> d * x >= d
    ensures x <= -1 ==> d * x <= -d
  {
  }

  lemma Quotient(n: nat, d: nat, a: nat, r: nat)
    requires r < d && n == d * a + r
    ensures n / d == a
  {
    var q, m := n / d, n % d;
    assert n == d * q + m;
    assert d * (q - a) == r - m;
    MulGrows(d, q - a);
  }

  /** Two octets. */
  function U16(n: nat): (b: Octets)
    requires n < TWO16
    ensures |b| == 2
  {
    [n / 256, n % 256]
  }

  function U16At(b: Octets, i: nat): (n: nat)
    requires i + 2 <= |b|
    ensures n < TWO16
  {
    var high: int := b[i];
    256 * high + b[i + 1]
  }
}
