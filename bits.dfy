/**
 * Bytes, bits and the two conversions between a natural number and a
 * fixed-width string of binary digits that the tool relies on:
 * Python's `format(n, '0Wb')` (big-endian, zero-padded to at least W digits)
 * and `int(s, 2)` (big-endian parse). A binary digit string is modelled as a
 * sequence of 0/1 integers rather than of the characters '0' and '1'.
 */
module Bits {

  type Byte = x: int | 0 <= x < 256
  type Bit = x: int | 0 <= x < 2

  function Pow2(n: nat): (r: nat)
    ensures r >= 1
  {
    if n == 0 then 1 else 2 * Pow2(n - 1)
  }

  lemma {:induction false} Pow2Monotone(a: nat, b: nat)
    requires a <= b
    ensures Pow2(a) <= Pow2(b)
    decreases b
  {
    if a < b {
      Pow2Monotone(a, b - 1);
    }
  }

  /**
   * `format(n, '0{width}b')`: the binary digits of n, most-significant first,
   * left-padded with zeros to `width` digits. Like Python's format, it never
   * truncates: a number that needs more than `width` digits gets them all.
   * (For n == 0 and width == 0 Python writes "0"; the tool only uses widths 8
   * and 32.)
   */
  function BigEndian(n: nat, width: nat): (r: seq<Bit>)
    ensures |r| >= width
    ensures |r| == width <==> n < Pow2(width)
    decreases n + width
  {
    if n == 0 && width == 0 then []
    else BigEndian(n / 2, if width == 0 then 0 else width - 1) + [n % 2]
  }

  /**
   * `int(s, 2)` on a non-empty digit string: the big-endian value of the bits.
   * Python raises ValueError on the empty string; callers that can meet it
   * test for it themselves.
   */
  function ParseBits(s: seq<Bit>): (n: nat)
    ensures n < Pow2(|s|)
  {
    if s == [] then 0 else 2 * ParseBits(s[..|s| - 1]) + s[|s| - 1]
  }

  /** Parsing what `format` wrote gives the number back, whatever the width. */
  lemma {:induction false} ParseBigEndian(n: nat, width: nat)
    ensures ParseBits(BigEndian(n, width)) == n
    decreases n + width
  {
    if n == 0 && width == 0 {
    } else {
      var w := if width == 0 then 0 else width - 1;
      ParseBigEndian(n / 2, w);
      var s := BigEndian(n / 2, w) + [n % 2];
      assert s[..|s| - 1] == BigEndian(n / 2, w);
    }
  }

  /** Writing a parsed digit string back at its own width reproduces it exactly. */
  lemma {:induction false} BigEndianParse(s: seq<Bit>)
    ensures BigEndian(ParseBits(s), |s|) == s
  {
    if s != [] {
      var init, last := s[..|s| - 1], s[|s| - 1];
      var n := ParseBits(s);
      assert n == 2 * ParseBits(init) + last;
      assert n / 2 == ParseBits(init) && n % 2 == last;
      assert BigEndian(n, |s|) == BigEndian(ParseBits(init), |init|) + [last];
      BigEndianParse(init);
      assert s == init + [last];
    }
  }

  /**
   * Digit j (counting from the left) of an in-range number written at width w
   * is bit w-1-j of the number: the string is most-significant bit first.
   */
  lemma {:induction false} BigEndianBitAt(n: nat, width: nat, j: nat)
    requires n < Pow2(width)
    requires j < width
    ensures BigEndian(n, width)[j] == (n / Pow2(width - 1 - j)) % 2
  {
    var init := BigEndian(n / 2, width - 1);
    assert BigEndian(n, width) == init + [n % 2];
    if j < width - 1 {
      BigEndianBitAt(n / 2, width - 1, j);
      HalveDiv(n, width - 2 - j);
    }
  }

  /** Halving then dividing by 2^k is dividing by 2^(k+1). */
  lemma {:induction false} HalveDiv(n: nat, k: nat)
    ensures (n / 2) / Pow2(k) == n / Pow2(k + 1)
  {
    var p := Pow2(k);
    var q := (n / 2) / p;
    var r := (n / 2) % p;
    assert n / 2 == p * q + r;
    assert n == 2 * (p * q + r) + n % 2;
    assert n == Pow2(k + 1) * q + (2 * r + n % 2);
    assert 0 <= 2 * r + n % 2 < Pow2(k + 1);
    DivUnique(n, Pow2(k + 1), q, 2 * r + n % 2);
  }

  lemma DivUnique(a: nat, d: nat, q: nat, r: nat)
    requires d > 0 && a == d * q + r && r < d
    ensures a / d == q
  {
    var q', r' := a / d, a % d;
    if q' < q {
      MulMonotone(d, q' + 1, q);
      assert false;
    } else if q' > q {
      MulMonotone(d, q + 1, q');
      assert false;
    }
  }

  lemma MulMonotone(d: nat, x: nat, y: nat)
    requires x <= y
    ensures d * x <= d * y
  {
  }
}
