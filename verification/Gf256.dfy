/**
 Arithmetic in GF(2^8), section 4 of FIPS-197: a byte is a polynomial over GF(2), and products
 are taken modulo x^8 + x^4 + x^3 + x + 1.
 */
module Gf256 {
  /** Addition is exclusive or. */
  function Add(a: bv8, b: bv8): bv8 {
    a ^ b
  }

  function Sum4(a: bv8, b: bv8, c: bv8, d: bv8): bv8 {
    Add(Add(a, b), Add(c, d))
  }

  /** Multiplication by x: the carry `h` out of bit 7 stands for x^8 = x^4 + x^3 + x + 1. */
  function Xtime(b: bv8): bv8 {
    var h := b >> 7;
    (b << 1) ^ (h << 4) ^ (h << 3) ^ (h << 1) ^ h
  }

  /**
   The product of two bytes: the sum of b * x^k over the bits k that are set in a.
   (`0 - 1` is the byte of all ones, so each factor keeps or drops its term.)
   */
  function Mul(a: bv8, b: bv8): bv8 {
    var b1 := Xtime(b);
    var b2 := Xtime(b1);
    var b3 := Xtime(b2);
    var b4 := Xtime(b3);
    var b5 := Xtime(b4);
    var b6 := Xtime(b5);
    var b7 := Xtime(b6);
    ((0 - (a & 1)) & b) ^ ((0 - ((a >> 1) & 1)) & b1) ^
    ((0 - ((a >> 2) & 1)) & b2) ^ ((0 - ((a >> 3) & 1)) & b3) ^
    ((0 - ((a >> 4) & 1)) & b4) ^ ((0 - ((a >> 5) & 1)) & b5) ^
    ((0 - ((a >> 6) & 1)) & b6) ^ ((0 - ((a >> 7) & 1)) & b7)
  }

  lemma AddCommutes(a: bv8, b: bv8)
    ensures Add(a, b) == Add(b, a)
  {
  }

  lemma AddAssociates(a: bv8, b: bv8, c: bv8)
    ensures Add(Add(a, b), c) == Add(a, Add(b, c))
  {
  }

  lemma AddSwaps(a: bv8, b: bv8, c: bv8, d: bv8)
    ensures Add(Add(a, b), Add(c, d)) == Add(Add(a, c), Add(b, d))
  {
    hide Add;
    AddAssociates(a, b, Add(c, d));
    AddAssociates(b, c, d);
    AddCommutes(b, c);
    AddAssociates(c, b, d);
    AddAssociates(a, c, Add(b, d));
  }

  lemma Sum4Rotates(a: bv8, b: bv8, c: bv8, d: bv8)
    ensures Sum4(a, b, c, d) == Sum4(b, c, d, a)
  {
    hide Add;
    AddCommutes(a, b);
    AddSwaps(b, a, c, d);
    AddCommutes(a, d);
  }

  lemma Sum4Adds(a: bv8, b: bv8, c: bv8, d: bv8, e: bv8, f: bv8, g: bv8, h: bv8)
    ensures Sum4(Add(a, e), Add(b, f), Add(c, g), Add(d, h)) == Add(Sum4(a, b, c, d), Sum4(e, f, g, h))
  {
    hide Add;
    AddSwaps(a, e, b, f);
    AddSwaps(c, g, d, h);
    AddSwaps(Add(a, b), Add(e, f), Add(c, d), Add(g, h));
  }

  /** The sum of a 4 by 4 square, by rows or by columns. */
  lemma Sum4Transposes(a0: bv8, a1: bv8, a2: bv8, a3: bv8, b0: bv8, b1: bv8, b2: bv8, b3: bv8,
                       c0: bv8, c1: bv8, c2: bv8, c3: bv8, d0: bv8, d1: bv8, d2: bv8, d3: bv8)
    ensures Sum4(Sum4(a0, a1, a2, a3), Sum4(b0, b1, b2, b3), Sum4(c0, c1, c2, c3), Sum4(d0, d1, d2, d3)) ==
            Sum4(Sum4(a0, b0, c0, d0), Sum4(a1, b1, c1, d1), Sum4(a2, b2, c2, d2), Sum4(a3, b3, c3, d3))
  {
    hide Add;
    AddSwaps(Add(a0, a1), Add(a2, a3), Add(b0, b1), Add(b2, b3));
    AddSwaps(Add(c0, c1), Add(c2, c3), Add(d0, d1), Add(d2, d3));
    AddSwaps(a0, a1, b0, b1);
    AddSwaps(a2, a3, b2, b3);
    AddSwaps(c0, c1, d0, d1);
    AddSwaps(c2, c3, d2, d3);
    Sum4Adds(Add(a0, b0), Add(a1, b1), Add(c0, d0), Add(c1, d1), Add(a2, b2), Add(a3, b3), Add(c2, d2), Add(c3, d3));
    AddSwaps(Add(a0, b0), Add(a1, b1), Add(c0, d0), Add(c1, d1));
    AddSwaps(Add(a2, b2), Add(a3, b3), Add(c2, d2), Add(c3, d3));
    AddSwaps(Add(Add(a0, b0), Add(a1, b1)), Add(Add(a2, b2), Add(a3, b3)), Add(Add(c0, d0), Add(c1, d1)),
             Add(Add(c2, d2), Add(c3, d3)));
  }

  lemma XtimeAdds(b: bv8, c: bv8)
    ensures Xtime(Add(b, c)) == Add(Xtime(b), Xtime(c))
  {
  }

  /** The constants of the two matrices of the cipher. */
  predicate IsCoefficient(k: bv8) {
    k in {0x01, 0x02, 0x03, 0x09, 0x0B, 0x0D, 0x0E}
  }

  // The products the cipher uses, in terms of xtime.

  lemma Product010203(b: bv8)
    ensures Mul(0x01, b) == b
    ensures Mul(0x02, b) == Xtime(b)
    ensures Mul(0x03, b) == Add(Xtime(b), b)
  {
  }

  lemma Product09(b: bv8)
    ensures Mul(0x09, b) == Add(Xtime(Xtime(Xtime(b))), b)
  {
  }

  lemma Product0B(b: bv8)
    ensures Mul(0x0B, b) == Add(Add(Xtime(Xtime(Xtime(b))), Xtime(b)), b)
  {
  }

  lemma Product0D(b: bv8)
    ensures Mul(0x0D, b) == Add(Add(Xtime(Xtime(Xtime(b))), Xtime(Xtime(b))), b)
  {
  }

  lemma Product0E(b: bv8)
    ensures Mul(0x0E, b) == Add(Add(Xtime(Xtime(Xtime(b))), Xtime(Xtime(b))), Xtime(b))
  {
  }

  lemma SmallProducts(b: bv8)
    ensures var x2 := Xtime(b); var x4 := Xtime(x2); var x8 := Xtime(x4);
            && Mul(0x01, b) == b
            && Mul(0x02, b) == x2
            && Mul(0x03, b) == Add(x2, b)
            && Mul(0x09, b) == Add(x8, b)
            && Mul(0x0B, b) == Add(Add(x8, x2), b)
            && Mul(0x0D, b) == Add(Add(x8, x4), b)
            && Mul(0x0E, b) == Add(Add(x8, x4), x2)
  {
    hide *;
    Product010203(b);
    Product09(b);
    Product0B(b);
    Product0D(b);
    Product0E(b);
  }

  /** Multiplication by a coefficient distributes over addition. */
  lemma MulAdds(k: bv8, b: bv8, c: bv8)
    requires IsCoefficient(k)
    ensures Mul(k, Add(b, c)) == Add(Mul(k, b), Mul(k, c))
  {
    hide Mul, Add, Xtime;
    var b2, c2 := Xtime(b), Xtime(c);
    var b4, c4 := Xtime(b2), Xtime(c2);
    var b8, c8 := Xtime(b4), Xtime(c4);
    XtimeAdds(b, c);
    XtimeAdds(b2, c2);
    XtimeAdds(b4, c4);
    SmallProducts(b);
    SmallProducts(c);
    SmallProducts(Add(b, c));
    AddSwaps(b2, c2, b, c);
    AddSwaps(b8, c8, b, c);
    AddSwaps(b8, c8, b2, c2);
    AddSwaps(b8, c8, b4, c4);
    AddSwaps(Add(b8, b2), Add(c8, c2), b, c);
    AddSwaps(Add(b8, b4), Add(c8, c4), b, c);
    AddSwaps(Add(b8, b4), Add(c8, c4), b2, c2);
  }

  lemma MulSum4(k: bv8, a: bv8, b: bv8, c: bv8, d: bv8)
    requires IsCoefficient(k)
    ensures Mul(k, Sum4(a, b, c, d)) == Sum4(Mul(k, a), Mul(k, b), Mul(k, c), Mul(k, d))
  {
    hide Mul, Add;
    MulAdds(k, a, b);
    MulAdds(k, c, d);
    MulAdds(k, Add(a, b), Add(c, d));
  }
}
