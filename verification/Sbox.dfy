/**
 The AES byte substitutions as FIPS-197 defines them, sections 5.1.1 and 5.3.2: inversion in
 GF(2^8) and an affine map.  The two S-box tables of the program hold exactly these values.
 */
module Sbox {
  import opened Gf256
  import AesTables

  function Affine(a: bv8): bv8 {
    a ^ ((a << 1) | (a >> 7)) ^ ((a << 2) | (a >> 6)) ^ ((a << 3) | (a >> 5)) ^
    ((a << 4) | (a >> 4)) ^ 0x63
  }

  function InvAffine(a: bv8): bv8 {
    ((a << 1) | (a >> 7)) ^ ((a << 3) | (a >> 5)) ^ ((a << 6) | (a >> 2)) ^ 0x05
  }

  /** The inverse of a in GF(2^8), with 0 mapped to itself: a^254. */
  function Inverse(a: bv8): bv8 {
    var a2 := Mul(a, a);
    var a3 := Mul(a2, a);
    var a6 := Mul(a3, a3);
    var a12 := Mul(a6, a6);
    var a15 := Mul(a12, a3);
    var a30 := Mul(a15, a15);
    var a60 := Mul(a30, a30);
    var a120 := Mul(a60, a60);
    var a126 := Mul(a120, a6);
    var a127 := Mul(a126, a);
    Mul(a127, a127)
  }

  function SubByte(a: bv8): bv8 {
    Affine(Inverse(a))
  }

  function InvSubByte(a: bv8): bv8 {
    Inverse(InvAffine(a))
  }

  lemma AffineInverts(a: bv8)
    ensures InvAffine(Affine(a)) == a && Affine(InvAffine(a)) == a
  {
  }

  // The forward S-box table holds SubByte, checked a quarter of the table at a time.

  lemma FSbIsSubByte00(a: bv8)
    requires a & 0xC0 == 0x00
    ensures AesTables.FSb(a) == SubByte(a)
  {
  }

  lemma FSbIsSubByte40(a: bv8)
    requires a & 0xC0 == 0x40
    ensures AesTables.FSb(a) == SubByte(a)
  {
  }

  lemma FSbIsSubByte80(a: bv8)
    requires a & 0xC0 == 0x80
    ensures AesTables.FSb(a) == SubByte(a)
  {
  }

  lemma FSbIsSubByteC0(a: bv8)
    requires a & 0xC0 == 0xC0
    ensures AesTables.FSb(a) == SubByte(a)
  {
  }

  /** The forward S-box table is the byte substitution of section 5.1.1. */
  lemma FSbIsSubByte(a: bv8)
    ensures AesTables.FSb(a) == SubByte(a)
  {
    hide *;
    if a & 0x80 == 0 {
      if a & 0x40 == 0 {
        FSbIsSubByte00(a);
      } else {
        FSbIsSubByte40(a);
      }
    } else if a & 0x40 == 0 {
      FSbIsSubByte80(a);
    } else {
      FSbIsSubByteC0(a);
    }
  }

  lemma TableInverse(a: bv8)
    requires a != 0
    ensures Mul(a, InvAffine(AesTables.FSb(a))) == 1
  {
  }

  /** Inverse really is the inverse of the field. */
  lemma InverseIsInverse(a: bv8)
    requires a != 0
    ensures Mul(a, Inverse(a)) == 1
  {
    hide Mul, Inverse, Affine, InvAffine, AesTables.FSb;
    FSbIsSubByte(a);
    AffineInverts(Inverse(a));
    TableInverse(a);
  }

  lemma TableInvSubByte(a: bv8)
    ensures AesTables.RSb(a) == InvAffine(AesTables.FSb(InvAffine(a)))
  {
  }

  /** The reverse S-box table is the inverse byte substitution of section 5.3.2. */
  lemma RSbIsInvSubByte(a: bv8)
    ensures AesTables.RSb(a) == InvSubByte(a)
  {
    hide Mul, Inverse, Affine, InvAffine, AesTables.FSb, AesTables.RSb;
    TableInvSubByte(a);
    FSbIsSubByte(InvAffine(a));
    AffineInverts(Inverse(InvAffine(a)));
  }

  lemma SboxTablesInvert(a: bv8)
    ensures AesTables.RSb(AesTables.FSb(a)) == a && AesTables.FSb(AesTables.RSb(a)) == a
  {
  }

  /** The two byte substitutions are inverse to each other. */
  lemma SubByteInverts(a: bv8)
    ensures InvSubByte(SubByte(a)) == a && SubByte(InvSubByte(a)) == a
  {
    hide *;
    FSbIsSubByte(a);
    RSbIsInvSubByte(SubByte(a));
    RSbIsInvSubByte(a);
    FSbIsSubByte(InvSubByte(a));
    SboxTablesInvert(a);
  }
}
