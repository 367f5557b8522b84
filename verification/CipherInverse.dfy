/**
 The inverse cipher of FIPS-197 undoes the cipher, for every schedule and number of rounds.
 The one deep fact is that InvMixColumns inverts MixColumns; the rest follows round by round.
 */
module CipherInverse {
  import opened Gf256
  import opened Sbox
  import opened Fips197

  // Each transformation and its inverse cancel.

  lemma XorCancels(a: Word, b: Word)
    ensures XorWord(XorWord(a, b), b) == a
  {
  }

  lemma AddRoundKeyCancels(s: State, k: State)
    ensures AddRoundKey(AddRoundKey(s, k), k) == s
  {
    hide XorWord;
    XorCancels(s.c0, k.c0);
    XorCancels(s.c1, k.c1);
    XorCancels(s.c2, k.c2);
    XorCancels(s.c3, k.c3);
  }

  lemma SubWordInverts(w: Word)
    ensures InvSubWord(SubWord(w)) == w && SubWord(InvSubWord(w)) == w
  {
    hide SubByte, InvSubByte;
    SubByteInverts(w.b0);
    SubByteInverts(w.b1);
    SubByteInverts(w.b2);
    SubByteInverts(w.b3);
  }

  lemma SubBytesInverts(s: State)
    ensures InvSubBytes(SubBytes(s)) == s && SubBytes(InvSubBytes(s)) == s
  {
    hide SubWord, InvSubWord;
    SubWordInverts(s.c0);
    SubWordInverts(s.c1);
    SubWordInverts(s.c2);
    SubWordInverts(s.c3);
  }

  lemma ShiftRowsInverts(s: State)
    ensures InvShiftRows(ShiftRows(s)) == s && ShiftRows(InvShiftRows(s)) == s
  {
  }

  lemma ShiftRowsSubBytesCommute(s: State)
    ensures InvSubBytes(InvShiftRows(s)) == InvShiftRows(InvSubBytes(s))
    ensures ShiftRows(SubBytes(s)) == SubBytes(ShiftRows(s))
  {
    hide SubByte, InvSubByte;
  }

  /** The byte in row r and column c of the state. */
  function Entry(s: State, r: nat, c: nat): bv8
    requires r < 4 && c < 4
  {
    var w := if c == 0 then s.c0 else if c == 1 then s.c1 else if c == 2 then s.c2 else s.c3;
    if r == 0 then w.b0 else if r == 1 then w.b1 else if r == 2 then w.b2 else w.b3
  }

  /** Row r moves r columns to the left, and to the right, as sections 5.1.2 and 5.3.1 have it. */
  lemma ShiftRowsRotates(s: State, r: nat, c: nat)
    requires r < 4 && c < 4
    ensures Entry(ShiftRows(s), r, c) == Entry(s, r, (c + r) % 4)
    ensures Entry(InvShiftRows(s), r, (c + r) % 4) == Entry(s, r, c)
  {
    if r == 0 {
      assert (c + r) % 4 == c;
    } else if r == 2 {
      assert (c + r) % 4 == if c < 2 then c + 2 else c - 2;
    }
  }

  /** The products worked out in section 4.2, and a column of the first round in appendix B. */
  lemma ColumnExample()
    ensures Mul(0x57, 0x83) == 0xC1 && Mul(0x57, 0x13) == 0xFE
    ensures MixColumn(Word(0xD4, 0xBF, 0x5D, 0x30)) == Word(0x04, 0x66, 0x81, 0xE5)
  {
  }

  // MixColumns.  The matrices are circulant, so the first row of a product decides it.

  lemma DotRotates(k0: bv8, k1: bv8, k2: bv8, k3: bv8, w: Word)
    ensures Dot(k3, k0, k1, k2, w) == Dot(k0, k1, k2, k3, RotWord(w))
  {
    hide Sum4, Mul;
    Sum4Rotates(Mul(k3, w.b0), Mul(k0, w.b1), Mul(k1, w.b2), Mul(k2, w.b3));
  }

  lemma MixColumnRotates(w: Word)
    ensures MixColumn(RotWord(w)) == RotWord(MixColumn(w))
    ensures InvMixColumn(RotWord(w)) == RotWord(InvMixColumn(w))
  {
    hide Dot;
    DotRotates(0x02, 0x03, 0x01, 0x01, w);
    DotRotates(0x01, 0x02, 0x03, 0x01, w);
    DotRotates(0x01, 0x01, 0x02, 0x03, w);
    DotRotates(0x03, 0x01, 0x01, 0x02, w);
    DotRotates(0x0E, 0x0B, 0x0D, 0x09, w);
    DotRotates(0x09, 0x0E, 0x0B, 0x0D, w);
    DotRotates(0x0D, 0x09, 0x0E, 0x0B, w);
    DotRotates(0x0B, 0x0D, 0x09, 0x0E, w);
  }

  // The first row of (0E 0B 0D 09) times the matrix of MixColumn, entry by entry, and the
  // first row of (02 03 01 01) times the matrix of InvMixColumn.

  lemma Diagonal(x: bv8)
    ensures Sum4(Mul(0x0E, Mul(0x02, x)), Mul(0x0B, Mul(0x01, x)), Mul(0x0D, Mul(0x01, x)), Mul(0x09, Mul(0x03, x)))
            == x
  {
  }

  lemma OffDiagonal1(x: bv8)
    ensures Sum4(Mul(0x0E, Mul(0x03, x)), Mul(0x0B, Mul(0x02, x)), Mul(0x0D, Mul(0x01, x)), Mul(0x09, Mul(0x01, x)))
            == 0
  {
  }

  lemma OffDiagonal2(x: bv8)
    ensures Sum4(Mul(0x0E, Mul(0x01, x)), Mul(0x0B, Mul(0x03, x)), Mul(0x0D, Mul(0x02, x)), Mul(0x09, Mul(0x01, x)))
            == 0
  {
  }

  lemma OffDiagonal3(x: bv8)
    ensures Sum4(Mul(0x0E, Mul(0x01, x)), Mul(0x0B, Mul(0x01, x)), Mul(0x0D, Mul(0x03, x)), Mul(0x09, Mul(0x02, x)))
            == 0
  {
  }

  lemma InvDiagonal(x: bv8)
    ensures Sum4(Mul(0x02, Mul(0x0E, x)), Mul(0x03, Mul(0x09, x)), Mul(0x01, Mul(0x0D, x)), Mul(0x01, Mul(0x0B, x)))
            == x
  {
  }

  lemma InvOffDiagonal1(x: bv8)
    ensures Sum4(Mul(0x02, Mul(0x0B, x)), Mul(0x03, Mul(0x0E, x)), Mul(0x01, Mul(0x09, x)), Mul(0x01, Mul(0x0D, x)))
            == 0
  {
  }

  lemma InvOffDiagonal2(x: bv8)
    ensures Sum4(Mul(0x02, Mul(0x0D, x)), Mul(0x03, Mul(0x0B, x)), Mul(0x01, Mul(0x0E, x)), Mul(0x01, Mul(0x09, x)))
            == 0
  {
  }

  lemma InvOffDiagonal3(x: bv8)
    ensures Sum4(Mul(0x02, Mul(0x09, x)), Mul(0x03, Mul(0x0D, x)), Mul(0x01, Mul(0x0B, x)), Mul(0x01, Mul(0x0E, x)))
            == 0
  {
  }

  lemma OnlyFirst(a: bv8)
    ensures Sum4(a, 0, 0, 0) == a
  {
  }

  /** A row of coefficients l times a matrix of coefficients m, applied to a column. */
  lemma DotDot(l0: bv8, l1: bv8, l2: bv8, l3: bv8, a: Word, b: Word, c: Word, d: Word, w: Word)
    requires IsCoefficient(l0) && IsCoefficient(l1) && IsCoefficient(l2) && IsCoefficient(l3)
    ensures Dot(l0, l1, l2, l3, Word(Dot(a.b0, a.b1, a.b2, a.b3, w), Dot(b.b0, b.b1, b.b2, b.b3, w),
                                     Dot(c.b0, c.b1, c.b2, c.b3, w), Dot(d.b0, d.b1, d.b2, d.b3, w))) ==
            Sum4(Sum4(Mul(l0, Mul(a.b0, w.b0)), Mul(l1, Mul(b.b0, w.b0)), Mul(l2, Mul(c.b0, w.b0)),
                      Mul(l3, Mul(d.b0, w.b0))),
                 Sum4(Mul(l0, Mul(a.b1, w.b1)), Mul(l1, Mul(b.b1, w.b1)), Mul(l2, Mul(c.b1, w.b1)),
                      Mul(l3, Mul(d.b1, w.b1))),
                 Sum4(Mul(l0, Mul(a.b2, w.b2)), Mul(l1, Mul(b.b2, w.b2)), Mul(l2, Mul(c.b2, w.b2)),
                      Mul(l3, Mul(d.b2, w.b2))),
                 Sum4(Mul(l0, Mul(a.b3, w.b3)), Mul(l1, Mul(b.b3, w.b3)), Mul(l2, Mul(c.b3, w.b3)),
                      Mul(l3, Mul(d.b3, w.b3))))
  {
    hide Mul, Sum4, IsCoefficient;
    MulSum4(l0, Mul(a.b0, w.b0), Mul(a.b1, w.b1), Mul(a.b2, w.b2), Mul(a.b3, w.b3));
    MulSum4(l1, Mul(b.b0, w.b0), Mul(b.b1, w.b1), Mul(b.b2, w.b2), Mul(b.b3, w.b3));
    MulSum4(l2, Mul(c.b0, w.b0), Mul(c.b1, w.b1), Mul(c.b2, w.b2), Mul(c.b3, w.b3));
    MulSum4(l3, Mul(d.b0, w.b0), Mul(d.b1, w.b1), Mul(d.b2, w.b2), Mul(d.b3, w.b3));
    Sum4Transposes(
      Mul(l0, Mul(a.b0, w.b0)), Mul(l0, Mul(a.b1, w.b1)), Mul(l0, Mul(a.b2, w.b2)), Mul(l0, Mul(a.b3, w.b3)),
      Mul(l1, Mul(b.b0, w.b0)), Mul(l1, Mul(b.b1, w.b1)), Mul(l1, Mul(b.b2, w.b2)), Mul(l1, Mul(b.b3, w.b3)),
      Mul(l2, Mul(c.b0, w.b0)), Mul(l2, Mul(c.b1, w.b1)), Mul(l2, Mul(c.b2, w.b2)), Mul(l2, Mul(c.b3, w.b3)),
      Mul(l3, Mul(d.b0, w.b0)), Mul(l3, Mul(d.b1, w.b1)), Mul(l3, Mul(d.b2, w.b2)), Mul(l3, Mul(d.b3, w.b3)));
  }

  lemma FirstRows(w: Word)
    ensures Dot(0x0E, 0x0B, 0x0D, 0x09, MixColumn(w)) == w.b0
    ensures Dot(0x02, 0x03, 0x01, 0x01, InvMixColumn(w)) == w.b0
  {
    hide Mul, Sum4, Dot;
    DotDot(0x0E, 0x0B, 0x0D, 0x09, Word(0x02, 0x03, 0x01, 0x01), Word(0x01, 0x02, 0x03, 0x01),
           Word(0x01, 0x01, 0x02, 0x03), Word(0x03, 0x01, 0x01, 0x02), w);
    Diagonal(w.b0);
    OffDiagonal1(w.b1);
    OffDiagonal2(w.b2);
    OffDiagonal3(w.b3);
    DotDot(0x02, 0x03, 0x01, 0x01, Word(0x0E, 0x0B, 0x0D, 0x09), Word(0x09, 0x0E, 0x0B, 0x0D),
           Word(0x0D, 0x09, 0x0E, 0x0B), Word(0x0B, 0x0D, 0x09, 0x0E), w);
    InvDiagonal(w.b0);
    InvOffDiagonal1(w.b1);
    InvOffDiagonal2(w.b2);
    InvOffDiagonal3(w.b3);
    OnlyFirst(w.b0);
  }

  /** Column by column, MixColumns and InvMixColumns are inverse to each other. */
  lemma MixColumnInverts(w: Word)
    ensures InvMixColumn(MixColumn(w)) == w
    ensures MixColumn(InvMixColumn(w)) == w
  {
    hide Dot, MixColumn, InvMixColumn;
    var w1 := RotWord(w);
    var w2 := RotWord(w1);
    var w3 := RotWord(w2);
    FirstRows(w);
    FirstRows(w1);
    FirstRows(w2);
    FirstRows(w3);
    MixColumnRotates(w);
    MixColumnRotates(w1);
    MixColumnRotates(w2);
    RowsByRotation(MixColumn(w));
    RowsByRotation(InvMixColumn(w));
  }

  lemma RowsByRotation(w: Word)
    ensures var w1 := RotWord(w); var w2 := RotWord(w1); var w3 := RotWord(w2);
            && MixColumn(w) == Word(Dot(0x02, 0x03, 0x01, 0x01, w), Dot(0x02, 0x03, 0x01, 0x01, w1),
                                    Dot(0x02, 0x03, 0x01, 0x01, w2), Dot(0x02, 0x03, 0x01, 0x01, w3))
            && InvMixColumn(w) == Word(Dot(0x0E, 0x0B, 0x0D, 0x09, w), Dot(0x0E, 0x0B, 0x0D, 0x09, w1),
                                       Dot(0x0E, 0x0B, 0x0D, 0x09, w2), Dot(0x0E, 0x0B, 0x0D, 0x09, w3))
  {
    hide Dot;
    var w1 := RotWord(w);
    var w2 := RotWord(w1);
    DotRotates(0x02, 0x03, 0x01, 0x01, w2);
    DotRotates(0x01, 0x02, 0x03, 0x01, w1);
    DotRotates(0x02, 0x03, 0x01, 0x01, w1);
    DotRotates(0x01, 0x01, 0x02, 0x03, w);
    DotRotates(0x01, 0x02, 0x03, 0x01, w);
    DotRotates(0x02, 0x03, 0x01, 0x01, w);
    DotRotates(0x0E, 0x0B, 0x0D, 0x09, w2);
    DotRotates(0x09, 0x0E, 0x0B, 0x0D, w1);
    DotRotates(0x0E, 0x0B, 0x0D, 0x09, w1);
    DotRotates(0x0D, 0x09, 0x0E, 0x0B, w);
    DotRotates(0x09, 0x0E, 0x0B, 0x0D, w);
    DotRotates(0x0E, 0x0B, 0x0D, 0x09, w);
  }

  lemma DotAdds(k0: bv8, k1: bv8, k2: bv8, k3: bv8, a: Word, b: Word)
    requires IsCoefficient(k0) && IsCoefficient(k1) && IsCoefficient(k2) && IsCoefficient(k3)
    ensures Dot(k0, k1, k2, k3, XorWord(a, b)) == Add(Dot(k0, k1, k2, k3, a), Dot(k0, k1, k2, k3, b))
  {
    hide Mul, Add, Sum4, IsCoefficient;
    MulAdds(k0, a.b0, b.b0);
    MulAdds(k1, a.b1, b.b1);
    MulAdds(k2, a.b2, b.b2);
    MulAdds(k3, a.b3, b.b3);
    Sum4Adds(Mul(k0, a.b0), Mul(k1, a.b1), Mul(k2, a.b2), Mul(k3, a.b3),
             Mul(k0, b.b0), Mul(k1, b.b1), Mul(k2, b.b2), Mul(k3, b.b3));
  }

  /** InvMixColumn is linear, which is what lets the round keys move inside it. */
  lemma InvMixColumnXor(a: Word, b: Word)
    ensures InvMixColumn(XorWord(a, b)) == XorWord(InvMixColumn(a), InvMixColumn(b))
  {
    hide Dot, Add;
    DotAdds(0x0E, 0x0B, 0x0D, 0x09, a, b);
    DotAdds(0x09, 0x0E, 0x0B, 0x0D, a, b);
    DotAdds(0x0D, 0x09, 0x0E, 0x0B, a, b);
    DotAdds(0x0B, 0x0D, 0x09, 0x0E, a, b);
  }

  lemma MixColumnsInverts(s: State)
    ensures InvMixColumns(MixColumns(s)) == s
    ensures MixColumns(InvMixColumns(s)) == s
  {
    hide MixColumn, InvMixColumn;
    MixColumnInverts(s.c0);
    MixColumnInverts(s.c1);
    MixColumnInverts(s.c2);
    MixColumnInverts(s.c3);
  }

  lemma InvMixColumnsXor(s: State, k: State)
    ensures InvMixColumns(AddRoundKey(s, k)) == AddRoundKey(InvMixColumns(s), InvMixColumns(k))
  {
    hide InvMixColumn, XorWord;
    InvMixColumnXor(s.c0, k.c0);
    InvMixColumnXor(s.c1, k.c1);
    InvMixColumnXor(s.c2, k.c2);
    InvMixColumnXor(s.c3, k.c3);
  }

  // Rounds.

  lemma {:induction false} InvRoundsUndoRounds(w: seq<Word>, r: nat, s: State)
    requires 4 * r + 4 <= |w|
    ensures InvRounds(w, r, ShiftRows(SubBytes(Rounds(w, r, s)))) == s
  {
    hide AddRoundKey, SubBytes, InvSubBytes, ShiftRows, InvShiftRows, MixColumns, InvMixColumns, RoundKey;
    var t := Rounds(w, r, s);
    ShiftRowsInverts(SubBytes(t));
    SubBytesInverts(t);
    if r == 0 {
      AddRoundKeyCancels(s, RoundKey(w, 0));
    } else {
      var u := ShiftRows(SubBytes(Rounds(w, r - 1, s)));
      AddRoundKeyCancels(MixColumns(u), RoundKey(w, r));
      MixColumnsInverts(u);
      InvRoundsUndoRounds(w, r - 1, s);
    }
  }

  lemma {:induction false} RoundsUndoInvRounds(w: seq<Word>, r: nat, s: State)
    requires 4 * r + 4 <= |w|
    ensures ShiftRows(SubBytes(Rounds(w, r, InvRounds(w, r, s)))) == s
  {
    hide AddRoundKey, SubBytes, InvSubBytes, ShiftRows, InvShiftRows, MixColumns, InvMixColumns, RoundKey;
    var u := InvSubBytes(InvShiftRows(s));
    var t := AddRoundKey(u, RoundKey(w, r));
    AddRoundKeyCancels(u, RoundKey(w, r));
    SubBytesInverts(InvShiftRows(s));
    ShiftRowsInverts(s);
    if r > 0 {
      RoundsUndoInvRounds(w, r - 1, InvMixColumns(t));
      MixColumnsInverts(t);
    }
  }

  /** Deciphering an enciphered block gives the block back, and the other way round. */
  lemma CipherInverts(w: seq<Word>, nr: nat, s: State)
    requires 0 < nr && 4 * nr + 4 <= |w|
    ensures InvCipher(w, nr, Cipher(w, nr, s)) == s
    ensures Cipher(w, nr, InvCipher(w, nr, s)) == s
  {
    hide AddRoundKey, SubBytes, ShiftRows, RoundKey, Rounds, InvRounds;
    AddRoundKeyCancels(ShiftRows(SubBytes(Rounds(w, nr - 1, s))), RoundKey(w, nr));
    InvRoundsUndoRounds(w, nr - 1, s);
    RoundsUndoInvRounds(w, nr - 1, AddRoundKey(s, RoundKey(w, nr)));
    AddRoundKeyCancels(s, RoundKey(w, nr));
  }
}
