/**
 The byte-level AES of FIPS-197: the cipher (section 5.1), the key expansion (section 5.2) and
 the inverse cipher (section 5.3), written without round tables.
 */
module Fips197 {
  import opened Gf256
  import opened Sbox

  /** A word is four bytes: a column of the state, or a word of the key schedule. */
  datatype Word = Word(b0: bv8, b1: bv8, b2: bv8, b3: bv8)

  /** The state, and a round key, is four columns. */
  datatype State = State(c0: Word, c1: Word, c2: Word, c3: Word)

  function XorWord(a: Word, b: Word): Word {
    Word(Add(a.b0, b.b0), Add(a.b1, b.b1), Add(a.b2, b.b2), Add(a.b3, b.b3))
  }

  function AddRoundKey(s: State, k: State): State {
    State(XorWord(s.c0, k.c0), XorWord(s.c1, k.c1), XorWord(s.c2, k.c2), XorWord(s.c3, k.c3))
  }

  function SubWord(w: Word): Word {
    Word(SubByte(w.b0), SubByte(w.b1), SubByte(w.b2), SubByte(w.b3))
  }

  function InvSubWord(w: Word): Word {
    Word(InvSubByte(w.b0), InvSubByte(w.b1), InvSubByte(w.b2), InvSubByte(w.b3))
  }

  function SubBytes(s: State): State {
    State(SubWord(s.c0), SubWord(s.c1), SubWord(s.c2), SubWord(s.c3))
  }

  function InvSubBytes(s: State): State {
    State(InvSubWord(s.c0), InvSubWord(s.c1), InvSubWord(s.c2), InvSubWord(s.c3))
  }

  /** Row r of the state moves r columns to the left. */
  function ShiftRows(s: State): State {
    State(Word(s.c0.b0, s.c1.b1, s.c2.b2, s.c3.b3), Word(s.c1.b0, s.c2.b1, s.c3.b2, s.c0.b3),
          Word(s.c2.b0, s.c3.b1, s.c0.b2, s.c1.b3), Word(s.c3.b0, s.c0.b1, s.c1.b2, s.c2.b3))
  }

  /** Row r of the state moves r columns to the right. */
  function InvShiftRows(s: State): State {
    State(Word(s.c0.b0, s.c3.b1, s.c2.b2, s.c1.b3), Word(s.c1.b0, s.c0.b1, s.c3.b2, s.c2.b3),
          Word(s.c2.b0, s.c1.b1, s.c0.b2, s.c3.b3), Word(s.c3.b0, s.c2.b1, s.c1.b2, s.c0.b3))
  }

  /** A row of coefficients times a column. */
  function Dot(k0: bv8, k1: bv8, k2: bv8, k3: bv8, w: Word): bv8 {
    Sum4(Mul(k0, w.b0), Mul(k1, w.b1), Mul(k2, w.b2), Mul(k3, w.b3))
  }

  function MixColumn(w: Word): Word {
    Word(Dot(0x02, 0x03, 0x01, 0x01, w), Dot(0x01, 0x02, 0x03, 0x01, w),
         Dot(0x01, 0x01, 0x02, 0x03, w), Dot(0x03, 0x01, 0x01, 0x02, w))
  }

  function InvMixColumn(w: Word): Word {
    Word(Dot(0x0E, 0x0B, 0x0D, 0x09, w), Dot(0x09, 0x0E, 0x0B, 0x0D, w),
         Dot(0x0D, 0x09, 0x0E, 0x0B, w), Dot(0x0B, 0x0D, 0x09, 0x0E, w))
  }

  function MixColumns(s: State): State {
    State(MixColumn(s.c0), MixColumn(s.c1), MixColumn(s.c2), MixColumn(s.c3))
  }

  function InvMixColumns(s: State): State {
    State(InvMixColumn(s.c0), InvMixColumn(s.c1), InvMixColumn(s.c2), InvMixColumn(s.c3))
  }

  // Key expansion, section 5.2.

  function RotWord(w: Word): Word {
    Word(w.b1, w.b2, w.b3, w.b0)
  }

  /** The constant x^(j-1) of round j. */
  function RconByte(j: nat): bv8 {
    if j <= 1 then 1 else Xtime(RconByte(j - 1))
  }

  /** Word i of the schedule expanded from a key of nk words. */
  function ScheduleWord(key: seq<Word>, i: nat): Word
    requires |key| > 0
  {
    var nk := |key|;
    if i < nk then key[i]
    else
      var temp := ScheduleWord(key, i - 1);
      var t :=
        if i % nk == 0 then XorWord(SubWord(RotWord(temp)), Word(RconByte(i / nk), 0, 0, 0))
        else if nk > 6 && i % nk == 4 then SubWord(temp)
        else temp;
      XorWord(ScheduleWord(key, i - nk), t)
  }

  // The cipher, section 5.1.  A schedule is the sequence of its words.

  function RoundKey(w: seq<Word>, r: nat): State
    requires 4 * r + 4 <= |w|
  {
    State(w[4 * r], w[4 * r + 1], w[4 * r + 2], w[4 * r + 3])
  }

  /** The state after the initial round key and r full rounds. */
  function Rounds(w: seq<Word>, r: nat, s: State): State
    requires 4 * r + 4 <= |w|
  {
    if r == 0 then AddRoundKey(s, RoundKey(w, 0))
    else AddRoundKey(MixColumns(ShiftRows(SubBytes(Rounds(w, r - 1, s)))), RoundKey(w, r))
  }

  function Cipher(w: seq<Word>, nr: nat, s: State): State
    requires 0 < nr && 4 * nr + 4 <= |w|
  {
    AddRoundKey(ShiftRows(SubBytes(Rounds(w, nr - 1, s))), RoundKey(w, nr))
  }

  // The inverse cipher, section 5.3.

  /** The inverse rounds r, r - 1, ..., 1, and the final one. */
  function InvRounds(w: seq<Word>, r: nat, s: State): State
    requires 4 * r + 4 <= |w|
  {
    var t := AddRoundKey(InvSubBytes(InvShiftRows(s)), RoundKey(w, r));
    if r == 0 then t else InvRounds(w, r - 1, InvMixColumns(t))
  }

  function InvCipher(w: seq<Word>, nr: nat, s: State): State
    requires 0 < nr && 4 * nr + 4 <= |w|
  {
    InvRounds(w, nr - 1, AddRoundKey(s, RoundKey(w, nr)))
  }
}
