/**
 Whole rounds on four 32-bit words, and the Equivalent Inverse Cipher of section 5.3.5 of
 FIPS-197, which is the form decryption takes when it runs on lookup tables.
 */
module AesRounds {
  import opened Sbox
  import opened Fips197
  import opened CipherInverse
  import opened AesWords

  /** The four state words that the program keeps in X0..X3 or Y0..Y3. */
  datatype Block = Block(x0: bv32, x1: bv32, x2: bv32, x3: bv32)

  function StateOf(b: Block): State {
    State(Column(b.x0), Column(b.x1), Column(b.x2), Column(b.x3))
  }

  /** The schedule as a sequence of columns. */
  function Columns(keys: seq<bv32>): (w: seq<Word>)
    ensures |w| == |keys|
    ensures forall i :: 0 <= i < |keys| ==> w[i] == Column(keys[i])
  {
    seq(|keys|, i requires 0 <= i < |keys| => Column(keys[i]))
  }

  function XorBlock(a: Block, b: Block): Block {
    Block(Xor(a.x0, b.x0), Xor(a.x1, b.x1), Xor(a.x2, b.x2), Xor(a.x3, b.x3))
  }

  function KeyBlock(keys: seq<bv32>, rk: nat): Block
    requires rk + 4 <= |keys|
  {
    Block(keys[rk], keys[rk + 1], keys[rk + 2], keys[rk + 3])
  }

  /** A full encryption round with the four key words at rk. */
  function ForwardRound(keys: seq<bv32>, rk: nat, y: Block): Block
    requires rk + 4 <= |keys|
  {
    Block(ForwardWord(keys[rk], y.x0, y.x1, y.x2, y.x3),
          ForwardWord(keys[rk + 1], y.x1, y.x2, y.x3, y.x0),
          ForwardWord(keys[rk + 2], y.x2, y.x3, y.x0, y.x1),
          ForwardWord(keys[rk + 3], y.x3, y.x0, y.x1, y.x2))
  }

  /** The last encryption round, which does not mix columns. */
  function ForwardLastRound(keys: seq<bv32>, rk: nat, y: Block): Block
    requires rk + 4 <= |keys|
  {
    Block(ForwardLastWord(keys[rk], y.x0, y.x1, y.x2, y.x3),
          ForwardLastWord(keys[rk + 1], y.x1, y.x2, y.x3, y.x0),
          ForwardLastWord(keys[rk + 2], y.x2, y.x3, y.x0, y.x1),
          ForwardLastWord(keys[rk + 3], y.x3, y.x0, y.x1, y.x2))
  }

  /** A full decryption round with the four key words at rk. */
  function ReverseRound(keys: seq<bv32>, rk: nat, y: Block): Block
    requires rk + 4 <= |keys|
  {
    Block(ReverseWord(keys[rk], y.x0, y.x3, y.x2, y.x1),
          ReverseWord(keys[rk + 1], y.x1, y.x0, y.x3, y.x2),
          ReverseWord(keys[rk + 2], y.x2, y.x1, y.x0, y.x3),
          ReverseWord(keys[rk + 3], y.x3, y.x2, y.x1, y.x0))
  }

  function ReverseLastRound(keys: seq<bv32>, rk: nat, y: Block): Block
    requires rk + 4 <= |keys|
  {
    Block(ReverseLastWord(keys[rk], y.x0, y.x3, y.x2, y.x1),
          ReverseLastWord(keys[rk + 1], y.x1, y.x0, y.x3, y.x2),
          ReverseLastWord(keys[rk + 2], y.x2, y.x1, y.x0, y.x3),
          ReverseLastWord(keys[rk + 3], y.x3, y.x2, y.x1, y.x0))
  }

  lemma StateOfXor(a: Block, b: Block)
    ensures StateOf(XorBlock(a, b)) == AddRoundKey(StateOf(a), StateOf(b))
  {
    hide Xor, Column, XorWord;
    ColumnOfXor(a.x0, b.x0);
    ColumnOfXor(a.x1, b.x1);
    ColumnOfXor(a.x2, b.x2);
    ColumnOfXor(a.x3, b.x3);
  }

  lemma KeyBlockMeans(keys: seq<bv32>, r: nat)
    requires 4 * r + 4 <= |keys|
    ensures StateOf(KeyBlock(keys, 4 * r)) == RoundKey(Columns(keys), r)
  {
  }

  /** A table round is SubBytes, ShiftRows, MixColumns and AddRoundKey. */
  lemma ForwardRoundMeans(keys: seq<bv32>, r: nat, y: Block)
    requires 4 * r + 4 <= |keys|
    ensures StateOf(ForwardRound(keys, 4 * r, y)) ==
            AddRoundKey(MixColumns(ShiftRows(SubBytes(StateOf(y)))), RoundKey(Columns(keys), r))
  {
    hide ForwardWord, MixColumn, SubByte, XorWord, Byte0, Byte1, Byte2, Byte3;
    ForwardWordMeans(keys[4 * r], y.x0, y.x1, y.x2, y.x3);
    ForwardWordMeans(keys[4 * r + 1], y.x1, y.x2, y.x3, y.x0);
    ForwardWordMeans(keys[4 * r + 2], y.x2, y.x3, y.x0, y.x1);
    ForwardWordMeans(keys[4 * r + 3], y.x3, y.x0, y.x1, y.x2);
  }

  lemma ForwardLastRoundMeans(keys: seq<bv32>, r: nat, y: Block)
    requires 4 * r + 4 <= |keys|
    ensures StateOf(ForwardLastRound(keys, 4 * r, y)) ==
            AddRoundKey(ShiftRows(SubBytes(StateOf(y))), RoundKey(Columns(keys), r))
  {
    hide ForwardLastWord, SubByte, XorWord, Byte0, Byte1, Byte2, Byte3;
    ForwardLastWordMeans(keys[4 * r], y.x0, y.x1, y.x2, y.x3);
    ForwardLastWordMeans(keys[4 * r + 1], y.x1, y.x2, y.x3, y.x0);
    ForwardLastWordMeans(keys[4 * r + 2], y.x2, y.x3, y.x0, y.x1);
    ForwardLastWordMeans(keys[4 * r + 3], y.x3, y.x0, y.x1, y.x2);
  }

  /** A reverse table round is InvSubBytes, InvShiftRows, InvMixColumns and AddRoundKey. */
  lemma ReverseRoundMeans(keys: seq<bv32>, r: nat, y: Block)
    requires 4 * r + 4 <= |keys|
    ensures StateOf(ReverseRound(keys, 4 * r, y)) ==
            AddRoundKey(InvMixColumns(InvShiftRows(InvSubBytes(StateOf(y)))), RoundKey(Columns(keys), r))
  {
    hide ReverseWord, InvMixColumn, InvSubByte, XorWord, Byte0, Byte1, Byte2, Byte3;
    ReverseWordMeans(keys[4 * r], y.x0, y.x3, y.x2, y.x1);
    ReverseWordMeans(keys[4 * r + 1], y.x1, y.x0, y.x3, y.x2);
    ReverseWordMeans(keys[4 * r + 2], y.x2, y.x1, y.x0, y.x3);
    ReverseWordMeans(keys[4 * r + 3], y.x3, y.x2, y.x1, y.x0);
  }

  lemma ReverseLastRoundMeans(keys: seq<bv32>, r: nat, y: Block)
    requires 4 * r + 4 <= |keys|
    ensures StateOf(ReverseLastRound(keys, 4 * r, y)) ==
            AddRoundKey(InvShiftRows(InvSubBytes(StateOf(y))), RoundKey(Columns(keys), r))
  {
    hide ReverseLastWord, InvSubByte, XorWord, Byte0, Byte1, Byte2, Byte3;
    ReverseLastWordMeans(keys[4 * r], y.x0, y.x3, y.x2, y.x1);
    ReverseLastWordMeans(keys[4 * r + 1], y.x1, y.x0, y.x3, y.x2);
    ReverseLastWordMeans(keys[4 * r + 2], y.x2, y.x1, y.x0, y.x3);
    ReverseLastWordMeans(keys[4 * r + 3], y.x3, y.x2, y.x1, y.x0);
  }

  // The Equivalent Inverse Cipher, in the order of section 5.3.5: substitution first.

  /** The state after the initial round key and r full reverse rounds of the transformed schedule. */
  function EqInvRounds(dw: seq<Word>, r: nat, s: State): State
    requires 4 * r + 4 <= |dw|
  {
    if r == 0 then AddRoundKey(s, RoundKey(dw, 0))
    else AddRoundKey(InvMixColumns(InvShiftRows(InvSubBytes(EqInvRounds(dw, r - 1, s)))), RoundKey(dw, r))
  }

  function EqInvCipher(dw: seq<Word>, nr: nat, s: State): State
    requires 0 < nr && 4 * nr + 4 <= |dw|
  {
    AddRoundKey(InvShiftRows(InvSubBytes(EqInvRounds(dw, nr - 1, s))), RoundKey(dw, nr))
  }

  /** Round key r of the decryption schedule that belongs to w. */
  function InverseRoundKey(w: seq<Word>, nr: nat, r: nat): State
    requires r <= nr && 4 * nr + 4 <= |w|
  {
    if 0 < r < nr then InvMixColumns(RoundKey(w, nr - r)) else RoundKey(w, nr - r)
  }

  /** dw is w reversed by rounds, with InvMixColumns applied to all round keys but the outer two. */
  ghost predicate IsInverseSchedule(w: seq<Word>, dw: seq<Word>, nr: nat) {
    && 4 * nr + 4 <= |w|
    && 4 * nr + 4 <= |dw|
    && forall r :: 0 <= r <= nr ==> RoundKey(dw, r) == InverseRoundKey(w, nr, r)
  }

  lemma {:induction false} EqInvRoundsAreInvRounds(w: seq<Word>, dw: seq<Word>, nr: nat, j: nat, s: State)
    requires j < nr && IsInverseSchedule(w, dw, nr)
    ensures InvCipher(w, nr, s) == InvRounds(w, nr - 1 - j, EqInvRounds(dw, j, s))
  {
    hide AddRoundKey, SubBytes, ShiftRows, InvSubBytes, InvShiftRows, InvMixColumns, RoundKey;
    if j == 0 {
      assert RoundKey(dw, 0) == InverseRoundKey(w, nr, 0);
    } else {
      EqInvRoundsAreInvRounds(w, dw, nr, j - 1, s);
      var t := EqInvRounds(dw, j - 1, s);
      assert RoundKey(dw, j) == InverseRoundKey(w, nr, j);
      ShiftRowsSubBytesCommute(t);
      InvMixColumnsXor(InvSubBytes(InvShiftRows(t)), RoundKey(w, nr - j));
    }
  }

  /** The equivalent inverse cipher on the transformed schedule is the inverse cipher on the plain one. */
  lemma EquivalentInverse(w: seq<Word>, dw: seq<Word>, nr: nat, s: State)
    requires 0 < nr && IsInverseSchedule(w, dw, nr)
    ensures EqInvCipher(dw, nr, s) == InvCipher(w, nr, s)
  {
    hide AddRoundKey, SubBytes, ShiftRows, InvSubBytes, InvShiftRows, InvMixColumns, RoundKey, EqInvRounds;
    EqInvRoundsAreInvRounds(w, dw, nr, nr - 1, s);
    ShiftRowsSubBytesCommute(EqInvRounds(dw, nr - 1, s));
    assert RoundKey(dw, nr) == InverseRoundKey(w, nr, nr);
  }

  // One more round of the program, seen from the start of the block.

  lemma ForwardStart(keys: seq<bv32>, x: Block)
    requires 4 <= |keys|
    ensures StateOf(XorBlock(x, KeyBlock(keys, 0))) == Rounds(Columns(keys), 0, StateOf(x))
  {
    hide StateOf, XorBlock, KeyBlock, Columns, RoundKey, AddRoundKey;
    StateOfXor(x, KeyBlock(keys, 0));
    KeyBlockMeans(keys, 0);
  }

  lemma ForwardStep(keys: seq<bv32>, r: nat, s: State, y: Block)
    requires 0 < r && 4 * r + 4 <= |keys| && StateOf(y) == Rounds(Columns(keys), r - 1, s)
    ensures StateOf(ForwardRound(keys, 4 * r, y)) == Rounds(Columns(keys), r, s)
  {
    hide StateOf, ForwardRound, Columns, RoundKey, AddRoundKey, MixColumns, ShiftRows, SubBytes;
    ForwardRoundMeans(keys, r, y);
  }

  lemma ForwardEnd(keys: seq<bv32>, nr: nat, s: State, y: Block)
    requires 0 < nr && 4 * nr + 4 <= |keys| && StateOf(y) == Rounds(Columns(keys), nr - 1, s)
    ensures StateOf(ForwardLastRound(keys, 4 * nr, y)) == Cipher(Columns(keys), nr, s)
  {
    hide StateOf, ForwardLastRound, Columns, RoundKey, AddRoundKey, ShiftRows, SubBytes, Rounds;
    ForwardLastRoundMeans(keys, nr, y);
  }

  lemma ReverseStart(keys: seq<bv32>, x: Block)
    requires 4 <= |keys|
    ensures StateOf(XorBlock(x, KeyBlock(keys, 0))) == EqInvRounds(Columns(keys), 0, StateOf(x))
  {
    hide StateOf, XorBlock, KeyBlock, Columns, RoundKey, AddRoundKey;
    StateOfXor(x, KeyBlock(keys, 0));
    KeyBlockMeans(keys, 0);
  }

  lemma ReverseStep(keys: seq<bv32>, r: nat, s: State, y: Block)
    requires 0 < r && 4 * r + 4 <= |keys| && StateOf(y) == EqInvRounds(Columns(keys), r - 1, s)
    ensures StateOf(ReverseRound(keys, 4 * r, y)) == EqInvRounds(Columns(keys), r, s)
  {
    hide StateOf, ReverseRound, Columns, RoundKey, AddRoundKey, InvMixColumns, InvShiftRows, InvSubBytes;
    ReverseRoundMeans(keys, r, y);
  }

  lemma ReverseEnd(keys: seq<bv32>, nr: nat, s: State, y: Block)
    requires 0 < nr && 4 * nr + 4 <= |keys| && StateOf(y) == EqInvRounds(Columns(keys), nr - 1, s)
    ensures StateOf(ReverseLastRound(keys, 4 * nr, y)) == EqInvCipher(Columns(keys), nr, s)
  {
    hide StateOf, ReverseLastRound, Columns, RoundKey, AddRoundKey, InvShiftRows, InvSubBytes, EqInvRounds;
    ReverseLastRoundMeans(keys, nr, y);
  }
}
