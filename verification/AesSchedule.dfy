/**
 What one step of the program's key expansion computes, in terms of the recurrence of section 5.2
 of FIPS-197, and what it does to a round key of the decryption schedule.
 */
module AesSchedule {
  import opened Gf256
  import opened Sbox
  import opened AesTables
  import opened Fips197
  import opened AesWords
  import opened AesRounds

  /** The step that starts a run of nk words: rotate, substitute, add the round constant. */
  function RotSubStep(a: bv32, rcon: bv32, t: bv32): bv32 {
    PlaceBytes(Xor(a, rcon), FSb(Byte1(t)), FSb(Byte2(t)), FSb(Byte3(t)), FSb(Byte0(t)))
  }

  /** The extra step of 256-bit keys: substitute without rotating. */
  function SubStep(a: bv32, t: bv32): bv32 {
    PlaceBytes(a, FSb(Byte0(t)), FSb(Byte1(t)), FSb(Byte2(t)), FSb(Byte3(t)))
  }

  /** The first n words of the schedule are those of the recurrence. */
  ghost predicate Scheduled(keys: seq<bv32>, key: seq<Word>, n: nat) {
    0 < |key| && n <= |keys| && forall i :: 0 <= i < n ==> Column(keys[i]) == ScheduleWord(key, i)
  }

  lemma RconValues()
    ensures RconByte(1) == 0x01 && RconByte(2) == 0x02 && RconByte(3) == 0x04 && RconByte(4) == 0x08
    ensures RconByte(5) == 0x10 && RconByte(6) == 0x20 && RconByte(7) == 0x40 && RconByte(8) == 0x80
    ensures RconByte(9) == 0x1B && RconByte(10) == 0x36
  {
  }

  /** The table of round constants holds the powers of x. */
  lemma RconTable(j: nat)
    requires 1 <= j <= 10
    ensures Column(RCON[j - 1]) == Word(RconByte(j), 0, 0, 0)
  {
    hide RconByte;
    RconValues();
  }

  lemma RotSubMeans(a: bv32, rcon: bv32, t: bv32)
    ensures Column(RotSubStep(a, rcon, t)) ==
            XorWord(Column(a), XorWord(SubWord(RotWord(Column(t))), Column(rcon)))
  {
    hide PlaceBytes, FSb, SubByte, Byte0, Byte1, Byte2, Byte3, Xor, XorWord;
    FSbIsSubByte(Byte0(t));
    FSbIsSubByte(Byte1(t));
    FSbIsSubByte(Byte2(t));
    FSbIsSubByte(Byte3(t));
    PlacedBytes(Xor(a, rcon), FSb(Byte1(t)), FSb(Byte2(t)), FSb(Byte3(t)), FSb(Byte0(t)));
    ColumnOfXor(a, rcon);
    XorWordSwaps(SubWord(RotWord(Column(t))), Column(a), Column(rcon));
  }

  lemma SubMeans(a: bv32, t: bv32)
    ensures Column(SubStep(a, t)) == XorWord(Column(a), SubWord(Column(t)))
  {
    hide PlaceBytes, FSb, SubByte, Byte0, Byte1, Byte2, Byte3, XorWord;
    FSbIsSubByte(Byte0(t));
    FSbIsSubByte(Byte1(t));
    FSbIsSubByte(Byte2(t));
    FSbIsSubByte(Byte3(t));
    PlacedBytes(a, FSb(Byte0(t)), FSb(Byte1(t)), FSb(Byte2(t)), FSb(Byte3(t)));
    XorWordCommutes(Column(a), SubWord(Column(t)));
  }

  lemma XorWordCommutes(a: Word, b: Word)
    ensures XorWord(a, b) == XorWord(b, a)
  {
  }

  lemma AddSwapsThree(x: bv8, a: bv8, r: bv8)
    ensures Add(x, Add(a, r)) == Add(a, Add(x, r))
  {
  }

  lemma XorWordSwaps(x: Word, a: Word, r: Word)
    ensures XorWord(x, XorWord(a, r)) == XorWord(a, XorWord(x, r))
  {
    hide Add;
    AddSwapsThree(x.b0, a.b0, r.b0);
    AddSwapsThree(x.b1, a.b1, r.b1);
    AddSwapsThree(x.b2, a.b2, r.b2);
    AddSwapsThree(x.b3, a.b3, r.b3);
  }

  // Word n of the schedule, from words n - nk and n - 1.

  lemma ScheduleRotSub(keys: seq<bv32>, key: seq<Word>, n: nat)
    requires Scheduled(keys, key, n) && n < |keys|
    requires n % |key| == 0 && |key| <= n && n / |key| <= 10
    ensures Scheduled(keys[n := RotSubStep(keys[n - |key|], RCON[n / |key| - 1], keys[n - 1])], key, n + 1)
  {
    hide Column, RotSubStep, XorWord, SubWord, RotWord, RconByte;
    RotSubMeans(keys[n - |key|], RCON[n / |key| - 1], keys[n - 1]);
    RconTable(n / |key|);
  }

  lemma ScheduleSub(keys: seq<bv32>, key: seq<Word>, n: nat)
    requires Scheduled(keys, key, n) && n < |keys|
    requires |key| > 6 && n % |key| == 4 && |key| <= n
    ensures Scheduled(keys[n := SubStep(keys[n - |key|], keys[n - 1])], key, n + 1)
  {
    hide Column, SubStep, XorWord, SubWord, RotWord, RconByte;
    SubMeans(keys[n - |key|], keys[n - 1]);
  }

  /** Word n of a schedule of nk key words is a plain exclusive or. */
  predicate IsPlain(nk: nat, n: nat) {
    0 < nk <= n && n % nk != 0 && !(nk > 6 && n % nk == 4)
  }

  lemma SchedulePlain(keys: seq<bv32>, key: seq<Word>, n: nat)
    requires Scheduled(keys, key, n) && n < |keys| && |key| <= n && IsPlain(|key|, n)
    ensures Scheduled(keys[n := Xor(keys[n - |key|], keys[n - 1])], key, n + 1)
  {
    hide Column, Xor, XorWord, SubWord, RotWord, RconByte;
    ColumnOfXor(keys[n - |key|], keys[n - 1]);
  }

  // The first expanded words of the examples in appendix A of FIPS-197.

  const KEY128: seq<Word> := [
    Word(0x2B, 0x7E, 0x15, 0x16), Word(0x28, 0xAE, 0xD2, 0xA6),
    Word(0xAB, 0xF7, 0x15, 0x88), Word(0x09, 0xCF, 0x4F, 0x3C)]

  const KEY192: seq<Word> := [
    Word(0x8E, 0x73, 0xB0, 0xF7), Word(0xDA, 0x0E, 0x64, 0x52), Word(0xC8, 0x10, 0xF3, 0x2B),
    Word(0x80, 0x90, 0x79, 0xE5), Word(0x62, 0xF8, 0xEA, 0xD2), Word(0x52, 0x2C, 0x6B, 0x7B)]

  const KEY256: seq<Word> := [
    Word(0x60, 0x3D, 0xEB, 0x10), Word(0x15, 0xCA, 0x71, 0xBE),
    Word(0x2B, 0x73, 0xAE, 0xF0), Word(0x85, 0x7D, 0x77, 0x81),
    Word(0x1F, 0x35, 0x2C, 0x07), Word(0x3B, 0x61, 0x08, 0xD7),
    Word(0x2D, 0x98, 0x10, 0xA3), Word(0x09, 0x14, 0xDF, 0xF4)]

  lemma SubWordByTable(w: Word)
    ensures SubWord(w) == Word(FSb(w.b0), FSb(w.b1), FSb(w.b2), FSb(w.b3))
  {
    hide SubByte, FSb;
    FSbIsSubByte(w.b0);
    FSbIsSubByte(w.b1);
    FSbIsSubByte(w.b2);
    FSbIsSubByte(w.b3);
  }

  /** The first word that each key size adds, and for 256 bits the first one of the extra substitution. */
  lemma ExpansionExamples()
    ensures ScheduleWord(KEY128, 4) == Word(0xA0, 0xFA, 0xFE, 0x17)
    ensures ScheduleWord(KEY192, 6) == Word(0xFE, 0x0C, 0x91, 0xF7)
    ensures ScheduleWord(KEY256, 8) == Word(0x9B, 0xA3, 0x54, 0x11)
    ensures ScheduleWord(KEY256, 12) == Word(0xA8, 0xB0, 0x9C, 0x1A)
  {
    hide *;
    Example128();
    Example192();
    Example256();
    ExtraSubstitution();
  }

  lemma Example128()
    ensures ScheduleWord(KEY128, 4) == Word(0xA0, 0xFA, 0xFE, 0x17)
  {
    SubWordByTable(Word(0xCF, 0x4F, 0x3C, 0x09));
    hide SubByte;
  }

  lemma Example192()
    ensures ScheduleWord(KEY192, 6) == Word(0xFE, 0x0C, 0x91, 0xF7)
  {
    SubWordByTable(Word(0x2C, 0x6B, 0x7B, 0x52));
    hide SubByte;
  }

  lemma Example256()
    ensures ScheduleWord(KEY256, 8) == Word(0x9B, 0xA3, 0x54, 0x11)
  {
    SubWordByTable(Word(0x14, 0xDF, 0xF4, 0x09));
    hide SubByte;
  }

  lemma PlainExample256()
    ensures ScheduleWord(KEY256, 11) == Word(0x20, 0x67, 0xFC, 0xDE) && ScheduleWord(KEY256, 4) == KEY256[4]
  {
    Example256();
    hide SubByte, SubWord;
  }

  lemma ExtraSubstitution()
    ensures ScheduleWord(KEY256, 12) == Word(0xA8, 0xB0, 0x9C, 0x1A)
  {
    PlainExample256();
    SubWordByTable(Word(0x20, 0x67, 0xFC, 0xDE));
    hide SubByte;
  }

  // The decryption schedule.

  /** The program's InvMixColumn of a key word: the reverse tables applied to substituted bytes. */
  function InvMixWord(x: bv32): bv32 {
    Xor(Xor(Xor(RT0(FSb(Byte0(x))), RT1(FSb(Byte1(x)))), RT2(FSb(Byte2(x)))), RT3(FSb(Byte3(x))))
  }

  lemma Sum4Chain(a: bv8, b: bv8, c: bv8, d: bv8)
    ensures Add(Add(Add(a, b), c), d) == Sum4(a, b, c, d)
  {
  }

  lemma InvSubOfTable(b: bv8)
    ensures InvSubByte(FSb(b)) == b
  {
    hide *;
    FSbIsSubByte(b);
    SubByteInverts(b);
  }

  lemma InvMixWordMeans(x: bv32)
    ensures Column(InvMixWord(x)) == InvMixColumn(Column(x))
  {
    hide Xor, RT0, RT1, RT2, RT3, FSb, Byte0, Byte1, Byte2, Byte3, Column, XorWord, InvSubByte, Mul, Sum4;
    var t0, t1, t2, t3 := RT0(FSb(Byte0(x))), RT1(FSb(Byte1(x))), RT2(FSb(Byte2(x))), RT3(FSb(Byte3(x)));
    ColumnOfXor(t0, t1);
    ColumnOfXor(Xor(t0, t1), t2);
    ColumnOfXor(Xor(Xor(t0, t1), t2), t3);
    ReverseEntries(FSb(Byte0(x)));
    ReverseEntries(FSb(Byte1(x)));
    ReverseEntries(FSb(Byte2(x)));
    ReverseEntries(FSb(Byte3(x)));
    InvSubOfTable(Byte0(x));
    InvSubOfTable(Byte1(x));
    InvSubOfTable(Byte2(x));
    InvSubOfTable(Byte3(x));
    XorWordOfFour(Column(t0), Column(t1), Column(t2), Column(t3));
    ColumnBytes(x);
  }

  lemma XorWordOfFour(t: Word, u: Word, v: Word, w: Word)
    ensures XorWord(XorWord(XorWord(t, u), v), w) ==
            Word(Sum4(t.b0, u.b0, v.b0, w.b0), Sum4(t.b1, u.b1, v.b1, w.b1),
                 Sum4(t.b2, u.b2, v.b2, w.b2), Sum4(t.b3, u.b3, v.b3, w.b3))
  {
    hide Add, Sum4;
    Sum4Chain(t.b0, u.b0, v.b0, w.b0);
    Sum4Chain(t.b1, u.b1, v.b1, w.b1);
    Sum4Chain(t.b2, u.b2, v.b2, w.b2);
    Sum4Chain(t.b3, u.b3, v.b3, w.b3);
  }

  lemma ColumnBytes(x: bv32)
    ensures Column(x) == Word(Byte0(x), Byte1(x), Byte2(x), Byte3(x))
  {
  }

  function InvMixBlock(b: Block): Block {
    Block(InvMixWord(b.x0), InvMixWord(b.x1), InvMixWord(b.x2), InvMixWord(b.x3))
  }

  lemma InvMixBlockMeans(b: Block)
    ensures StateOf(InvMixBlock(b)) == InvMixColumns(StateOf(b))
  {
    hide Column, InvMixWord, InvMixColumn;
    InvMixWordMeans(b.x0);
    InvMixWordMeans(b.x1);
    InvMixWordMeans(b.x2);
    InvMixWordMeans(b.x3);
  }

  /** Round key r that the program puts in the decryption schedule. */
  function InverseKeyBlock(keys: seq<bv32>, nr: nat, r: nat): Block
    requires r <= nr && 4 * nr + 4 <= |keys|
  {
    var b := KeyBlock(keys, 4 * (nr - r));
    if 0 < r < nr then InvMixBlock(b) else b
  }

  lemma InverseKeysMakeInverseSchedule(keys: seq<bv32>, inverse: seq<bv32>, nr: nat)
    requires 4 * nr + 4 <= |keys| && 4 * nr + 4 <= |inverse|
    requires forall r :: 0 <= r <= nr ==> KeyBlock(inverse, 4 * r) == InverseKeyBlock(keys, nr, r)
    ensures IsInverseSchedule(Columns(keys), Columns(inverse), nr)
  {
    hide StateOf, InvMixBlock, InvMixColumns, RoundKey, KeyBlock, Columns;
    forall r | 0 <= r <= nr ensures RoundKey(Columns(inverse), r) == InverseRoundKey(Columns(keys), nr, r) {
      KeyBlockMeans(inverse, r);
      KeyBlockMeans(keys, nr - r);
      InvMixBlockMeans(KeyBlock(keys, 4 * (nr - r)));
    }
  }
}
