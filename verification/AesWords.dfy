/**
 The program keeps each column in one 32-bit word, low byte first, and folds SubBytes, ShiftRows
 and MixColumns of a round into table lookups.  This module shows what one lookup round means.
 */
module AesWords {
  import opened Gf256
  import opened Sbox
  import opened AesTables
  import opened Fips197

  function Byte0(x: bv32): bv8 { (x & 0xFF) as bv8 }

  function Byte1(x: bv32): bv8 { ((x >> 8) & 0xFF) as bv8 }

  function Byte2(x: bv32): bv8 { ((x >> 16) & 0xFF) as bv8 }

  function Byte3(x: bv32): bv8 { (x >> 24) as bv8 }

  /** The column a 32-bit word stands for. */
  function Column(x: bv32): Word {
    Word(Byte0(x), Byte1(x), Byte2(x), Byte3(x))
  }

  /** The four bytes of a word put together, low byte first. */
  function FromBytes(b0: bv8, b1: bv8, b2: bv8, b3: bv8): bv32 {
    (b0 as bv32) | ((b1 as bv32) << 8) | ((b2 as bv32) << 16) | ((b3 as bv32) << 24)
  }

  lemma ColumnOfBytes(b0: bv8, b1: bv8, b2: bv8, b3: bv8)
    ensures Column(FromBytes(b0, b1, b2, b3)) == Word(b0, b1, b2, b3)
  {
  }

  // Table entries, as columns.

  lemma ColumnRotate8(x: bv32)
    ensures Column(Rotate8(x)) == Word(Byte3(x), Byte0(x), Byte1(x), Byte2(x))
  {
  }

  lemma ForwardEntry(i: bv8)
    ensures FT0(i) == FromBytes(Mul(0x02, FSb(i)), FSb(i), FSb(i), Mul(0x03, FSb(i)))
  {
  }

  lemma ReverseEntry(i: bv8)
    ensures RT0(i) == FromBytes(Mul(0x0E, RSb(i)), Mul(0x09, RSb(i)), Mul(0x0D, RSb(i)), Mul(0x0B, RSb(i)))
  {
  }

  /** Each forward table is a column of the MixColumn matrix times the substituted byte. */
  lemma ForwardEntries(i: bv8)
    ensures var s := SubByte(i); var s2 := Mul(0x02, s); var s3 := Mul(0x03, s);
            && Column(FT0(i)) == Word(s2, s, s, s3)
            && Column(FT1(i)) == Word(s3, s2, s, s)
            && Column(FT2(i)) == Word(s, s3, s2, s)
            && Column(FT3(i)) == Word(s, s, s3, s2)
  {
    hide FSb, FT0, Mul, SubByte, Rotate8, FromBytes, Byte0, Byte1, Byte2, Byte3;
    FSbIsSubByte(i);
    ForwardEntry(i);
    ColumnOfBytes(Mul(0x02, FSb(i)), FSb(i), FSb(i), Mul(0x03, FSb(i)));
    ColumnRotate8(FT0(i));
    ColumnRotate8(FT1(i));
    ColumnRotate8(FT2(i));
  }

  /** Each reverse table is a column of the InvMixColumn matrix times the inversely substituted byte. */
  lemma ReverseEntries(i: bv8)
    ensures var s := InvSubByte(i);
            var e, b, d, n := Mul(0x0E, s), Mul(0x0B, s), Mul(0x0D, s), Mul(0x09, s);
            && Column(RT0(i)) == Word(e, n, d, b)
            && Column(RT1(i)) == Word(b, e, n, d)
            && Column(RT2(i)) == Word(d, b, e, n)
            && Column(RT3(i)) == Word(n, d, b, e)
  {
    hide RSb, RT0, Mul, InvSubByte, Rotate8, FromBytes, Byte0, Byte1, Byte2, Byte3;
    RSbIsInvSubByte(i);
    ReverseEntry(i);
    ColumnOfBytes(Mul(0x0E, RSb(i)), Mul(0x09, RSb(i)), Mul(0x0D, RSb(i)), Mul(0x0B, RSb(i)));
    ColumnRotate8(RT0(i));
    ColumnRotate8(RT1(i));
    ColumnRotate8(RT2(i));
  }

  // One output word of a round, from the four input words it reads.

  /** Exclusive or, named so that proofs can keep it folded. */
  function Xor(x: bv32, y: bv32): bv32 {
    x ^ y
  }

  function Xor5(k: bv32, x0: bv32, x1: bv32, x2: bv32, x3: bv32): bv32 {
    Xor(Xor(Xor(Xor(k, x0), x1), x2), x3)
  }

  /** Four bytes put in place and added to a key word. */
  function PlaceBytes(key: bv32, b0: bv8, b1: bv8, b2: bv8, b3: bv8): bv32 {
    Xor5(key, b0 as bv32, (b1 as bv32) << 8, (b2 as bv32) << 16, (b3 as bv32) << 24)
  }

  function ForwardWord(key: bv32, a: bv32, b: bv32, c: bv32, d: bv32): bv32 {
    Xor5(key, FT0(Byte0(a)), FT1(Byte1(b)), FT2(Byte2(c)), FT3(Byte3(d)))
  }

  function ReverseWord(key: bv32, a: bv32, b: bv32, c: bv32, d: bv32): bv32 {
    Xor5(key, RT0(Byte0(a)), RT1(Byte1(b)), RT2(Byte2(c)), RT3(Byte3(d)))
  }

  function ForwardLastWord(key: bv32, a: bv32, b: bv32, c: bv32, d: bv32): bv32 {
    PlaceBytes(key, FSb(Byte0(a)), FSb(Byte1(b)), FSb(Byte2(c)), FSb(Byte3(d)))
  }

  function ReverseLastWord(key: bv32, a: bv32, b: bv32, c: bv32, d: bv32): bv32 {
    PlaceBytes(key, RSb(Byte0(a)), RSb(Byte1(b)), RSb(Byte2(c)), RSb(Byte3(d)))
  }

  lemma AddChain(k: bv8, a: bv8, b: bv8, c: bv8, d: bv8)
    ensures Add(Add(Add(Add(k, a), b), c), d) == Add(Sum4(a, b, c, d), k)
  {
    hide Add;
    AddAssociates(k, a, b);
    AddAssociates(k, Add(a, b), c);
    AddAssociates(k, Add(Add(a, b), c), d);
    AddAssociates(Add(a, b), c, d);
    AddCommutes(k, Sum4(a, b, c, d));
  }

  lemma ColumnOfXor(x: bv32, y: bv32)
    ensures Column(Xor(x, y)) == XorWord(Column(x), Column(y))
  {
  }

  lemma XorChain(k: bv32, x0: bv32, x1: bv32, x2: bv32, x3: bv32)
    ensures Column(Xor5(k, x0, x1, x2, x3)) ==
            XorWord(XorWord(XorWord(XorWord(Column(k), Column(x0)), Column(x1)), Column(x2)), Column(x3))
  {
    hide Xor, Column, XorWord;
    ColumnOfXor(k, x0);
    ColumnOfXor(Xor(k, x0), x1);
    ColumnOfXor(Xor(Xor(k, x0), x1), x2);
    ColumnOfXor(Xor(Xor(Xor(k, x0), x1), x2), x3);
  }

  lemma WordChain(k: Word, t: Word, u: Word, v: Word, w: Word)
    ensures XorWord(XorWord(XorWord(XorWord(k, t), u), v), w) ==
            XorWord(Word(Sum4(t.b0, u.b0, v.b0, w.b0), Sum4(t.b1, u.b1, v.b1, w.b1),
                         Sum4(t.b2, u.b2, v.b2, w.b2), Sum4(t.b3, u.b3, v.b3, w.b3)), k)
  {
    hide Add, Sum4;
    AddChain(k.b0, t.b0, u.b0, v.b0, w.b0);
    AddChain(k.b1, t.b1, u.b1, v.b1, w.b1);
    AddChain(k.b2, t.b2, u.b2, v.b2, w.b2);
    AddChain(k.b3, t.b3, u.b3, v.b3, w.b3);
  }

  lemma ForwardWordMeans(key: bv32, a: bv32, b: bv32, c: bv32, d: bv32)
    ensures Column(ForwardWord(key, a, b, c, d)) ==
            XorWord(MixColumn(SubWord(Word(Byte0(a), Byte1(b), Byte2(c), Byte3(d)))), Column(key))
  {
    hide Xor, FT0, FT1, FT2, FT3, Mul, SubByte, Sum4, Byte0, Byte1, Byte2, Byte3, Column, XorWord;
    ForwardEntries(Byte0(a));
    ForwardEntries(Byte1(b));
    ForwardEntries(Byte2(c));
    ForwardEntries(Byte3(d));
    XorChain(key, FT0(Byte0(a)), FT1(Byte1(b)), FT2(Byte2(c)), FT3(Byte3(d)));
    WordChain(Column(key), Column(FT0(Byte0(a))), Column(FT1(Byte1(b))), Column(FT2(Byte2(c))), Column(FT3(Byte3(d))));
    MulByOne(SubByte(Byte0(a)));
    MulByOne(SubByte(Byte1(b)));
    MulByOne(SubByte(Byte2(c)));
    MulByOne(SubByte(Byte3(d)));
  }

  lemma MulByOne(b: bv8)
    ensures Mul(0x01, b) == b
  {
  }

  lemma ReverseWordMeans(key: bv32, a: bv32, b: bv32, c: bv32, d: bv32)
    ensures Column(ReverseWord(key, a, b, c, d)) ==
            XorWord(InvMixColumn(InvSubWord(Word(Byte0(a), Byte1(b), Byte2(c), Byte3(d)))), Column(key))
  {
    hide Xor, RT0, RT1, RT2, RT3, Mul, InvSubByte, Sum4, Byte0, Byte1, Byte2, Byte3, Column, XorWord;
    ReverseEntries(Byte0(a));
    ReverseEntries(Byte1(b));
    ReverseEntries(Byte2(c));
    ReverseEntries(Byte3(d));
    XorChain(key, RT0(Byte0(a)), RT1(Byte1(b)), RT2(Byte2(c)), RT3(Byte3(d)));
    WordChain(Column(key), Column(RT0(Byte0(a))), Column(RT1(Byte1(b))), Column(RT2(Byte2(c))), Column(RT3(Byte3(d))));
  }

  lemma PlacedBytes(key: bv32, b0: bv8, b1: bv8, b2: bv8, b3: bv8)
    ensures Column(PlaceBytes(key, b0, b1, b2, b3)) == XorWord(Word(b0, b1, b2, b3), Column(key))
  {
  }

  lemma ForwardLastWordMeans(key: bv32, a: bv32, b: bv32, c: bv32, d: bv32)
    ensures Column(ForwardLastWord(key, a, b, c, d)) ==
            XorWord(SubWord(Word(Byte0(a), Byte1(b), Byte2(c), Byte3(d))), Column(key))
  {
    hide PlaceBytes, FSb, SubByte, Byte0, Byte1, Byte2, Byte3, Column, XorWord;
    FSbIsSubByte(Byte0(a));
    FSbIsSubByte(Byte1(b));
    FSbIsSubByte(Byte2(c));
    FSbIsSubByte(Byte3(d));
    PlacedBytes(key, FSb(Byte0(a)), FSb(Byte1(b)), FSb(Byte2(c)), FSb(Byte3(d)));
  }

  lemma ReverseLastWordMeans(key: bv32, a: bv32, b: bv32, c: bv32, d: bv32)
    ensures Column(ReverseLastWord(key, a, b, c, d)) ==
            XorWord(InvSubWord(Word(Byte0(a), Byte1(b), Byte2(c), Byte3(d))), Column(key))
  {
    hide PlaceBytes, RSb, InvSubByte, Byte0, Byte1, Byte2, Byte3, Column, XorWord;
    RSbIsInvSubByte(Byte0(a));
    RSbIsInvSubByte(Byte1(b));
    RSbIsInvSubByte(Byte2(c));
    RSbIsInvSubByte(Byte3(d));
    PlacedBytes(key, RSb(Byte0(a)), RSb(Byte1(b)), RSb(Byte2(c)), RSb(Byte3(d)));
  }
}
