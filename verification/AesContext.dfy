/**
 The AES context of the program and its three routines, working in place: key expansion, and
 encryption and decryption of a buffer of any length.
 */
module AesContext {
  import opened AesTables
  import opened Fips197
  import opened AesWords
  import opened AesRounds
  import opened AesSchedule
  import opened AesModes

  // Strings and byte order.

  function Lower(c: char): char {
    if 'A' <= c <= 'Z' then (c as int + 32) as char else c
  }

  /** The mode string starts with "cbc", letter case aside. */
  predicate IsCbc(mode: string) {
    |mode| >= 3 && Lower(mode[0]) == 'c' && Lower(mode[1]) == 'b' && Lower(mode[2]) == 'c'
  }

  /** Exactly the eight ways to write "cbc" in small and capital letters start a mode that chains. */
  lemma ChainsExactly(mode: string)
    ensures IsCbc(mode) <==>
              |mode| >= 3 && mode[..3] in ["cbc", "cbC", "cBc", "cBC", "Cbc", "CbC", "CBc", "CBC"]
  {
    if |mode| >= 3 {
      assert mode[..3] == [mode[0], mode[1], mode[2]];
      LowerIs(mode[0], 'c', 'C');
      LowerIs(mode[1], 'b', 'B');
      LowerIs(mode[2], 'c', 'C');
    }
    hide Lower;
  }

  lemma LowerIs(c: char, small: char, capital: char)
    requires 'a' <= small <= 'z' && capital as int == small as int - 32
    ensures Lower(c) == small <==> c == small || c == capital
  {
  }

  lemma NamedModes(rest: string)
    ensures IsCbc("cbc" + rest) && IsCbc("CBC" + rest) && !IsCbc("ecb" + rest) && !IsCbc("ECB" + rest)
  {
  }

  /** What a 16-byte character array keeps of a string, its terminator apart. */
  function Stored(mode: string): string {
    if |mode| > 15 then mode[..15] else mode
  }

  function GetUint32(b: seq<bv8>, i: nat): bv32
    requires i + 4 <= |b|
  {
    FromBytes(b[i], b[i + 1], b[i + 2], b[i + 3])
  }

  function GetBlock(b: seq<bv8>, i: nat): Block
    requires i + 16 <= |b|
  {
    Block(GetUint32(b, i), GetUint32(b, i + 4), GetUint32(b, i + 8), GetUint32(b, i + 12))
  }

  lemma GetBlockMeans(b: seq<bv8>, i: nat)
    requires i + 16 <= |b|
    ensures StateOf(GetBlock(b, i)) == BlockAt(b, i)
  {
    hide Column, FromBytes;
    ColumnOfBytes(b[i], b[i + 1], b[i + 2], b[i + 3]);
    ColumnOfBytes(b[i + 4], b[i + 5], b[i + 6], b[i + 7]);
    ColumnOfBytes(b[i + 8], b[i + 9], b[i + 10], b[i + 11]);
    ColumnOfBytes(b[i + 12], b[i + 13], b[i + 14], b[i + 15]);
  }

  method PutUint32(n: bv32, b: array<bv8>, i: nat)
    requires i + 4 <= b.Length
    modifies b
    ensures b[i] == Byte0(n) && b[i + 1] == Byte1(n) && b[i + 2] == Byte2(n) && b[i + 3] == Byte3(n)
    ensures forall j :: 0 <= j < b.Length && !(i <= j < i + 4) ==> b[j] == old(b[j])
  {
    hide *;
    b[i] := Byte0(n);
    b[i + 1] := Byte1(n);
    b[i + 2] := Byte2(n);
    b[i + 3] := Byte3(n);
  }

  method PutBlock(x: Block, b: array<bv8>, i: nat)
    requires i + 16 <= b.Length
    modifies b
    ensures BlockAt(b[..], i) == StateOf(x)
    ensures forall j :: 0 <= j < b.Length && !(i <= j < i + 16) ==> b[j] == old(b[j])
  {
    hide Byte0, Byte1, Byte2, Byte3;
    PutUint32(x.x0, b, i);
    PutUint32(x.x1, b, i + 4);
    PutUint32(x.x2, b, i + 8);
    PutUint32(x.x3, b, i + 12);
  }

  /** The words of a key of nk words. */
  function KeyWords(key: seq<bv8>, nk: nat): (w: seq<Word>)
    requires 4 * nk <= |key|
    ensures |w| == nk
  {
    seq(nk, i requires 0 <= i < nk => Word(key[4 * i], key[4 * i + 1], key[4 * i + 2], key[4 * i + 3]))
  }

  lemma ScheduledPrefix(keys: seq<bv32>, key: seq<Word>, n: nat, m: nat)
    requires Scheduled(keys, key, n) && m <= n
    ensures Scheduled(keys, key, m)
  {
  }

  // A range of a buffer, from offset on, whose first i blocks have been processed.

  ghost predicate BlocksFrom(b: seq<bv8>, offset: nat, out: seq<State>, inp: seq<State>, i: nat) {
    && |out| == |inp| && offset + 16 * |inp| <= |b| && i <= |inp|
    && forall k :: 0 <= k < |inp| ==> BlockAt(b, offset + 16 * k) == if k < i then out[k] else inp[k]
  }

  lemma BlockOfSlice(b: seq<bv8>, offset: nat, length: nat, i: nat)
    requires i + 16 <= length && offset + length <= |b|
    ensures BlockAt(b[offset..offset + length], i) == BlockAt(b, offset + i)
  {
  }

  lemma StartBlocks(b: seq<bv8>, offset: nat, length: nat, out: seq<State>)
    requires offset + length <= |b| && length % 16 == 0 && |out| == length / 16
    ensures BlocksFrom(b, offset, out, Blocks(b[offset..offset + length]), 0)
  {
    hide BlockAt;
    var inp := Blocks(b[offset..offset + length]);
    forall k | 0 <= k < length / 16
      ensures BlockAt(b, offset + 16 * k) == inp[k]
    {
      BlockOfSlice(b, offset, length, 16 * k);
    }
  }

  lemma NextBlock(b: seq<bv8>, offset: nat, out: seq<State>, inp: seq<State>, i: nat)
    requires BlocksFrom(b, offset, out, inp, i) && i < |inp|
    ensures BlockAt(b, offset + 16 * i) == inp[i]
  {
  }

  lemma BlocksStep(before: seq<bv8>, after: seq<bv8>, offset: nat, out: seq<State>, inp: seq<State>, i: nat)
    requires BlocksFrom(before, offset, out, inp, i) && i < |inp| && |after| == |before|
    requires BlockAt(after, offset + 16 * i) == out[i]
    requires forall j :: 0 <= j < |before| && !(offset + 16 * i <= j < offset + 16 * i + 16) ==> after[j] == before[j]
    ensures BlocksFrom(after, offset, out, inp, i + 1)
  {
    forall k | 0 <= k < |inp| && k != i
      ensures BlockAt(after, offset + 16 * k) == BlockAt(before, offset + 16 * k)
    {
    }
  }

  lemma EndBlocks(b: seq<bv8>, offset: nat, length: nat, out: seq<State>, inp: seq<State>)
    requires offset + length <= |b| && length % 16 == 0 && |inp| == length / 16
    requires BlocksFrom(b, offset, out, inp, |inp|)
    ensures Blocks(b[offset..offset + length]) == out
  {
    hide BlockAt;
    forall k | 0 <= k < length / 16
      ensures Blocks(b[offset..offset + length])[k] == out[k]
    {
      BlockOfSlice(b, offset, length, 16 * k);
    }
  }

  /** The number of rounds the conditional rounds add up to; for a keyed context it is nr itself. */
  function RoundCount(nr: int): nat {
    if nr > 12 then 14 else if nr > 10 then 12 else 10
  }

  /** Round r of the block that started as s, with the four words of round key r. */
  method Fround(keys: seq<bv32>, r: nat, ghost s: State, y: Block) returns (x: Block)
    requires 0 < r && 4 * r + 4 <= |keys| && StateOf(y) == Rounds(Columns(keys), r - 1, s)
    ensures StateOf(x) == Rounds(Columns(keys), r, s)
  {
    hide *;
    ForwardStep(keys, r, s, y);
    x := ForwardRound(keys, 4 * r, y);
  }

  /** Round r of the block that started as s, with the four words of round key r. */
  method Rround(keys: seq<bv32>, r: nat, ghost s: State, y: Block) returns (x: Block)
    requires 0 < r && 4 * r + 4 <= |keys| && StateOf(y) == EqInvRounds(Columns(keys), r - 1, s)
    ensures StateOf(x) == EqInvRounds(Columns(keys), r, s)
  {
    hide *;
    ReverseStep(keys, r, s, y);
    x := ReverseRound(keys, 4 * r, y);
  }

  /** Which of the assignments for 256-bit keys is for which index. */
  lemma Indices256(i: nat)
    ensures (8 * i + 8) % 8 == 0 && (8 * i + 8) / 8 == i + 1 && (8 * i + 12) % 8 == 4
    ensures IsPlain(8, 8 * i + 9) && IsPlain(8, 8 * i + 10) && IsPlain(8, 8 * i + 11)
    ensures IsPlain(8, 8 * i + 13) && IsPlain(8, 8 * i + 14) && IsPlain(8, 8 * i + 15)
  {
  }

  class AesContext {
    var nr: int
    const erk: array<bv32>
    const drk: array<bv32>
    var mode: string

    ghost predicate Valid() {
      erk.Length == 64 && drk.Length == 64 && erk != drk
    }

    /** A fresh context; what it holds before a key is set is arbitrary. */
    constructor ()
      ensures Valid() && fresh(erk) && fresh(drk)
    {
      erk := new bv32[64];
      drk := new bv32[64];
      nr := *;
      mode := *;
    }

    // Key expansion.

    /** The context holds the two schedules expanded from a key of 4, 6 or 8 words. */
    ghost predicate Keyed(key: seq<Word>)
      reads this, erk, drk
    {
      && Valid()
      && (|key| == 4 || |key| == 6 || |key| == 8)
      && nr == |key| + 6
      && Scheduled(erk[..], key, 4 * nr + 4)
      && IsInverseSchedule(Columns(erk[..]), Columns(drk[..]), nr)
    }

    /** Expands a key of nbits bits; any other size is refused after the mode has been stored. */
    method SetKey(key: array<bv8>, nbits: int, newMode: string) returns (r: int)
      requires Valid()
      requires nbits == 128 || nbits == 192 || nbits == 256 ==> nbits / 8 <= key.Length
      modifies this, erk, drk
      ensures mode == if |newMode| > 15 then newMode[..15] else newMode
      ensures r == if nbits == 128 || nbits == 192 || nbits == 256 then 0 else 1
      ensures r == 0 ==> Keyed(KeyWords(key[..], nbits / 32))
      ensures r != 0 ==> nr == old(nr) && erk[..] == old(erk[..]) && drk[..] == old(drk[..])
    {
      hide Scheduled, IsInverseSchedule, Columns, ScheduleWord;
      mode := Stored(newMode);
      if nbits == 128 {
        nr := 10;
      } else if nbits == 192 {
        nr := 12;
      } else if nbits == 256 {
        nr := 14;
      } else {
        return 1;
      }
      var nk := nbits / 32;
      ghost var words := KeyWords(key[..], nk);
      LoadKey(key, nk);
      if nbits == 128 {
        Expand128(words);
      } else if nbits == 192 {
        Expand192(words);
      } else {
        Expand256(words);
      }
      ScheduledPrefix(erk[..], words, if nbits == 128 then 44 else if nbits == 192 then 54 else 64, 4 * nr + 4);
      BuildInverse();
      return 0;
    }

    /** GET_UINT32 of the key bytes into the first nk words. */
    method LoadKey(key: array<bv8>, nk: nat)
      requires Valid() && 0 < nk <= 8 && 4 * nk <= key.Length
      modifies erk
      ensures Scheduled(erk[..], KeyWords(key[..], nk), nk)
      ensures forall j :: nk <= j < 64 ==> erk[j] == old(erk[j])
    {
      hide Column, FromBytes;
      for i := 0 to nk
        invariant forall j :: 0 <= j < i ==> Column(erk[j]) == KeyWords(key[..], nk)[j]
        invariant forall j :: i <= j < 64 ==> erk[j] == old(erk[j])
      {
        erk[i] := GetUint32(key[..], i * 4);
        ColumnOfBytes(key[4 * i], key[4 * i + 1], key[4 * i + 2], key[4 * i + 3]);
      }
    }

    // The assignments of the expansion loops, to the word at n.

    method StoreRotSub(ghost key: seq<Word>, nk: nat, n: nat, i: nat)
      requires Valid() && |key| == nk && 0 < nk <= n < 64 && i < 10
      requires n % nk == 0 && n / nk == i + 1
      requires Scheduled(erk[..], key, n)
      modifies erk
      ensures Scheduled(erk[..], key, n + 1)
      ensures forall j :: 0 <= j < 64 && j != n ==> erk[j] == old(erk[j])
    {
      assert erk.Length == 64;
      hide Scheduled, RotSubStep;
      ghost var before := erk[..];
      erk[n] := RotSubStep(erk[n - nk], RCON[i], erk[n - 1]);
      assert erk[..] == before[n := RotSubStep(before[n - nk], RCON[i], before[n - 1])];
      ScheduleRotSub(before, key, n);
    }

    method StoreSub(ghost key: seq<Word>, nk: nat, n: nat)
      requires Valid() && |key| == nk && 6 < nk <= n < 64 && n % nk == 4
      requires Scheduled(erk[..], key, n)
      modifies erk
      ensures Scheduled(erk[..], key, n + 1)
      ensures forall j :: 0 <= j < 64 && j != n ==> erk[j] == old(erk[j])
    {
      assert erk.Length == 64;
      hide Scheduled, SubStep;
      ghost var before := erk[..];
      erk[n] := SubStep(erk[n - nk], erk[n - 1]);
      assert erk[..] == before[n := SubStep(before[n - nk], before[n - 1])];
      ScheduleSub(before, key, n);
    }

    method StorePlain(ghost key: seq<Word>, nk: nat, n: nat)
      requires Valid() && |key| == nk && 0 < nk <= n < 64 && IsPlain(nk, n)
      requires Scheduled(erk[..], key, n)
      modifies erk
      ensures Scheduled(erk[..], key, n + 1)
      ensures forall j :: 0 <= j < 64 && j != n ==> erk[j] == old(erk[j])
    {
      assert erk.Length == 64;
      hide Scheduled, Xor, IsPlain;
      ghost var before := erk[..];
      erk[n] := Xor(erk[n - nk], erk[n - 1]);
      assert erk[..] == before[n := Xor(before[n - nk], before[n - 1])];
      SchedulePlain(before, key, n);
    }

    method Expand128(ghost key: seq<Word>)
      requires Valid() && |key| == 4 && Scheduled(erk[..], key, 4)
      modifies erk
      ensures Scheduled(erk[..], key, 44)
      ensures forall j :: 44 <= j < 64 ==> erk[j] == old(erk[j])
    {
      assert erk.Length == 64;
      hide Scheduled;
      var rk := 0;
      for i := 0 to 10
        invariant rk == 4 * i
        invariant Scheduled(erk[..], key, rk + 4)
        invariant forall j :: 44 <= j < 64 ==> erk[j] == old(erk[j])
      {
        StoreRotSub(key, 4, rk + 4, i);
        StorePlain(key, 4, rk + 5);
        StorePlain(key, 4, rk + 6);
        StorePlain(key, 4, rk + 7);
        rk := rk + 4;
      }
    }

    method Expand192(ghost key: seq<Word>)
      requires Valid() && |key| == 6 && Scheduled(erk[..], key, 6)
      modifies erk
      ensures Scheduled(erk[..], key, 54)
      ensures forall j :: 54 <= j < 64 ==> erk[j] == old(erk[j])
    {
      assert erk.Length == 64;
      hide Scheduled;
      var rk := 0;
      for i := 0 to 8
        invariant rk == 6 * i
        invariant Scheduled(erk[..], key, rk + 6)
        invariant forall j :: 54 <= j < 64 ==> erk[j] == old(erk[j])
      {
        StoreRotSub(key, 6, rk + 6, i);
        StorePlain(key, 6, rk + 7);
        StorePlain(key, 6, rk + 8);
        StorePlain(key, 6, rk + 9);
        StorePlain(key, 6, rk + 10);
        StorePlain(key, 6, rk + 11);
        rk := rk + 6;
      }
    }

    method Expand256(ghost key: seq<Word>)
      requires Valid() && |key| == 8 && Scheduled(erk[..], key, 8)
      modifies erk
      ensures Scheduled(erk[..], key, 64)
    {
      assert erk.Length == 64;
      hide Scheduled, IsPlain;
      var rk := 0;
      for i := 0 to 7
        invariant rk == 8 * i
        invariant Scheduled(erk[..], key, rk + 8)
      {
        Indices256(i);
        StoreRotSub(key, 8, rk + 8, i);
        StorePlain(key, 8, rk + 9);
        StorePlain(key, 8, rk + 10);
        StorePlain(key, 8, rk + 11);
        StoreSub(key, 8, rk + 12);
        StorePlain(key, 8, rk + 13);
        StorePlain(key, 8, rk + 14);
        StorePlain(key, 8, rk + 15);
        rk := rk + 8;
      }
    }

    /** Writes the four words of round key r. */
    method PutInverseKey(r: nat, b: Block)
      requires Valid() && r < 16
      modifies drk
      ensures KeyBlock(drk[..], 4 * r) == b
      ensures forall q :: 0 <= q < 16 && q != r ==> KeyBlock(drk[..], 4 * q) == old(KeyBlock(drk[..], 4 * q))
    {
      drk[r * 4] := b.x0;
      drk[r * 4 + 1] := b.x1;
      drk[r * 4 + 2] := b.x2;
      drk[r * 4 + 3] := b.x3;
    }

    /** drk becomes erk with its rounds reversed. */
    method ReverseRoundKeys()
      requires Valid() && 0 < nr <= 14
      modifies drk
      ensures forall r :: 0 <= r <= nr ==> KeyBlock(drk[..], 4 * r) == KeyBlock(erk[..], 4 * (nr - r))
    {
      assert erk.Length == 64 && drk.Length == 64;
      hide KeyBlock;
      for i := 0 to nr + 1
        invariant forall r :: 0 <= r < i ==> KeyBlock(drk[..], 4 * r) == KeyBlock(erk[..], 4 * (nr - r))
      {
        PutInverseKey(i, KeyBlock(erk[..], 4 * (nr - i)));
      }
    }

    /** InvMixColumn on every round key but the outer two. */
    method MixInverseRoundKeys()
      requires Valid() && 0 < nr <= 14
      modifies drk
      ensures forall r :: 0 <= r <= nr ==>
                KeyBlock(drk[..], 4 * r) ==
                  var b := old(KeyBlock(drk[..], 4 * r));
                  if 0 < r < nr then InvMixBlock(b) else b
    {
      assert erk.Length == 64 && drk.Length == 64;
      hide KeyBlock, InvMixBlock;
      for i := 1 to nr
        invariant forall r :: 0 <= r <= nr ==>
                    KeyBlock(drk[..], 4 * r) ==
                      var b := old(KeyBlock(drk[..], 4 * r));
                      if 0 < r < i then InvMixBlock(b) else b
      {
        PutInverseKey(i, InvMixBlock(KeyBlock(drk[..], 4 * i)));
      }
    }

    /** The decryption schedule for the encryption schedule in erk. */
    method BuildInverse()
      requires Valid() && 0 < nr <= 14
      modifies drk
      ensures IsInverseSchedule(Columns(erk[..]), Columns(drk[..]), nr)
    {
      assert erk.Length == 64 && drk.Length == 64;
      hide KeyBlock, InvMixBlock, Columns, IsInverseSchedule;
      ReverseRoundKeys();
      MixInverseRoundKeys();
      InverseKeysMakeInverseSchedule(erk[..], drk[..], nr);
    }

    /** One block through the unrolled rounds: the cipher of FIPS-197 on the schedule in erk. */
    method EncryptWords(block: Block) returns (x: Block)
      requires Valid()
      ensures StateOf(x) == Cipher(Columns(erk[..]), RoundCount(nr), StateOf(block))
    {
      hide StateOf, Columns, XorBlock, KeyBlock, ForwardLastRound, Rounds, Cipher;
      var keys := erk[..];
      ghost var s := StateOf(block);
      ForwardStart(keys, block);
      x := XorBlock(block, KeyBlock(keys, 0));
      var y;
      y := Fround(keys, 1, s, x);
      x := Fround(keys, 2, s, y);
      y := Fround(keys, 3, s, x);
      x := Fround(keys, 4, s, y);
      y := Fround(keys, 5, s, x);
      x := Fround(keys, 6, s, y);
      y := Fround(keys, 7, s, x);
      x := Fround(keys, 8, s, y);
      y := Fround(keys, 9, s, x);
      if nr > 10 {
        x := Fround(keys, 10, s, y);
        y := Fround(keys, 11, s, x);
      }
      if nr > 12 {
        x := Fround(keys, 12, s, y);
        y := Fround(keys, 13, s, x);
      }
      ForwardEnd(keys, RoundCount(nr), s, y);
      x := ForwardLastRound(keys, 4 * RoundCount(nr), y);
    }

    /** One block through the unrolled rounds: the equivalent inverse cipher on the schedule in drk. */
    method DecryptWords(block: Block) returns (x: Block)
      requires Valid()
      ensures StateOf(x) == EqInvCipher(Columns(drk[..]), RoundCount(nr), StateOf(block))
    {
      hide StateOf, Columns, XorBlock, KeyBlock, ReverseLastRound, EqInvRounds, EqInvCipher;
      var keys := drk[..];
      ghost var s := StateOf(block);
      ReverseStart(keys, block);
      x := XorBlock(block, KeyBlock(keys, 0));
      var y;
      y := Rround(keys, 1, s, x);
      x := Rround(keys, 2, s, y);
      y := Rround(keys, 3, s, x);
      x := Rround(keys, 4, s, y);
      y := Rround(keys, 5, s, x);
      x := Rround(keys, 6, s, y);
      y := Rround(keys, 7, s, x);
      x := Rround(keys, 8, s, y);
      y := Rround(keys, 9, s, x);
      if nr > 10 {
        x := Rround(keys, 10, s, y);
        y := Rround(keys, 11, s, x);
      }
      if nr > 12 {
        x := Rround(keys, 12, s, y);
        y := Rround(keys, 13, s, x);
      }
      ReverseEnd(keys, RoundCount(nr), s, y);
      x := ReverseLastRound(keys, 4 * RoundCount(nr), y);
    }

    /**
     Encryption in place of `length` bytes of data from offset on, with the initial vector at ivAt.  The vector is read
     before the buffer is written, so it may be part of it.
     */
    method Encrypt(iv: array<bv8>, ivAt: nat, data: array<bv8>, offset: nat, length: nat)
      requires Valid() && ivAt + 16 <= iv.Length && offset + length <= data.Length
      modifies data
      ensures length % 16 != 0 ==> data[..] == old(data[..])
      ensures length % 16 == 0 ==>
                Blocks(data[offset..offset + length]) ==
                Encrypted(Columns(erk[..]), RoundCount(nr), IsCbc(mode), old(BlockAt(iv[..], ivAt)),
                          Blocks(old(data[offset..offset + length])))
      ensures forall j :: 0 <= j < data.Length && !(offset <= j < offset + length) ==> data[j] == old(data[j])
    {
      hide StateOf, Columns, GetBlock, XorBlock, BlockAt, Blocks, AddRoundKey, Cipher, EqInvCipher, InvCipher,
        IsInverseSchedule, Encrypted, BlocksFrom;
      if length % 16 != 0 {
        return;
      }
      ghost var w, n, cbc := Columns(erk[..]), RoundCount(nr), IsCbc(mode);
      ghost var inp := Blocks(data[offset..offset + length]);
      var v := GetBlock(iv[..], ivAt);
      GetBlockMeans(iv[..], ivAt);
      ghost var v0 := StateOf(v);
      ghost var out := Encrypted(w, n, cbc, v0, inp);
      StartBlocks(data[..], offset, length, out);
      for i := 0 to length / 16
        invariant BlocksFrom(data[..], offset, out, inp, i)
        invariant StateOf(v) == if i == 0 then v0 else out[i - 1]
        invariant forall j :: 0 <= j < data.Length && !(offset <= j < offset + length) ==> data[j] == old(data[j])
      {
        ghost var before := data[..];
        var at := offset + 16 * i;
        var x := GetBlock(data[..], at);
        GetBlockMeans(data[..], at);
        NextBlock(data[..], offset, out, inp, i);
        if IsCbc(mode) {
          StateOfXor(x, v);
          x := XorBlock(x, v);
        }
        x := EncryptWords(x);
        EncryptedBlock(w, n, cbc, v0, inp, i);
        PutBlock(x, data, at);
        v := x;
        BlocksStep(before, data[..], offset, out, inp, i);
      }
      EndBlocks(data[..], offset, length, out, inp);
    }

    /**
     Decryption in place of `length` bytes of data from offset on, with the initial vector at ivAt.  The vector is read
     before the buffer is written, so it may be part of it.
     */
    method Decrypt(iv: array<bv8>, ivAt: nat, data: array<bv8>, offset: nat, length: nat)
      requires Valid() && ivAt + 16 <= iv.Length && offset + length <= data.Length
      requires IsInverseSchedule(Columns(erk[..]), Columns(drk[..]), RoundCount(nr))
      modifies data
      ensures length % 16 != 0 ==> data[..] == old(data[..])
      ensures length % 16 == 0 ==>
                Blocks(data[offset..offset + length]) ==
                Decrypted(Columns(erk[..]), RoundCount(nr), IsCbc(mode), old(BlockAt(iv[..], ivAt)),
                          Blocks(old(data[offset..offset + length])))
      ensures forall j :: 0 <= j < data.Length && !(offset <= j < offset + length) ==> data[j] == old(data[j])
    {
      hide StateOf, Columns, GetBlock, XorBlock, BlockAt, Blocks, AddRoundKey, Cipher, EqInvCipher, InvCipher,
        IsInverseSchedule, Decrypted, BlocksFrom;
      if length % 16 != 0 {
        return;
      }
      ghost var w, n, cbc := Columns(erk[..]), RoundCount(nr), IsCbc(mode);
      ghost var inp := Blocks(data[offset..offset + length]);
      var v := GetBlock(iv[..], ivAt);
      GetBlockMeans(iv[..], ivAt);
      ghost var v0 := StateOf(v);
      ghost var out := Decrypted(w, n, cbc, v0, inp);
      StartBlocks(data[..], offset, length, out);
      for i := 0 to length / 16
        invariant BlocksFrom(data[..], offset, out, inp, i)
        invariant StateOf(v) == if i == 0 then v0 else inp[i - 1]
        invariant forall j :: 0 <= j < data.Length && !(offset <= j < offset + length) ==> data[j] == old(data[j])
      {
        ghost var before := data[..];
        var at := offset + 16 * i;
        var z := GetBlock(data[..], at);
        GetBlockMeans(data[..], at);
        NextBlock(data[..], offset, out, inp, i);
        var x := DecryptWords(z);
        EquivalentInverse(w, Columns(drk[..]), n, StateOf(z));
        if IsCbc(mode) {
          StateOfXor(x, v);
          x := XorBlock(x, v);
        }
        DecryptedBlock(w, n, cbc, v0, inp, i);
        PutBlock(x, data, at);
        v := z;
        BlocksStep(before, data[..], offset, out, inp, i);
      }
      EndBlocks(data[..], offset, length, out, inp);
    }
  }

  /** The schedule of FIPS-197 for a key: nr + 1 round keys, nr being the number of key words plus 6. */
  function Schedule(key: seq<Word>): (w: seq<Word>)
    requires |key| > 0
    ensures |w| == 4 * (|key| + 6) + 4
  {
    seq(4 * (|key| + 6) + 4, i requires 0 <= i => ScheduleWord(key, i))
  }

  lemma ScheduledIsSchedule(keys: seq<bv32>, key: seq<Word>, n: nat)
    requires Scheduled(keys, key, n) && n == 4 * (|key| + 6) + 4
    ensures Columns(keys)[..n] == Schedule(key)[..n]
  {
  }

  method CopyData(src: array<bv8>, dst: array<bv8>, length: nat)
    requires src != dst && length <= src.Length && length <= dst.Length
    modifies dst
    ensures dst[..length] == src[..length]
  {
    for i := 0 to length
      invariant dst[..i] == src[..i]
    {
      dst[i] := src[i];
    }
  }

  /**
   One round of the demonstration program: set a key, encrypt a copy of the data, decrypt it again
   and compare.  The comparison never fails, and in between the buffer holds the ciphertext that
   FIPS-197 and the mode prescribe.
   */
  method DemoRound(ctx: AesContext, key: array<bv8>, nbits: int, mode: string, iv: array<bv8>,
                   plain: array<bv8>, buffer: array<bv8>, length: nat)
    returns (keySet: bool, same: bool, ghost middle: seq<bv8>)
    requires ctx.Valid() && 16 <= iv.Length && length <= plain.Length && length <= buffer.Length
    requires nbits == 128 || nbits == 192 || nbits == 256 ==> nbits / 8 <= key.Length
    requires buffer != plain && buffer != iv && buffer != key
    modifies ctx, ctx.erk, ctx.drk, buffer
    ensures keySet <==> nbits == 128 || nbits == 192 || nbits == 256
    ensures keySet ==> same && buffer[..length] == plain[..length]
    ensures keySet && length % 16 == 0 ==>
              && |middle| == length
              && Blocks(middle) == Encrypted(Schedule(KeyWords(key[..], nbits / 32)), nbits / 32 + 6, IsCbc(mode),
                                             BlockAt(iv[..], 0), Blocks(plain[..length]))
  {
    hide Scheduled, IsInverseSchedule, Columns, Encrypted, Decrypted, BlockAt, Blocks, Schedule, KeyWords;
    same, middle := false, [];
    var r := ctx.SetKey(key, nbits, mode);
    keySet := r == 0;
    if keySet {
      ghost var ek, dk := ctx.erk[..], ctx.drk[..];
      CopyData(plain, buffer, length);
      ghost var w, n, v := Columns(ek), ctx.nr, BlockAt(iv[..], 0);
      assert ctx.erk[..] == ek && ctx.drk[..] == dk;
      ghost var words := KeyWords(key[..], nbits / 32);
      assert IsCbc(ctx.mode) == IsCbc(mode);
      ctx.Encrypt(iv, 0, buffer, 0, length);
      middle := buffer[..length];
      assert ctx.erk[..] == ek && ctx.drk[..] == dk;
      ctx.Decrypt(iv, 0, buffer, 0, length);
      if length % 16 == 0 {
        DecryptedEncrypted(w, n, IsCbc(mode), v, Blocks(plain[..length]));
        BlocksDetermineBytes(buffer[..length], plain[..length]);
        ScheduledIsSchedule(ek, words, 4 * n + 4);
        EncryptedUsesPrefix(w, Schedule(words), n, IsCbc(mode), v, Blocks(plain[..length]));
      }
      same := buffer[..length] == plain[..length];
    }
  }
}
