/**
 Several calls of the AES routines on the same context: encrypting what was decrypted, and processing a buffer in
 two pieces.  All results are about bytes, over the in-place loops.
 */
module AesCalls {
  import opened Fips197
  import opened AesRounds
  import opened AesModes
  import opened AesSchedule
  import opened AesContext

  /** Decrypting a range of a buffer and encrypting it again with the same context and vector restores the buffer. */
  method DecryptThenEncrypt(ctx: AesContext, ghost key: seq<Word>, iv: array<bv8>, ivAt: nat,
                            data: array<bv8>, offset: nat, length: nat)
    requires ctx.Keyed(key) && ivAt + 16 <= iv.Length && offset + length <= data.Length && iv != data
    modifies data
    ensures data[..] == old(data[..])
  {
    hide *;
    ghost var w, n, cbc, v := Columns(ctx.erk[..]), RoundCount(ctx.nr), IsCbc(ctx.mode), BlockAt(iv[..], ivAt);
    ghost var before := data[..];
    KeyedMeans(ctx, key);
    ctx.Decrypt(iv, ivAt, data, offset, length);
    KeyedMeans(ctx, key);
    ctx.Encrypt(iv, ivAt, data, offset, length);
    ghost var range := before[offset..offset + length];
    if length % 16 == 0 {
      EncryptedDecrypted(w, n, cbc, v, Blocks(range));
      BlocksDetermineBytes(data[offset..offset + length], range);
    }
    SameParts(data[..], before, offset, offset + length);
  }

  // From the key and the name of the mode.

  /** The mode starts with one of the eight ways to write "cbc". */
  predicate NamesCbc(mode: string) {
    |mode| >= 3 && mode[..3] in ["cbc", "cbC", "cBc", "cBC", "Cbc", "CbC", "CBc", "CBC"]
  }

  /** Block k is the cipher of block k, in a chain combined with block k - 1 of the output before. */
  ghost predicate EncryptedAs(chain: bool, w: seq<Word>, nr: nat, v: State, p: seq<State>, c: seq<State>)
    requires 0 < nr && 4 * nr + 4 <= |w|
  {
    && |c| == |p|
    && (!chain ==> forall k :: 0 <= k < |p| ==> c[k] == Cipher(w, nr, p[k]))
    && (chain ==> forall k :: 0 <= k < |p| ==> c[k] == Cipher(w, nr, AddRoundKey(p[k], Previous(v, c, k))))
  }

  /** Block k is the inverse cipher of block k, in a chain combined with block k - 1 of the input. */
  ghost predicate DecryptedAs(chain: bool, w: seq<Word>, nr: nat, v: State, c: seq<State>, p: seq<State>)
    requires 0 < nr && 4 * nr + 4 <= |w|
  {
    && |p| == |c|
    && (!chain ==> forall k :: 0 <= k < |c| ==> p[k] == InvCipher(w, nr, c[k]))
    && (chain ==> forall k :: 0 <= k < |c| ==> p[k] == AddRoundKey(InvCipher(w, nr, c[k]), Previous(v, c, k)))
  }

  function Previous(v: State, c: seq<State>, k: nat): State
    requires k <= |c|
  {
    if k == 0 then v else c[k - 1]
  }

  lemma EncryptedBlocks(cbc: bool, w: seq<Word>, nr: nat, v: State, p: seq<State>)
    requires 0 < nr && 4 * nr + 4 <= |w|
    ensures EncryptedAs(cbc, w, nr, v, p, Encrypted(w, nr, cbc, v, p))
  {
    hide Cipher, AddRoundKey, Encrypted;
    var c := Encrypted(w, nr, cbc, v, p);
    forall k | 0 <= k < |p|
      ensures c[k] == Cipher(w, nr, Chained(cbc, p[k], Previous(v, c, k)))
    {
      EncryptedBlock(w, nr, cbc, v, p, k);
    }
  }

  lemma DecryptedBlocks(cbc: bool, w: seq<Word>, nr: nat, v: State, c: seq<State>)
    requires 0 < nr && 4 * nr + 4 <= |w|
    ensures DecryptedAs(cbc, w, nr, v, c, Decrypted(w, nr, cbc, v, c))
  {
    hide InvCipher, AddRoundKey, Decrypted;
    var p := Decrypted(w, nr, cbc, v, c);
    forall k | 0 <= k < |c|
      ensures p[k] == Chained(cbc, InvCipher(w, nr, c[k]), Previous(v, c, k))
    {
      DecryptedBlock(w, nr, cbc, v, c, k);
    }
  }

  /** The context after a key has been set: the schedule of the standard and the name of the mode. */
  method SetKeyAs(ctx: AesContext, key: array<bv8>, nbits: int, mode: string) returns (r: int)
    requires ctx.Valid()
    requires nbits == 128 || nbits == 192 || nbits == 256 ==> nbits / 8 <= key.Length
    modifies ctx, ctx.erk, ctx.drk
    ensures r == 0 <==> nbits == 128 || nbits == 192 || nbits == 256
    ensures r == 0 ==> ctx.Keyed(KeyWords(key[..], nbits / 32)) && IsCbc(ctx.mode) == NamesCbc(mode)
  {
    ChainsExactly(mode);
    r := ctx.SetKey(key, nbits, mode);
    hide AesContext.Keyed, KeyWords;
  }

  lemma KeyedSchedule(ctx: AesContext, key: seq<Word>, cbc: bool, v: State, s: seq<State>)
    requires ctx.Keyed(key)
    ensures RoundCount(ctx.nr) == |key| + 6 > 0 && 4 * (|key| + 6) + 4 == |Schedule(key)| <= |Columns(ctx.erk[..])|
    ensures Encrypted(Columns(ctx.erk[..]), |key| + 6, cbc, v, s) == Encrypted(Schedule(key), |key| + 6, cbc, v, s)
    ensures Decrypted(Columns(ctx.erk[..]), |key| + 6, cbc, v, s) == Decrypted(Schedule(key), |key| + 6, cbc, v, s)
  {
    hide IsInverseSchedule, Schedule, Encrypted, Decrypted, Scheduled;
    var w, n := Columns(ctx.erk[..]), |key| + 6;
    ScheduledIsSchedule(ctx.erk[..], key, 4 * n + 4);
    assert Schedule(key)[..4 * n + 4] == Schedule(key);
    EncryptedUsesPrefix(w, Schedule(key), n, cbc, v, s);
    DecryptedUsesPrefix(w, Schedule(key), n, cbc, v, s);
  }

  /**
   Setting a key and encrypting a range: every block as the standard has it, with the schedule of the key and 10, 12 or
   14 rounds, chained exactly when the mode starts with "cbc".
   */
  method EncryptWithKey(ctx: AesContext, key: array<bv8>, nbits: int, mode: string, iv: array<bv8>, ivAt: nat,
                        data: array<bv8>, offset: nat, length: nat)
    returns (r: int)
    requires ctx.Valid() && ivAt + 16 <= iv.Length && offset + length <= data.Length && length % 16 == 0
    requires nbits == 128 || nbits == 192 || nbits == 256 ==> nbits / 8 <= key.Length
    modifies ctx, ctx.erk, ctx.drk, data
    ensures r == 0 <==> nbits == 128 || nbits == 192 || nbits == 256
    ensures r == 0 ==>
              EncryptedAs(NamesCbc(mode), Schedule(KeyWords(old(key[..]), nbits / 32)), nbits / 32 + 6,
                          BlockAt(old(iv[..]), ivAt), Blocks(old(data[offset..offset + length])),
                          Blocks(data[offset..offset + length]))
    ensures r != 0 ==> data[..] == old(data[..])
    ensures forall j :: 0 <= j < data.Length && !(offset <= j < offset + length) ==> data[j] == old(data[j])
  {
    hide *;
    r := SetKeyAs(ctx, key, nbits, mode);
    if r == 0 {
      ghost var words := KeyWords(key[..], nbits / 32);
      ghost var v, p := BlockAt(iv[..], ivAt), Blocks(data[offset..offset + length]);
      KeyedMeans(ctx, words);
      KeyedSchedule(ctx, words, NamesCbc(mode), v, p);
      ctx.Encrypt(iv, ivAt, data, offset, length);
      EncryptedBlocks(NamesCbc(mode), Schedule(words), nbits / 32 + 6, v, p);
    }
  }

  /** The same for decryption, by the inverse cipher on the same schedule. */
  method DecryptWithKey(ctx: AesContext, key: array<bv8>, nbits: int, mode: string, iv: array<bv8>, ivAt: nat,
                        data: array<bv8>, offset: nat, length: nat)
    returns (r: int)
    requires ctx.Valid() && ivAt + 16 <= iv.Length && offset + length <= data.Length && length % 16 == 0
    requires nbits == 128 || nbits == 192 || nbits == 256 ==> nbits / 8 <= key.Length
    modifies ctx, ctx.erk, ctx.drk, data
    ensures r == 0 <==> nbits == 128 || nbits == 192 || nbits == 256
    ensures r == 0 ==>
              DecryptedAs(NamesCbc(mode), Schedule(KeyWords(old(key[..]), nbits / 32)), nbits / 32 + 6,
                          BlockAt(old(iv[..]), ivAt), Blocks(old(data[offset..offset + length])),
                          Blocks(data[offset..offset + length]))
    ensures r != 0 ==> data[..] == old(data[..])
    ensures forall j :: 0 <= j < data.Length && !(offset <= j < offset + length) ==> data[j] == old(data[j])
  {
    hide *;
    r := SetKeyAs(ctx, key, nbits, mode);
    if r == 0 {
      ghost var words := KeyWords(key[..], nbits / 32);
      ghost var v, c := BlockAt(iv[..], ivAt), Blocks(data[offset..offset + length]);
      KeyedMeans(ctx, words);
      KeyedSchedule(ctx, words, NamesCbc(mode), v, c);
      ctx.Decrypt(iv, ivAt, data, offset, length);
      DecryptedBlocks(NamesCbc(mode), Schedule(words), nbits / 32 + 6, v, c);
    }
  }

  lemma SameParts(a: seq<bv8>, b: seq<bv8>, i: nat, j: nat)
    requires |a| == |b| && i <= j <= |a| && a[i..j] == b[i..j]
    requires forall k :: 0 <= k < |a| && !(i <= k < j) ==> a[k] == b[k]
    ensures a == b
  {
    forall k | 0 <= k < |a|
      ensures a[k] == b[k]
    {
      if i <= k < j {
        assert a[i..j][k - i] == b[i..j][k - i];
      }
    }
  }

  lemma KeyedMeans(ctx: AesContext, key: seq<Word>)
    requires ctx.Keyed(key)
    ensures ctx.Valid() && RoundCount(ctx.nr) > 0
    ensures |Columns(ctx.erk[..])| == 64 && 4 * RoundCount(ctx.nr) + 4 <= 64
    ensures IsInverseSchedule(Columns(ctx.erk[..]), Columns(ctx.drk[..]), RoundCount(ctx.nr))
  {
    hide IsInverseSchedule;
  }

  // Two ranges of one buffer.

  lemma BlocksJoin(a: seq<bv8>, b: seq<bv8>)
    requires |a| % 16 == 0 && |b| % 16 == 0
    ensures Blocks(a + b) == Blocks(a) + Blocks(b)
  {
    var n := |a| / 16;
    assert |a + b| / 16 == n + |b| / 16;
    forall k | 0 <= k < n + |b| / 16
      ensures Blocks(a + b)[k] == (Blocks(a) + Blocks(b))[k]
    {
      if k < n {
        BlockOfJoin(a, b, 16 * k);
      } else {
        BlockOfJoin(a, b, 16 * (k - n));
      }
    }
  }

  lemma BlockOfJoin(a: seq<bv8>, b: seq<bv8>, i: nat)
    ensures i + 16 <= |a| ==> BlockAt(a + b, i) == BlockAt(a, i)
    ensures i + 16 <= |b| ==> BlockAt(a + b, |a| + i) == BlockAt(b, i)
  {
  }

  lemma JoinRanges(b: seq<bv8>, i: nat, j: nat, k: nat)
    requires i <= j <= k <= |b| && (j - i) % 16 == 0 && (k - j) % 16 == 0
    ensures Blocks(b[i..k]) == Blocks(b[i..j]) + Blocks(b[j..k])
  {
    BlocksJoin(b[i..j], b[j..k]);
    assert b[i..k] == b[i..j] + b[j..k];
  }

  lemma LastBlockOfRange(b: seq<bv8>, i: nat, j: nat, v: State)
    requires i < j <= |b| && (j - i) % 16 == 0
    ensures ChainAfter(v, Blocks(b[i..j])) == BlockAt(b, j - 16)
  {
    BlockOfSlice(b, i, j - i, j - i - 16);
    assert 16 * ((j - i) / 16 - 1) == j - i - 16;
  }

  lemma SameRange(a: seq<bv8>, b: seq<bv8>, i: nat, j: nat)
    requires |a| == |b| && i <= j <= |a| && forall k :: i <= k < j ==> a[k] == b[k]
    ensures a[i..j] == b[i..j]
  {
  }

  /** The second of the two calls: its vector is the last block of the range before, or the old one if that is empty. */
  method EncryptNext(ctx: AesContext, ghost key: seq<Word>, iv: array<bv8>, ivAt: nat,
                     data: array<bv8>, offset: nat, first: nat, second: nat)
    requires ctx.Keyed(key) && ivAt + 16 <= iv.Length && iv != data
    requires first % 16 == 0 && second % 16 == 0 && offset + first + second <= data.Length
    modifies data
    ensures 4 * RoundCount(ctx.nr) + 4 <= |Columns(ctx.erk[..])|
    ensures Blocks(data[offset + first..offset + first + second]) ==
            Encrypted(Columns(ctx.erk[..]), RoundCount(ctx.nr), IsCbc(ctx.mode),
                      ChainAfter(BlockAt(iv[..], ivAt), Blocks(old(data[offset..offset + first]))),
                      Blocks(old(data[offset + first..offset + first + second])))
    ensures forall j :: 0 <= j < data.Length && !(offset + first <= j < offset + first + second) ==>
              data[j] == old(data[j])
  {
    hide *;
    KeyedMeans(ctx, key);
    ghost var v, middle := BlockAt(iv[..], ivAt), offset + first;
    assert data[offset..middle] == data[..][offset..middle];
    if first == 0 {
      NoBlocks(v);
      assert data[offset..middle] == [];
      ctx.Encrypt(iv, ivAt, data, offset + first, second);
    } else {
      LastBlockOfRange(data[..], offset, middle, v);
      ctx.Encrypt(data, offset + first - 16, data, offset + first, second);
    }
  }

  /**
   Encrypting a range and then the one behind it, with the last block of the first as its vector, read where it
   stands in the buffer, is encrypting both in one call.
   */
  method EncryptInTwoCalls(ctx: AesContext, ghost key: seq<Word>, iv: array<bv8>, ivAt: nat,
                           data: array<bv8>, offset: nat, first: nat, second: nat)
    requires ctx.Keyed(key) && ivAt + 16 <= iv.Length && iv != data
    requires first % 16 == 0 && second % 16 == 0 && offset + first + second <= data.Length
    modifies data
    ensures 4 * RoundCount(ctx.nr) + 4 <= |Columns(ctx.erk[..])|
    ensures Blocks(data[offset..offset + first + second]) ==
            Encrypted(Columns(ctx.erk[..]), RoundCount(ctx.nr), IsCbc(ctx.mode), BlockAt(iv[..], ivAt),
                      Blocks(old(data[offset..offset + first + second])))
    ensures forall j :: 0 <= j < data.Length && !(offset <= j < offset + first + second) ==> data[j] == old(data[j])
  {
    hide *;
    ghost var w, n, cbc, v := Columns(ctx.erk[..]), RoundCount(ctx.nr), IsCbc(ctx.mode), BlockAt(iv[..], ivAt);
    ghost var b0, middle, end := data[..], offset + first, offset + first + second;
    KeyedMeans(ctx, key);
    JoinRanges(b0, offset, middle, end);
    EncryptedComposes(w, n, cbc, v, Blocks(b0[offset..middle]), Blocks(b0[middle..end]));
    ctx.Encrypt(iv, ivAt, data, offset, first);
    ghost var b1 := data[..];
    SameRange(b1, b0, middle, end);
    EncryptNext(ctx, key, iv, ivAt, data, offset, first, second);
    ghost var b2 := data[..];
    SameRange(b2, b1, offset, middle);
    JoinRanges(b2, offset, middle, end);
  }

  lemma NoBlocks(v: State)
    ensures Blocks([]) == [] && ChainAfter(v, []) == v
  {
  }

  /**
   The same for decryption, where the last block of the first range is saved before it is overwritten.
   */
  method DecryptInTwoCalls(ctx: AesContext, ghost key: seq<Word>, iv: array<bv8>, ivAt: nat,
                           data: array<bv8>, offset: nat, first: nat, second: nat)
    requires ctx.Keyed(key) && ivAt + 16 <= iv.Length && iv != data
    requires first % 16 == 0 && second % 16 == 0 && offset + first + second <= data.Length
    modifies data
    ensures 4 * RoundCount(ctx.nr) + 4 <= |Columns(ctx.erk[..])|
    ensures Blocks(data[offset..offset + first + second]) ==
            Decrypted(Columns(ctx.erk[..]), RoundCount(ctx.nr), IsCbc(ctx.mode), BlockAt(iv[..], ivAt),
                      Blocks(old(data[offset..offset + first + second])))
    ensures forall j :: 0 <= j < data.Length && !(offset <= j < offset + first + second) ==> data[j] == old(data[j])
  {
    hide *;
    ghost var w, n, cbc, v := Columns(ctx.erk[..]), RoundCount(ctx.nr), IsCbc(ctx.mode), BlockAt(iv[..], ivAt);
    ghost var b0, middle, end := data[..], offset + first, offset + first + second;
    KeyedMeans(ctx, key);
    JoinRanges(b0, offset, middle, end);
    DecryptedComposes(w, n, cbc, v, Blocks(b0[offset..middle]), Blocks(b0[middle..end]));
    var next := NextVector(iv, ivAt, data, offset, first);
    ctx.Decrypt(iv, ivAt, data, offset, first);
    ghost var b1 := data[..];
    SameRange(b1, b0, middle, end);
    KeyedMeans(ctx, key);
    ctx.Decrypt(next, 0, data, offset + first, second);
    ghost var b2 := data[..];
    SameRange(b2, b1, offset, middle);
    JoinRanges(b2, offset, middle, end);
  }

  /** A copy of sixteen bytes. */
  method CopyBlock(src: array<bv8>, start: nat) returns (copy: array<bv8>)
    requires start + 16 <= src.Length
    ensures fresh(copy) && copy.Length == 16 && BlockAt(copy[..], 0) == BlockAt(src[..], start)
  {
    copy := new bv8[16];
    for i := 0 to 16
      invariant forall j :: 0 <= j < i ==> copy[j] == src[start + j]
    {
      copy[i] := src[start + i];
    }
    SameBlock(copy[..], src[..], start);
  }

  /** A copy of the vector for what follows a range of ciphertext: its last block, or the old vector if it is empty. */
  method NextVector(iv: array<bv8>, ivAt: nat, data: array<bv8>, offset: nat, length: nat) returns (next: array<bv8>)
    requires ivAt + 16 <= iv.Length && length % 16 == 0 && offset + length <= data.Length
    ensures fresh(next) && next.Length == 16
    ensures BlockAt(next[..], 0) == ChainAfter(BlockAt(iv[..], ivAt), Blocks(data[offset..offset + length]))
  {
    hide *;
    if length == 0 {
      NoBlocks(BlockAt(iv[..], ivAt));
      assert data[offset..offset + length] == [];
      next := CopyBlock(iv, ivAt);
    } else {
      LastBlockOfRange(data[..], offset, offset + length, BlockAt(iv[..], ivAt));
      assert data[offset..offset + length] == data[..][offset..offset + length];
      next := CopyBlock(data, offset + length - 16);
    }
  }

  lemma SameBlock(x: seq<bv8>, y: seq<bv8>, start: nat)
    requires |x| == 16 && start + 16 <= |y| && forall j :: 0 <= j < 16 ==> x[j] == y[start + j]
    ensures BlockAt(x, 0) == BlockAt(y, start)
  {
  }
}
