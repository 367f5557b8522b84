/**
 ECB and CBC (NIST SP 800-38A, sections 6.1 and 6.2) over sequences of blocks, on top of the
 byte-level cipher, and the blocks of a byte string.
 */
module AesModes {
  import opened Fips197
  import opened CipherInverse

  /** In CBC a block is combined with the chaining block; in ECB it is left alone. */
  function Chained(cbc: bool, s: State, v: State): State {
    if cbc then AddRoundKey(s, v) else s
  }

  /** Encryption of the blocks p, starting from chaining block v. */
  function Encrypted(w: seq<Word>, nr: nat, cbc: bool, v: State, p: seq<State>): (c: seq<State>)
    requires 0 < nr && 4 * nr + 4 <= |w|
    ensures |c| == |p|
    decreases |p|
  {
    if p == [] then []
    else
      var x := Cipher(w, nr, Chained(cbc, p[0], v));
      [x] + Encrypted(w, nr, cbc, x, p[1..])
  }

  /** Decryption of the blocks c, starting from chaining block v. */
  function Decrypted(w: seq<Word>, nr: nat, cbc: bool, v: State, c: seq<State>): (p: seq<State>)
    requires 0 < nr && 4 * nr + 4 <= |w|
    ensures |p| == |c|
    decreases |c|
  {
    if c == [] then []
    else [Chained(cbc, InvCipher(w, nr, c[0]), v)] + Decrypted(w, nr, cbc, c[0], c[1..])
  }

  /** The chaining block after the ciphertext c: its last block, or v if there is none. */
  function ChainAfter(v: State, c: seq<State>): State {
    if c == [] then v else c[|c| - 1]
  }

  lemma ChainedCancels(cbc: bool, s: State, v: State)
    ensures Chained(cbc, Chained(cbc, s, v), v) == s
  {
    hide AddRoundKey;
    AddRoundKeyCancels(s, v);
  }

  /** Decryption undoes encryption, whatever the mode, the chaining block and the blocks. */
  lemma {:induction false} DecryptedEncrypted(w: seq<Word>, nr: nat, cbc: bool, v: State, p: seq<State>)
    requires 0 < nr && 4 * nr + 4 <= |w|
    ensures Decrypted(w, nr, cbc, v, Encrypted(w, nr, cbc, v, p)) == p
    decreases |p|
  {
    hide Cipher, InvCipher, Chained;
    if p != [] {
      var s := Chained(cbc, p[0], v);
      var x := Cipher(w, nr, s);
      CipherInverts(w, nr, s);
      ChainedCancels(cbc, p[0], v);
      DecryptedEncrypted(w, nr, cbc, x, p[1..]);
    }
  }

  /** Encryption undoes decryption. */
  lemma {:induction false} EncryptedDecrypted(w: seq<Word>, nr: nat, cbc: bool, v: State, c: seq<State>)
    requires 0 < nr && 4 * nr + 4 <= |w|
    ensures Encrypted(w, nr, cbc, v, Decrypted(w, nr, cbc, v, c)) == c
    decreases |c|
  {
    hide Cipher, InvCipher, Chained;
    if c != [] {
      CipherInverts(w, nr, c[0]);
      ChainedCancels(cbc, InvCipher(w, nr, c[0]), v);
      EncryptedDecrypted(w, nr, cbc, c[0], c[1..]);
    }
  }

  // Block by block.

  /** Ciphertext block k is the cipher of plaintext block k, chained with ciphertext block k - 1. */
  lemma {:induction false} EncryptedBlock(w: seq<Word>, nr: nat, cbc: bool, v: State, p: seq<State>, k: nat)
    requires 0 < nr && 4 * nr + 4 <= |w| && k < |p|
    ensures var c := Encrypted(w, nr, cbc, v, p);
            c[k] == Cipher(w, nr, Chained(cbc, p[k], if k == 0 then v else c[k - 1]))
    decreases k
  {
    hide Cipher, Chained;
    if k > 0 {
      EncryptedBlock(w, nr, cbc, Cipher(w, nr, Chained(cbc, p[0], v)), p[1..], k - 1);
    }
  }

  /** Plaintext block k needs only ciphertext blocks k and k - 1. */
  lemma {:induction false} DecryptedBlock(w: seq<Word>, nr: nat, cbc: bool, v: State, c: seq<State>, k: nat)
    requires 0 < nr && 4 * nr + 4 <= |w| && k < |c|
    ensures Decrypted(w, nr, cbc, v, c)[k] ==
            Chained(cbc, InvCipher(w, nr, c[k]), if k == 0 then v else c[k - 1])
    decreases k
  {
    hide InvCipher, Chained;
    if k > 0 {
      DecryptedBlock(w, nr, cbc, c[0], c[1..], k - 1);
    }
  }

  /**
   A change of ciphertext block k stays confined: every plaintext block other than k and, in CBC,
   k + 1 is the same, and block k + 1 changes by exactly the change of ciphertext block k.
   */
  lemma DecryptionIsLocal(w: seq<Word>, nr: nat, cbc: bool, v: State, c: seq<State>, k: nat, z: State, j: nat)
    requires 0 < nr && 4 * nr + 4 <= |w| && k < |c| && j < |c|
    ensures var p, p' := Decrypted(w, nr, cbc, v, c), Decrypted(w, nr, cbc, v, c[k := z]);
            && (j != k && (j != k + 1 || !cbc) ==> p'[j] == p[j])
            && (j == k + 1 && cbc ==> p'[j] == AddRoundKey(AddRoundKey(p[j], c[k]), z))
  {
    hide InvCipher, AddRoundKey, Decrypted;
    DecryptedBlock(w, nr, cbc, v, c, j);
    DecryptedBlock(w, nr, cbc, v, c[k := z], j);
    if j == k + 1 {
      AddRoundKeyCancels(InvCipher(w, nr, c[j]), c[k]);
    }
  }

  // Composition.

  /** Encrypting in two pieces: the second piece starts from the last ciphertext block of the first. */
  lemma {:induction false} EncryptedComposes(w: seq<Word>, nr: nat, cbc: bool, v: State, a: seq<State>, b: seq<State>)
    requires 0 < nr && 4 * nr + 4 <= |w|
    ensures var ca := Encrypted(w, nr, cbc, v, a);
            Encrypted(w, nr, cbc, v, a + b) == ca + Encrypted(w, nr, cbc, ChainAfter(v, ca), b)
    decreases |a|
  {
    hide Cipher, Chained;
    if a == [] {
      assert a + b == b;
    } else {
      assert (a + b)[1..] == a[1..] + b;
      EncryptedComposes(w, nr, cbc, Cipher(w, nr, Chained(cbc, a[0], v)), a[1..], b);
    }
  }

  /** Decrypting in two pieces: the second piece starts from the last ciphertext block of the first. */
  lemma {:induction false} DecryptedComposes(w: seq<Word>, nr: nat, cbc: bool, v: State, a: seq<State>, b: seq<State>)
    requires 0 < nr && 4 * nr + 4 <= |w|
    ensures Decrypted(w, nr, cbc, v, a + b) ==
            Decrypted(w, nr, cbc, v, a) + Decrypted(w, nr, cbc, ChainAfter(v, a), b)
    decreases |a|
  {
    hide InvCipher, Chained;
    if a == [] {
      assert a + b == b;
    } else {
      assert (a + b)[1..] == a[1..] + b;
      DecryptedComposes(w, nr, cbc, a[0], a[1..], b);
    }
  }

  // Byte strings.

  /** Sixteen bytes fill the state column by column. */
  function BlockAt(b: seq<bv8>, i: nat): State
    requires i + 16 <= |b|
  {
    State(Word(b[i], b[i + 1], b[i + 2], b[i + 3]), Word(b[i + 4], b[i + 5], b[i + 6], b[i + 7]),
          Word(b[i + 8], b[i + 9], b[i + 10], b[i + 11]), Word(b[i + 12], b[i + 13], b[i + 14], b[i + 15]))
  }

  /** The whole blocks of a byte string. */
  function Blocks(b: seq<bv8>): (s: seq<State>)
    ensures |s| == |b| / 16
    ensures forall k :: 0 <= k < |s| ==> s[k] == BlockAt(b, 16 * k)
  {
    seq(|b| / 16, k requires 0 <= k < |b| / 16 => BlockAt(b, 16 * k))
  }

  /** Strings of whole blocks are equal when their blocks are. */
  lemma BlocksDetermineBytes(a: seq<bv8>, b: seq<bv8>)
    requires |a| % 16 == 0 && |a| == |b| && Blocks(a) == Blocks(b)
    ensures a == b
  {
    forall i | 0 <= i < |a| ensures a[i] == b[i] {
      var k := i / 16;
      assert Blocks(a)[k] == Blocks(b)[k];
      assert BlockAt(a, 16 * k) == BlockAt(b, 16 * k);
      assert i == 16 * k + i % 16;
    }
  }

  // Only the first nr + 1 round keys of a schedule matter.

  lemma {:induction false} RoundsUsePrefix(w: seq<Word>, w': seq<Word>, r: nat, s: State)
    requires 4 * r + 4 <= |w| && 4 * r + 4 <= |w'| && w[..4 * r + 4] == w'[..4 * r + 4]
    ensures Rounds(w, r, s) == Rounds(w', r, s)
  {
    hide AddRoundKey, MixColumns, ShiftRows, SubBytes;
    RoundKeyUsesPrefix(w, w', r, r);
    if r > 0 {
      assert w[..4 * r] == w[..4 * r + 4][..4 * r] == w'[..4 * r + 4][..4 * r] == w'[..4 * r];
      RoundsUsePrefix(w, w', r - 1, s);
    }
  }

  lemma RoundKeyUsesPrefix(w: seq<Word>, w': seq<Word>, nr: nat, r: nat)
    requires r <= nr && 4 * nr + 4 <= |w| && 4 * nr + 4 <= |w'| && w[..4 * nr + 4] == w'[..4 * nr + 4]
    ensures RoundKey(w, r) == RoundKey(w', r)
  {
  }

  lemma CipherUsesPrefix(w: seq<Word>, w': seq<Word>, nr: nat, s: State)
    requires 0 < nr && 4 * nr + 4 <= |w| && 4 * nr + 4 <= |w'| && w[..4 * nr + 4] == w'[..4 * nr + 4]
    ensures Cipher(w, nr, s) == Cipher(w', nr, s)
  {
    hide AddRoundKey, ShiftRows, SubBytes, Rounds, RoundKey;
    assert w[..4 * nr] == w[..4 * nr + 4][..4 * nr] == w'[..4 * nr + 4][..4 * nr] == w'[..4 * nr];
    RoundsUsePrefix(w, w', nr - 1, s);
    RoundKeyUsesPrefix(w, w', nr, nr);
  }

  /** Words of a schedule beyond its nr + 1 round keys play no part in encryption. */
  lemma {:induction false} EncryptedUsesPrefix(w: seq<Word>, w': seq<Word>, nr: nat, cbc: bool, v: State, p: seq<State>)
    requires 0 < nr && 4 * nr + 4 <= |w| && 4 * nr + 4 <= |w'| && w[..4 * nr + 4] == w'[..4 * nr + 4]
    ensures Encrypted(w, nr, cbc, v, p) == Encrypted(w', nr, cbc, v, p)
    decreases |p|
  {
    hide Cipher, Chained;
    if p != [] {
      var s := Chained(cbc, p[0], v);
      CipherUsesPrefix(w, w', nr, s);
      EncryptedUsesPrefix(w, w', nr, cbc, Cipher(w, nr, s), p[1..]);
    }
  }

  /** ... nor in decryption. */
  lemma DecryptedUsesPrefix(w: seq<Word>, w': seq<Word>, nr: nat, cbc: bool, v: State, c: seq<State>)
    requires 0 < nr && 4 * nr + 4 <= |w| && 4 * nr + 4 <= |w'| && w[..4 * nr + 4] == w'[..4 * nr + 4]
    ensures Decrypted(w, nr, cbc, v, c) == Decrypted(w', nr, cbc, v, c)
  {
    hide Encrypted, Decrypted;
    var p := Decrypted(w, nr, cbc, v, c);
    EncryptedDecrypted(w, nr, cbc, v, c);
    EncryptedUsesPrefix(w, w', nr, cbc, v, p);
    DecryptedEncrypted(w', nr, cbc, v, p);
  }
}
