/** The on-disk layout of an encrypted stream (LiteCore/Support/EncryptedStream.cc,
    lines 27-77): the cleartext is cut into 4096-byte blocks numbered from 0,
    each encrypted with AES-128 in CBC mode under its block number as IV; all
    but the last block are full and unpadded, the last is PKCS #7 padded
    (and empty when the length is a multiple of the block size); the
    16-byte nonce follows the blocks.

    The cipher itself is not modelled: an encrypted block is the record of
    what was encrypted (key, IV, padding mode, plaintext), and its size is
    the size AES-128-CBC gives it. */
module StreamLayout {
  type byte = bv8
  type bytes = seq<byte>

  const FileBlockSize: nat := 4096
  const AESBlockSize: nat := 16
  const AES128KeySize: nat := 16
  /** The bytes that follow the blocks: the nonce. */
  const FileSizeOverhead: nat := 16
  const UInt64Max: nat := 0xFFFF_FFFF_FFFF_FFFF

  datatype EncryptionAlgorithm = NoEncryption | AES128

  datatype StreamError = UnsupportedEncryption | CorruptData | CryptoError

  predicate IsKey(k: bytes) {
    |k| == AES128KeySize
  }

  // ---------------------------------------------------------------------------
  // The encryption key
  // ---------------------------------------------------------------------------

  /** The key derivation the layout describes, and which `initEncryptor`
      leaves out (the writer and reader use the given key unchanged): the
      given key XOR the nonce. */
  function DeriveKey(key: bytes, nonce: bytes): (k: bytes)
    requires IsKey(key) && IsKey(nonce)
    ensures IsKey(k)
    ensures forall i :: 0 <= i < AES128KeySize ==> k[i] == key[i] ^ nonce[i]
  {
    seq(AES128KeySize, i requires 0 <= i < AES128KeySize => key[i] ^ nonce[i])
  }

  /** The reader recovers the key from the derived key and the nonce. */
  lemma DeriveKeyInvertible(key: bytes, nonce: bytes)
    requires IsKey(key) && IsKey(nonce)
    ensures DeriveKey(DeriveKey(key, nonce), nonce) == key
  {
    var k := DeriveKey(DeriveKey(key, nonce), nonce);
    forall i | 0 <= i < AES128KeySize
      ensures k[i] == key[i]
    {
      XorTwice(key[i], nonce[i]);
    }
  }

  lemma XorTwice(a: byte, b: byte)
    ensures (a ^ b) ^ b == a
  {
  }

  /** The nonce is recovered from the derived key and the given key. */
  lemma RecoverNonce(key: bytes, nonce: bytes)
    requires IsKey(key) && IsKey(nonce)
    ensures DeriveKey(DeriveKey(key, nonce), key) == nonce
  {
    var k := DeriveKey(DeriveKey(key, nonce), key);
    forall i | 0 <= i < AES128KeySize
      ensures k[i] == nonce[i]
    {
      XorSwap(key[i], nonce[i]);
    }
  }

  lemma XorSwap(a: byte, b: byte)
    ensures (a ^ b) ^ a == b
  {
  }

  /** Under one key, different nonces give different encryption keys. */
  lemma DeriveKeyInjective(key: bytes, n1: bytes, n2: bytes)
    requires IsKey(key) && IsKey(n1) && IsKey(n2)
    requires DeriveKey(key, n1) == DeriveKey(key, n2)
    ensures n1 == n2
  {
    RecoverNonce(key, n1);
    RecoverNonce(key, n2);
  }

  // ---------------------------------------------------------------------------
  // Blocks
  // ---------------------------------------------------------------------------

  /** One encrypted block, described by what went into the cipher. */
  datatype CipherBlock = CipherBlock(key: bytes, iv: nat, final: bool, plaintext: bytes)

  /** PKCS #7 pads to the next multiple of the AES block size, adding a
      whole block when the input is already a multiple. */
  function PaddedSize(n: nat): (r: nat)
    ensures n < r <= n + AESBlockSize && r % AESBlockSize == 0
  {
    (n / AESBlockSize + 1) * AESBlockSize
  }

  /** The ciphertext size of a block: unpadded blocks keep their size. */
  function CipherSize(b: CipherBlock): nat {
    if b.final then PaddedSize(|b.plaintext|) else |b.plaintext|
  }

  /** The ciphertext size of a run of blocks. */
  function TotalSize(blocks: seq<CipherBlock>): nat
    decreases |blocks|
  {
    if |blocks| == 0 then 0 else TotalSize(blocks[..|blocks| - 1]) + CipherSize(blocks[|blocks| - 1])
  }

  /** The cleartext of a run of blocks. */
  function Plaintext(blocks: seq<CipherBlock>): (r: bytes)
    decreases |blocks|
  {
    if |blocks| == 0 then [] else Plaintext(blocks[..|blocks| - 1]) + blocks[|blocks| - 1].plaintext
  }

  /** Block `i` of a stream under `key`: IV i, full unless it is the final
      block, which holds fewer than 4096 bytes. */
  predicate BlockAt(blocks: seq<CipherBlock>, key: bytes, i: nat)
    requires i < |blocks|
  {
    var b := blocks[i];
    b.key == key && b.iv == i && b.final == (i == |blocks| - 1) &&
    (if b.final then |b.plaintext| < FileBlockSize else |b.plaintext| == FileBlockSize)
  }

  /** The blocks of a stream written under `key`. */
  predicate WellFormed(blocks: seq<CipherBlock>, key: bytes) {
    |blocks| >= 1 && forall i :: 0 <= i < |blocks| ==> BlockAt(blocks, key, i)
  }

  /** The blocks before block k are full, so block k starts at k * 4096
      both in the ciphertext and in the cleartext. */
  lemma {:induction false} FullPrefix(blocks: seq<CipherBlock>, key: bytes, k: nat)
    requires WellFormed(blocks, key) && k < |blocks|
    ensures TotalSize(blocks[..k]) == k * FileBlockSize
    ensures |Plaintext(blocks[..k])| == k * FileBlockSize
    decreases k
  {
    if k > 0 {
      FullPrefix(blocks, key, k - 1);
      assert blocks[..k][..k - 1] == blocks[..k - 1];
      assert BlockAt(blocks, key, k - 1);
    }
  }

  /** A written stream occupies (n - 1) full blocks and one padded block of
      16 to 4096 bytes, and holds (n - 1) * 4096 + |last| cleartext bytes. */
  lemma StreamSizes(blocks: seq<CipherBlock>, key: bytes)
    requires WellFormed(blocks, key)
    ensures var n := |blocks|; var last := blocks[n - 1];
      TotalSize(blocks) == (n - 1) * FileBlockSize + PaddedSize(|last.plaintext|) &&
      AESBlockSize <= PaddedSize(|last.plaintext|) <= FileBlockSize &&
      |Plaintext(blocks)| == (n - 1) * FileBlockSize + |last.plaintext|
  {
    var n := |blocks|;
    FullPrefix(blocks, key, n - 1);
    assert blocks[..n] == blocks;
    assert BlockAt(blocks, key, n - 1);
  }

  /** Block k's cleartext sits at k * 4096 in the stream's cleartext. */
  lemma {:induction false} BlockInPlaintext(blocks: seq<CipherBlock>, key: bytes, k: nat)
    requires WellFormed(blocks, key) && k < |blocks|
    ensures |Plaintext(blocks)| >= k * FileBlockSize + |blocks[k].plaintext|
    ensures Plaintext(blocks)[k * FileBlockSize .. k * FileBlockSize + |blocks[k].plaintext|] == blocks[k].plaintext
  {
    FullPrefix(blocks, key, k);
    PlaintextSplit(blocks, k);
  }

  /** The cleartext of blocks[..k+1] extends that of blocks[..k] by block k,
      and is a prefix of the whole. */
  lemma {:induction false} PlaintextSplit(blocks: seq<CipherBlock>, k: nat)
    requires k < |blocks|
    ensures Plaintext(blocks[..k + 1]) == Plaintext(blocks[..k]) + blocks[k].plaintext
    ensures Plaintext(blocks[..k + 1]) <= Plaintext(blocks)
    decreases |blocks| - k
  {
    assert blocks[..k + 1][..k] == blocks[..k];
    if k + 1 < |blocks| {
      PlaintextSplit(blocks, k + 1);
    } else {
      assert blocks[..k + 1] == blocks;
    }
  }

  /** Appending a block adds its cleartext and its ciphertext size. */
  lemma AppendBlock(blocks: seq<CipherBlock>, b: CipherBlock)
    ensures Plaintext(blocks + [b]) == Plaintext(blocks) + b.plaintext
    ensures TotalSize(blocks + [b]) == TotalSize(blocks) + CipherSize(b)
  {
    assert (blocks + [b])[..|blocks|] == blocks;
  }
}
