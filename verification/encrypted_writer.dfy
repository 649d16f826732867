/** `EncryptedWriteStream` (LiteCore/Support/EncryptedStream.cc, lines 84-159):
    buffers cleartext, encrypts each full 4096-byte block as it completes,
    and on close encrypts the remainder as the padded final block and
    appends the nonce. The output stream is the list of encrypted blocks
    followed by the trailer bytes. */
module EncryptedWriter {
  import opened Wrappers
  import opened StreamLayout

  /** The writer's state. `buffer` is `_buffer[.._bufferPos]`; `open` is
      whether `_output` is still set; `blocks` and `trailer` are what has
      been written to the output. */
  datatype Writer = Writer(
    key: bytes, nonce: bytes, blockID: nat, buffer: bytes,
    blocks: seq<CipherBlock>, trailer: bytes, open: bool)

  /** While open, every block written is a full unpadded block; once closed,
      the blocks form a complete stream and the nonce follows them. Every
      block uses the writer's key and its own number as IV. */
  predicate Inv(w: Writer) {
    IsKey(w.key) && IsKey(w.nonce) &&
    w.blockID == |w.blocks| && |w.buffer| < FileBlockSize &&
    (forall i :: 0 <= i < |w.blocks| ==> w.blocks[i].key == w.key && w.blocks[i].iv == i) &&
    (if w.open then
       w.trailer == [] &&
       forall i :: 0 <= i < |w.blocks| ==> !w.blocks[i].final && |w.blocks[i].plaintext| == FileBlockSize
     else
       w.trailer == w.nonce && WellFormed(w.blocks, w.key))
  }

  /** The cleartext written so far, including what is still buffered. */
  function Written(w: Writer): bytes {
    Plaintext(w.blocks) + (if w.open then w.buffer else [])
  }

  /** The constructor: the nonce comes from the system's secure random
      source and is passed in. Any algorithm but AES-128 is refused.
      `initEncryptor` copies the key and the nonce as they are, so blocks
      are encrypted under the given key and the nonce is only written out. */
  function Create(alg: EncryptionAlgorithm, encryptionKey: bytes, nonce: bytes): (r: Result<Writer, StreamError>)
    requires IsKey(encryptionKey) && IsKey(nonce)
    ensures r.Failure? <==> alg != AES128
    ensures r.Failure? ==> r.error == UnsupportedEncryption
    ensures r.Success? ==>
      Inv(r.value) && r.value.open && Written(r.value) == [] &&
      r.value.nonce == nonce && r.value.key == encryptionKey
  {
    if alg != AES128 then Failure(UnsupportedEncryption)
    else Success(Writer(encryptionKey, nonce, 0, [], [], [], true))
  }

  /** As written, two streams created under one key with different nonces
      encrypt under the same key (writing keeps the key), and since the IVs
      are block numbers, block i of one and block i of the other share key
      and IV. */
  lemma NonceIgnoredAsWritten(key: bytes, n1: bytes, n2: bytes, v1: Writer, v2: Writer, i: nat)
    requires IsKey(key) && IsKey(n1) && IsKey(n2) && n1 != n2
    requires Inv(v1) && v1.key == Create(AES128, key, n1).value.key && i < |v1.blocks|
    requires Inv(v2) && v2.key == Create(AES128, key, n2).value.key && i < |v2.blocks|
    ensures v1.blocks[i].key == v2.blocks[i].key && v1.blocks[i].iv == v2.blocks[i].iv
  {
  }

  /** `writeBlock`: encrypts at most one block under the next IV. */
  function WriteBlock(w: Writer, plaintext: bytes, final: bool): (r: Writer)
    requires |plaintext| <= FileBlockSize
    ensures Plaintext(r.blocks) == Plaintext(w.blocks) + plaintext
    ensures TotalSize(r.blocks) ==
      TotalSize(w.blocks) + (if final then PaddedSize(|plaintext|) else |plaintext|)
    ensures |r.blocks| == |w.blocks| + 1 && r.blocks[..|w.blocks|] == w.blocks
    ensures r.blocks[|w.blocks|] == CipherBlock(w.key, w.blockID, final, plaintext)
    ensures r.blockID == w.blockID + 1
    ensures r.key == w.key && r.nonce == w.nonce && r.buffer == w.buffer
    ensures r.trailer == w.trailer && r.open == w.open
  {
    var b := CipherBlock(w.key, w.blockID, final, plaintext);
    AppendBlock(w.blocks, b);
    assert (w.blocks + [b])[..|w.blocks|] == w.blocks;
    w.(blockID := w.blockID + 1, blocks := w.blocks + [b])
  }

  /** `write`: tops up the buffer; once it is full, encrypts it and then
      every further whole block of the input, and buffers the remainder. */
  method Write(w: Writer, plaintext: bytes) returns (r: Writer)
    requires Inv(w) && w.open
    ensures Inv(r) && r.open && r.key == w.key && r.nonce == w.nonce
    ensures Written(r) == Written(w) + plaintext
    ensures |r.buffer| == (|w.buffer| + |plaintext|) % FileBlockSize
    ensures |r.blocks| == |w.blocks| + (|w.buffer| + |plaintext|) / FileBlockSize
    ensures r.blocks[..|w.blocks|] == w.blocks
  {
    var capacity := Min(FileBlockSize - |w.buffer|, |plaintext|);
    var buffer := w.buffer + plaintext[..capacity];
    var rest := plaintext[capacity..];
    assert plaintext == plaintext[..capacity] + rest;
    if |buffer| < FileBlockSize {
      r := w.(buffer := buffer);
      DivModBlock(0, |buffer|);
      return;
    }
    var emptied := w.(buffer := []);
    assert Written(emptied) + buffer + rest == Written(w) + plaintext;
    var filled := WriteFullBlock(emptied, buffer);
    r := WriteBlocks(filled, rest);
    assert r.blocks[..|w.blocks|] == w.blocks by {
      assert r.blocks[..|filled.blocks|][..|w.blocks|] == r.blocks[..|w.blocks|];
    }
    DivModBlock(|rest| / FileBlockSize + 1, |rest| % FileBlockSize);
  }

  /** The loop of `write`: encrypts whole blocks straight from the input
      while at least one remains, then buffers what is left. */
  method WriteBlocks(w: Writer, plaintext: bytes) returns (r: Writer)
    requires Inv(w) && w.open && w.buffer == []
    ensures Inv(r) && r.open && r.key == w.key && r.nonce == w.nonce
    ensures Written(r) == Written(w) + plaintext
    ensures |r.buffer| == |plaintext| % FileBlockSize
    ensures |r.blocks| == |w.blocks| + |plaintext| / FileBlockSize
    ensures r.blocks[..|w.blocks|] == w.blocks
  {
    r := w;
    var rest := plaintext;
    while |rest| >= FileBlockSize
      invariant Inv(r) && r.open && r.buffer == [] && r.key == w.key && r.nonce == w.nonce
      invariant Written(r) + rest == Written(w) + plaintext
      invariant (|r.blocks| - |w.blocks|) * FileBlockSize + |rest| == |plaintext|
      invariant |r.blocks| >= |w.blocks| && r.blocks[..|w.blocks|] == w.blocks
      decreases |rest|
    {
      var block := rest[..FileBlockSize];
      assert rest == block + rest[FileBlockSize..];
      var next := WriteFullBlock(r, block);
      assert next.blocks[..|w.blocks|] == w.blocks by {
        assert next.blocks[..|r.blocks|][..|w.blocks|] == next.blocks[..|w.blocks|];
      }
      r, rest := next, rest[FileBlockSize..];
    }
    r := r.(buffer := rest);
    DivModBlock(|r.blocks| - |w.blocks|, |rest|);
  }

  /** One full block written from an empty buffer keeps the invariant. */
  function WriteFullBlock(w: Writer, block: bytes): (r: Writer)
    requires Inv(w) && w.open && w.buffer == [] && |block| == FileBlockSize
    ensures Inv(r) && r.open && r.buffer == [] && r.key == w.key && r.nonce == w.nonce
    ensures Written(r) == Written(w) + block
    ensures |r.blocks| == |w.blocks| + 1 && r.blocks[..|w.blocks|] == w.blocks
  {
    var r := WriteBlock(w, block, false);
    assert forall i :: 0 <= i < |w.blocks| ==> r.blocks[i] == w.blocks[i];
    r
  }

  lemma DivModBlock(q: nat, m: nat)
    requires m < FileBlockSize
    ensures (q * FileBlockSize + m) / FileBlockSize == q
    ensures (q * FileBlockSize + m) % FileBlockSize == m
  {
  }

  /** `close`: encrypts the buffered remainder as the padded final block and
      appends the nonce; closing again does nothing. */
  function Close(w: Writer): (r: Writer)
    requires Inv(w)
    ensures Inv(r) && !r.open && r.key == w.key && r.nonce == w.nonce
    ensures Plaintext(r.blocks) == Written(w)
    ensures !w.open ==> r == w
  {
    if w.open then
      var r := WriteBlock(w, w.buffer, true);
      var closed := r.(trailer := w.nonce, open := false);
      assert forall i :: 0 <= i < |closed.blocks| ==> BlockAt(closed.blocks, closed.key, i) by {
        forall i | 0 <= i < |closed.blocks|
          ensures BlockAt(closed.blocks, closed.key, i)
        {
          if i < |w.blocks| {
            assert closed.blocks[i] == w.blocks[i];
          }
        }
      }
      closed
    else w
  }

  /** The bytes a closed writer leaves in its output. */
  function OutputLength(w: Writer): nat {
    TotalSize(w.blocks) + |w.trailer|
  }

  /** Closing is idempotent. */
  lemma CloseIdempotent(w: Writer)
    requires Inv(w)
    ensures Close(Close(w)) == Close(w)
  {
  }

  /** After n cleartext bytes the output holds n / 4096 full blocks, one
      padded final block and the nonce; the final block is empty exactly
      when n is a multiple of 4096. */
  lemma ClosedLayout(w: Writer)
    requires Inv(w)
    ensures var r := Close(w); var n := |Written(w)|;
      |r.blocks| == n / FileBlockSize + 1 &&
      (|r.blocks[|r.blocks| - 1].plaintext| == 0 <==> n % FileBlockSize == 0) &&
      OutputLength(r) == n / FileBlockSize * FileBlockSize + PaddedSize(n % FileBlockSize) + FileSizeOverhead
  {
    var r := Close(w);
    StreamSizes(r.blocks, r.key);
    var m := |r.blocks|;
    var last := |r.blocks[m - 1].plaintext|;
    assert |Written(w)| == (m - 1) * FileBlockSize + last;
    DivModBlock(m - 1, last);
  }
}
