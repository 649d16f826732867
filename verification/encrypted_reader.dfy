/** `EncryptedReadStream` (LiteCore/Support/EncryptedStream.cc, lines 162-291):
    random access to the cleartext of an encrypted stream. A reader keeps
    one decrypted block in a buffer; `tell` is computed from the buffered
    block and the position in it.

    The underlying input is modelled as the list of its encrypted blocks.
    Reads from it are sequential and whole-block, so its position is always
    `blockID * 4096` and reading block `blockID` is modelled by indexing.
    Decrypting a block succeeds only with the key, IV, padding mode and
    ciphertext size it was encrypted with; anything else is modelled as a
    CryptoError (real AES-CBC would fail on the padding or yield garbage). */
module EncryptedReader {
  import opened Wrappers
  import opened StreamLayout

  const UInt64Modulus: nat := UInt64Max + 1

  /** Wrap-around of `uint64_t` arithmetic. */
  function U64(x: int): (r: nat)
    ensures r < UInt64Modulus
    ensures 0 <= x < UInt64Modulus ==> r == x
  {
    x % UInt64Modulus
  }

  /** The reader's fields: `buffer` is `_buffer[.._bufferSize]`. */
  datatype Reader = Reader(
    input: seq<CipherBlock>, key: bytes,
    inputLength: nat, finalBlockID: nat,
    blockID: nat, bufferBlockID: nat, buffer: bytes, bufferPos: nat)

  /** A reader together with the bytes an operation produced. */
  datatype Got = Got(reader: Reader, data: bytes)

  /** `_finalBlockID`, computed in 64-bit unsigned arithmetic. */
  function FinalBlockID(inputLength: nat): nat {
    U64(inputLength - 1) / FileBlockSize
  }

  /** What every reader keeps, whatever its input holds. */
  predicate Inv(r: Reader) {
    r.inputLength <= UInt64Max && r.finalBlockID == FinalBlockID(r.inputLength) &&
    r.bufferPos <= |r.buffer| <= FileBlockSize
  }

  /** `tell`: no block buffered yet means position 0. */
  function Tell(r: Reader): nat {
    if r.bufferBlockID == UInt64Max then 0 else r.bufferBlockID * FileBlockSize + r.bufferPos
  }

  /** The constructor. `fileLength` is the input's length and `nonceRead`
      what a 16-byte read at `fileLength - 16` returned (nothing when the
      file is shorter). A short nonce is corrupt data; after that, any
      algorithm but AES-128 is refused. As in the writer, blocks are
      decrypted under the given key: the nonce read plays no further part. */
  function Open(input: seq<CipherBlock>, fileLength: nat, nonceRead: bytes,
                alg: EncryptionAlgorithm, encryptionKey: bytes): (r: Result<Reader, StreamError>)
    requires fileLength <= UInt64Max && IsKey(encryptionKey)
    ensures r.Failure? <==> |nonceRead| < AES128KeySize || alg != AES128
    ensures r.Failure? ==>
      r.error == (if |nonceRead| < AES128KeySize then CorruptData else UnsupportedEncryption)
    ensures r.Success? ==>
      Inv(r.value) && Tell(r.value) == 0 && r.value.blockID == 0 && r.value.input == input &&
      r.value.inputLength == U64(fileLength - FileSizeOverhead) &&
      r.value.key == encryptionKey
  {
    var inputLength := U64(fileLength - FileSizeOverhead);
    if |nonceRead| < AES128KeySize then Failure(CorruptData)
    else if alg != AES128 then Failure(UnsupportedEncryption)
    else
      Success(Reader(input, encryptionKey, inputLength, FinalBlockID(inputLength), 0, UInt64Max, [], 0))
  }

  /** An input holding only the nonce wraps `_finalBlockID` round to the
      last block number a 64-bit offset can address. */
  lemma EmptyInputFinalBlock()
    ensures FinalBlockID(0) == 0xF_FFFF_FFFF_FFFF
    ensures FinalBlockID(0) * FileBlockSize + FileBlockSize == UInt64Modulus
  {
  }

  // ---------------------------------------------------------------------------
  // Blocks
  // ---------------------------------------------------------------------------

  /** The ciphertext size `readBlockFromFile` asks for: a whole block, or
      for the final block what is left before the trailer. */
  function ReadSize(r: Reader): nat {
    if r.blockID == r.finalBlockID then U64(r.inputLength - r.blockID * FileBlockSize)
    else FileBlockSize
  }

  /** The final block's read size is between 1 and 4096 bytes, even when
      the input length wrapped round. */
  lemma ReadSizeBounds(r: Reader)
    requires Inv(r) && r.blockID <= r.finalBlockID
    ensures 1 <= ReadSize(r) <= FileBlockSize
  {
    if r.blockID == r.finalBlockID {
      if r.inputLength == 0 {
        EmptyInputFinalBlock();
        assert ReadSize(r) == U64(-(UInt64Modulus - FileBlockSize));
      } else {
        var f := (r.inputLength - 1) / FileBlockSize;
        assert f * FileBlockSize <= r.inputLength - 1 < f * FileBlockSize + FileBlockSize;
      }
    }
  }

  /** AES-128-CBC decryption of block `blockID`, modelled symbolically. */
  function DecryptBlock(r: Reader, final: bool, readSize: nat): (d: Result<bytes, StreamError>)
    ensures d.Success? ==> |d.value| <= readSize
    ensures d.Success? <==>
      r.blockID < |r.input| && r.input[r.blockID].key == r.key && r.input[r.blockID].iv == r.blockID &&
      r.input[r.blockID].final == final && CipherSize(r.input[r.blockID]) == readSize
    ensures d.Success? ==> d.value == r.input[r.blockID].plaintext
  {
    if r.blockID < |r.input| && r.input[r.blockID].key == r.key && r.input[r.blockID].iv == r.blockID &&
       r.input[r.blockID].final == final && CipherSize(r.input[r.blockID]) == readSize
    then Success(r.input[r.blockID].plaintext)
    else Failure(CryptoError)
  }

  /** `readBlockFromFile`: past the final block it yields nothing; otherwise
      it decrypts the next block (at most 4096 bytes) and moves on. */
  function ReadBlockFromFile(r: Reader): (g: Result<Got, StreamError>)
    requires Inv(r)
    ensures r.blockID > r.finalBlockID ==> g == Success(Got(r, []))
    ensures g.Success? && r.blockID <= r.finalBlockID ==>
      g.value.reader == r.(blockID := r.blockID + 1) && 0 < ReadSize(r) <= FileBlockSize &&
      r.blockID < |r.input| && g.value.data == r.input[r.blockID].plaintext
    ensures g.Success? ==> |g.value.data| <= FileBlockSize
  {
    if r.blockID > r.finalBlockID then Success(Got(r, []))
    else
      ReadSizeBounds(r);
      var final := r.blockID == r.finalBlockID;
      var data :- DecryptBlock(r, final, ReadSize(r));
      Success(Got(r.(blockID := r.blockID + 1), data))
  }

  /** `fillBuffer`: decrypts the next block into the buffer. */
  function FillBuffer(r: Reader): (f: Result<Reader, StreamError>)
    requires Inv(r)
    ensures f.Success? ==> Inv(f.value) && f.value.bufferBlockID == r.blockID && f.value.bufferPos == 0
    ensures f.Success? ==> f.value.input == r.input && f.value.key == r.key
    ensures f.Success? ==> f.value.blockID == r.blockID + (if r.blockID <= r.finalBlockID then 1 else 0)
    ensures f.Success? && r.blockID <= r.finalBlockID ==>
      r.blockID < |r.input| && f.value.buffer == r.input[r.blockID].plaintext
    ensures f.Success? && r.blockID > r.finalBlockID ==> f.value.buffer == []
  {
    var g :- ReadBlockFromFile(r.(bufferBlockID := r.blockID));
    Success(g.reader.(buffer := g.data, bufferPos := 0))
  }

  /** `readFromBuffer`: copies what the buffer still holds, up to `count`. */
  function ReadFromBuffer(r: Reader, count: nat): (g: Got)
    requires Inv(r)
    ensures Inv(g.reader) && |g.data| == Min(|r.buffer| - r.bufferPos, count)
    ensures g.data == r.buffer[r.bufferPos .. r.bufferPos + |g.data|]
    ensures g.reader == r.(bufferPos := r.bufferPos + |g.data|)
  {
    var n := Min(|r.buffer| - r.bufferPos, count);
    Got(r.(bufferPos := r.bufferPos + n), r.buffer[r.bufferPos .. r.bufferPos + n])
  }

  // ---------------------------------------------------------------------------
  // read, as written and corrected
  // ---------------------------------------------------------------------------

  /** The loop of `read` that decrypts whole blocks straight into the
      caller's buffer while at least 4096 bytes are wanted. */
  function ReadDirect(r: Reader, remaining: nat): (g: Result<Got, StreamError>)
    requires Inv(r)
    ensures g.Success? ==> Inv(g.value.reader) && |g.value.data| <= remaining
    ensures g.Success? ==>
      g.value.reader == r.(blockID := g.value.reader.blockID) && g.value.reader.blockID >= r.blockID
    decreases r.finalBlockID + 1 - r.blockID
  {
    if remaining >= FileBlockSize && r.blockID <= r.finalBlockID then
      var g :- ReadBlockFromFile(r);
      var rest :- ReadDirect(g.reader, remaining - |g.data|);
      Success(Got(rest.reader, g.data + rest.data))
    else Success(Got(r, []))
  }

  /** `read` as written: what is buffered, then whole blocks directly, then
      a partial block through the buffer. The direct reads leave
      `_bufferBlockID` and `_bufferPos` behind. */
  function ReadAsWritten(r: Reader, count: nat): (g: Result<Got, StreamError>)
    requires Inv(r)
    ensures g.Success? ==> Inv(g.value.reader) && |g.value.data| <= count
  {
    var g1 := ReadFromBuffer(r, count);
    var remaining := count - |g1.data|;
    if remaining > 0 && g1.reader.blockID <= g1.reader.finalBlockID then
      var g2 :- ReadDirect(g1.reader, remaining);
      var remaining2 := remaining - |g2.data|;
      if remaining2 > 0 then
        var r3 :- FillBuffer(g2.reader);
        var g3 := ReadFromBuffer(r3, remaining2);
        Success(Got(g3.reader, g1.data + g2.data + g3.data))
      else Success(Got(g2.reader, g1.data + g2.data))
    else Success(g1)
  }

  /** `read` corrected: every block goes through the buffer, so the
      buffered block is always the one just read from. */
  function Read(r: Reader, count: nat): (g: Result<Got, StreamError>)
    requires Inv(r)
    ensures g.Success? ==> Inv(g.value.reader) && |g.value.data| <= count
    ensures g.Success? ==> g.value.reader.input == r.input && g.value.reader.key == r.key
    decreases r.finalBlockID + 1 - r.blockID
  {
    var g1 := ReadFromBuffer(r, count);
    var remaining := count - |g1.data|;
    if remaining > 0 && g1.reader.blockID <= g1.reader.finalBlockID then
      var r2 :- FillBuffer(g1.reader);
      var g3 :- Read(r2, remaining);
      Success(Got(g3.reader, g1.data + g3.data))
    else Success(g1)
  }

  /** `seek`: clamps to the input length and to the final block, refills
      the buffer unless the target block is already in it, and clamps the
      offset to what the block holds. */
  function Seek(r: Reader, pos: nat): (s: Result<Reader, StreamError>)
    requires Inv(r)
    ensures s.Success? ==> Inv(s.value) && s.value.input == r.input && s.value.key == r.key
  {
    var p := Min(pos, r.inputLength);
    var blockID := Min(p / FileBlockSize, r.finalBlockID);
    var blockPos := blockID * FileBlockSize;
    if blockID != r.bufferBlockID then
      var r1 :- FillBuffer(r.(blockID := blockID));
      Success(r1.(bufferPos := Min(p - blockPos, |r1.buffer|)))
    else Success(r.(bufferPos := Min(p - blockPos, |r.buffer|)))
  }

  /** `findLength`: seeks to the end to learn the cleartext length, then
      back to where it was. */
  function FindLength(r: Reader): (l: Result<(nat, Reader), StreamError>)
    requires Inv(r)
    ensures l.Success? ==> Inv(l.value.1)
  {
    var pos := Tell(r);
    var r1 :- Seek(r, r.inputLength);
    var length := Tell(r1);
    var r2 :- Seek(r1, pos);
    Success((length, r2))
  }

  // ---------------------------------------------------------------------------
  // Reading a stream the writer produced
  // ---------------------------------------------------------------------------

  /** The input is a complete stream under the reader's key, and the
      reader's length fields describe it. */
  predicate Sound(r: Reader) {
    Inv(r) && WellFormed(r.input, r.key) &&
    r.inputLength == TotalSize(r.input) && r.finalBlockID == |r.input| - 1
  }

  /** A sound reader whose buffer holds the block before `blockID` (or
      nothing, before the first read). */
  predicate Good(r: Reader) {
    Sound(r) &&
    (if r.bufferBlockID == UInt64Max then r.blockID == 0 && r.buffer == [] && r.bufferPos == 0
     else (r.bufferBlockID < |r.input| && r.blockID == r.bufferBlockID + 1 &&
           r.buffer == r.input[r.bufferBlockID].plaintext))
  }

  /** The cleartext the stream holds. */
  function Clear(r: Reader): bytes {
    Plaintext(r.input)
  }

  lemma DivBlock(q: nat, m: nat)
    requires m < FileBlockSize
    ensures (q * FileBlockSize + m) / FileBlockSize == q
  {
  }

  /** The reader's length arithmetic finds the final block of a stream. */
  lemma FinalBlockOfStream(blocks: seq<CipherBlock>, key: bytes)
    requires WellFormed(blocks, key) && TotalSize(blocks) <= UInt64Max
    ensures FinalBlockID(TotalSize(blocks)) == |blocks| - 1
  {
    StreamSizes(blocks, key);
    var n := |blocks|;
    var pad := PaddedSize(|blocks[n - 1].plaintext|);
    assert TotalSize(blocks) - 1 == (n - 1) * FileBlockSize + (pad - 1);
    DivBlock(n - 1, pad - 1);
  }

  /** The cleartext ends inside the final block, and no later than the input. */
  lemma ClearLength(r: Reader)
    requires Sound(r)
    ensures |Clear(r)| == r.finalBlockID * FileBlockSize + |r.input[r.finalBlockID].plaintext|
    ensures |r.input[r.finalBlockID].plaintext| < FileBlockSize
    ensures |Clear(r)| < r.inputLength
    ensures r.finalBlockID < UInt64Max
  {
    StreamSizes(r.input, r.key);
    assert BlockAt(r.input, r.key, r.finalBlockID);
  }

  /** In a sound reader, every block up to the final one is read with
      exactly the size it was written with. */
  lemma ReadSizeIsCipherSize(r: Reader)
    requires Sound(r) && r.blockID <= r.finalBlockID
    ensures ReadSize(r) == CipherSize(r.input[r.blockID])
  {
    StreamSizes(r.input, r.key);
    assert BlockAt(r.input, r.key, r.blockID);
  }

  /** Each block of a sound reader decrypts to the block's cleartext. */
  lemma ReadBlockOk(r: Reader)
    requires Sound(r) && r.blockID <= r.finalBlockID
    ensures ReadBlockFromFile(r) == Success(Got(r.(blockID := r.blockID + 1), r.input[r.blockID].plaintext))
  {
    ReadSizeIsCipherSize(r);
    assert BlockAt(r.input, r.key, r.blockID);
  }

  /** Filling the buffer of a sound reader buffers block `blockID`. */
  lemma FillOk(r: Reader)
    requires Sound(r) && r.blockID <= r.finalBlockID
    ensures FillBuffer(r).Success?
    ensures var f := FillBuffer(r).value;
      f == r.(bufferBlockID := r.blockID, blockID := r.blockID + 1,
              buffer := r.input[r.blockID].plaintext, bufferPos := 0) &&
      Good(f) && Tell(f) == r.blockID * FileBlockSize
  {
    ClearLength(r);
    ReadBlockOk(r.(bufferBlockID := r.blockID));
  }

  /** The buffered block is the cleartext at its block's offset. */
  lemma BufferInClear(r: Reader)
    requires Good(r) && r.bufferBlockID != UInt64Max
    ensures r.bufferBlockID * FileBlockSize + |r.buffer| <= |Clear(r)|
    ensures Clear(r)[r.bufferBlockID * FileBlockSize .. r.bufferBlockID * FileBlockSize + |r.buffer|] == r.buffer
  {
    BlockInPlaintext(r.input, r.key, r.bufferBlockID);
  }

  /** Copying from the buffer yields the cleartext at `tell` and advances it. */
  lemma ReadFromBufferStep(r: Reader, count: nat)
    requires Good(r)
    ensures var g := ReadFromBuffer(r, count);
      Good(g.reader) && Tell(r) + |g.data| <= |Clear(r)| && Tell(g.reader) == Tell(r) + |g.data| &&
      g.data == Clear(r)[Tell(r) .. Tell(r) + |g.data|]
  {
    if r.bufferBlockID != UInt64Max {
      BufferInClear(r);
      var g := ReadFromBuffer(r, count);
      var start := r.bufferBlockID * FileBlockSize;
      SliceOfSlice(Clear(r), start, start + |r.buffer|, r.bufferPos, r.bufferPos + |g.data|);
    }
  }

  lemma SliceOfSlice(s: bytes, a: nat, b: nat, i: nat, j: nat)
    requires a <= b <= |s| && i <= j <= b - a
    ensures s[a..b][i..j] == s[a + i .. a + j]
  {
    assert forall k :: 0 <= k < j - i ==> s[a..b][i..j][k] == s[a + i .. a + j][k];
  }

  /** Once the buffer is used up and blocks remain, `tell` sits at the start
      of block `blockID`. */
  lemma TellAtBoundary(r: Reader)
    requires Good(r) && r.bufferPos == |r.buffer| && r.blockID <= r.finalBlockID
    ensures Tell(r) == r.blockID * FileBlockSize
  {
    if r.bufferBlockID != UInt64Max {
      assert BlockAt(r.input, r.key, r.bufferBlockID);
    }
  }

  /** The corrected `read` from `r` returns the next min(count, bytes left)
      bytes of cleartext and advances `tell` past them. */
  ghost predicate ReadsCleartext(r: Reader, count: nat)
    requires Good(r)
  {
    var g := Read(r, count); var t := Tell(r); var n := Min(count, |Clear(r)| - t);
    t <= |Clear(r)| && g.Success? && Good(g.value.reader) && g.value.reader.input == r.input &&
    g.value.data == Clear(r)[t .. t + n] && Tell(g.value.reader) == t + n
  }

  /** The corrected `read` returns the next min(count, bytes left) bytes of
      cleartext and advances `tell` past them. */
  lemma {:induction false} ReadReadsCleartext(r: Reader, count: nat)
    requires Good(r)
    ensures Tell(r) <= |Clear(r)|
    ensures Read(r, count).Success?
    ensures Good(Read(r, count).value.reader) && Read(r, count).value.reader.input == r.input
    ensures Read(r, count).value.data == Clear(r)[Tell(r) .. Tell(r) + Min(count, |Clear(r)| - Tell(r))]
    ensures Tell(Read(r, count).value.reader) == Tell(r) + Min(count, |Clear(r)| - Tell(r))
    decreases r.finalBlockID + 1 - r.blockID
  {
    var g1 := ReadFromBuffer(r, count);
    ReadFromBufferStep(r, count);
    var remaining := count - |g1.data|;
    if remaining > 0 && g1.reader.blockID <= g1.reader.finalBlockID {
      FillOk(g1.reader);
      var r2 := FillBuffer(g1.reader).value;
      ReadReadsCleartext(r2, remaining);
      var g3 := Read(r2, remaining).value;
      ReadContinues(r, count, g1, r2, g3, Clear(r2), Tell(r2));
    } else {
      ReadStops(r, count);
    }
  }

  /** When the buffer runs out and blocks remain, the next block is
      buffered and the rest is read from there. */
  lemma ReadContinues(r: Reader, count: nat, g1: Got, r2: Reader, g3: Got, c: bytes, t1: nat)
    requires Good(r) && g1 == ReadFromBuffer(r, count)
    requires count > |g1.data| && g1.reader.blockID <= g1.reader.finalBlockID
    requires FillBuffer(g1.reader) == Success(r2) && Read(r2, count - |g1.data|) == Success(g3)
    requires c == Clear(r2) && t1 == Tell(r2) && t1 <= |c|
    requires g3.data == c[t1 .. t1 + Min(count - |g1.data|, |c| - t1)]
    requires Tell(g3.reader) == t1 + Min(count - |g1.data|, |c| - t1)
    ensures Read(r, count) == Success(Got(g3.reader, g1.data + g3.data))
    ensures r2.input == r.input && Tell(r) <= |Clear(r)|
    ensures g1.data + g3.data == Clear(r)[Tell(r) .. Tell(r) + Min(count, |Clear(r)| - Tell(r))]
    ensures Tell(g3.reader) == Tell(r) + Min(count, |Clear(r)| - Tell(r))
  {
    ContinueData(r, count, g1, r2, g3.data, Tell(g3.reader), c, t1);
    ContinueUnfolds(r, count);
  }

  /** The buffer's bytes and the bytes read from the next block are the
      cleartext wanted from `tell`, and the second read ends where the
      whole read should. */
  lemma ContinueData(r: Reader, count: nat, g1: Got, r2: Reader, d3: bytes, tEnd: nat, c: bytes, t1: nat)
    requires Good(r) && g1 == ReadFromBuffer(r, count)
    requires count > |g1.data| && g1.reader.blockID <= g1.reader.finalBlockID
    requires FillBuffer(g1.reader) == Success(r2)
    requires c == Clear(r2) && t1 == Tell(r2) && t1 <= |c|
    requires d3 == c[t1 .. t1 + Min(count - |g1.data|, |c| - t1)]
    requires tEnd == t1 + Min(count - |g1.data|, |c| - t1)
    ensures r2.input == r.input && Tell(r) <= |Clear(r)|
    ensures g1.data + d3 == Clear(r)[Tell(r) .. Tell(r) + Min(count, |Clear(r)| - Tell(r))]
    ensures tEnd == Tell(r) + Min(count, |Clear(r)| - Tell(r))
  {
    ContinueFromBoundary(r, count);
    assert Clear(r) == c;
    ConcatReads(c, Tell(r), g1.data, t1, count, d3, tEnd);
  }

  /** Two consecutive reads of the cleartext make one: `d1` is read at `t`
      up to `t1`, and `d3` is the rest of `count` from `t1`. */
  lemma ConcatReads(c: bytes, t: nat, d1: bytes, t1: nat, count: nat, d3: bytes, tEnd: nat)
    requires t1 == t + |d1| && t1 <= |c| && d1 == c[t .. t1] && count > |d1|
    requires d3 == c[t1 .. t1 + Min(count - |d1|, |c| - t1)]
    requires tEnd == t1 + Min(count - |d1|, |c| - t1)
    ensures t <= |c| && d1 + d3 == c[t .. t + Min(count, |c| - t)]
    ensures tEnd == t + Min(count, |c| - t)
  {
    ConcatSlices(c, t, t1, t1 + Min(count - |d1|, |c| - t1));
  }

  lemma ContinueUnfolds(r: Reader, count: nat)
    requires Good(r)
    requires var g1 := ReadFromBuffer(r, count);
      count > |g1.data| && g1.reader.blockID <= g1.reader.finalBlockID &&
      FillBuffer(g1.reader).Success? && Read(FillBuffer(g1.reader).value, count - |g1.data|).Success?
    ensures var g1 := ReadFromBuffer(r, count);
      var g3 := Read(FillBuffer(g1.reader).value, count - |g1.data|).value;
      Read(r, count) == Success(Got(g3.reader, g1.data + g3.data))
  {
  }

  /** The bytes the buffer gives end exactly where the next block starts. */
  lemma ContinueFromBoundary(r: Reader, count: nat)
    requires Good(r)
    requires var g1 := ReadFromBuffer(r, count);
      count > |g1.data| && g1.reader.blockID <= g1.reader.finalBlockID
    ensures var g1 := ReadFromBuffer(r, count);
      FillBuffer(g1.reader).Success? && var r2 := FillBuffer(g1.reader).value;
      Good(r2) && r2.input == r.input && Tell(r2) == Tell(r) + |g1.data| && Tell(r2) <= |Clear(r)| &&
      g1.data == Clear(r)[Tell(r) .. Tell(r2)]
  {
    var g1 := ReadFromBuffer(r, count);
    ReadFromBufferStep(r, count);
    TellAtBoundary(g1.reader);
    FillOk(g1.reader);
  }

  /** Otherwise `read` returns what the buffer gave. */
  lemma ReadStops(r: Reader, count: nat)
    requires Good(r)
    requires var g1 := ReadFromBuffer(r, count);
      !(count > |g1.data| && g1.reader.blockID <= g1.reader.finalBlockID)
    ensures ReadsCleartext(r, count)
  {
    var g1 := ReadFromBuffer(r, count);
    ReadFromBufferStep(r, count);
    ClearLength(r);
    assert Read(r, count) == Success(g1);
    if count > |g1.data| {
      assert BlockAt(r.input, r.key, r.finalBlockID);
    }
  }

  lemma ConcatSlices(s: bytes, i: nat, j: nat, k: nat)
    requires i <= j <= k <= |s|
    ensures s[i..j] + s[j..k] == s[i..k]
  {
  }

  /** After `seek(pos)` the reader is positioned at pos, or at the end of
      the cleartext if pos lies beyond it. */
  lemma SeekTell(r: Reader, pos: nat)
    requires Good(r)
    ensures var s := Seek(r, pos);
      s.Success? && Good(s.value) && s.value.input == r.input && Tell(s.value) == Min(pos, |Clear(r)|)
  {
    ClearLength(r);
    var p := Min(pos, r.inputLength);
    var b := Min(p / FileBlockSize, r.finalBlockID);
    assert b * FileBlockSize <= p;
    var target := r.(blockID := b);
    FillOk(target);
    var f := FillBuffer(target).value;
    if b == r.bufferBlockID {
      assert f.buffer == r.buffer;
    }
    assert Seek(r, pos).value.bufferPos == Min(p - b * FileBlockSize, |f.buffer|);
    assert Seek(r, pos).value.bufferBlockID == b;
    assert BlockAt(r.input, r.key, b);
    if b < r.finalBlockID {
      assert p < b * FileBlockSize + FileBlockSize;
    }
  }

  /** `findLength` reports the cleartext length and leaves the position
      where it was. */
  lemma FindLengthIsClearLength(r: Reader)
    requires Good(r)
    ensures var l := FindLength(r);
      l.Success? && l.value.0 == |Clear(r)| && Good(l.value.1) && Tell(l.value.1) == Tell(r)
  {
    ClearLength(r);
    ReadReadsCleartext(r, 0);
    SeekTell(r, r.inputLength);
    var r1 := Seek(r, r.inputLength).value;
    SeekTell(r1, Tell(r));
  }

  /** What the direct reads of `read` from block b of a sound reader give:
      whole blocks while at least 4096 bytes are wanted. They stop either
      before a block, with fewer than 4096 bytes still wanted, or past the
      final block, having returned the rest of the cleartext. */
  ghost predicate DirectOutcome(r: Reader, m: nat, g: Got)
    requires Sound(r)
  {
    var b := g.reader.blockID;
    r.blockID * FileBlockSize <= |Clear(r)| &&
    g.reader == r.(blockID := b) && r.blockID <= b <= r.finalBlockID + 1 &&
    (b <= r.finalBlockID ==>
      b * FileBlockSize <= |Clear(r)| && |g.data| == (b - r.blockID) * FileBlockSize &&
      g.data == Clear(r)[r.blockID * FileBlockSize .. b * FileBlockSize] && m < |g.data| + FileBlockSize) &&
    (b > r.finalBlockID ==> g.data == Clear(r)[r.blockID * FileBlockSize ..] && |g.data| <= m)
  }

  lemma {:induction false} ReadDirectReadsClear(r: Reader, m: nat)
    requires Sound(r) && r.blockID <= r.finalBlockID
    ensures ReadDirect(r, m).Success? && DirectOutcome(r, m, ReadDirect(r, m).value)
    decreases r.finalBlockID + 1 - r.blockID
  {
    if m >= FileBlockSize && r.blockID < r.finalBlockID {
      var next := r.(blockID := r.blockID + 1);
      ReadDirectReadsClear(next, m - FileBlockSize);
      DirectFullBlock(r, m, ReadDirect(next, m - FileBlockSize).value);
    } else if m >= FileBlockSize {
      DirectFinalBlock(r, m);
    } else {
      BlockInPlaintext(r.input, r.key, r.blockID);
    }
  }

  /** A full block, then the direct reads from the next block. */
  lemma DirectFullBlock(r: Reader, m: nat, rest: Got)
    requires Sound(r) && r.blockID < r.finalBlockID && m >= FileBlockSize
    requires ReadDirect(r.(blockID := r.blockID + 1), m - FileBlockSize) == Success(rest)
    requires DirectOutcome(r.(blockID := r.blockID + 1), m - FileBlockSize, rest)
    ensures ReadDirect(r, m) == Success(Got(rest.reader, r.input[r.blockID].plaintext + rest.data))
    ensures DirectOutcome(r, m, Got(rest.reader, r.input[r.blockID].plaintext + rest.data))
  {
    ReadBlockOk(r);
    FullBlockInClear(r, r.blockID);
    DirectUnfolds(r, m, Got(r.(blockID := r.blockID + 1), r.input[r.blockID].plaintext), rest);
    var start := r.blockID * FileBlockSize;
    if rest.reader.blockID <= r.finalBlockID {
      ConcatSlices(Clear(r), start, start + FileBlockSize, rest.reader.blockID * FileBlockSize);
    } else {
      ConcatSlices(Clear(r), start, start + FileBlockSize, |Clear(r)|);
    }
  }

  /** One step of the direct reads: a block, then the direct reads for
      what is still wanted after it. */
  lemma DirectUnfolds(r: Reader, m: nat, g: Got, rest: Got)
    requires Inv(r) && r.blockID <= r.finalBlockID && m >= FileBlockSize
    requires ReadBlockFromFile(r) == Success(g) && ReadDirect(g.reader, m - |g.data|) == Success(rest)
    ensures ReadDirect(r, m) == Success(Got(rest.reader, g.data + rest.data))
  {
  }

  /** The final block read directly ends the direct reads. */
  lemma DirectFinalBlock(r: Reader, m: nat)
    requires Sound(r) && r.blockID == r.finalBlockID && m >= FileBlockSize
    ensures ReadDirect(r, m) == Success(Got(r.(blockID := r.blockID + 1), r.input[r.blockID].plaintext))
    ensures DirectOutcome(r, m, ReadDirect(r, m).value)
  {
    ReadBlockOk(r);
    ClearLength(r);
    BlockInPlaintext(r.input, r.key, r.blockID);
    var next := r.(blockID := r.blockID + 1);
    var d := r.input[r.blockID].plaintext;
    assert ReadDirect(next, m - |d|) == Success(Got(next, []));
    assert d + [] == d;
  }

  /** `read` as written, once the buffer is used up and blocks remain: the
      direct reads, then the partial block through the buffer. `g1` is what
      the buffer gave, `g2` what the direct reads gave, `c` the cleartext
      and `t` where the read started. */
  lemma ReadAsWrittenTail(r: Reader, count: nat, g1: Got, g2: Got, c: bytes, t: nat)
    requires Inv(r) && g1 == ReadFromBuffer(r, count) && c == Clear(g1.reader)
    requires count > |g1.data| && g1.reader.blockID <= g1.reader.finalBlockID && Sound(g1.reader)
    requires t + |g1.data| == g1.reader.blockID * FileBlockSize <= |c| && g1.data == c[t .. t + |g1.data|]
    requires ReadDirect(g1.reader, count - |g1.data|) == Success(g2)
    requires DirectOutcome(g1.reader, count - |g1.data|, g2)
    ensures ReadAsWritten(r, count).Success?
    ensures ReadAsWritten(r, count).value.data == c[t .. t + Min(count, |c| - t)]
  {
    if g2.reader.blockID > g1.reader.finalBlockID {
      TailPastEnd(r, count, g1, g2, c, t);
    } else if count - |g1.data| - |g2.data| > 0 {
      TailBuffered(r, count, g1, g2, c, t);
    } else {
      TailStopsAtBlock(r, count, g1, g2, c, t);
    }
  }

  /** The direct reads stopped before a block with bytes still wanted. */
  lemma TailBuffered(r: Reader, count: nat, g1: Got, g2: Got, c: bytes, t: nat)
    requires Inv(r) && g1 == ReadFromBuffer(r, count) && c == Clear(g1.reader)
    requires count > |g1.data| && g1.reader.blockID <= g1.reader.finalBlockID && Sound(g1.reader)
    requires t + |g1.data| == g1.reader.blockID * FileBlockSize <= |c| && g1.data == c[t .. t + |g1.data|]
    requires ReadDirect(g1.reader, count - |g1.data|) == Success(g2)
    requires DirectOutcome(g1.reader, count - |g1.data|, g2)
    requires g2.reader.blockID <= g1.reader.finalBlockID && count - |g1.data| - |g2.data| > 0
    ensures ReadAsWritten(r, count).Success?
    ensures ReadAsWritten(r, count).value.data == c[t .. t + Min(count, |c| - t)]
  {
    var m := count - |g1.data|;
    TailInBlock(g1.reader, m, g2, t, g1.data, c, count);
    var r3 := FillBuffer(g2.reader).value;
    var g3 := ReadFromBuffer(r3, m - |g2.data|);
    AsWrittenUnfoldsToBuffer(r, count, g1, m, g2, r3, g3);
  }

  /** The direct reads gave exactly what was still wanted. */
  lemma TailStopsAtBlock(r: Reader, count: nat, g1: Got, g2: Got, c: bytes, t: nat)
    requires Inv(r) && g1 == ReadFromBuffer(r, count) && c == Clear(g1.reader)
    requires count > |g1.data| && g1.reader.blockID <= g1.reader.finalBlockID && Sound(g1.reader)
    requires t + |g1.data| == g1.reader.blockID * FileBlockSize <= |c| && g1.data == c[t .. t + |g1.data|]
    requires ReadDirect(g1.reader, count - |g1.data|) == Success(g2)
    requires DirectOutcome(g1.reader, count - |g1.data|, g2)
    requires g2.reader.blockID <= g1.reader.finalBlockID && count - |g1.data| - |g2.data| == 0
    ensures ReadAsWritten(r, count).Success?
    ensures ReadAsWritten(r, count).value.data == c[t .. t + Min(count, |c| - t)]
  {
    var m := count - |g1.data|;
    var t1, e := t + |g1.data|, g2.reader.blockID * FileBlockSize;
    assert g2.data == c[t1 .. e] && e <= |c|;
    AsWrittenUnfoldsDirect(r, count, g1, m, g2);
    JoinAtBlock(c, t, t1, e, g1.data, g2.data, count);
  }

  /** The buffer's bytes and the whole blocks after them, when they are
      all that was wanted, are the cleartext wanted from `t`. */
  lemma JoinAtBlock(c: bytes, t: nat, t1: nat, e: nat, d1: bytes, d2: bytes, count: nat)
    requires t <= t1 <= e <= |c| && d1 == c[t .. t1] && d2 == c[t1 .. e] && |d1| + |d2| == count
    ensures d1 + d2 == c[t .. t + Min(count, |c| - t)]
  {
    ConcatSlices(c, t, t1, e);
  }

  /** The direct reads from `s` stopped before block b with bytes still
      wanted: block b is buffered and they are taken from there, which
      completes the cleartext wanted from `t`, where `d1` came from the
      buffer. */
  lemma TailInBlock(s: Reader, m: nat, g2: Got, t: nat, d1: bytes, c: bytes, count: nat)
    requires Sound(s) && s.blockID <= s.finalBlockID && c == Clear(s) && count == |d1| + m
    requires t + |d1| == s.blockID * FileBlockSize <= |c| && d1 == c[t .. t + |d1|]
    requires ReadDirect(s, m) == Success(g2) && DirectOutcome(s, m, g2)
    requires g2.reader.blockID <= s.finalBlockID && m > |g2.data|
    ensures FillBuffer(g2.reader).Success?
    ensures var g3 := ReadFromBuffer(FillBuffer(g2.reader).value, m - |g2.data|);
      d1 + g2.data + g3.data == c[t .. t + Min(count, |c| - t)]
  {
    var t1, e := t + |d1|, g2.reader.blockID * FileBlockSize;
    var remaining2 := m - |g2.data|;
    assert g2.data == c[t1 .. e] && remaining2 < FileBlockSize;
    assert Sound(g2.reader) && Clear(g2.reader) == c;
    BufferedBlockRead(g2.reader, remaining2);
    var g3 := ReadFromBuffer(FillBuffer(g2.reader).value, remaining2);
    JoinInBlock(c, t, d1, g2.data, g3.data, e, m, count);
  }

  /** The buffer's bytes, the whole blocks after them and the start of
      the next block are together the cleartext wanted from `t`. */
  lemma JoinInBlock(c: bytes, t: nat, d1: bytes, d2: bytes, d3: bytes, e: nat, m: nat, count: nat)
    requires t + |d1| + |d2| == e <= |c| && d1 == c[t .. t + |d1|] && d2 == c[t + |d1| .. e]
    requires e + |d3| <= |c| && d3 == c[e .. e + |d3|] && e + |d3| == Min(e + (m - |d2|), |c|)
    requires count == |d1| + m && m > |d2|
    ensures d1 + d2 + d3 == c[t .. t + Min(count, |c| - t)]
  {
    assert e + |d3| == t + Min(count, |c| - t);
    ThreeSlices(c, t, t + |d1|, e, e + |d3|);
  }

  /** Buffering block b (not past the final block) and taking fewer than
      4096 bytes from it gives the cleartext at b * 4096, cut short only
      by the end of the stream. */
  lemma BufferedBlockRead(s: Reader, n: nat)
    requires Sound(s) && s.blockID <= s.finalBlockID && 0 < n < FileBlockSize
    ensures FillBuffer(s).Success?
    ensures var g := ReadFromBuffer(FillBuffer(s).value, n); var e := s.blockID * FileBlockSize;
      e + |g.data| <= |Clear(s)| && g.data == Clear(s)[e .. e + |g.data|] &&
      e + |g.data| == Min(e + n, |Clear(s)|)
  {
    FillOk(s);
    var r3 := FillBuffer(s).value;
    ReadFromBufferStep(r3, n);
    var g := ReadFromBuffer(r3, n);
    var b := s.blockID;
    assert BlockAt(s.input, s.key, b);
    ClearLength(s);
    if b < s.finalBlockID {
      BlockInPlaintext(s.input, s.key, b + 1);
    }
  }

  /** The direct reads went past the final block: nothing more is read. */
  lemma TailPastEnd(r: Reader, count: nat, g1: Got, g2: Got, c: bytes, t: nat)
    requires Inv(r) && g1 == ReadFromBuffer(r, count) && c == Clear(g1.reader)
    requires count > |g1.data| && g1.reader.blockID <= g1.reader.finalBlockID && Sound(g1.reader)
    requires t + |g1.data| == g1.reader.blockID * FileBlockSize <= |c| && g1.data == c[t .. t + |g1.data|]
    requires ReadDirect(g1.reader, count - |g1.data|) == Success(g2)
    requires DirectOutcome(g1.reader, count - |g1.data|, g2)
    requires g2.reader.blockID > g1.reader.finalBlockID
    ensures ReadAsWritten(r, count).Success?
    ensures ReadAsWritten(r, count).value.data == c[t .. t + Min(count, |c| - t)]
  {
    var t1 := t + |g1.data|;
    var m := count - |g1.data|;
    assert g2.data == c[t1 ..] && |g2.data| <= m;
    var whole := g1.data + g2.data;
    JoinToEnd(c, t, t1, g1.data, g2.data, count);
    var remaining2 := m - |g2.data|;
    if remaining2 > 0 {
      assert FillBuffer(g2.reader).Success?;
      var r3 := FillBuffer(g2.reader).value;
      assert r3.buffer == [];
      var g3 := ReadFromBuffer(r3, remaining2);
      AsWrittenUnfoldsToBuffer(r, count, g1, m, g2, r3, g3);
      assert g3.data == [];
      assert whole + g3.data == whole;
      assert ReadAsWritten(r, count).value.data == whole;
    } else {
      AsWrittenUnfoldsDirect(r, count, g1, m, g2);
      assert ReadAsWritten(r, count).value.data == whole;
    }
  }

  /** Two reads that run to the end of the cleartext, together, are all of
      it that a read of count bytes from t can return. */
  lemma JoinToEnd(c: bytes, t: nat, t1: nat, d1: bytes, d2: bytes, count: nat)
    requires t <= t1 <= |c| && d1 == c[t .. t1] && d2 == c[t1 ..] && |d1| + |d2| <= count
    ensures d1 + d2 == c[t .. t + Min(count, |c| - t)]
  {
    assert t + Min(count, |c| - t) == |c|;
    assert c[t .. t1] + c[t1 ..] == c[t ..];
  }

  /** The two parts `read` as written puts together when the direct reads
      leave no bytes wanted. */
  lemma AsWrittenUnfoldsDirect(r: Reader, count: nat, g1: Got, m: nat, g2: Got)
    requires Inv(r) && g1 == ReadFromBuffer(r, count) && m == count - |g1.data|
    requires count > |g1.data| && g1.reader.blockID <= g1.reader.finalBlockID
    requires ReadDirect(g1.reader, m) == Success(g2) && m <= |g2.data|
    ensures ReadAsWritten(r, count) == Success(Got(g2.reader, g1.data + g2.data))
  {
  }

  /** The three parts `read` as written puts together when the direct
      reads leave bytes still wanted. */
  lemma AsWrittenUnfoldsToBuffer(r: Reader, count: nat, g1: Got, m: nat, g2: Got, r3: Reader, g3: Got)
    requires Inv(r) && g1 == ReadFromBuffer(r, count) && m == count - |g1.data|
    requires count > |g1.data| && g1.reader.blockID <= g1.reader.finalBlockID
    requires ReadDirect(g1.reader, m) == Success(g2)
    requires m > |g2.data| && FillBuffer(g2.reader) == Success(r3)
    requires g3 == ReadFromBuffer(r3, m - |g2.data|)
    ensures ReadAsWritten(r, count) == Success(Got(g3.reader, g1.data + g2.data + g3.data))
  {
  }

  lemma ThreeSlices(s: bytes, i: nat, j: nat, k: nat, l: nat)
    requires i <= j <= k <= l <= |s|
    ensures s[i..j] + s[j..k] + s[k..l] == s[i..l]
  {
    ConcatSlices(s, i, j, k);
    ConcatSlices(s, i, k, l);
  }

  /** `read` as written returns the same bytes as the corrected `read`: the
      next min(count, bytes left) bytes of cleartext. (It is where it
      leaves the reader that differs; see below.) */
  lemma ReadAsWrittenReadsCleartext(r: Reader, count: nat)
    requires Good(r)
    ensures Tell(r) <= |Clear(r)|
    ensures ReadAsWritten(r, count).Success?
    ensures ReadAsWritten(r, count).value.data == Clear(r)[Tell(r) .. Tell(r) + Min(count, |Clear(r)| - Tell(r))]
  {
    var g1 := ReadFromBuffer(r, count);
    ReadFromBufferStep(r, count);
    if count > |g1.data| && g1.reader.blockID <= g1.reader.finalBlockID {
      assert g1.reader.input == r.input;
      ReadAsWrittenPastBuffer(r, count, g1, Clear(r), Tell(r));
    } else {
      ReadStops(r, count);
      AsWrittenStopsAtBuffer(r, count);
    }
  }

  /** When the buffer runs out with bytes still wanted and blocks left:
      direct reads, then possibly one buffered block. */
  lemma ReadAsWrittenPastBuffer(r: Reader, count: nat, g1: Got, c: bytes, t: nat)
    requires Inv(r) && g1 == ReadFromBuffer(r, count) && Good(g1.reader) && c == Clear(g1.reader)
    requires t + |g1.data| == Tell(g1.reader) <= |c| && g1.data == c[t .. t + |g1.data|]
    requires count > |g1.data| && g1.reader.blockID <= g1.reader.finalBlockID
    ensures ReadAsWritten(r, count).Success?
    ensures ReadAsWritten(r, count).value.data == c[t .. t + Min(count, |c| - t)]
  {
    TellAtBoundary(g1.reader);
    var m := count - |g1.data|;
    ReadDirectReadsClear(g1.reader, m);
    ReadAsWrittenTail(r, count, g1, ReadDirect(g1.reader, m).value, c, t);
  }

  /** When the buffer satisfies the request, or no block is left, both
      versions of `read` return what the buffer gave. */
  lemma AsWrittenStopsAtBuffer(r: Reader, count: nat)
    requires Inv(r)
    requires var g1 := ReadFromBuffer(r, count);
      !(count > |g1.data| && g1.reader.blockID <= g1.reader.finalBlockID)
    ensures ReadAsWritten(r, count) == Read(r, count) == Success(ReadFromBuffer(r, count))
  {
  }

  /** Seeking and then reading, with `read` as written or corrected,
      returns the cleartext from the sought position. */
  lemma SeekThenRead(r: Reader, pos: nat, count: nat)
    requires Good(r)
    ensures var sr := Seek(r, pos); var c := Clear(r); var q := Min(pos, |c|);
      sr.Success? &&
      var g := Read(sr.value, count); var h := ReadAsWritten(sr.value, count);
      g.Success? && g.value.data == c[q .. q + Min(count, |c| - q)] &&
      h.Success? && h.value.data == g.value.data
  {
    var sr := Seek(r, pos);
    var c := Clear(r);
    var q := Min(pos, |c|);
    SeekLands(r, pos, sr, c, q);
    BothReadsFrom(sr.value, count, c, q);
  }

  /** SeekTell restated for a reader `sr` named by the caller: it is
      well-formed, over the same cleartext, at `q`. */
  lemma SeekLands(r: Reader, pos: nat, sr: Result<Reader, StreamError>, c: bytes, q: nat)
    requires Good(r) && sr == Seek(r, pos) && c == Clear(r) && q == Min(pos, |c|)
    ensures sr.Success? && Good(sr.value) && c == Clear(sr.value) && q == Tell(sr.value)
  {
    SeekTell(r, pos);
    assert sr.value.input == r.input;
  }

  /** Both versions of `read` from a well-formed reader at `q` return the
      cleartext from `q`. */
  lemma BothReadsFrom(s: Reader, count: nat, c: bytes, q: nat)
    requires Good(s) && c == Clear(s) && q == Tell(s)
    ensures var g := Read(s, count); var h := ReadAsWritten(s, count);
      g.Success? && q <= |c| && g.value.data == c[q .. q + Min(count, |c| - q)] &&
      h.Success? && h.value.data == g.value.data
  {
    ReadReadsCleartext(s, count);
    ReadAsWrittenReadsCleartext(s, count);
  }

  // ---------------------------------------------------------------------------
  // What the direct reads of `read` as written do to `tell` and `seek`
  // ---------------------------------------------------------------------------

  /** A full block read straight to the caller when fewer than two blocks
      are wanted. */
  lemma DirectOneBlock(r: Reader, remaining: nat)
    requires Sound(r) && r.blockID < r.finalBlockID
    requires FileBlockSize <= remaining < 2 * FileBlockSize
    ensures ReadDirect(r, remaining) == Success(Got(r.(blockID := r.blockID + 1), r.input[r.blockID].plaintext))
  {
    ReadBlockOk(r);
    assert BlockAt(r.input, r.key, r.blockID);
    var next := r.(blockID := r.blockID + 1);
    assert ReadDirect(next, remaining - FileBlockSize) == Success(Got(next, []));
    assert r.input[r.blockID].plaintext + [] == r.input[r.blockID].plaintext;
  }

  /** The cleartext of block k (k before the final block) is the 4096
      bytes at k * 4096. */
  lemma FullBlockInClear(r: Reader, k: nat)
    requires Sound(r) && k < r.finalBlockID
    ensures (k + 1) * FileBlockSize <= |Clear(r)|
    ensures Clear(r)[k * FileBlockSize .. (k + 1) * FileBlockSize] == r.input[k].plaintext
  {
    assert BlockAt(r.input, r.key, k);
    BlockInPlaintext(r.input, r.key, k);
  }

  /** As written, a fresh reader asked for two blocks returns them but
      still reports position 0, since the blocks bypassed the buffer. */
  lemma ReadAsWrittenLeavesTellBehind(r: Reader)
    requires Good(r) && r.bufferBlockID == UInt64Max && |r.input| >= 3
    ensures 2 * FileBlockSize <= |Clear(r)|
    ensures ReadAsWritten(r, 2 * FileBlockSize).Success?
    ensures ReadAsWritten(r, 2 * FileBlockSize).value.data == Clear(r)[..2 * FileBlockSize]
    ensures Tell(ReadAsWritten(r, 2 * FileBlockSize).value.reader) == 0
  {
    ReadBlockOk(r);
    var ra := r.(blockID := 1);
    DirectOneBlock(ra, FileBlockSize);
    assert ReadDirect(r, 2 * FileBlockSize) ==
      Success(Got(ra.(blockID := 2), r.input[0].plaintext + r.input[1].plaintext));
    FullBlockInClear(r, 0);
    FullBlockInClear(r, 1);
    ConcatSlices(Clear(r), 0, FileBlockSize, 2 * FileBlockSize);
  }

  /** With the corrected `read`, the same call leaves the reader at 8192. */
  lemma ReadAdvancesTell(r: Reader)
    requires Good(r) && r.bufferBlockID == UInt64Max && |r.input| >= 3
    ensures 2 * FileBlockSize <= |Clear(r)|
    ensures Read(r, 2 * FileBlockSize).Success?
    ensures Read(r, 2 * FileBlockSize).value.data == Clear(r)[..2 * FileBlockSize]
    ensures Tell(Read(r, 2 * FileBlockSize).value.reader) == 2 * FileBlockSize
  {
    ReadReadsCleartext(r, 2 * FileBlockSize);
    FullBlockInClear(r, 1);
  }

  /** The reader after `read(100)` then `read(8092)` as written: block 0 is
      still buffered (used up), but block 1 has been read past it. */
  lemma TwoReadsAsWritten(r: Reader)
    requires Good(r) && r.bufferBlockID == UInt64Max && |r.input| >= 4
    ensures ReadAsWritten(r, 100).Success?
    ensures var r1 := ReadAsWritten(r, 100).value.reader;
      ReadAsWritten(r1, 8092).Success? &&
      ReadAsWritten(r1, 8092).value.reader ==
        r.(bufferBlockID := 0, blockID := 2, buffer := r.input[0].plaintext, bufferPos := FileBlockSize)
  {
    FillOk(r);
    assert BlockAt(r.input, r.key, 0);
    var r1 := r.(bufferBlockID := 0, blockID := 1, buffer := r.input[0].plaintext, bufferPos := 100);
    assert ReadAsWritten(r, 100).value.reader == r1;
    var r1b := r1.(bufferPos := FileBlockSize);
    assert ReadFromBuffer(r1, 8092).reader == r1b;
    DirectOneBlock(r1b, FileBlockSize);
  }

  /** As written: read(100), read(8092), seek(0), read(8192) returns block 0
      followed by block 2; block 1 is skipped, because `seek` found block 0
      still buffered and left the file position after block 1. */
  lemma SeekBackSkipsBlockAsWritten(r: Reader)
    requires Good(r) && r.bufferBlockID == UInt64Max && |r.input| >= 4
    ensures 3 * FileBlockSize <= |Clear(r)|
    ensures ReadAsWritten(r, 100).Success?
    ensures var r1 := ReadAsWritten(r, 100).value.reader;
      ReadAsWritten(r1, 8092).Success? &&
      var r2 := ReadAsWritten(r1, 8092).value.reader;
      Seek(r2, 0).Success? && ReadAsWritten(Seek(r2, 0).value, 2 * FileBlockSize).Success? &&
      ReadAsWritten(Seek(r2, 0).value, 2 * FileBlockSize).value.data ==
        Clear(r)[..FileBlockSize] + Clear(r)[2 * FileBlockSize .. 3 * FileBlockSize]
  {
    TwoReadsAsWritten(r);
    assert BlockAt(r.input, r.key, 0);
    var r3 := r.(bufferBlockID := 0, blockID := 2, buffer := r.input[0].plaintext, bufferPos := 0);
    var r3b := r3.(bufferPos := FileBlockSize);
    assert ReadFromBuffer(r3, 2 * FileBlockSize) == Got(r3b, r.input[0].plaintext);
    DirectOneBlock(r3b, FileBlockSize);
    FullBlockInClear(r, 0);
    FullBlockInClear(r, 2);
  }

  /** With the corrected `read`, the same calls return the first 8192 bytes. */
  lemma SeekBackRereads(r: Reader)
    requires Good(r) && r.bufferBlockID == UInt64Max && |r.input| >= 4
    ensures 2 * FileBlockSize <= |Clear(r)|
    ensures Read(r, 100).Success?
    ensures var r1 := Read(r, 100).value.reader;
      Read(r1, 8092).Success? &&
      var r2 := Read(r1, 8092).value.reader;
      Seek(r2, 0).Success? && Read(Seek(r2, 0).value, 2 * FileBlockSize).Success? &&
      Read(Seek(r2, 0).value, 2 * FileBlockSize).value.data == Clear(r)[..2 * FileBlockSize]
  {
    ReadReadsCleartext(r, 100);
    var r1 := Read(r, 100).value.reader;
    ReadReadsCleartext(r1, 8092);
    var r2 := Read(r1, 8092).value.reader;
    SeekThenRead(r2, 0, 2 * FileBlockSize);
    FullBlockInClear(r, 1);
  }
}
