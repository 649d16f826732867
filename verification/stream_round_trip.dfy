/** What a closed `EncryptedWriteStream` produced, opened by an
    `EncryptedReadStream` under the same key, reads back as the cleartext
    that was written (LiteCore/Support/EncryptedStream.cc). */
module StreamRoundTrip {
  import opened Wrappers
  import opened StreamLayout
  import EncryptedWriter
  import EncryptedReader

  /** Opening the output of a closed writer gives a reader positioned at 0
      whose stream holds exactly the written cleartext. */
  lemma OpenWrittenStream(w: EncryptedWriter.Writer, encryptionKey: bytes)
    requires EncryptedWriter.Inv(w) && IsKey(encryptionKey)
    requires w.key == encryptionKey
    requires EncryptedWriter.OutputLength(EncryptedWriter.Close(w)) <= UInt64Max
    ensures var c := EncryptedWriter.Close(w);
      var o := EncryptedReader.Open(c.blocks, EncryptedWriter.OutputLength(c), c.trailer, AES128, encryptionKey);
      o.Success? && EncryptedReader.Good(o.value) && EncryptedReader.Tell(o.value) == 0 &&
      EncryptedReader.Clear(o.value) == EncryptedWriter.Written(w)
  {
    var c := EncryptedWriter.Close(w);
    assert c.trailer[..AES128KeySize] == w.nonce;
    EncryptedReader.FinalBlockOfStream(c.blocks, c.key);
  }

  /** Reading n bytes from the start of the written stream, with `read` as
      written or corrected, returns the first n bytes written (all of them
      if fewer were written). */
  lemma ReadBackWritten(w: EncryptedWriter.Writer, encryptionKey: bytes, n: nat)
    requires EncryptedWriter.Inv(w) && IsKey(encryptionKey)
    requires w.key == encryptionKey
    requires EncryptedWriter.OutputLength(EncryptedWriter.Close(w)) <= UInt64Max
    ensures var c := EncryptedWriter.Close(w);
      var o := EncryptedReader.Open(c.blocks, EncryptedWriter.OutputLength(c), c.trailer, AES128, encryptionKey);
      o.Success? && EncryptedReader.Read(o.value, n).Success? &&
      EncryptedReader.Read(o.value, n).value.data ==
        EncryptedWriter.Written(w)[..Min(n, |EncryptedWriter.Written(w)|)] &&
      EncryptedReader.ReadAsWritten(o.value, n).Success? &&
      EncryptedReader.ReadAsWritten(o.value, n).value.data ==
        EncryptedWriter.Written(w)[..Min(n, |EncryptedWriter.Written(w)|)]
  {
    OpenWrittenStream(w, encryptionKey);
    var c := EncryptedWriter.Close(w);
    var o := EncryptedReader.Open(c.blocks, EncryptedWriter.OutputLength(c), c.trailer, AES128, encryptionKey);
    var x := EncryptedWriter.Written(w);
    EncryptedReader.BothReadsFrom(o.value, n, x, 0);
    assert x[0 .. 0 + Min(n, |x| - 0)] == x[..Min(n, |x|)];
  }

  /** A fresh writer under a key and nonce, one `write` of `data`, `close`,
      then a reader opened on the output under the same key: `read` as
      written, asked for |data| bytes, gives `data` back. */
  method WriteThenReadBack(encryptionKey: bytes, nonce: bytes, data: bytes) returns (back: bytes)
    requires IsKey(encryptionKey) && IsKey(nonce)
    requires |data| + 2 * AESBlockSize <= UInt64Max
    ensures back == data
  {
    var w0 := EncryptedWriter.Create(AES128, encryptionKey, nonce).value;
    var w := EncryptedWriter.Write(w0, data);
    assert EncryptedWriter.Written(w) == data by {
      assert EncryptedWriter.Written(w0) + data == [] + data == data;
    }
    EncryptedWriter.ClosedLayout(w);
    var c := EncryptedWriter.Close(w);
    OpenWrittenStream(w, encryptionKey);
    var r := EncryptedReader.Open(c.blocks, EncryptedWriter.OutputLength(c), c.trailer, AES128, encryptionKey).value;
    assert EncryptedReader.ReadAsWritten(r, |data|).Success? && EncryptedReader.ReadAsWritten(r, |data|).value.data == data by {
      ReadBackWritten(w, encryptionKey, |data|);
      assert data[..Min(|data|, |data|)] == data;
    }
    back := EncryptedReader.ReadAsWritten(r, |data|).value.data;
  }
}
