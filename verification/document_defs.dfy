/** The document and revision flag sets and the put-request structure of the
    C# interop layer (CSharp/src/LiteCore.Shared/Interop/C4Document_defs.cs).
    The structure keeps its booleans in private byte fields and its history
    count in a pointer-sized field; its properties convert on the way in
    and out. */
module DocumentDefs {
  import opened Wrappers
  import opened C4Base

  type byte = bv8

  // ---------------------------------------------------------------------------
  // Flag sets
  // ---------------------------------------------------------------------------

  /** `C4DocumentFlags`, a 32-bit flag set. */
  const DocDeleted: bv32 := 0x01
  const DocConflicted: bv32 := 0x02
  const DocHasAttachments: bv32 := 0x04
  const DocExists: bv32 := 0x1000

  const DocumentFlags: seq<bv32> := [DocDeleted, DocConflicted, DocHasAttachments, DocExists]

  /** `C4RevisionFlags`, an 8-bit flag set. */
  const RevDeleted: byte := 0x01
  const RevLeaf: byte := 0x02
  const RevNew: byte := 0x04
  const RevHasAttachments: byte := 0x08
  const RevKeepBody: byte := 0x10
  const RevIsConflict: byte := 0x20

  const RevisionFlags: seq<byte> := [RevDeleted, RevLeaf, RevNew, RevHasAttachments, RevKeepBody, RevIsConflict]

  /** A value with exactly one bit set. */
  predicate SingleBit32(x: bv32) {
    x != 0 && x & (x - 1) == 0
  }

  predicate SingleBit8(x: byte) {
    x != 0 && x & (x - 1) == 0
  }

  /** Each document flag is one bit, and no two share it, so a flag set is
      exactly the set of flags whose bit it has. */
  lemma DocumentFlagsAreDistinctBits()
    ensures forall i :: 0 <= i < |DocumentFlags| ==> SingleBit32(DocumentFlags[i])
    ensures forall i, j :: 0 <= i < j < |DocumentFlags| ==> DocumentFlags[i] & DocumentFlags[j] == 0
  {
  }

  /** Each revision flag is one bit of the byte, and no two share it. */
  lemma RevisionFlagsAreDistinctBits()
    ensures forall i :: 0 <= i < |RevisionFlags| ==> SingleBit8(RevisionFlags[i])
    ensures forall i, j :: 0 <= i < j < |RevisionFlags| ==> RevisionFlags[i] & RevisionFlags[j] == 0
  {
  }

  /** The union of the flags in `fs`. */
  function Union(fs: seq<byte>): byte
    decreases |fs|
  {
    if |fs| == 0 then 0 else Union(fs[..|fs| - 1]) | fs[|fs| - 1]
  }

  /** All six revision flags together take the low six bits, so the top two
      bits of the byte stay free. */
  lemma RevisionFlagsFitInSixBits()
    ensures Union(RevisionFlags) == 0x3F
  {
    var fs := RevisionFlags;
    assert fs[..6] == fs;
    assert fs[..6][..5] == fs[..5] && fs[..5][..4] == fs[..4] && fs[..4][..3] == fs[..3];
    assert fs[..3][..2] == fs[..2] && fs[..2][..1] == fs[..1] && fs[..1][..0] == [];
    assert Union(fs[..1]) == 0x01;
    assert Union(fs[..2]) == 0x03;
    assert Union(fs[..3]) == 0x07;
    assert Union(fs[..4]) == 0x0F;
    assert Union(fs[..5]) == 0x1F;
  }

  /** Whether a flag set contains flag `f`. */
  predicate Has(flags: byte, f: byte) {
    flags & f == f
  }

  /** Setting one revision flag leaves every other one as it was. */
  lemma SettingFlagKeepsOthers(flags: byte, i: nat, j: nat)
    requires i < |RevisionFlags| && j < |RevisionFlags| && i != j
    ensures Has(flags | RevisionFlags[i], RevisionFlags[i])
    ensures Has(flags | RevisionFlags[i], RevisionFlags[j]) == Has(flags, RevisionFlags[j])
  {
    RevisionFlagsAreDistinctBits();
    assert RevisionFlags[i] & RevisionFlags[j] == 0 by {
      if j < i {
        assert RevisionFlags[j] & RevisionFlags[i] == 0;
      }
    }
    ClearedBitsIndependent(flags, RevisionFlags[i], RevisionFlags[j]);
  }

  lemma ClearedBitsIndependent(flags: byte, a: byte, b: byte)
    requires a & b == 0 && SingleBit8(b)
    ensures ((flags | a) & b == b) == (flags & b == b)
  {
  }

  // ---------------------------------------------------------------------------
  // C4DocPutRequest
  // ---------------------------------------------------------------------------

  /** `C4DocPutRequest`, field by field. `historyCount` holds the value of a
      `UIntPtr`, whose width is that of the platform's pointers. */
  datatype PutRequest = PutRequest(
    body: C4Slice,
    docID: C4Slice,
    revFlags: byte,
    existingRevisionByte: byte,
    allowConflictByte: byte,
    history: Pointer,
    historyCountField: nat,
    saveByte: byte,
    maxRevTreeDepth: nat,
    remoteDBID: nat)

  /** `Convert.ToBoolean(byte)`: any non-zero byte is true. */
  function ByteToBool(b: byte): (r: bool)
    ensures r <==> b != 0
  {
    b != 0
  }

  /** `Convert.ToByte(bool)`: true is 1, false is 0. */
  function BoolToByte(v: bool): (b: byte)
    ensures b == 0 || b == 1
    ensures ByteToBool(b) == v
  {
    if v then 1 else 0
  }

  /** Reading a byte back as a boolean and storing it again normalises it:
      the round trip is exact only for 0 and 1. */
  lemma ByteRoundTrip(b: byte)
    ensures BoolToByte(ByteToBool(b)) == b <==> b == 0 || b == 1
  {
  }

  function ExistingRevision(r: PutRequest): bool {
    ByteToBool(r.existingRevisionByte)
  }

  function SetExistingRevision(r: PutRequest, v: bool): (r': PutRequest)
    ensures ExistingRevision(r') == v
    ensures r' == r.(existingRevisionByte := r'.existingRevisionByte)
  {
    r.(existingRevisionByte := BoolToByte(v))
  }

  function AllowConflict(r: PutRequest): bool {
    ByteToBool(r.allowConflictByte)
  }

  function SetAllowConflict(r: PutRequest, v: bool): (r': PutRequest)
    ensures AllowConflict(r') == v
    ensures r' == r.(allowConflictByte := r'.allowConflictByte)
  {
    r.(allowConflictByte := BoolToByte(v))
  }

  function Save(r: PutRequest): bool {
    ByteToBool(r.saveByte)
  }

  function SetSave(r: PutRequest, v: bool): (r': PutRequest)
    ensures Save(r') == v
    ensures r' == r.(saveByte := r'.saveByte)
  {
    r.(saveByte := BoolToByte(v))
  }

  /** The widths a `UIntPtr` can have. */
  predicate PointerWidth(bits: nat) {
    bits == 32 || bits == 64
  }

  /** One more than the largest value a `UIntPtr` of the given width holds. */
  function PointerLimit(bits: nat): nat
    requires PointerWidth(bits)
  {
    if bits == 32 then 0x1_0000_0000 else 0x1_0000_0000_0000_0000
  }

  /** The `historyCount` getter: `UIntPtr.ToUInt64()`, which never loses
      anything. */
  function HistoryCount(r: PutRequest): nat {
    r.historyCountField
  }

  /** The `historyCount` setter: the cast to `UIntPtr` keeps a value that
      fits the pointer width and raises an overflow for one that does not,
      which only a 32-bit platform can meet. */
  function SetHistoryCount(r: PutRequest, v: nat, bits: nat): (res: Result<PutRequest, string>)
    requires PointerWidth(bits) && v < PointerLimit(64)
    ensures res.Success? <==> v < PointerLimit(bits)
    ensures res.Success? ==> HistoryCount(res.value) == v
    ensures res.Success? ==> res.value == r.(historyCountField := v)
  {
    if v < PointerLimit(bits) then Success(r.(historyCountField := v))
    else Failure("OverflowException")
  }

  /** On a 64-bit platform every `ulong` fits. */
  lemma HistoryCountAlwaysFits64(r: PutRequest, v: nat)
    requires v < PointerLimit(64)
    ensures SetHistoryCount(r, v, 64) == Success(r.(historyCountField := v))
  {
  }

  /** The boolean properties read back what was last written, whatever was
      written to the others in between. */
  lemma {:induction false} SettersIndependent(r: PutRequest, a: bool, b: bool, c: bool)
    ensures var r' := SetSave(SetAllowConflict(SetExistingRevision(r, a), b), c);
      ExistingRevision(r') == a && AllowConflict(r') == b && Save(r') == c &&
      r'.body == r.body && r'.docID == r.docID && r'.revFlags == r.revFlags &&
      r'.history == r.history && r'.historyCountField == r.historyCountField &&
      r'.maxRevTreeDepth == r.maxRevTreeDepth && r'.remoteDBID == r.remoteDBID
  {
    var r1 := SetExistingRevision(r, a);
    var r2 := SetAllowConflict(r1, b);
    assert ExistingRevision(r2) == a;
  }

  /** Writing a property its getter already returns changes nothing only
      when the backing byte was already canonical. */
  lemma RewriteNormalises(r: PutRequest)
    ensures SetSave(r, Save(r)) == r <==> r.saveByte == 0 || r.saveByte == 1
  {
    ByteRoundTrip(r.saveByte);
    if SetSave(r, Save(r)) == r {
      assert SetSave(r, Save(r)).saveByte == BoolToByte(ByteToBool(r.saveByte));
    }
  }
}
