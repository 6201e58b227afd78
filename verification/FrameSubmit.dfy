/** FRAME_SUBMIT metadata: a 72-byte fixed layout with reserved bytes and a payload shape rule. */
module FrameSubmit {
  import opened Wire
  import opened Bits

  const METADATA_LEN := 72
  const BUDGET_POLICY_KNOWN_MASK := 0x0f
  const TENSOR_BIT := 0

  type InputProfile = b: int | 0 <= b <= 2
  type TileIndexMode = b: int | 0 <= b <= 3
  type SubmitMode = b: int | 0 <= b <= 2
  predicate KnownTolerance(b: int) { 0 <= b <= 3 || b == 0xff }
  type LossTolerance = b: int | KnownTolerance(b)

  datatype Metadata = Metadata(
    srcWidth: u16, srcHeight: u16, tileWidth: u16, tileHeight: u16, tileCount: u16, sectionCount: u16,
    frameClass: byte, inputProfile: InputProfile, tileIndexMode: TileIndexMode, latencyBudgetMs: u16,
    targetFpsX100: u16, retryOfFrame: u32, tileBaseId: u32, cameraBytes: u32, tileIndexBytes: u32,
    operationId: u64, submitMode: SubmitMode, budgetPolicy: byte, lossTolerance: LossTolerance, objectRefMask: u32,
    dependencyFrameId: u32, payloadKindBitmap: u32, payloadFrameCount: u16)

  const LAYOUT: seq<Field> := [
    Field(0, 2), Field(2, 2), Field(4, 2), Field(6, 2), Field(8, 2), Field(10, 2), Field(12, 1), Field(13, 1),
    Field(14, 1), Field(15, 1), Field(16, 2), Field(18, 2), Field(20, 4), Field(24, 4), Field(28, 4), Field(32, 4),
    Field(36, 4), Field(40, 8), Field(48, 4), Field(52, 1), Field(53, 1), Field(54, 1), Field(55, 1), Field(56, 4),
    Field(60, 4), Field(64, 4), Field(68, 2), Field(70, 2)]

  lemma {:induction false} LayoutCovers()
    ensures Covers(LAYOUT, METADATA_LEN)
  {
    assert forall i | 0 <= i < |LAYOUT| :: Linked(LAYOUT, i, METADATA_LEN);
    LinkedTiles(LAYOUT, 0, METADATA_LEN);
  }

  function Values(m: Metadata): (v: seq<nat>)
    ensures Fits(LAYOUT, v)
  {
    Widths();
    [m.srcWidth, m.srcHeight, m.tileWidth, m.tileHeight, m.tileCount, m.sectionCount, m.frameClass, m.inputProfile,
     m.tileIndexMode, 0, m.latencyBudgetMs, m.targetFpsX100, m.retryOfFrame, m.tileBaseId, m.cameraBytes,
     m.tileIndexBytes, 0, m.operationId, 0, m.submitMode, m.budgetPolicy, m.lossTolerance, 0, m.objectRefMask,
     m.dependencyFrameId, m.payloadKindBitmap, m.payloadFrameCount, 0]
  }

  predicate ReservedClear(v: seq<nat>)
    requires |v| == 28
  {
    v[9] == 0 && v[16] == 0 && v[18] == 0 && v[22] == 0 && v[27] == 0
  }

  predicate EnumsKnown(v: seq<nat>)
    requires |v| == 28
  {
    v[7] <= 2 && v[8] <= 3 && v[19] <= 2 && KnownTolerance(v[21])
  }

  function FromFields(v: seq<nat>): Metadata
    requires Fits(LAYOUT, v) && EnumsKnown(v)
  {
    Widths();
    assert forall i | 0 <= i < 28 :: v[i] < Pow256(LAYOUT[i].width);
    Metadata(v[0], v[1], v[2], v[3], v[4], v[5], v[6], v[7], v[8], v[10], v[11], v[12], v[13], v[14], v[15],
             v[17], v[19], v[20], v[21], v[23], v[24], v[25], v[26])
  }

  lemma {:induction false} FieldsValues(v: seq<nat>)
    requires Fits(LAYOUT, v) && EnumsKnown(v) && ReservedClear(v)
    ensures Values(FromFields(v)) == v
  {
  }

  lemma {:induction false} ValuesInjective(a: Metadata, b: Metadata)
    requires Values(a) == Values(b)
    ensures a == b
  {
    assert forall i | 0 <= i < 28 :: Values(a)[i] == Values(b)[i];
  }

  /** What must hold between the fields; without tensors every tile field is clear. */
  function ShapeError(m: Metadata): Option<NnrpError> {
    if m.operationId == 0 then Some(InvalidProtocolCombination(ZeroSubmitOperation))
    else if Bit(m.payloadKindBitmap, TENSOR_BIT) then None
    else if m.srcWidth != 0 || m.srcHeight != 0 || m.tileWidth != 0 || m.tileHeight != 0 || m.tileCount != 0
      || m.sectionCount != 0 || m.tileBaseId != 0 || m.cameraBytes != 0 || m.tileIndexBytes != 0 || m.inputProfile != 0
    then Some(InvalidProtocolCombination(TensorFieldsSet))
    else None
  }

  function MaskError(budgetPolicy: nat, bitmap: nat): Option<NnrpError> {
    if AndNot(budgetPolicy, BUDGET_POLICY_KNOWN_MASK) != 0 then
      Some(ReservedBitsSet(budgetPolicy, BUDGET_POLICY_KNOWN_MASK))
    else if AndNot(bitmap, PAYLOAD_KIND_KNOWN_MASK) != 0 then Some(ReservedBitsSet(bitmap, PAYLOAD_KIND_KNOWN_MASK))
    else None
  }

  function WriteError(m: Metadata): Option<NnrpError> {
    if MaskError(m.budgetPolicy, m.payloadKindBitmap).Some? then MaskError(m.budgetPolicy, m.payloadKindBitmap)
    else ShapeError(m)
  }

  function ToBytes(m: Metadata): Result<seq<byte>, NnrpError> {
    if WriteError(m).Some? then Err(WriteError(m).value) else Ok(Pack(LAYOUT, Values(m)))
  }

  method Write(m: Metadata, dst: array<byte>) returns (r: Result<(), NnrpError>)
    modifies dst
    ensures r ==
      if dst.Length < METADATA_LEN then Err(DestinationTooShort(METADATA_LEN, dst.Length))
      else if ToBytes(m).Err? then Err(ToBytes(m).error)
      else Ok(())
    ensures r.Ok? ==> dst[..METADATA_LEN] == ToBytes(m).value && dst[METADATA_LEN..] == old(dst[METADATA_LEN..])
    ensures r.Err? ==> dst[..] == old(dst[..])
  {
    if dst.Length < METADATA_LEN { return Err(DestinationTooShort(METADATA_LEN, dst.Length)); }
    var error := WriteError(m);
    if error.Some? { return Err(error.value); }
    LayoutCovers();
    WriteFields(dst, LAYOUT, Values(m), METADATA_LEN);
    r := Ok(());
  }

  function EnumError(v: seq<nat>): Option<NnrpError>
    requires |v| == 28
  {
    if v[7] > 2 then Some(UnknownEnumValue(v[7]))
    else if v[8] > 3 then Some(UnknownEnumValue(v[8]))
    else if v[19] > 2 then Some(UnknownEnumValue(v[19]))
    else if !KnownTolerance(v[21]) then Some(UnknownEnumValue(v[21]))
    else None
  }

  /** The message whose fields hold the values `v`. */
  function FromValues(v: seq<nat>): Result<Metadata, NnrpError>
    requires Fits(LAYOUT, v)
  {
    if !ReservedClear(v) then Err(NonZeroReservedField)
    else if MaskError(v[20], v[25]).Some? then Err(MaskError(v[20], v[25]).value)
    else if EnumError(v).Some? then Err(EnumError(v).value)
    else
      var m := FromFields(v);
      if ShapeError(m).Some? then Err(ShapeError(m).value) else Ok(m)
  }

  function Parse(source: seq<byte>): Result<Metadata, NnrpError> {
    if |source| < METADATA_LEN then Err(SourceTooShort(METADATA_LEN, |source|))
    else
      LayoutCovers();
      FromValues(Unpack(LAYOUT, source[..METADATA_LEN]))
  }

  lemma {:induction false} ValuesAccepted(m: Metadata)
    requires WriteError(m).None?
    ensures FromValues(Values(m)) == Ok(m)
  {
    FieldsValues(Values(m));
    ValuesInjective(FromFields(Values(m)), m);
  }

  lemma {:induction false} AcceptedValues(v: seq<nat>)
    requires Fits(LAYOUT, v) && FromValues(v).Ok?
    ensures WriteError(FromValues(v).value).None? && Values(FromValues(v).value) == v
  {
    FieldsValues(v);
  }

  /** Everything that can be written parses back to itself, whatever follows it. */
  lemma {:induction false} WriteThenParse(m: Metadata, rest: seq<byte>)
    requires ToBytes(m).Ok?
    ensures |ToBytes(m).value| == METADATA_LEN && Parse(ToBytes(m).value + rest) == Ok(m)
  {
    LayoutCovers();
    UnpackPack(LAYOUT, Values(m), METADATA_LEN);
    assert (ToBytes(m).value + rest)[..METADATA_LEN] == ToBytes(m).value;
    ValuesAccepted(m);
  }

  /** The first 72 bytes of every accepted input are reproduced by writing what was parsed. */
  lemma {:induction false} ParseThenWrite(source: seq<byte>)
    requires Parse(source).Ok?
    ensures ToBytes(Parse(source).value) == Ok(source[..METADATA_LEN])
  {
    LayoutCovers();
    PackUnpack(LAYOUT, source[..METADATA_LEN]);
    AcceptedValues(Unpack(LAYOUT, source[..METADATA_LEN]));
  }

  /** Every field of `m` stands at its own offset, and reserved bytes are zero. */
  predicate StandsIn(m: Metadata, source: seq<byte>) {
    && At(source, 0, 2, m.srcWidth) && At(source, 2, 2, m.srcHeight) && At(source, 4, 2, m.tileWidth)
    && At(source, 6, 2, m.tileHeight) && At(source, 8, 2, m.tileCount) && At(source, 10, 2, m.sectionCount)
    && At(source, 12, 1, m.frameClass) && At(source, 13, 1, m.inputProfile) && At(source, 14, 1, m.tileIndexMode)
    && At(source, 16, 2, m.latencyBudgetMs) && At(source, 18, 2, m.targetFpsX100)
    && At(source, 20, 4, m.retryOfFrame) && At(source, 24, 4, m.tileBaseId) && At(source, 28, 4, m.cameraBytes)
    && At(source, 32, 4, m.tileIndexBytes) && At(source, 40, 8, m.operationId) && At(source, 52, 1, m.submitMode)
    && At(source, 53, 1, m.budgetPolicy) && At(source, 54, 1, m.lossTolerance)
    && At(source, 56, 4, m.objectRefMask) && At(source, 60, 4, m.dependencyFrameId)
    && At(source, 64, 4, m.payloadKindBitmap) && At(source, 68, 2, m.payloadFrameCount) && At(source, 15, 1, 0)
    && At(source, 36, 4, 0) && At(source, 48, 4, 0) && At(source, 55, 1, 0) && At(source, 70, 2, 0)
  }

  lemma {:induction false} ValuesStand(m: Metadata, source: seq<byte>)
    requires forall i | 0 <= i < |LAYOUT| :: At(source, LAYOUT[i].off, LAYOUT[i].width, Values(m)[i])
    ensures StandsIn(m, source)
  {
    var v := Values(m);
    assert v == [v[0], v[1], v[2], v[3], v[4], v[5], v[6], v[7], v[8], v[9], v[10], v[11], v[12], v[13], v[14],
      v[15], v[16], v[17], v[18], v[19], v[20], v[21], v[22], v[23], v[24], v[25], v[26], v[27]];
  }

  /** Every parsed field is the little-endian value at its own offset, and reserved bytes are zero. */
  lemma {:induction false} FieldOffsets(source: seq<byte>)
    requires Parse(source).Ok?
    ensures StandsIn(Parse(source).value, source)
  {
    LayoutCovers();
    UnpackPrefix(LAYOUT, source, METADATA_LEN);
    AcceptedValues(Unpack(LAYOUT, source[..METADATA_LEN]));
    ValuesStand(Parse(source).value, source);
  }

  /** Where each field starts and how many bytes it takes, reserved fields included. */
  const OFFSETS: seq<nat> := [
    0, 2, 4, 6, 8, 10, 12, 13, 14, 15, 16, 18, 20, 24, 28, 32, 36, 40, 48, 52, 53, 54, 55, 56, 60, 64, 68, 70]
  const WIDTHS: seq<nat> := [2, 2, 2, 2, 2, 2, 1, 1, 1, 1, 2, 2, 4, 4, 4, 4, 4, 8, 4, 1, 1, 1, 1, 4, 4, 4, 2, 2]

  /** `v` lists what stands at each byte offset. */
  ghost predicate Reads(source: seq<byte>, v: seq<nat>) {
    |v| == |OFFSETS| == |WIDTHS| && forall i | 0 <= i < |v| :: At(source, OFFSETS[i], WIDTHS[i], v[i])
  }

  lemma {:induction false} SameTable()
    ensures |OFFSETS| == |WIDTHS| == |LAYOUT|
    ensures forall i | 0 <= i < |LAYOUT| :: LAYOUT[i].off == OFFSETS[i] && LAYOUT[i].width == WIDTHS[i]
  {
  }

  predicate FieldsOk(v: seq<nat>)
    requires |v| == 28
  {
    && v[9] == v[16] == v[18] == v[22] == v[27] == 0
    && v[7] <= 2 && v[8] <= 3 && v[19] <= 2 && (v[21] <= 3 || v[21] == 0xff)
    && v[20] < 0x10 && v[25] < 0x80 && v[17] != 0
    && (v[25] % 2 == 1 || (
          && v[0] == v[1] == v[2] == v[3] == v[4] == v[5] == 0
          && v[7] == 0 && v[13] == v[14] == v[15] == 0))
  }

  lemma {:induction false} FieldsOkIff(v: seq<nat>)
    requires Fits(LAYOUT, v)
    ensures FromValues(v).Ok? <==> FieldsOk(v)
  {
    KnownMasks(v[20]);
    KnownMasks(v[25]);
    LowBits(v[25]);
  }

  /** Which byte strings are accepted, in numbers at byte offsets: `v` is what stands at each offset. Reserved
      bytes are clear, codes and masks known, the operation is named, and without tensors every tile field
      is clear. */
  lemma {:induction false} AcceptedIff(source: seq<byte>) returns (v: seq<nat>)
    requires |source| >= 72
    ensures |v| == 28 && Reads(source, v) && (Parse(source).Ok? <==> FieldsOk(v))
  {
    LayoutCovers();
    v := Unpack(LAYOUT, source[..METADATA_LEN]);
    UnpackPrefix(LAYOUT, source, METADATA_LEN);
    SameTable();
    FieldsOkIff(v);
  }

  lemma {:induction false} ShortIsRefused(source: seq<byte>)
    requires |source| < 72
    ensures Parse(source) == Err(SourceTooShort(72, |source|))
  {
  }
}
