/** RESULT_PUSH metadata: a 64-byte fixed layout with reserved bytes and coverage rules. */
module ResultPush {
  import opened Wire
  import opened Bits

  const METADATA_LEN := 64
  const RESULT_FLAGS_KNOWN_MASK := 0x07
  const BUDGET_POLICY_KNOWN_MASK := 0x0f
  const TENSOR_BIT := 0
  const STALE_FLAG_BIT := 0
  const PARTIAL_FLAG_BIT := 2

  /** 0 complete, 1 partial, 2 stale reuse, 3 degraded. */
  type ResultClass = b: int | 0 <= b <= 3
  const PARTIAL: ResultClass := 1
  const STALE_REUSE: ResultClass := 2

  datatype Metadata = Metadata(
    statusCode: u16, resultFlags: u16, sectionCount: u16, tileCount: u16, activeProfileId: u16, inferenceMs: u16,
    queueMs: u16, serverTotalMs: u16, tileBaseId: u32, tileIndexBytes: u32, resultClass: ResultClass,
    appliedBudgetPolicy: byte, reusedFrameId: u32, coveredTileCount: u16, droppedTileCount: u16,
    payloadKindBitmap: u32, payloadFrameCount: u16)

  const LAYOUT: seq<Field> := [
    Field(0, 2), Field(2, 2), Field(4, 2), Field(6, 2), Field(8, 2), Field(10, 2), Field(12, 2), Field(14, 2),
    Field(16, 2), Field(18, 2), Field(20, 4), Field(24, 4), Field(28, 8), Field(36, 8), Field(44, 1), Field(45, 1),
    Field(46, 2), Field(48, 4), Field(52, 2), Field(54, 2), Field(56, 4), Field(60, 2), Field(62, 2)]

  lemma {:induction false} LayoutCovers()
    ensures Covers(LAYOUT, METADATA_LEN)
  {
    assert forall i | 0 <= i < |LAYOUT| :: Linked(LAYOUT, i, METADATA_LEN);
    LinkedTiles(LAYOUT, 0, METADATA_LEN);
  }

  function Values(m: Metadata): (v: seq<nat>)
    ensures Fits(LAYOUT, v)
  {
    Widths();
    [m.statusCode, m.resultFlags, m.sectionCount, m.tileCount, m.activeProfileId, 0, m.inferenceMs, m.queueMs,
     m.serverTotalMs, 0, m.tileBaseId, m.tileIndexBytes, 0, 0, m.resultClass, m.appliedBudgetPolicy, 0,
     m.reusedFrameId, m.coveredTileCount, m.droppedTileCount, m.payloadKindBitmap, m.payloadFrameCount, 0]
  }

  predicate ReservedClear(v: seq<nat>)
    requires |v| == 23
  {
    v[5] == 0 && v[9] == 0 && v[12] == 0 && v[13] == 0 && v[16] == 0 && v[22] == 0
  }

  function FromFields(v: seq<nat>): Metadata
    requires Fits(LAYOUT, v) && v[14] <= 3
  {
    Widths();
    assert forall i | 0 <= i < 23 :: v[i] < Pow256(LAYOUT[i].width);
    Metadata(v[0], v[1], v[2], v[3], v[4], v[6], v[7], v[8], v[10], v[11], v[14], v[15],
             v[17], v[18], v[19], v[20], v[21])
  }

  lemma {:induction false} FieldsValues(v: seq<nat>)
    requires Fits(LAYOUT, v) && v[14] <= 3 && ReservedClear(v)
    ensures Values(FromFields(v)) == v
  {
  }

  lemma {:induction false} ValuesInjective(a: Metadata, b: Metadata)
    requires Values(a) == Values(b)
    ensures a == b
  {
    assert forall i | 0 <= i < 23 :: Values(a)[i] == Values(b)[i];
  }

  /** Stale results name the frame they reuse; tensor results account for every tile. */
  function ShapeError(m: Metadata): Option<NnrpError> {
    var stale := m.resultClass == STALE_REUSE || Bit(m.resultFlags, STALE_FLAG_BIT);
    var partial := m.resultClass == PARTIAL || Bit(m.resultFlags, PARTIAL_FLAG_BIT);
    if stale != (m.reusedFrameId != 0) then Some(InvalidProtocolCombination(StaleDisagrees))
    else if !Bit(m.payloadKindBitmap, TENSOR_BIT) then
      if m.sectionCount != 0 || m.tileCount != 0 || m.tileBaseId != 0 || m.tileIndexBytes != 0
        || m.coveredTileCount != 0 || m.droppedTileCount != 0
      then Some(InvalidProtocolCombination(CoverageFieldsSet))
      else None
    else if partial && m.droppedTileCount == 0 then Some(InvalidProtocolCombination(PartialWithoutDrops))
    else if m.coveredTileCount > m.tileCount || m.droppedTileCount > m.tileCount
      || m.coveredTileCount + m.droppedTileCount != m.tileCount
    then Some(InvalidProtocolCombination(CoverageMismatch))
    else None
  }

  function MaskError(flags: nat, budgetPolicy: nat, bitmap: nat): Option<NnrpError> {
    if AndNot(flags, RESULT_FLAGS_KNOWN_MASK) != 0 then Some(ReservedBitsSet(flags, RESULT_FLAGS_KNOWN_MASK))
    else if AndNot(budgetPolicy, BUDGET_POLICY_KNOWN_MASK) != 0 then
      Some(ReservedBitsSet(budgetPolicy, BUDGET_POLICY_KNOWN_MASK))
    else if AndNot(bitmap, PAYLOAD_KIND_KNOWN_MASK) != 0 then Some(ReservedBitsSet(bitmap, PAYLOAD_KIND_KNOWN_MASK))
    else None
  }

  function WriteError(m: Metadata): Option<NnrpError> {
    var masks := MaskError(m.resultFlags, m.appliedBudgetPolicy, m.payloadKindBitmap);
    if masks.Some? then masks else ShapeError(m)
  }

  function ToBytes(m: Metadata): Result<seq<byte>, NnrpError> {
    if WriteError(m).Some? then Err(WriteError(m).value) else Ok(Pack(LAYOUT, Values(m)))
  }

  method Write(m: Metadata, dst: array<byte>) returns (r: Result<(), NnrpError>)
    modifies dst
    ensures r ==
      if dst.Length < METADATA_LEN then Err(DestinationTooShort(METADATA_LEN, dst.Length))
      else if ToBytes(m).Err? then Err(ToBytes(m).error)
      else Ok(())
    ensures r.Ok? ==> dst[..METADATA_LEN] == ToBytes(m).value && dst[METADATA_LEN..] == old(dst[METADATA_LEN..])
    ensures r.Err? ==> dst[..] == old(dst[..])
  {
    if dst.Length < METADATA_LEN { return Err(DestinationTooShort(METADATA_LEN, dst.Length)); }
    var error := WriteError(m);
    if error.Some? { return Err(error.value); }
    LayoutCovers();
    WriteFields(dst, LAYOUT, Values(m), METADATA_LEN);
    r := Ok(());
  }

  /** The message whose fields hold the values `v`. */
  function FromValues(v: seq<nat>): Result<Metadata, NnrpError>
    requires Fits(LAYOUT, v)
  {
    var masks := MaskError(v[1], v[15], v[20]);
    if !ReservedClear(v) then Err(NonZeroReservedField)
    else if masks.Some? then Err(masks.value)
    else if v[14] > 3 then Err(UnknownEnumValue(v[14]))
    else
      var m := FromFields(v);
      if ShapeError(m).Some? then Err(ShapeError(m).value) else Ok(m)
  }

  function Parse(source: seq<byte>): Result<Metadata, NnrpError> {
    if |source| < METADATA_LEN then Err(SourceTooShort(METADATA_LEN, |source|))
    else
      LayoutCovers();
      FromValues(Unpack(LAYOUT, source[..METADATA_LEN]))
  }

  lemma {:induction false} ValuesAccepted(m: Metadata)
    requires WriteError(m).None?
    ensures FromValues(Values(m)) == Ok(m)
  {
    FieldsValues(Values(m));
    ValuesInjective(FromFields(Values(m)), m);
  }

  lemma {:induction false} AcceptedValues(v: seq<nat>)
    requires Fits(LAYOUT, v) && FromValues(v).Ok?
    ensures WriteError(FromValues(v).value).None? && Values(FromValues(v).value) == v
  {
    FieldsValues(v);
  }

  /** Everything that can be written parses back to itself, whatever follows it. */
  lemma {:induction false} WriteThenParse(m: Metadata, rest: seq<byte>)
    requires ToBytes(m).Ok?
    ensures |ToBytes(m).value| == METADATA_LEN && Parse(ToBytes(m).value + rest) == Ok(m)
  {
    LayoutCovers();
    UnpackPack(LAYOUT, Values(m), METADATA_LEN);
    assert (ToBytes(m).value + rest)[..METADATA_LEN] == ToBytes(m).value;
    ValuesAccepted(m);
  }

  /** The first 64 bytes of every accepted input are reproduced by writing what was parsed. */
  lemma {:induction false} ParseThenWrite(source: seq<byte>)
    requires Parse(source).Ok?
    ensures ToBytes(Parse(source).value) == Ok(source[..METADATA_LEN])
  {
    LayoutCovers();
    PackUnpack(LAYOUT, source[..METADATA_LEN]);
    AcceptedValues(Unpack(LAYOUT, source[..METADATA_LEN]));
  }

  /** Every field of `m` stands at its own offset, and reserved bytes are zero. */
  predicate StandsIn(m: Metadata, source: seq<byte>) {
    && At(source, 0, 2, m.statusCode) && At(source, 2, 2, m.resultFlags) && At(source, 4, 2, m.sectionCount)
    && At(source, 6, 2, m.tileCount) && At(source, 8, 2, m.activeProfileId) && At(source, 12, 2, m.inferenceMs)
    && At(source, 14, 2, m.queueMs) && At(source, 16, 2, m.serverTotalMs) && At(source, 20, 4, m.tileBaseId)
    && At(source, 24, 4, m.tileIndexBytes) && At(source, 44, 1, m.resultClass)
    && At(source, 45, 1, m.appliedBudgetPolicy) && At(source, 48, 4, m.reusedFrameId)
    && At(source, 52, 2, m.coveredTileCount) && At(source, 54, 2, m.droppedTileCount)
    && At(source, 56, 4, m.payloadKindBitmap) && At(source, 60, 2, m.payloadFrameCount) && At(source, 10, 2, 0)
    && At(source, 18, 2, 0) && At(source, 28, 8, 0) && At(source, 36, 8, 0) && At(source, 46, 2, 0)
    && At(source, 62, 2, 0)
  }

  lemma {:induction false} ValuesStand(m: Metadata, source: seq<byte>)
    requires forall i | 0 <= i < |LAYOUT| :: At(source, LAYOUT[i].off, LAYOUT[i].width, Values(m)[i])
    ensures StandsIn(m, source)
  {
    var v := Values(m);
    assert v == [v[0], v[1], v[2], v[3], v[4], v[5], v[6], v[7], v[8], v[9], v[10], v[11], v[12], v[13], v[14],
      v[15], v[16], v[17], v[18], v[19], v[20], v[21], v[22]];
  }

  /** Every parsed field is the little-endian value at its own offset, and reserved bytes are zero. */
  lemma {:induction false} FieldOffsets(source: seq<byte>)
    requires Parse(source).Ok?
    ensures StandsIn(Parse(source).value, source)
  {
    LayoutCovers();
    UnpackPrefix(LAYOUT, source, METADATA_LEN);
    AcceptedValues(Unpack(LAYOUT, source[..METADATA_LEN]));
    ValuesStand(Parse(source).value, source);
  }

  /** Where each field starts and how many bytes it takes, reserved fields included. */
  const OFFSETS: seq<nat> := [
    0, 2, 4, 6, 8, 10, 12, 14, 16, 18, 20, 24, 28, 36, 44, 45, 46, 48, 52, 54, 56, 60, 62]
  const WIDTHS: seq<nat> := [2, 2, 2, 2, 2, 2, 2, 2, 2, 2, 4, 4, 8, 8, 1, 1, 2, 4, 2, 2, 4, 2, 2]

  /** `v` lists what stands at each byte offset. */
  ghost predicate Reads(source: seq<byte>, v: seq<nat>) {
    |v| == |OFFSETS| == |WIDTHS| && forall i | 0 <= i < |v| :: At(source, OFFSETS[i], WIDTHS[i], v[i])
  }

  lemma {:induction false} SameTable()
    ensures |OFFSETS| == |WIDTHS| == |LAYOUT|
    ensures forall i | 0 <= i < |LAYOUT| :: LAYOUT[i].off == OFFSETS[i] && LAYOUT[i].width == WIDTHS[i]
  {
  }

  predicate FieldsOk(v: seq<nat>)
    requires |v| == 23
  {
    && v[5] == v[9] == v[12] == v[13] == v[16] == v[22] == 0
    && v[1] < 0x08 && v[14] <= 3 && v[15] < 0x10 && v[20] < 0x80
    && ((v[14] == 2 || v[1] % 2 == 1) <==> v[17] != 0)
    && if v[20] % 2 == 1 then v[18] + v[19] == v[3] && (v[14] == 1 || v[1] / 4 % 2 == 1 ==> v[19] != 0)
       else v[2] == v[3] == v[10] == v[11] == v[18] == v[19] == 0
  }

  lemma {:induction false} FieldsOkIff(v: seq<nat>)
    requires Fits(LAYOUT, v)
    ensures FromValues(v).Ok? <==> FieldsOk(v)
  {
    KnownMasks(v[1]);
    KnownMasks(v[15]);
    KnownMasks(v[20]);
    LowBits(v[1]);
    LowBits(v[20]);
  }

  /** Which byte strings are accepted, in numbers at byte offsets: `v` is what stands at each offset. A
      reused frame is named exactly for stale results; a tensor result accounts for every tile and a
      partial one drops some; other results have no tiles. */
  lemma {:induction false} AcceptedIff(source: seq<byte>) returns (v: seq<nat>)
    requires |source| >= 64
    ensures |v| == 23 && Reads(source, v) && (Parse(source).Ok? <==> FieldsOk(v))
  {
    LayoutCovers();
    v := Unpack(LAYOUT, source[..METADATA_LEN]);
    UnpackPrefix(LAYOUT, source, METADATA_LEN);
    SameTable();
    FieldsOkIff(v);
  }

  lemma {:induction false} ShortIsRefused(source: seq<byte>)
    requires |source| < 64
    ensures Parse(source) == Err(SourceTooShort(64, |source|))
  {
  }
}
