/** The 32-byte prelude that gives the length of each region of a message body. */
module BodyPrelude {
  import opened Wire

  const PRELUDE_LEN := 32
  const REFERENCE_BLOCK_LEN := 24
  const TYPED_DESCRIPTOR_LEN := 24
  const EXTENSION_DESCRIPTOR_LEN := 16

  datatype Prelude = Prelude(
    inlineObjectBytes: u32, objectReferenceBytes: u32, typedDescriptorBytes: u32, typedFrameBytes: u32,
    extensionDescriptorBytes: u32, extensionPayloadBytes: u32)

  const LAYOUT: seq<Field> := [
    Field(0, 4), Field(4, 4), Field(8, 4), Field(12, 4), Field(16, 4), Field(20, 4), Field(24, 4), Field(28, 4)]

  lemma {:induction false} LayoutCovers()
    ensures Covers(LAYOUT, PRELUDE_LEN)
  {
    assert forall i | 0 <= i < |LAYOUT| :: Linked(LAYOUT, i, PRELUDE_LEN);
    LinkedTiles(LAYOUT, 0, PRELUDE_LEN);
  }

  function Values(p: Prelude): (v: seq<nat>)
    ensures Fits(LAYOUT, v)
  {
    Widths();
    [p.inlineObjectBytes, p.objectReferenceBytes, p.typedDescriptorBytes, p.typedFrameBytes,
     p.extensionDescriptorBytes, p.extensionPayloadBytes, 0, 0]
  }

  function AlignmentError(p: Prelude): Option<NnrpError> {
    if p.objectReferenceBytes % REFERENCE_BLOCK_LEN != 0 then Some(InvalidProtocolCombination(ReferenceAlignment))
    else if p.typedDescriptorBytes % TYPED_DESCRIPTOR_LEN != 0 then
      Some(InvalidProtocolCombination(DescriptorAlignment))
    else if p.extensionDescriptorBytes % EXTENSION_DESCRIPTOR_LEN != 0 then
      Some(InvalidProtocolCombination(ExtensionAlignment))
    else None
  }

  function FromValues(v: seq<nat>): Result<Prelude, NnrpError>
    requires Fits(LAYOUT, v)
  {
    Widths();
    assert forall i | 0 <= i < 8 :: v[i] < Pow256(LAYOUT[i].width);
    if v[6] != 0 || v[7] != 0 then Err(NonZeroReservedField)
    else
      var p := Prelude(v[0], v[1], v[2], v[3], v[4], v[5]);
      if AlignmentError(p).Some? then Err(AlignmentError(p).value) else Ok(p)
  }

  function Parse(source: seq<byte>): Result<Prelude, NnrpError> {
    if |source| < PRELUDE_LEN then Err(SourceTooShort(PRELUDE_LEN, |source|))
    else
      LayoutCovers();
      FromValues(Unpack(LAYOUT, source[..PRELUDE_LEN]))
  }

  function ToBytes(p: Prelude): Result<seq<byte>, NnrpError> {
    if AlignmentError(p).Some? then Err(AlignmentError(p).value) else Ok(Pack(LAYOUT, Values(p)))
  }

  /** A prelude that can be written parses back to itself, whatever follows it. */
  lemma {:induction false} WriteThenParse(p: Prelude, rest: seq<byte>)
    requires ToBytes(p).Ok?
    ensures |ToBytes(p).value| == PRELUDE_LEN && Parse(ToBytes(p).value + rest) == Ok(p)
  {
    LayoutCovers();
    UnpackPack(LAYOUT, Values(p), PRELUDE_LEN);
    assert (ToBytes(p).value + rest)[..PRELUDE_LEN] == ToBytes(p).value;
  }

  lemma {:induction false} AcceptedValues(v: seq<nat>)
    requires Fits(LAYOUT, v) && FromValues(v).Ok?
    ensures AlignmentError(FromValues(v).value).None? && Values(FromValues(v).value) == v
  {
  }

  /** The first 32 bytes of an accepted body are reproduced by writing its prelude. */
  lemma {:induction false} ParseThenWrite(source: seq<byte>)
    requires Parse(source).Ok?
    ensures ToBytes(Parse(source).value) == Ok(source[..PRELUDE_LEN])
  {
    LayoutCovers();
    PackUnpack(LAYOUT, source[..PRELUDE_LEN]);
    AcceptedValues(Unpack(LAYOUT, source[..PRELUDE_LEN]));
  }

  /** The fixed fields, each loaded from its own offset. */
  function Loaded(source: seq<byte>): seq<nat> {
    [
      Num(source, 0, 4), Num(source, 4, 4), Num(source, 8, 4), Num(source, 12, 4), Num(source, 16, 4),
      Num(source, 20, 4), Num(source, 24, 4), Num(source, 28, 4)
    ]
  }

  lemma {:induction false} LoadedFields(source: seq<byte>)
    requires |source| >= PRELUDE_LEN && Covers(LAYOUT, PRELUDE_LEN)
    ensures Unpack(LAYOUT, source[..PRELUDE_LEN]) == Loaded(source)
  {
    var v := Unpack(LAYOUT, source[..PRELUDE_LEN]);
    UnpackPrefix(LAYOUT, source, PRELUDE_LEN);
    assert v == [
      v[0], v[1], v[2], v[3], v[4], v[5], v[6], v[7]
    ];
  }

  lemma {:induction false} FieldsOkIff(v: seq<nat>, p: Prelude)
    requires Fits(LAYOUT, v)
    ensures FromValues(v) == Ok(p) <==>
      && v[6] == v[7] == 0 && v[1] % 24 == 0 && v[2] % 24 == 0 && v[4] % 16 == 0
      && p.inlineObjectBytes == v[0] && p.objectReferenceBytes == v[1] && p.typedDescriptorBytes == v[2]
      && p.typedFrameBytes == v[3] && p.extensionDescriptorBytes == v[4] && p.extensionPayloadBytes == v[5]
  {
  }

  /** What a prelude is read as: the six lengths at their offsets, aligned to their block lengths, and
      nothing in the reserved bytes. */
  lemma {:induction false} ReadAs(source: seq<byte>, p: Prelude)
    ensures Parse(source) == Ok(p) <==>
      && |source| >= 32 && Num(source, 24, 4) == 0 && Num(source, 28, 4) == 0
      && Num(source, 4, 4) % 24 == 0 && Num(source, 8, 4) % 24 == 0 && Num(source, 16, 4) % 16 == 0
      && p.inlineObjectBytes == Num(source, 0, 4) && p.objectReferenceBytes == Num(source, 4, 4)
      && p.typedDescriptorBytes == Num(source, 8, 4) && p.typedFrameBytes == Num(source, 12, 4)
      && p.extensionDescriptorBytes == Num(source, 16, 4) && p.extensionPayloadBytes == Num(source, 20, 4)
  {
    if |source| >= PRELUDE_LEN {
      LayoutCovers();
      LoadedFields(source);
      FieldsOkIff(Loaded(source), p);
    }
  }
}
