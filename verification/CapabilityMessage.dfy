/** The capability negotiation message: 32 fixed bytes that declare and are followed by a token body. */
module CapabilityMessage {
  import opened Wire
  import opened Bits
  import opened Capability

  const METADATA_LEN := 32
  const FLAGS_KNOWN_MASK := 3

  datatype Metadata = Metadata(
    profileId: u16, capabilityCount: u16, costModelId: u16, preferenceRank: u16, limitBytes: u64, limitUnits: u64,
    bodyBytes: u32, flags: u32)

  const LAYOUT: seq<Field> := [
    Field(0, 2), Field(2, 2), Field(4, 2), Field(6, 2), Field(8, 8), Field(16, 8), Field(24, 4), Field(28, 4)]

  lemma {:induction false} LayoutCovers()
    ensures Covers(LAYOUT, METADATA_LEN)
  {
    assert forall i | 0 <= i < |LAYOUT| :: Linked(LAYOUT, i, METADATA_LEN);
    LinkedTiles(LAYOUT, 0, METADATA_LEN);
  }

  function Values(m: Metadata): (v: seq<nat>)
    ensures Fits(LAYOUT, v)
  {
    Widths();
    [m.profileId, m.capabilityCount, m.costModelId, m.preferenceRank, m.limitBytes, m.limitUnits, m.bodyBytes, m.flags]
  }

  function FromFields(v: seq<nat>): (m: Metadata)
    requires Fits(LAYOUT, v)
    ensures Values(m) == v
  {
    Widths();
    assert forall i | 0 <= i < 8 :: v[i] < Pow256(LAYOUT[i].width);
    Metadata(v[0], v[1], v[2], v[3], v[4], v[5], v[6], v[7])
  }

  function ToBytes(m: Metadata): Result<seq<byte>, NnrpError> {
    if AndNot(m.flags, FLAGS_KNOWN_MASK) != 0 then Err(ReservedBitsSet(m.flags, FLAGS_KNOWN_MASK))
    else Ok(Pack(LAYOUT, Values(m)))
  }

  function ParseMetadata(source: seq<byte>): Result<Metadata, NnrpError> {
    if |source| < METADATA_LEN then Err(SourceTooShort(METADATA_LEN, |source|))
    else
      LayoutCovers();
      var m := FromFields(Unpack(LAYOUT, source[..METADATA_LEN]));
      if AndNot(m.flags, FLAGS_KNOWN_MASK) != 0 then Err(ReservedBitsSet(m.flags, FLAGS_KNOWN_MASK)) else Ok(m)
  }

  lemma {:induction false} MetadataRoundTrip(m: Metadata, rest: seq<byte>)
    requires ToBytes(m).Ok?
    ensures |ToBytes(m).value| == METADATA_LEN && ParseMetadata(ToBytes(m).value + rest) == Ok(m)
  {
    LayoutCovers();
    UnpackPack(LAYOUT, Values(m), METADATA_LEN);
    assert (ToBytes(m).value + rest)[..METADATA_LEN] == ToBytes(m).value;
    ValuesInjective(FromFields(Values(m)), m);
  }

  lemma {:induction false} ValuesInjective(a: Metadata, b: Metadata)
    requires Values(a) == Values(b)
    ensures a == b
  {
    assert forall i | 0 <= i < 8 :: Values(a)[i] == Values(b)[i];
  }

  lemma {:induction false} MetadataCanonical(source: seq<byte>)
    requires ParseMetadata(source).Ok?
    ensures ToBytes(ParseMetadata(source).value) == Ok(source[..METADATA_LEN])
  {
    LayoutCovers();
    PackUnpack(LAYOUT, source[..METADATA_LEN]);
  }

  /** The fixed fields, each loaded from its own offset. */
  function Loaded(source: seq<byte>): seq<nat> {
    [
      Num(source, 0, 2), Num(source, 2, 2), Num(source, 4, 2), Num(source, 6, 2), Num(source, 8, 8),
      Num(source, 16, 8), Num(source, 24, 4), Num(source, 28, 4)
    ]
  }

  lemma {:induction false} LoadedFields(source: seq<byte>)
    requires |source| >= METADATA_LEN && Covers(LAYOUT, METADATA_LEN)
    ensures Unpack(LAYOUT, source[..METADATA_LEN]) == Loaded(source)
  {
    var v := Unpack(LAYOUT, source[..METADATA_LEN]);
    UnpackPrefix(LAYOUT, source, METADATA_LEN);
    assert v == [
      v[0], v[1], v[2], v[3], v[4], v[5], v[6], v[7]
    ];
  }

  /** What the fixed part is read as: each field at its offset, and flags below four. */
  lemma {:induction false} ReadAs(source: seq<byte>, m: Metadata)
    ensures ParseMetadata(source) == Ok(m) <==>
      && |source| >= 32 && Num(source, 28, 4) < 4
      && m.profileId == Num(source, 0, 2) && m.capabilityCount == Num(source, 2, 2)
      && m.costModelId == Num(source, 4, 2) && m.preferenceRank == Num(source, 6, 2)
      && m.limitBytes == Num(source, 8, 8) && m.limitUnits == Num(source, 16, 8)
      && m.bodyBytes == Num(source, 24, 4) && m.flags == Num(source, 28, 4)
  {
    if |source| >= METADATA_LEN {
      LayoutCovers();
      LoadedFields(source);
      KnownMasks(Num(source, 28, 4));
    }
  }

  datatype Message = Message(metadata: Metadata, body: seq<byte>)

  function ParseWithBody(source: seq<byte>): Result<Message, NnrpError> {
    var metadata := ParseMetadata(source);
    if metadata.Err? then Err(metadata.error)
    else
      var m, body := metadata.value, source[METADATA_LEN..];
      if m.bodyBytes != |body| then Err(DeclaredLengthMismatch(m.bodyBytes, |body|))
      else
        var tokens := Decode(body, m.capabilityCount);
        if tokens.Err? then Err(tokens.error) else Ok(Message(m, body))
  }

  function ToVecWithBody(m: Metadata, body: seq<byte>): Result<seq<byte>, NnrpError> {
    if m.bodyBytes != |body| then Err(DeclaredLengthMismatch(m.bodyBytes, |body|))
    else
      var tokens := Decode(body, m.capabilityCount);
      if tokens.Err? then Err(tokens.error)
      else
        var fixed := ToBytes(m);
        if fixed.Err? then Err(fixed.error) else Ok(fixed.value + body)
  }

  /** Every accepted message is reproduced byte for byte by writing what was parsed. */
  lemma {:induction false} ParseThenWrite(source: seq<byte>)
    requires ParseWithBody(source).Ok?
    ensures var p := ParseWithBody(source).value; ToVecWithBody(p.metadata, p.body) == Ok(source)
  {
    MetadataCanonical(source);
    assert source[..METADATA_LEN] + source[METADATA_LEN..] == source;
  }

  /** Every written message parses back to what was written. */
  lemma {:induction false} WriteThenParse(m: Metadata, body: seq<byte>)
    requires ToVecWithBody(m, body).Ok?
    ensures ParseWithBody(ToVecWithBody(m, body).value) == Ok(Message(m, body))
  {
    MetadataRoundTrip(m, body);
    assert (ToBytes(m).value + body)[METADATA_LEN..] == body;
  }

  /** The fixed fields that do not follow from the body. */
  function Terms(m: Metadata): (u16, u16, u16, u64, u64, u32) {
    (m.profileId, m.costModelId, m.preferenceRank, m.limitBytes, m.limitUnits, m.flags)
  }

  /** Two accepted messages with the same terms and the same set of tokens are identical. */
  lemma {:induction false} SameMeaningSameBytes(a: seq<byte>, b: seq<byte>)
    requires ParseWithBody(a).Ok? && ParseWithBody(b).Ok?
    requires var p, q := ParseWithBody(a).value, ParseWithBody(b).value;
      && Terms(p.metadata) == Terms(q.metadata)
      && Decode(p.body, p.metadata.capabilityCount).Ok? && Decode(q.body, q.metadata.capabilityCount).Ok?
      && forall t :: t in Decode(p.body, p.metadata.capabilityCount).value
           <==> t in Decode(q.body, q.metadata.capabilityCount).value
    ensures a == b
  {
    var p, q := ParseWithBody(a).value, ParseWithBody(b).value;
    SameTokensSameBody(p.body, p.metadata.capabilityCount, q.body, q.metadata.capabilityCount);
    assert p == q;
    ParseThenWrite(a);
    ParseThenWrite(b);
  }
}
