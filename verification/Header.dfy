/** The 40-byte common header and packet framing. */
module Header {
  import opened Wire
  import opened Bits

  const COMMON_HEADER_LEN := 40
  const CURRENT_VERSION_MAJOR := 1
  const CURRENT_WIRE_FORMAT := 0
  const MAGIC := 0x5052_4e4e  // "NNRP" read as a little-endian u32
  const HEADER_FLAGS_KNOWN_MASK := 0x3f

  const SESSION_CLOSE: MessageType := 0x09
  const SESSION_CLOSE_ACK: MessageType := 0x0a
  const SESSION_OPEN_ACK: MessageType := 0x08
  const FRAME_SUBMIT: MessageType := 0x10
  const FLOW_UPDATE: MessageType := 0x17
  const PRIORITY_UPDATE: MessageType := 0x32
  const DEADLINE: MessageType := 0x33
  const EXPIRE_AT: MessageType := 0x34

  predicate KnownMessageType(code: int) {
    || 0x01 <= code <= 0x0a || 0x10 <= code <= 0x1c || 0x20 <= code <= 0x21 || 0x30 <= code <= 0x49
  }

  /** A message type is named by its wire code. */
  type MessageType = code: int | KnownMessageType(code) witness 0x01

  datatype CommonHeader = CommonHeader(
    versionMajor: byte, wireFormat: byte, messageType: MessageType, headerLen: byte, flags: u32,
    metaLen: u32, bodyLen: u32, sessionId: u32, frameId: u32, viewId: u16, routeId: u16, traceId: u64)

  const LAYOUT: seq<Field> := [
    Field(0, 4), Field(4, 1), Field(5, 1), Field(6, 1), Field(7, 1), Field(8, 4), Field(12, 4), Field(16, 4),
    Field(20, 4), Field(24, 4), Field(28, 2), Field(30, 2), Field(32, 8)]

  lemma {:induction false} LayoutCovers()
    ensures Covers(LAYOUT, COMMON_HEADER_LEN)
  {
    assert forall i | 0 <= i < |LAYOUT| :: Linked(LAYOUT, i, COMMON_HEADER_LEN);
    LinkedTiles(LAYOUT, 0, COMMON_HEADER_LEN);
  }

  function Values(h: CommonHeader): (vals: seq<nat>) {
    [MAGIC, h.versionMajor, h.wireFormat, h.messageType, h.headerLen, h.flags, h.metaLen, h.bodyLen,
     h.sessionId, h.frameId, h.viewId, h.routeId, h.traceId]
  }

  function HeaderError(h: CommonHeader): Option<NnrpError> {
    if h.headerLen != COMMON_HEADER_LEN then Some(InvalidHeaderLength(h.headerLen))
    else if AndNot(h.flags, HEADER_FLAGS_KNOWN_MASK) != 0 then Some(ReservedBitsSet(h.flags, HEADER_FLAGS_KNOWN_MASK))
    else None
  }

  function ToBytes(h: CommonHeader): Result<seq<byte>, NnrpError> {
    if HeaderError(h).Some? then Err(HeaderError(h).value) else Ok(Pack(LAYOUT, Values(h)))
  }

  /** Store a header at the start of a buffer. */
  method Write(h: CommonHeader, dst: array<byte>) returns (r: Result<(), NnrpError>)
    modifies dst
    ensures r ==
      if dst.Length < COMMON_HEADER_LEN then Err(DestinationTooShort(COMMON_HEADER_LEN, dst.Length))
      else if ToBytes(h).Err? then Err(ToBytes(h).error)
      else Ok(())
    ensures r.Ok? ==> dst[..COMMON_HEADER_LEN] == ToBytes(h).value
    ensures r.Ok? ==> dst[COMMON_HEADER_LEN..] == old(dst[COMMON_HEADER_LEN..])
    ensures r.Err? ==> dst[..] == old(dst[..])
  {
    if dst.Length < COMMON_HEADER_LEN { return Err(DestinationTooShort(COMMON_HEADER_LEN, dst.Length)); }
    if h.headerLen != COMMON_HEADER_LEN { return Err(InvalidHeaderLength(h.headerLen)); }
    if AndNot(h.flags, HEADER_FLAGS_KNOWN_MASK) != 0 { return Err(ReservedBitsSet(h.flags, HEADER_FLAGS_KNOWN_MASK)); }
    LayoutCovers();
    WriteFields(dst, LAYOUT, Values(h), COMMON_HEADER_LEN);
    r := Ok(());
  }

  function Fields(source: seq<byte>): (v: seq<nat>)
    requires |source| >= COMMON_HEADER_LEN
    ensures Fits(LAYOUT, v)
  {
    LayoutCovers();
    Unpack(LAYOUT, source[..COMMON_HEADER_LEN])
  }

  function FromFields(v: seq<nat>): CommonHeader
    requires Fits(LAYOUT, v) && KnownMessageType(v[3])
  {
    Widths();
    Limits(v);
    CommonHeader(v[1], v[2], v[3], v[4], v[5], v[6], v[7], v[8], v[9], v[10], v[11], v[12])
  }

  lemma {:induction false} Limits(v: seq<nat>)
    requires Fits(LAYOUT, v)
    ensures v[1] < 0x100 && v[2] < 0x100 && v[3] < 0x100 && v[4] < 0x100
    ensures forall i | 5 <= i <= 9 :: v[i] < 0x1_0000_0000
    ensures v[10] < 0x1_0000 && v[11] < 0x1_0000 && v[12] < 0x1_0000_0000_0000_0000
  {
    Widths();
    assert forall i | 0 <= i < 13 :: v[i] < Pow256(LAYOUT[i].width);
  }

  function ParseFields(v: seq<nat>): Result<CommonHeader, NnrpError>
    requires Fits(LAYOUT, v)
  {
    if v[0] != MAGIC then Err(InvalidMagic)
    else if v[1] != CURRENT_VERSION_MAJOR then Err(UnsupportedVersionMajor(v[1]))
    else if v[2] != CURRENT_WIRE_FORMAT then Err(UnsupportedWireFormat(v[2]))
    else if v[4] != COMMON_HEADER_LEN then Err(InvalidHeaderLength(v[4]))
    else if AndNot(v[5], HEADER_FLAGS_KNOWN_MASK) != 0 then Err(ReservedBitsSet(v[5], HEADER_FLAGS_KNOWN_MASK))
    else if !KnownMessageType(v[3]) then Err(UnknownMessageType(v[3]))
    else Ok(FromFields(v))
  }

  function Parse(source: seq<byte>): Result<CommonHeader, NnrpError> {
    if |source| < COMMON_HEADER_LEN then Err(SourceTooShort(COMMON_HEADER_LEN, |source|))
    else ParseFields(Fields(source))
  }

  /** Where each header field lies on the wire. */
  lemma {:induction false} FieldOffsets(source: seq<byte>)
    requires Parse(source).Ok?
    ensures var h := Parse(source).value;
      && |source| >= COMMON_HEADER_LEN && source[0..4] == [78, 78, 82, 80]
      && h.versionMajor == Load(source, 4, 1) && h.wireFormat == Load(source, 5, 1)
      && h.messageType == Load(source, 6, 1) && h.headerLen == Load(source, 7, 1)
      && h.flags == Load(source, 8, 4) && h.metaLen == Load(source, 12, 4) && h.bodyLen == Load(source, 16, 4)
      && h.sessionId == Load(source, 20, 4) && h.frameId == Load(source, 24, 4)
      && h.viewId == Load(source, 28, 2) && h.routeId == Load(source, 30, 2) && h.traceId == Load(source, 32, 8)
  {
    LayoutCovers();
    UnpackPrefix(LAYOUT, source, COMMON_HEADER_LEN);
    MagicBytes();
    ToFromLE(source[0..4]);
  }

  lemma {:induction false} MagicBytes()
    ensures ToLE(MAGIC, 4) == [78, 78, 82, 80]
  {
    assert ToLE(0x50, 1) == [80] + ToLE(0, 0);
    assert ToLE(0x5052, 2) == [0x52] + ToLE(0x50, 1);
    assert ToLE(0x5052_4e, 3) == [0x4e] + ToLE(0x5052, 2);
  }

  lemma {:induction false} ValuesFit(h: CommonHeader)
    ensures Fits(LAYOUT, Values(h))
  {
    Widths();
  }

  lemma {:induction false} ValuesParseIff(h: CommonHeader)
    requires HeaderError(h).None? && Fits(LAYOUT, Values(h))
    ensures ParseFields(Values(h)) == Ok(h) <==>
      h.versionMajor == CURRENT_VERSION_MAJOR && h.wireFormat == CURRENT_WIRE_FORMAT
  {
  }

  /** A written header parses back, whatever follows it, exactly when its version and wire format
      are the current ones: writing does not check them, parsing does. */
  lemma {:induction false} WriteThenParse(h: CommonHeader, rest: seq<byte>)
    requires ToBytes(h).Ok?
    ensures |ToBytes(h).value| == COMMON_HEADER_LEN
    ensures Parse(ToBytes(h).value + rest) == Ok(h) <==>
      h.versionMajor == CURRENT_VERSION_MAJOR && h.wireFormat == CURRENT_WIRE_FORMAT
  {
    var b := ToBytes(h).value;
    LayoutCovers();
    ValuesFit(h);
    UnpackPack(LAYOUT, Values(h), COMMON_HEADER_LEN);
    assert (b + rest)[..COMMON_HEADER_LEN] == b;
    ValuesParseIff(h);
  }

  /** A header of version 2 can be written but not read back. */
  lemma {:induction false} UnreadableHeader()
    ensures var h := CommonHeader(2, 0, 0x20, 40, 0, 0, 0, 0, 0, 0, 0, 0);
      ToBytes(h).Ok? && Parse(ToBytes(h).value) != Ok(h)
  {
    var h := CommonHeader(2, 0, 0x20, 40, 0, 0, 0, 0, 0, 0, 0, 0);
    WriteThenParse(h, []);
    assert ToBytes(h).value + [] == ToBytes(h).value;
  }

  /** Writing a parsed header reproduces the bytes it was parsed from. */
  lemma {:induction false} ParseThenWrite(source: seq<byte>)
    requires Parse(source).Ok?
    ensures ToBytes(Parse(source).value) == Ok(source[..COMMON_HEADER_LEN])
  {
    LayoutCovers();
    PackUnpack(LAYOUT, source[..COMMON_HEADER_LEN]);
    FieldsValues(Fields(source));
  }

  lemma {:induction false} ParsedIsCurrent(source: seq<byte>)
    requires Parse(source).Ok?
    ensures |source| >= COMMON_HEADER_LEN
    ensures var h := Parse(source).value; h.versionMajor == CURRENT_VERSION_MAJOR && h.wireFormat == CURRENT_WIRE_FORMAT
  {
  }

  lemma {:induction false} FieldsValues(v: seq<nat>)
    requires Fits(LAYOUT, v) && v[0] == MAGIC && KnownMessageType(v[3])
    ensures Values(FromFields(v)) == v
  {
  }

  /** The fixed fields, each loaded from its own offset. */
  function Loaded(source: seq<byte>): seq<nat> {
    [
      Num(source, 0, 4), Num(source, 4, 1), Num(source, 5, 1), Num(source, 6, 1), Num(source, 7, 1),
      Num(source, 8, 4), Num(source, 12, 4), Num(source, 16, 4), Num(source, 20, 4), Num(source, 24, 4),
      Num(source, 28, 2), Num(source, 30, 2), Num(source, 32, 8)
    ]
  }

  lemma {:induction false} LoadedFields(source: seq<byte>)
    requires |source| >= COMMON_HEADER_LEN && Covers(LAYOUT, COMMON_HEADER_LEN)
    ensures Unpack(LAYOUT, source[..COMMON_HEADER_LEN]) == Loaded(source)
  {
    var v := Unpack(LAYOUT, source[..COMMON_HEADER_LEN]);
    UnpackPrefix(LAYOUT, source, COMMON_HEADER_LEN);
    assert v == [
      v[0], v[1], v[2], v[3], v[4], v[5], v[6], v[7], v[8], v[9], v[10], v[11], v[12]
    ];
  }

  /** Which byte strings start with an accepted header, in numbers at byte offsets. */
  lemma {:induction false} AcceptedIff(source: seq<byte>)
    ensures Parse(source).Ok? <==>
      && |source| >= 40 && Num(source, 0, 4) == 0x5052_4e4e && Num(source, 4, 1) == 1 && Num(source, 5, 1) == 0
      && Num(source, 7, 1) == 40 && Num(source, 8, 4) < 0x40
      && var code := Num(source, 6, 1);
         || 0x01 <= code <= 0x0a || 0x10 <= code <= 0x1c || code == 0x20 || code == 0x21 || 0x30 <= code <= 0x49
  {
    if |source| >= COMMON_HEADER_LEN {
      LayoutCovers();
      LoadedFields(source);
      KnownMasks(Num(source, 8, 4));
    }
  }
}
