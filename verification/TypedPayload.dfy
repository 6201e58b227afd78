/** Typed payload regions: 24-byte descriptors that must partition a payload region exactly. */
module TypedPayload {
  import opened Wire
  import opened Bits

  const DESCRIPTOR_LEN := 24
  const DESCRIPTOR_FLAGS_KNOWN_MASK := 0x0f
  const PROFILE_TENSOR := 1
  const PROFILE_TOKEN := 2

  /** A payload kind is named by its bit number: 0 tensor, 1 token chunk, up to 6 opaque bytes. */
  type PayloadKind = k: int | 0 <= k <= 6
  const TENSOR: PayloadKind := 0
  const TOKEN_CHUNK: PayloadKind := 1

  datatype Descriptor = Descriptor(
    profileId: u16, kind: PayloadKind, flags: byte, schemaId: u32, schemaVersion: u32, streamSemantics: u16,
    offset: u32, length: u32)

  // ---------------------------------------------------------------- one descriptor

  const LAYOUT: seq<Field> := [
    Field(0, 2), Field(2, 1), Field(3, 1), Field(4, 4), Field(8, 4), Field(12, 2), Field(14, 2),
    Field(16, 4), Field(20, 4)]

  lemma {:induction false} LayoutCovers()
    ensures Covers(LAYOUT, DESCRIPTOR_LEN)
  {
    assert forall i | 0 <= i < |LAYOUT| :: Linked(LAYOUT, i, DESCRIPTOR_LEN);
    LinkedTiles(LAYOUT, 0, DESCRIPTOR_LEN);
  }

  /** The kind whose only bit is `bit`. */
  function KindOfBit(bit: nat): Option<PayloadKind> {
    if bit == 0x01 then Some(0) else if bit == 0x02 then Some(1) else if bit == 0x04 then Some(2)
    else if bit == 0x08 then Some(3) else if bit == 0x10 then Some(4) else if bit == 0x20 then Some(5)
    else if bit == 0x40 then Some(6) else None
  }

  lemma {:induction false} KindBits(bit: nat, k: PayloadKind)
    ensures KindOfBit(bit) == Some(k) <==> bit == Pow2(k)
    ensures Pow2(k) < 0x80
  {
    assert Pow2(3) == 8;
    assert Pow2(5) == 32;
    assert Pow2(6) == 64;
  }

  function Values(d: Descriptor): (v: seq<nat>)
    ensures Fits(LAYOUT, v)
  {
    Widths();
    KindBits(0, d.kind);
    [d.profileId, Pow2(d.kind), d.flags, d.schemaId, d.schemaVersion, d.streamSemantics, 0, d.offset, d.length]
  }

  function FromValues(v: seq<nat>): Result<Descriptor, NnrpError>
    requires Fits(LAYOUT, v)
  {
    Widths();
    assert forall i | 0 <= i < 9 :: v[i] < Pow256(LAYOUT[i].width);
    if v[6] != 0 then Err(NonZeroReservedField)
    else if KindOfBit(v[1]).None? then Err(UnknownEnumValue(v[1]))
    else if AndNot(v[2], DESCRIPTOR_FLAGS_KNOWN_MASK) != 0 then Err(ReservedBitsSet(v[2], DESCRIPTOR_FLAGS_KNOWN_MASK))
    else Ok(Descriptor(v[0], KindOfBit(v[1]).value, v[2], v[3], v[4], v[5], v[7], v[8]))
  }

  function ParseDescriptor(source: seq<byte>): Result<Descriptor, NnrpError> {
    if |source| < DESCRIPTOR_LEN then Err(SourceTooShort(DESCRIPTOR_LEN, |source|))
    else
      LayoutCovers();
      FromValues(Unpack(LAYOUT, source[..DESCRIPTOR_LEN]))
  }

  function DescriptorToBytes(d: Descriptor): Result<seq<byte>, NnrpError> {
    if AndNot(d.flags, DESCRIPTOR_FLAGS_KNOWN_MASK) != 0 then Err(ReservedBitsSet(d.flags, DESCRIPTOR_FLAGS_KNOWN_MASK))
    else Ok(Pack(LAYOUT, Values(d)))
  }

  lemma {:induction false} AcceptedValues(v: seq<nat>)
    requires Fits(LAYOUT, v) && FromValues(v).Ok?
    ensures Values(FromValues(v).value) == v
  {
    KindBits(v[1], FromValues(v).value.kind);
  }

  /** A descriptor and its 24 bytes determine each other. */
  lemma {:induction false} DescriptorCodec(b: seq<byte>, d: Descriptor)
    requires |b| == DESCRIPTOR_LEN
    ensures ParseDescriptor(b) == Ok(d) <==> DescriptorToBytes(d) == Ok(b)
  {
    if ParseDescriptor(b) == Ok(d) { ParsedIsWritten(b); }
    if DescriptorToBytes(d) == Ok(b) { WrittenIsParsed(d); }
  }

  lemma {:induction false} ParsedIsWritten(b: seq<byte>)
    requires |b| == DESCRIPTOR_LEN && ParseDescriptor(b).Ok?
    ensures DescriptorToBytes(ParseDescriptor(b).value) == Ok(b)
  {
    LayoutCovers();
    assert b[..DESCRIPTOR_LEN] == b;
    PackUnpack(LAYOUT, b);
    AcceptedValues(Unpack(LAYOUT, b));
  }

  lemma {:induction false} ValuesAccepted(d: Descriptor)
    requires DescriptorToBytes(d).Ok?
    ensures FromValues(Values(d)) == Ok(d)
  {
    KindBits(Pow2(d.kind), d.kind);
  }

  lemma {:induction false} WrittenIsParsed(d: Descriptor)
    requires DescriptorToBytes(d).Ok?
    ensures ParseDescriptor(DescriptorToBytes(d).value) == Ok(d)
  {
    LayoutCovers();
    UnpackPack(LAYOUT, Values(d), DESCRIPTOR_LEN);
    var b := DescriptorToBytes(d).value;
    assert b[..DESCRIPTOR_LEN] == b;
    ValuesAccepted(d);
  }

  lemma {:induction false} DescriptorBytesLength(d: Descriptor)
    requires DescriptorToBytes(d).Ok?
    ensures |DescriptorToBytes(d).value| == DESCRIPTOR_LEN
  {
    LayoutCovers();
    PackLength(LAYOUT, Values(d), 0, 0, DESCRIPTOR_LEN);
  }

  /** The fixed fields, each loaded from its own offset. */
  function Loaded(source: seq<byte>): seq<nat> {
    [
      Num(source, 0, 2), Num(source, 2, 1), Num(source, 3, 1), Num(source, 4, 4), Num(source, 8, 4),
      Num(source, 12, 2), Num(source, 14, 2), Num(source, 16, 4), Num(source, 20, 4)
    ]
  }

  lemma {:induction false} LoadedFields(source: seq<byte>)
    requires |source| >= DESCRIPTOR_LEN && Covers(LAYOUT, DESCRIPTOR_LEN)
    ensures Unpack(LAYOUT, source[..DESCRIPTOR_LEN]) == Loaded(source)
  {
    var v := Unpack(LAYOUT, source[..DESCRIPTOR_LEN]);
    UnpackPrefix(LAYOUT, source, DESCRIPTOR_LEN);
    assert v == [
      v[0], v[1], v[2], v[3], v[4], v[5], v[6], v[7], v[8]
    ];
  }

  lemma {:induction false} FieldsOkIff(v: seq<nat>, d: Descriptor)
    requires Fits(LAYOUT, v)
    ensures FromValues(v) == Ok(d) <==>
      && v[6] == 0 && v[2] < 0x10 && v[1] == Pow2(d.kind)
      && d.profileId == v[0] && d.flags == v[2] && d.schemaId == v[3] && d.schemaVersion == v[4]
      && d.streamSemantics == v[5] && d.offset == v[7] && d.length == v[8]
  {
    KnownMasks(v[2]);
    KindBits(v[1], d.kind);
  }

  /** What a descriptor is read as: each field at its offset, the kind as its bit, known flags and a clear
      reserved field. */
  lemma {:induction false} ReadAs(source: seq<byte>, d: Descriptor)
    ensures ParseDescriptor(source) == Ok(d) <==>
      && |source| >= 24 && Num(source, 14, 2) == 0 && Num(source, 3, 1) < 0x10 && Num(source, 2, 1) == Pow2(d.kind)
      && d.profileId == Num(source, 0, 2) && d.flags == Num(source, 3, 1) && d.schemaId == Num(source, 4, 4)
      && d.schemaVersion == Num(source, 8, 4) && d.streamSemantics == Num(source, 12, 2)
      && d.offset == Num(source, 16, 4) && d.length == Num(source, 20, 4)
  {
    if |source| >= DESCRIPTOR_LEN {
      LayoutCovers();
      LoadedFields(source);
      FieldsOkIff(Loaded(source), d);
    }
  }

  // ---------------------------------------------------------------- descriptor lists

  function ParseDescriptors(b: seq<byte>): Result<seq<Descriptor>, NnrpError>
    requires |b| % DESCRIPTOR_LEN == 0
  {
    if b == [] then Ok([])
    else
      var head := ParseDescriptor(b[..DESCRIPTOR_LEN]);
      if head.Err? then Err(head.error)
      else
        var rest := ParseDescriptors(b[DESCRIPTOR_LEN..]);
        if rest.Err? then rest else Ok([head.value] + rest.value)
  }

  function DescriptorsToBytes(ds: seq<Descriptor>): Result<seq<byte>, NnrpError> {
    if ds == [] then Ok([])
    else
      var head := DescriptorToBytes(ds[0]);
      if head.Err? then head
      else
        var rest := DescriptorsToBytes(ds[1..]);
        if rest.Err? then rest else Ok(head.value + rest.value)
  }

  /** A descriptor list and its bytes determine each other. */
  lemma {:induction false} DescriptorsCodec(b: seq<byte>, ds: seq<Descriptor>)
    requires |b| == DESCRIPTOR_LEN * |ds|
    ensures ParseDescriptors(b) == Ok(ds) <==> DescriptorsToBytes(ds) == Ok(b)
    decreases |ds|
  {
    if ds != [] {
      var head, rest := b[..DESCRIPTOR_LEN], b[DESCRIPTOR_LEN..];
      assert b == head + rest && ds == [ds[0]] + ds[1..];
      DescriptorCodec(head, ds[0]);
      DescriptorsCodec(rest, ds[1..]);
      if DescriptorsToBytes(ds) == Ok(b) {
        DescriptorBytesLength(ds[0]);
        assert b[..DESCRIPTOR_LEN] == DescriptorToBytes(ds[0]).value;
        assert b[DESCRIPTOR_LEN..] == DescriptorsToBytes(ds[1..]).value;
      }
    }
  }

  lemma {:induction false} DescriptorsLength(b: seq<byte>)
    requires |b| % DESCRIPTOR_LEN == 0 && ParseDescriptors(b).Ok?
    ensures |b| == DESCRIPTOR_LEN * |ParseDescriptors(b).value|
    decreases |b|
  {
    if b != [] { DescriptorsLength(b[DESCRIPTOR_LEN..]); }
  }

  lemma {:induction false} DescriptorsBytesLength(ds: seq<Descriptor>, b: seq<byte>)
    requires DescriptorsToBytes(ds) == Ok(b)
    ensures |b| == DESCRIPTOR_LEN * |ds|
    decreases |ds|
  {
    if ds != [] {
      DescriptorBytesLength(ds[0]);
      DescriptorsBytesLength(ds[1..], DescriptorsToBytes(ds[1..]).value);
    }
  }

  // ---------------------------------------------------------------- region validation

  datatype Region = Region(descriptors: seq<Descriptor>, payload: seq<byte>)

  function ProfileError(d: Descriptor): Option<NnrpError> {
    if d.kind == TENSOR then Some(InvalidProtocolCombination(TensorDescriptor))
    else if d.profileId == PROFILE_TENSOR then Some(InvalidProtocolCombination(TensorProfile))
    else if d.kind == TOKEN_CHUNK && d.profileId != PROFILE_TOKEN then Some(InvalidProtocolCombination(TokenProfile))
    else None
  }

  /** Total length of the first `k` frames. */
  function SumTo(ds: seq<Descriptor>, k: nat): nat
    requires k <= |ds|
  {
    if k == 0 then 0 else SumTo(ds, k - 1) + ds[k - 1].length
  }

  function UnionTo(ds: seq<Descriptor>, k: nat): nat
    requires k <= |ds|
  {
    if k == 0 then 0 else Or(UnionTo(ds, k - 1), Pow2(ds[k - 1].kind))
  }

  function DescriptorError(d: Descriptor, next: nat, payloadLen: nat): Option<NnrpError> {
    if ProfileError(d).Some? then ProfileError(d)
    else if d.offset != next then Some(InvalidProtocolCombination(NotContiguous))
    else if d.offset + d.length > U32_MAX then Some(MessageLengthOverflow)
    else if d.offset + d.length > payloadLen then Some(InvalidProtocolCombination(RangeTooLong))
    else None
  }

  /** The first thing wrong with the descriptors from `k` on. */
  function FirstError(ds: seq<Descriptor>, k: nat, payloadLen: nat): Option<NnrpError>
    requires k <= |ds|
    decreases |ds| - k
  {
    if k == |ds| then None
    else
      var e := DescriptorError(ds[k], SumTo(ds, k), payloadLen);
      if e.Some? then e else FirstError(ds, k + 1, payloadLen)
  }

  function RegionError(r: Region, bitmap: u32): Option<NnrpError> {
    var ds := r.descriptors;
    if FirstError(ds, 0, |r.payload|).Some? then FirstError(ds, 0, |r.payload|)
    else if SumTo(ds, |ds|) != |r.payload| then Some(InvalidProtocolCombination(NotCovered))
    else if UnionTo(ds, |ds|) != AndNot(bitmap, Pow2(TENSOR)) then Some(InvalidProtocolCombination(KindUnionMismatch))
    else None
  }

  /** The validation loop: it tracks the next expected offset and the union of kinds. */
  method Validate(r: Region, bitmap: u32, count: u16) returns (result: Result<(), NnrpError>)
    ensures result ==
      if |r.descriptors| != count then Err(InvalidProtocolCombination(DescriptorCount))
      else if RegionError(r, bitmap).Some? then Err(RegionError(r, bitmap).value)
      else Ok(())
  {
    var ds := r.descriptors;
    if |ds| != count { return Err(InvalidProtocolCombination(DescriptorCount)); }
    var next, union := 0, 0;
    for k := 0 to |ds|
      invariant next == SumTo(ds, k) && union == UnionTo(ds, k)
      invariant FirstError(ds, 0, |r.payload|) == FirstError(ds, k, |r.payload|)
    {
      var d := ds[k];
      var profile := ProfileError(d);
      if profile.Some? { return Err(profile.value); }
      union := Or(union, Pow2(d.kind));
      if d.offset != next { return Err(InvalidProtocolCombination(NotContiguous)); }
      if d.offset + d.length > U32_MAX { return Err(MessageLengthOverflow); }
      next := d.offset + d.length;
      if next > |r.payload| { return Err(InvalidProtocolCombination(RangeTooLong)); }
    }
    if next != |r.payload| { return Err(InvalidProtocolCombination(NotCovered)); }
    if union != AndNot(bitmap, Pow2(TENSOR)) { return Err(InvalidProtocolCombination(KindUnionMismatch)); }
    result := Ok(());
  }

  function FromParts(bitmap: u32, ds: seq<Descriptor>, payload: seq<byte>): Result<Region, NnrpError> {
    if |ds| > U16_MAX then Err(MessageLengthOverflow)
    else
      var r := Region(ds, payload);
      if RegionError(r, bitmap).Some? then Err(RegionError(r, bitmap).value) else Ok(r)
  }

  function Parse(bitmap: u32, count: u16, descriptors: seq<byte>, payload: seq<byte>): Result<Region, NnrpError> {
    if AndNot(bitmap, PAYLOAD_KIND_KNOWN_MASK) != 0 then Err(ReservedBitsSet(bitmap, PAYLOAD_KIND_KNOWN_MASK))
    else if |descriptors| != count * DESCRIPTOR_LEN then Err(InvalidProtocolCombination(DescriptorRegionLength))
    else if count == 0 then
      if payload != [] then Err(InvalidProtocolCombination(ZeroFramesWithBytes)) else Ok(Region([], payload))
    else
      var ds := ParseDescriptors(descriptors);
      if ds.Err? then Err(ds.error)
      else
        var r := Region(ds.value, payload);
        if RegionError(r, bitmap).Some? then Err(RegionError(r, bitmap).value) else Ok(r)
  }

  /** The payload slices of a region; a descriptor whose range is not inside the region has none. */
  function Views(r: Region, k: nat): Option<seq<seq<byte>>>
    requires k <= |r.descriptors|
  {
    if k == 0 then Some([])
    else
      var d := r.descriptors[k - 1];
      var before := Views(r, k - 1);
      if before.None? || d.offset + d.length > U32_MAX || d.offset + d.length > |r.payload| then None
      else Some(before.value + [r.payload[d.offset..d.offset + d.length]])
  }

  function FrameViews(r: Region): Option<seq<seq<byte>>> { Views(r, |r.descriptors|) }

  function Concat(parts: seq<seq<byte>>): seq<byte> {
    if parts == [] then [] else Concat(parts[..|parts| - 1]) + parts[|parts| - 1]
  }
}
