/** A typed payload submit is accepted exactly when its frames are well formed, and a receiver reads
    back exactly what was submitted. */
module SubmitLaws {
  import opened Wire
  import opened Bits
  import Header
  import Packets
  import FrameSubmit
  import BodyPrelude
  import opened TypedPayload
  import opened TypedPayloadLaws
  import opened Submit

  // ---------------------------------------------------------------- what was sent is what is read

  lemma {:induction false} PayloadPrefix(frames: seq<InputFrame>, i: nat, k: nat)
    requires i < k <= |frames|
    ensures var a, b := |PayloadTo(frames, i)|, |PayloadTo(frames, i + 1)|;
      a <= b <= |PayloadTo(frames, k)| && PayloadTo(frames, k)[a..b] == frames[i].payload
    decreases k
  {
    var before, last := PayloadTo(frames, k - 1), frames[k - 1].payload;
    if i < k - 1 {
      PayloadPrefix(frames, i, k - 1);
      SliceOfPrefix(before, last, |PayloadTo(frames, i)|, |PayloadTo(frames, i + 1)|);
    } else {
      SliceOfRest(before, last);
    }
  }

  lemma {:induction false} SliceOfPrefix(s: seq<byte>, t: seq<byte>, a: nat, b: nat)
    requires a <= b <= |s|
    ensures (s + t)[a..b] == s[a..b]
  {
  }

  lemma {:induction false} SliceOfRest(s: seq<byte>, t: seq<byte>)
    ensures (s + t)[|s|..|s + t|] == t
  {
  }

  /** A body splits by its prelude into the regions it was built from. */
  lemma {:induction false} BodyRoundTrip(descriptors: seq<byte>, payload: seq<byte>)
    requires EncodeBody(descriptors, payload).Ok?
    ensures var body := EncodeBody(descriptors, payload).value;
      && BodyPrelude.Parse(body) == Ok(BodyPrelude.Prelude(0, 0, |descriptors|, |payload|, 0, 0))
      && |body| == BodyPrelude.PRELUDE_LEN + |descriptors| + |payload|
      && body[BodyPrelude.PRELUDE_LEN..BodyPrelude.PRELUDE_LEN + |descriptors|] == descriptors
      && body[BodyPrelude.PRELUDE_LEN + |descriptors|..|body|] == payload
  {
    var p := BodyPrelude.Prelude(0, 0, |descriptors|, |payload|, 0, 0);
    BodyPrelude.WriteThenParse(p, descriptors + payload);
    var b := BodyPrelude.ToBytes(p).value;
    assert b + descriptors + payload == b + (descriptors + payload);
  }

  lemma {:induction false} ReadSplitBody(
    bitmap: u32, count: u16, body: seq<byte>, descriptors: seq<byte>, payload: seq<byte>)
    requires |descriptors| <= U32_MAX && |payload| <= U32_MAX
    requires BodyPrelude.Parse(body) == Ok(BodyPrelude.Prelude(0, 0, |descriptors|, |payload|, 0, 0))
    requires |body| == BodyPrelude.PRELUDE_LEN + |descriptors| + |payload|
    requires body[BodyPrelude.PRELUDE_LEN..BodyPrelude.PRELUDE_LEN + |descriptors|] == descriptors
    requires body[BodyPrelude.PRELUDE_LEN + |descriptors|..|body|] == payload
    ensures ReadRegion(bitmap, count, body) == Parse(bitmap, count, descriptors, payload)
  {
  }

  lemma {:induction false} ReadBuiltRegion(bitmap: u32, count: u16, descriptors: seq<byte>, payload: seq<byte>)
    requires EncodeBody(descriptors, payload).Ok?
    ensures ReadRegion(bitmap, count, EncodeBody(descriptors, payload).value)
      == Parse(bitmap, count, descriptors, payload)
  {
    BodyRoundTrip(descriptors, payload);
    ReadSplitBody(bitmap, count, EncodeBody(descriptors, payload).value, descriptors, payload);
  }

  lemma {:induction false} ReceiveBody(m: FrameSubmit.Metadata, body: seq<byte>, region: Region)
    requires FrameSubmit.ToBytes(m).Ok? && ReadRegion(m.payloadKindBitmap, m.payloadFrameCount, body) == Ok(region)
    ensures Receive(FrameSubmit.ToBytes(m).value + body) == Ok(Received(m, region))
  {
    FrameSubmit.WriteThenParse(m, body);
    assert (FrameSubmit.ToBytes(m).value + body)[FrameSubmit.METADATA_LEN..] == body;
  }

  lemma {:induction false} BuiltViewAt(frames: seq<InputFrame>, r: Region, view: seq<byte>, i: nat)
    requires Addressable(frames, |frames|) && r == Region(DescriptorsTo(frames, |frames|), PayloadTo(frames, |frames|))
    requires i < |frames| && IsView(r, view, i)
    ensures view == frames[i].payload
  {
    assert BuiltAt(frames, r.descriptors, i);
    PayloadPrefix(frames, i, |frames|);
  }

  lemma {:induction false} BuiltViews(frames: seq<InputFrame>, r: Region)
    requires Addressable(frames, |frames|) && r == Region(DescriptorsTo(frames, |frames|), PayloadTo(frames, |frames|))
    requires ExactPartition(r)
    ensures var views := FrameViews(r);
      views.Some? && |views.value| == |frames| && forall i | 0 <= i < |frames| :: views.value[i] == frames[i].payload
  {
    forall i | 0 <= i < |frames| ensures FrameViews(r).value[i] == frames[i].payload {
      BuiltViewAt(frames, r, FrameViews(r).value[i], i);
    }
  }

  /** The descriptor says of the frame everything but its payload bytes. */
  predicate Describes(d: Descriptor, f: InputFrame) {
    && d.profileId == f.profileId && d.kind == f.kind && d.flags == f.flags && d.schemaId == f.schemaId
    && d.schemaVersion == f.schemaVersion && d.streamSemantics == f.streamSemantics && d.length == |f.payload|
  }

  /** The metadata says what the caller asked for, and leaves every tensor and reference field clear. */
  ghost predicate Carries(m: FrameSubmit.Metadata, input: Input) {
    && m.operationId == input.operationId
    && m.frameClass == input.policy.frameClass && m.latencyBudgetMs == input.policy.latencyBudgetMs
    && m.targetFpsX100 == input.policy.targetFpsX100 && m.retryOfFrame == input.policy.retryOfFrame
    && m.budgetPolicy == input.policy.budgetPolicy && m.lossTolerance == input.policy.lossTolerance
    && m.dependencyFrameId == input.policy.dependencyFrameId
    && m.payloadFrameCount == |input.frames|
    && (forall k: nat ::
          Bit(m.payloadKindBitmap, k) <==> exists i :: 0 <= i < |input.frames| && input.frames[i].kind == k)
    && m.srcWidth == m.srcHeight == m.tileWidth == m.tileHeight == m.tileCount == m.sectionCount == 0
    && m.tileBaseId == m.cameraBytes == m.tileIndexBytes == m.objectRefMask == 0
    && m.inputProfile == 0 && m.tileIndexMode == 1 && m.submitMode == 0
  }

  ghost predicate SomeKind(frames: seq<InputFrame>, n: nat, k: nat)
    requires n <= |frames|
  {
    exists i :: 0 <= i < n && frames[i].kind == k
  }

  lemma {:induction false} KindBitsOf(frames: seq<InputFrame>, n: nat, k: nat)
    requires n <= |frames|
    ensures Bit(KindsTo(frames, n), k) <==> SomeKind(frames, n, k)
  {
    if n == 0 {
      ZeroBits(k);
    } else {
      KindBitsOf(frames, n - 1, k);
      OrBit(KindsTo(frames, n - 1), Pow2(frames[n - 1].kind), k);
      PowerBit(frames[n - 1].kind, k);
      if SomeKind(frames, n - 1, k) {
        var i :| 0 <= i < n - 1 && frames[i].kind == k;
      }
    }
  }

  lemma {:induction false} RequestMetadata(input: Input)
    requires TypedSubmit(input).Ok?
    ensures |input.frames| <= U16_MAX && KindsTo(input.frames, |input.frames|) < 0x80
    ensures TypedSubmit(input).value.metadata
      == SubmitMetadata(input, KindsTo(input.frames, |input.frames|), |input.frames|)
  {
    KindsBound(input.frames, |input.frames|);
  }

  lemma {:induction false} RequestCarries(input: Input)
    requires TypedSubmit(input).Ok?
    ensures Carries(TypedSubmit(input).value.metadata, input)
  {
    var m, n := TypedSubmit(input).value.metadata, |input.frames|;
    RequestMetadata(input);
    forall k: nat ensures Bit(m.payloadKindBitmap, k) <==> SomeKind(input.frames, n, k) {
      KindBitsOf(input.frames, n, k);
    }
  }

  lemma {:induction false} AssembledRoundTrip(input: Input, ds: seq<Descriptor>, payload: seq<byte>, bitmap: u32)
    requires |ds| <= U16_MAX && Assemble(input, |ds|, ds, payload, bitmap).Ok?
    ensures var q := Assemble(input, |ds|, ds, payload, bitmap).value;
      EncodedPayload(q).Ok? && Receive(EncodedPayload(q).value) == Ok(Received(q.metadata, Region(ds, payload)))
    ensures ExactPartition(Region(ds, payload))
  {
    var q := Assemble(input, |ds|, ds, payload, bitmap).value;
    BuildThenParse(bitmap, ds, payload);
    BuiltIsPartition(bitmap, ds, payload);
    ReadBuiltRegion(bitmap, |ds|, DescriptorsToBytes(ds).value, payload);
    ReceiveBody(q.metadata, q.body, Region(ds, payload));
  }

  /** `r` holds the frames: one descriptor each with the frame's own fields, and their payloads in order. */
  ghost predicate Holds(r: Region, frames: seq<InputFrame>) {
    && |r.descriptors| == |frames|
    && (forall i | 0 <= i < |frames| :: Describes(r.descriptors[i], frames[i]))
    && FrameViews(r).Some? && |FrameViews(r).value| == |frames|
    && (forall i | 0 <= i < |frames| :: FrameViews(r).value[i] == frames[i].payload)
  }

  lemma {:induction false} BuiltHolds(frames: seq<InputFrame>, r: Region)
    requires Addressable(frames, |frames|) && r == Region(DescriptorsTo(frames, |frames|), PayloadTo(frames, |frames|))
    requires ExactPartition(r)
    ensures Holds(r, frames)
  {
    BuiltViews(frames, r);
    forall i | 0 <= i < |frames| ensures Describes(r.descriptors[i], frames[i]) {
      assert BuiltAt(frames, r.descriptors, i);
    }
  }

  /** What a receiver reads from an accepted submit: the metadata that was built and the frames that
      were submitted. */
  lemma {:induction false} SubmitRoundTrip(input: Input)
    requires TypedSubmit(input).Ok?
    ensures var q := TypedSubmit(input).value;
      && EncodedPayload(q).Ok?
      && var r := Receive(EncodedPayload(q).value);
      && r.Ok? && r.value.metadata == q.metadata && Carries(r.value.metadata, input)
      && Holds(r.value.region, input.frames)
  {
    RequestCarries(input);
    var Built(ds, payload, bitmap) := Build(input.frames).value;
    KindsBound(input.frames, |input.frames|);
    AssembledRoundTrip(input, ds, payload, bitmap);
    BuiltHolds(input.frames, Region(ds, payload));
  }

  // ---------------------------------------------------------------- when a submit is accepted

  /** A frame other than a tensor, under a profile its kind allows, with known descriptor flags. */
  predicate FrameOk(f: InputFrame) {
    f.kind != 0 && f.profileId != 1 && (f.kind == 1 ==> f.profileId == 2) && f.flags < 0x10
  }

  function TotalBytes(frames: seq<InputFrame>): nat {
    if frames == [] then 0 else TotalBytes(frames[..|frames| - 1]) + |frames[|frames| - 1].payload|
  }

  ghost predicate Acceptable(input: Input) {
    && input.operationId != 0 && input.frameId != 0 && input.headerFlags < 0x40 && input.policy.budgetPolicy < 0x10
    && 1 <= |input.frames| <= 0xffff && TotalBytes(input.frames) <= 0xffff_ffff
    && forall i | 0 <= i < |input.frames| :: FrameOk(input.frames[i])
  }

  lemma {:induction false} PayloadOf(frames: seq<InputFrame>, n: nat)
    requires n <= |frames|
    ensures |PayloadTo(frames, n)| == TotalBytes(frames[..n])
  {
    if n > 0 {
      PayloadOf(frames, n - 1);
      assert frames[..n][..n - 1] == frames[..n - 1];
    }
  }

  lemma {:induction false} PayloadBytes(frames: seq<InputFrame>)
    ensures |PayloadTo(frames, |frames|)| == TotalBytes(frames)
  {
    PayloadOf(frames, |frames|);
    assert frames[..|frames|] == frames;
  }

  lemma {:induction false} FlagMasks(headerFlags: nat, low: nat)
    ensures AndNot(headerFlags, Header.HEADER_FLAGS_KNOWN_MASK) == 0 <==> headerFlags < 0x40
    ensures AndNot(low, FrameSubmit.BUDGET_POLICY_KNOWN_MASK) == 0 <==> low < 0x10
    ensures AndNot(low, DESCRIPTOR_FLAGS_KNOWN_MASK) == 0 <==> low < 0x10
  {
    assert Pow2(4) == 0x10 && Pow2(6) == 0x40 by { assert Pow2(3) == 8; assert Pow2(5) == 32; }
    LowMask(headerFlags, 6);
    LowMask(low, 4);
  }

  lemma {:induction false} SmallIsAddressable(frames: seq<InputFrame>)
    requires |PayloadTo(frames, |frames|)| <= U32_MAX
    ensures Addressable(frames, |frames|)
  {
    forall i | 0 <= i < |frames| ensures FitsAt(frames, i) {
      PayloadPrefix(frames, i, |frames|);
    }
  }

  lemma {:induction false} BuiltSums(frames: seq<InputFrame>, ds: seq<Descriptor>, k: nat)
    requires Addressable(frames, |frames|) && ds == DescriptorsTo(frames, |frames|) && k <= |frames|
    ensures SumTo(ds, k) == |PayloadTo(frames, k)| && UnionTo(ds, k) == KindsTo(frames, k)
  {
    if k > 0 {
      BuiltSums(frames, ds, k - 1);
      assert BuiltAt(frames, ds, k - 1);
    }
  }

  lemma {:induction false} NoTensorBit(ds: seq<Descriptor>)
    requires forall i | 0 <= i < |ds| :: ds[i].kind != TENSOR
    ensures AndNot(UnionTo(ds, |ds|), Pow2(TENSOR)) == UnionTo(ds, |ds|)
  {
    var u := UnionTo(ds, |ds|);
    forall i: nat ensures Bit(AndNot(u, Pow2(TENSOR)), i) == Bit(u, i) {
      AndNotBit(u, Pow2(TENSOR), i);
      PowerBit(TENSOR, i);
      UnionBits(ds, |ds|, i);
    }
    SameBits(AndNot(u, Pow2(TENSOR)), u);
  }

  predicate ProfilesOk(frames: seq<InputFrame>) {
    forall i | 0 <= i < |frames| ::
      && frames[i].kind != TENSOR && frames[i].profileId != PROFILE_TENSOR
      && (frames[i].kind == TOKEN_CHUNK ==> frames[i].profileId == PROFILE_TOKEN)
  }

  lemma {:induction false} BuiltEnds(frames: seq<InputFrame>, ds: seq<Descriptor>, i: nat)
    requires Addressable(frames, |frames|) && ds == DescriptorsTo(frames, |frames|) && i < |frames|
    ensures ds[i].offset == SumTo(ds, i) && ds[i].offset + ds[i].length <= |PayloadTo(frames, |frames|)|
    ensures i == |frames| - 1 ==> ds[i].offset + ds[i].length == |PayloadTo(frames, |frames|)|
  {
    assert BuiltAt(frames, ds, i);
    BuiltSums(frames, ds, i);
    PayloadPrefix(frames, i, |frames|);
  }

  lemma {:induction false} FittingRegionOk(frames: seq<InputFrame>, ds: seq<Descriptor>, n: nat, bitmap: u32)
    requires Addressable(frames, |frames|) && ds == DescriptorsTo(frames, |frames|)
    requires n == |PayloadTo(frames, |frames|)|
    requires bitmap == KindsTo(frames, |frames|)
    requires ProfilesOk(frames) && n <= U32_MAX
    ensures FirstError(ds, 0, n).None? && SumTo(ds, |ds|) == n && UnionTo(ds, |ds|) == AndNot(bitmap, Pow2(TENSOR))
  {
    forall i | 0 <= i < |ds| ensures ds[i].kind != TENSOR && GoodAt(ds, i, n) {
      assert BuiltAt(frames, ds, i);
      BuiltEnds(frames, ds, i);
    }
    NoErrorIff(ds, 0, n);
    BuiltSums(frames, ds, |frames|);
    NoTensorBit(ds);
  }

  lemma {:induction false} OkRegionFits(frames: seq<InputFrame>, ds: seq<Descriptor>, n: nat)
    requires Addressable(frames, |frames|) && ds == DescriptorsTo(frames, |frames|)
    requires n == |PayloadTo(frames, |frames|)|
    requires frames != [] && FirstError(ds, 0, n).None?
    ensures ProfilesOk(frames) && n <= U32_MAX
  {
    NoErrorIff(ds, 0, n);
    forall i | 0 <= i < |frames| ensures FitsAt(frames, i) && ProfileError(DescriptorOf(frames[i], 0)).None? {
      assert BuiltAt(frames, ds, i);
      assert GoodAt(ds, i, n);
    }
    BuiltEnds(frames, ds, |frames| - 1);
    assert GoodAt(ds, |frames| - 1, n);
  }

  /** A built region passes the region check exactly when the profiles fit and its end is addressable. */
  lemma {:induction false} BuiltRegionOkIff(
    frames: seq<InputFrame>, ds: seq<Descriptor>, payload: seq<byte>, bitmap: u32)
    requires frames != [] && Build(frames) == Ok(Built(ds, payload, bitmap))
    ensures RegionError(Region(ds, payload), bitmap).None? <==> ProfilesOk(frames) && |payload| <= U32_MAX
  {
    if ProfilesOk(frames) && |payload| <= U32_MAX {
      FittingRegionOk(frames, ds, |payload|, bitmap);
    }
    if RegionError(Region(ds, payload), bitmap).None? {
      OkRegionFits(frames, ds, |payload|);
    }
  }

  lemma {:induction false} AlignedPrelude(n: nat, payloadLen: u32)
    requires n <= U16_MAX
    ensures BodyPrelude.ToBytes(BodyPrelude.Prelude(0, 0, DESCRIPTOR_LEN * n, payloadLen, 0, 0)).Ok?
  {
    assert (DESCRIPTOR_LEN * n) % BodyPrelude.TYPED_DESCRIPTOR_LEN == 0;
  }

  lemma {:induction false} BodyEncodable(ds: seq<Descriptor>, payload: seq<byte>)
    requires |ds| <= U16_MAX && |payload| <= U32_MAX && DescriptorsToBytes(ds).Ok?
    ensures EncodeBody(DescriptorsToBytes(ds).value, payload).Ok?
  {
    DescriptorsBytesLength(ds, DescriptorsToBytes(ds).value);
    AlignedPrelude(|ds|, |payload|);
  }

  lemma {:induction false} MetadataWritableIff(input: Input, bitmap: u32, count: u16)
    requires input.operationId != 0 && AndNot(bitmap, PAYLOAD_KIND_KNOWN_MASK) == 0
    ensures FrameSubmit.ToBytes(SubmitMetadata(input, bitmap, count)).Ok? <==>
      AndNot(input.policy.budgetPolicy, FrameSubmit.BUDGET_POLICY_KNOWN_MASK) == 0
  {
  }

  /** Once the region fits, only descriptor flags and the budget policy can refuse a submit. */
  lemma {:induction false} AssembledIff(input: Input, ds: seq<Descriptor>, payload: seq<byte>, bitmap: u32)
    requires |ds| <= U16_MAX && |payload| <= U32_MAX && input.operationId != 0
    requires RegionError(Region(ds, payload), bitmap).None?
    ensures Assemble(input, |ds|, ds, payload, bitmap).Ok? <==>
      && DescriptorsToBytes(ds).Ok?
      && AndNot(input.policy.budgetPolicy, FrameSubmit.BUDGET_POLICY_KNOWN_MASK) == 0
  {
    BuiltBitmapIsKnown(Region(ds, payload), bitmap);
    MetadataWritableIff(input, bitmap, |ds|);
    if DescriptorsToBytes(ds).Ok? { BodyEncodable(ds, payload); }
  }

  lemma {:induction false} BuiltAcceptedIff(input: Input, ds: seq<Descriptor>, payload: seq<byte>, bitmap: u32)
    requires Build(input.frames) == Ok(Built(ds, payload, bitmap)) && InputError(input).None?
    ensures Assemble(input, |ds|, ds, payload, bitmap).Ok? <==>
      && ProfilesOk(input.frames) && |payload| <= U32_MAX
      && FlagsKnown(ds)
      && AndNot(input.policy.budgetPolicy, FrameSubmit.BUDGET_POLICY_KNOWN_MASK) == 0
  {
    BuiltRegionOkIff(input.frames, ds, payload, bitmap);
    FlagsDecide(ds);
    if ProfilesOk(input.frames) && |payload| <= U32_MAX { AssembledIff(input, ds, payload, bitmap); }
  }

  lemma {:induction false} FramesOkIff(frames: seq<InputFrame>, ds: seq<Descriptor>)
    requires Addressable(frames, |frames|) && ds == DescriptorsTo(frames, |frames|)
    ensures (forall i | 0 <= i < |frames| :: FrameOk(frames[i])) <==>
      && ProfilesOk(frames)
      && FlagsKnown(ds)
  {
    assert forall i | 0 <= i < |frames| :: BuiltAt(frames, ds, i) && ds[i].flags == frames[i].flags;
    forall i | 0 <= i < |frames|
      ensures AndNot(ds[i].flags, DESCRIPTOR_FLAGS_KNOWN_MASK) == 0 <==> frames[i].flags < 0x10
    {
      FlagMasks(0, frames[i].flags);
    }
  }

  /** A submit is accepted exactly when its identity, flags, policy and frames are acceptable. */
  lemma {:induction false} SubmitAcceptedIff(input: Input)
    ensures TypedSubmit(input).Ok? <==> Acceptable(input)
  {
    var frames, n := input.frames, |input.frames|;
    FlagMasks(input.headerFlags, input.policy.budgetPolicy);
    PayloadBytes(frames);
    if |PayloadTo(frames, n)| <= U32_MAX { SmallIsAddressable(frames); }
    if InputError(input).None? && Build(frames).Ok? {
      var Built(ds, payload, bitmap) := Build(frames).value;
      KindsBound(frames, n);
      BuiltAcceptedIff(input, ds, payload, bitmap);
      FramesOkIff(frames, ds);
    }
  }

  /** Identity, flags and the number of frames are checked in this order, before anything is built. */
  lemma {:induction false} SubmitRefusals(input: Input)
    ensures (input.operationId == 0 || input.frameId == 0) ==>
      TypedSubmit(input) == Err(InvalidProtocolCombination(ZeroIdentity))
    ensures input.operationId != 0 && input.frameId != 0 && input.headerFlags >= 0x40 ==>
      TypedSubmit(input) == Err(ReservedBitsSet(input.headerFlags, 0x3f))
    ensures (input.operationId != 0 && input.frameId != 0 && input.headerFlags < 0x40
      && (input.frames == [] || |input.frames| > 0xffff)) ==>
      TypedSubmit(input) == Err(InvalidProtocolCombination(FrameCount))
  {
    FlagMasks(input.headerFlags, 0);
  }

  // ---------------------------------------------------------------- framed submits

  /** The bytes that follow the packet header of a submit. */
  function FramedSize(input: Input): nat {
    72 + 32 + 24 * |input.frames| + TotalBytes(input.frames)
  }

  lemma {:induction false} RequestSize(input: Input)
    requires TypedSubmit(input).Ok?
    ensures var q := TypedSubmit(input).value;
      FrameSubmit.ToBytes(q.metadata).Ok? && |FrameSubmit.ToBytes(q.metadata).value| == FrameSubmit.METADATA_LEN
      && FrameSubmit.METADATA_LEN + |q.body| == FramedSize(input)
  {
    var q := TypedSubmit(input).value;
    var Built(ds, payload, _) := Build(input.frames).value;
    var descriptors := DescriptorsToBytes(ds).value;
    PayloadBytes(input.frames);
    DescriptorsBytesLength(ds, descriptors);
    BodyRoundTrip(descriptors, payload);
    FrameSubmit.WriteThenParse(q.metadata, []);
  }

  lemma {:induction false} HeaderWritable(input: Input, to: Route)
    requires TypedSubmit(input).Ok?
    ensures Header.ToBytes(SubmitHeader(input, to)).Ok?
  {
  }

  lemma {:induction false} PacketFitsIff(input: Input, q: Request, to: Route)
    requires TypedSubmit(input) == Ok(q)
    ensures SubmitPacket(input, q, to).Ok? <==> FramedSize(input) <= U32_MAX
  {
    RequestSize(input);
  }

  /** An accepted submit can be sent exactly when metadata, prelude, descriptors and payload together
      fit the 32-bit packet length. */
  lemma {:induction false} SubmitSentIff(input: Input, to: Route)
    requires TypedSubmit(input).Ok?
    ensures SendSubmit(input, to).Ok? <==> FramedSize(input) <= U32_MAX
  {
    var q := TypedSubmit(input).value;
    PacketFitsIff(input, q, to);
    if SubmitPacket(input, q, to).Ok? { PacketParses(input, q, to); }
  }

  /** The packet of a request holds the sender's header fields and the request's encoded payload. */
  lemma {:induction false} PacketParts(input: Input, q: Request, to: Route)
    requires SubmitPacket(input, q, to).Ok?
    ensures var p := SubmitPacket(input, q, to).value;
      && HeaderCarries(p.header, input, to)
      && |p.metadata| == p.header.metaLen && |p.body| == p.header.bodyLen
      && EncodedPayload(q) == Ok(p.metadata + p.body)
  {
  }

  lemma {:induction false} PacketParses(input: Input, q: Request, to: Route)
    requires TypedSubmit(input) == Ok(q) && SubmitPacket(input, q, to).Ok?
    ensures var p := SubmitPacket(input, q, to).value;
      Packets.PacketToBytes(p).Ok? && Packets.ParsePacket(Packets.PacketToBytes(p).value) == Ok(p)
  {
    HeaderWritable(input, to);
    Packets.NewPacketRoundTrip(SubmitHeader(input, to), FrameSubmit.ToBytes(q.metadata).value, q.body);
  }

  /** The header of a submit, on the session it is sent on, with the caller's frame, flags and routing. */
  predicate HeaderCarries(h: Header.CommonHeader, input: Input, to: Route) {
    && h.versionMajor == 1 && h.wireFormat == 0 && h.messageType == 0x10 && h.headerLen == 40
    && h.flags == input.headerFlags && h.sessionId == to.sessionId && h.frameId == input.frameId
    && h.viewId == to.viewId && h.routeId == to.routeId && h.traceId == to.traceId
  }

  /** What arrives at the other end of a sent submit: one packet with the sender's header fields, from
      which the wire parsers read the metadata that was built and the frames that were submitted. */
  lemma {:induction false} SentRoundTrip(input: Input, to: Route)
    requires SendSubmit(input, to).Ok?
    ensures var p := Packets.ParsePacket(SendSubmit(input, to).value);
      && p.Ok? && HeaderCarries(p.value.header, input, to)
      && |p.value.metadata| == p.value.header.metaLen && |p.value.body| == p.value.header.bodyLen
      && var r := Receive(p.value.metadata + p.value.body);
      r.Ok? && Carries(r.value.metadata, input) && Holds(r.value.region, input.frames)
  {
    var q := TypedSubmit(input).value;
    PacketParts(input, q, to);
    PacketParses(input, q, to);
    SubmitRoundTrip(input);
  }
}
