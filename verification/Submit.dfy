/** Typed payload submits, from the caller's frames to the bytes on the wire and back. */
module Submit {
  import opened Wire
  import opened Bits
  import Header
  import Packets
  import FrameSubmit
  import BodyPrelude
  import opened TypedPayload

  datatype InputFrame = InputFrame(
    profileId: u16, kind: PayloadKind, flags: byte, schemaId: u32, schemaVersion: u32, streamSemantics: u16,
    payload: seq<byte>)

  datatype Policy = Policy(
    frameClass: byte, latencyBudgetMs: u16, targetFpsX100: u16, retryOfFrame: u32, budgetPolicy: byte,
    lossTolerance: FrameSubmit.LossTolerance, dependencyFrameId: u32)

  datatype Input = Input(operationId: u64, frameId: u32, headerFlags: u32, policy: Policy, frames: seq<InputFrame>)

  datatype Request = Request(metadata: FrameSubmit.Metadata, body: seq<byte>)

  // ---------------------------------------------------------------- building the region

  function PayloadTo(frames: seq<InputFrame>, k: nat): seq<byte>
    requires k <= |frames|
  {
    if k == 0 then [] else PayloadTo(frames, k - 1) + frames[k - 1].payload
  }

  predicate FitsAt(frames: seq<InputFrame>, i: nat)
    requires i < |frames|
  {
    |PayloadTo(frames, i)| <= U32_MAX && |frames[i].payload| <= U32_MAX
  }

  /** Every offset and length fits its 32-bit field. */
  predicate Addressable(frames: seq<InputFrame>, k: nat)
    requires k <= |frames|
  {
    forall i | 0 <= i < k :: FitsAt(frames, i)
  }

  function DescriptorOf(f: InputFrame, offset: u32): Descriptor
    requires |f.payload| <= U32_MAX
  {
    Descriptor(f.profileId, f.kind, f.flags, f.schemaId, f.schemaVersion, f.streamSemantics, offset, |f.payload|)
  }

  predicate BuiltAt(frames: seq<InputFrame>, ds: seq<Descriptor>, i: nat)
    requires i < |frames| && i < |ds|
  {
    FitsAt(frames, i) && ds[i] == DescriptorOf(frames[i], |PayloadTo(frames, i)|)
  }

  function DescriptorsTo(frames: seq<InputFrame>, k: nat): (ds: seq<Descriptor>)
    requires k <= |frames| && Addressable(frames, k)
    ensures |ds| == k
    ensures forall i | 0 <= i < k :: BuiltAt(frames, ds, i)
  {
    if k == 0 then []
    else
      assert FitsAt(frames, k - 1);
      var before := DescriptorsTo(frames, k - 1);
      var ds := before + [DescriptorOf(frames[k - 1], |PayloadTo(frames, k - 1)|)];
      assert forall i | 0 <= i < k - 1 :: BuiltAt(frames, before, i) ==> BuiltAt(frames, ds, i);
      ds
  }

  function KindsTo(frames: seq<InputFrame>, k: nat): nat
    requires k <= |frames|
  {
    if k == 0 then 0 else Or(KindsTo(frames, k - 1), Pow2(frames[k - 1].kind))
  }

  datatype Built = Built(descriptors: seq<Descriptor>, payload: seq<byte>, bitmap: nat)

  function Build(frames: seq<InputFrame>): Result<Built, NnrpError> {
    var n := |frames|;
    if Addressable(frames, n) then Ok(Built(DescriptorsTo(frames, n), PayloadTo(frames, n), KindsTo(frames, n)))
    else Err(MessageLengthOverflow)
  }

  /** The build loop: append each payload and remember where it starts. */
  method BuildFrames(frames: seq<InputFrame>) returns (r: Result<Built, NnrpError>)
    ensures r == Build(frames)
  {
    var descriptors: seq<Descriptor> := [];
    var payload: seq<byte> := [];
    var bitmap := 0;
    for k := 0 to |frames|
      invariant Addressable(frames, k) && descriptors == DescriptorsTo(frames, k)
      invariant payload == PayloadTo(frames, k) && bitmap == KindsTo(frames, k)
    {
      var f := frames[k];
      if |payload| > U32_MAX || |f.payload| > U32_MAX {
        assert !FitsAt(frames, k);
        return Err(MessageLengthOverflow);
      }
      assert FitsAt(frames, k);
      descriptors := descriptors + [DescriptorOf(f, |payload|)];
      payload := payload + f.payload;
      bitmap := Or(bitmap, Pow2(f.kind));
    }
    r := Ok(Built(descriptors, payload, bitmap));
  }

  // ---------------------------------------------------------------- the request

  function SubmitMetadata(input: Input, bitmap: u32, count: u16): FrameSubmit.Metadata {
    var p := input.policy;
    FrameSubmit.Metadata(
      0, 0, 0, 0, 0, 0, p.frameClass, 0, 1, p.latencyBudgetMs, p.targetFpsX100, p.retryOfFrame, 0, 0, 0,
      input.operationId, 0, p.budgetPolicy, p.lossTolerance, 0, p.dependencyFrameId, bitmap, count)
  }

  function EncodeBody(descriptors: seq<byte>, payload: seq<byte>): Result<seq<byte>, NnrpError> {
    if |descriptors| > U32_MAX || |payload| > U32_MAX then Err(MessageLengthOverflow)
    else
      var prelude := BodyPrelude.ToBytes(BodyPrelude.Prelude(0, 0, |descriptors|, |payload|, 0, 0));
      if prelude.Err? then prelude else Ok(prelude.value + descriptors + payload)
  }

  lemma {:induction false} KindsBound(frames: seq<InputFrame>, k: nat)
    requires k <= |frames|
    ensures KindsTo(frames, k) < 0x80
  {
    if k > 0 {
      KindsBound(frames, k - 1);
      KindBits(0, frames[k - 1].kind);
      assert Pow2(7) == 0x80 by { assert Pow2(3) == 8; assert Pow2(5) == 32; }
      OrBound(KindsTo(frames, k - 1), Pow2(frames[k - 1].kind), 7);
    }
  }

  lemma {:induction false} OrBound(a: nat, b: nat, k: nat)
    requires a < Pow2(k) && b < Pow2(k)
    ensures Or(a, b) < Pow2(k)
    decreases k
  {
    if k > 0 && a > 0 && b > 0 { OrBound(a / 2, b / 2, k - 1); }
  }

  /** The request for a built region: check the region, encode the body, check the metadata. */
  function Assemble(
    input: Input, count: u16, ds: seq<Descriptor>, payload: seq<byte>, bitmap: u32): Result<Request, NnrpError>
  {
    var region := FromParts(bitmap, ds, payload);
    if region.Err? then Err(region.error)
    else
      var descriptors := DescriptorsToBytes(ds);
      if descriptors.Err? then Err(descriptors.error)
      else
        var body := EncodeBody(descriptors.value, payload);
        if body.Err? then Err(body.error)
        else
          var m := SubmitMetadata(input, bitmap, count);
          if FrameSubmit.ToBytes(m).Err? then Err(FrameSubmit.ToBytes(m).error) else Ok(Request(m, body.value))
  }

  function InputError(input: Input): Option<NnrpError> {
    if input.operationId == 0 || input.frameId == 0 then Some(InvalidProtocolCombination(ZeroIdentity))
    else if AndNot(input.headerFlags, Header.HEADER_FLAGS_KNOWN_MASK) != 0 then
      Some(ReservedBitsSet(input.headerFlags, Header.HEADER_FLAGS_KNOWN_MASK))
    else if input.frames == [] || |input.frames| > U16_MAX then Some(InvalidProtocolCombination(FrameCount))
    else None
  }

  function TypedSubmit(input: Input): Result<Request, NnrpError> {
    if InputError(input).Some? then Err(InputError(input).value)
    else
      var built := Build(input.frames);
      if built.Err? then Err(built.error)
      else
        KindsBound(input.frames, |input.frames|);
        Assemble(input, |input.frames|, built.value.descriptors, built.value.payload, built.value.bitmap)
  }

  function EncodedPayload(q: Request): Result<seq<byte>, NnrpError> {
    var metadata := FrameSubmit.ToBytes(q.metadata);
    if metadata.Err? then metadata else Ok(metadata.value + q.body)
  }

  /** Where a submit goes: the session it is sent on and the caller's routing fields. */
  datatype Route = Route(sessionId: u32, viewId: u16, routeId: u16, traceId: u64)

  /** The header of a submit before its lengths are known. */
  function SubmitHeader(input: Input, to: Route): Header.CommonHeader {
    Header.CommonHeader(
      Header.CURRENT_VERSION_MAJOR, Header.CURRENT_WIRE_FORMAT, Header.FRAME_SUBMIT, Header.COMMON_HEADER_LEN,
      input.headerFlags, 0, 0, to.sessionId, input.frameId, to.viewId, to.routeId, to.traceId)
  }

  /** The packet that carries a request. */
  function SubmitPacket(input: Input, q: Request, to: Route): Result<Packets.Parsed, NnrpError> {
    var metadata := FrameSubmit.ToBytes(q.metadata);
    if metadata.Err? then Err(metadata.error) else Packets.NewPacket(SubmitHeader(input, to), metadata.value, q.body)
  }

  /** From the caller's frames to the bytes of a packet. */
  function SendSubmit(input: Input, to: Route): Result<seq<byte>, NnrpError> {
    var request := TypedSubmit(input);
    if request.Err? then Err(request.error)
    else
      var packet := SubmitPacket(input, request.value, to);
      if packet.Err? then Err(packet.error) else Packets.PacketToBytes(packet.value)
  }

  // ---------------------------------------------------------------- reading it back

  datatype Received = Received(metadata: FrameSubmit.Metadata, region: Region)

  /** The typed payload region that the prelude of `body` delimits, read with the bitmap and the frame
      count that the metadata declares. */
  function ReadRegion(bitmap: u32, count: u16, body: seq<byte>): Result<Region, NnrpError> {
    var prelude := BodyPrelude.Parse(body);
    if prelude.Err? then Err(prelude.error)
    else
      var start := BodyPrelude.PRELUDE_LEN + prelude.value.inlineObjectBytes + prelude.value.objectReferenceBytes;
      var middle := start + prelude.value.typedDescriptorBytes;
      var end := middle + prelude.value.typedFrameBytes;
      if end > |body| then Err(MessageLengthOverflow)
      else Parse(bitmap, count, body[start..middle], body[middle..end])
  }

  /** Read a typed payload submit with the wire parsers: the metadata, then the region. */
  function Receive(source: seq<byte>): Result<Received, NnrpError> {
    var metadata := FrameSubmit.Parse(source);
    if metadata.Err? then Err(metadata.error)
    else
      var m := metadata.value;
      var region := ReadRegion(m.payloadKindBitmap, m.payloadFrameCount, source[FrameSubmit.METADATA_LEN..]);
      if region.Err? then Err(region.error) else Ok(Received(m, region.value))
  }
}
