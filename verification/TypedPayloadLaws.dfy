/** Accepted typed payload regions are exact partitions, and the region builder and the region
    parser agree. */
module TypedPayloadLaws {
  import opened Wire
  import opened Bits
  import opened TypedPayload

  predicate GoodAt(ds: seq<Descriptor>, i: nat, payloadLen: nat)
    requires i < |ds|
  {
    DescriptorError(ds[i], SumTo(ds, i), payloadLen).None?
  }

  ghost predicate Contiguous(ds: seq<Descriptor>, payloadLen: nat) {
    forall i | 0 <= i < |ds| :: GoodAt(ds, i, payloadLen)
  }

  lemma {:induction false} NoErrorIff(ds: seq<Descriptor>, k: nat, n: nat)
    requires k <= |ds|
    ensures FirstError(ds, k, n).None? <==> forall i | k <= i < |ds| :: GoodAt(ds, i, n)
    decreases |ds| - k
  {
    if k < |ds| {
      NoErrorIff(ds, k + 1, n);
      assert FirstError(ds, k, n).None? <==> GoodAt(ds, k, n) && FirstError(ds, k + 1, n).None?;
    }
  }

  /** The slice of frame `i` lies inside the payload and is `view`. */
  predicate IsView(r: Region, view: seq<byte>, i: nat)
    requires i < |r.descriptors|
  {
    var d := r.descriptors[i];
    d.offset + d.length <= |r.payload| && view == r.payload[d.offset..d.offset + d.length]
  }

  /** Frame `i` starts where the lengths of the frames before it end. */
  predicate StartsAfterOthers(ds: seq<Descriptor>, i: nat)
    requires i < |ds|
  {
    ds[i].offset == SumTo(ds, i)
  }

  /** The frames of a region tile its payload: each starts where the ones before it end, their
      ranges do not overlap and lie inside the payload, and their slices put together are the payload. */
  ghost predicate ExactPartition(r: Region) {
    var ds := r.descriptors;
    && (forall i | 0 <= i < |ds| :: StartsAfterOthers(ds, i))
    && (forall i, j | 0 <= i < j < |ds| :: ds[i].offset + ds[i].length <= ds[j].offset)
    && FrameViews(r).Some? && |FrameViews(r).value| == |ds|
    && (forall i | 0 <= i < |ds| :: IsView(r, FrameViews(r).value[i], i))
    && Concat(FrameViews(r).value) == r.payload
  }

  lemma {:induction false} SumMonotone(ds: seq<Descriptor>, i: nat, j: nat)
    requires i <= j <= |ds|
    ensures SumTo(ds, i) <= SumTo(ds, j)
    decreases j
  {
    if i < j { SumMonotone(ds, i, j - 1); }
  }

  lemma {:induction false} ViewsExist(r: Region, k: nat)
    requires k <= |r.descriptors| && Contiguous(r.descriptors, |r.payload|)
    ensures Views(r, k).Some? && |Views(r, k).value| == k
    ensures forall i | 0 <= i < k :: IsView(r, Views(r, k).value[i], i)
  {
    if k > 0 {
      ViewsExist(r, k - 1);
      assert GoodAt(r.descriptors, k - 1, |r.payload|);
    }
  }

  lemma {:induction false} ViewsStep(r: Region, k: nat)
    requires 0 < k <= |r.descriptors| && Contiguous(r.descriptors, |r.payload|)
    ensures var d := r.descriptors[k - 1];
      && d.offset == SumTo(r.descriptors, k - 1) && SumTo(r.descriptors, k) == d.offset + d.length <= |r.payload|
      && Views(r, k - 1).Some? && Views(r, k).Some?
      && Views(r, k).value == Views(r, k - 1).value + [r.payload[d.offset..d.offset + d.length]]
  {
    assert GoodAt(r.descriptors, k - 1, |r.payload|);
    ViewsExist(r, k - 1);
    ViewsExist(r, k);
  }

  lemma {:induction false} TakeMore(b: seq<byte>, from: nat, to: nat)
    requires from <= to <= |b|
    ensures b[..to] == b[..from] + b[from..to]
  {
  }

  lemma {:induction false} ViewsJoin(r: Region, k: nat)
    requires k <= |r.descriptors| && Contiguous(r.descriptors, |r.payload|)
    ensures SumTo(r.descriptors, k) <= |r.payload|
    ensures Views(r, k).Some? && Concat(Views(r, k).value) == r.payload[..SumTo(r.descriptors, k)]
  {
    if k > 0 {
      var from, to := SumTo(r.descriptors, k - 1), SumTo(r.descriptors, k);
      ViewsStep(r, k);
      ViewsJoin(r, k - 1);
      ConcatAppend(Views(r, k - 1).value, r.payload[from..to]);
      TakeMore(r.payload, from, to);
    }
  }

  lemma {:induction false} ConcatAppend(parts: seq<seq<byte>>, part: seq<byte>)
    ensures Concat(parts + [part]) == Concat(parts) + part
  {
    assert (parts + [part])[..|parts|] == parts;
  }

  lemma {:induction false} RangesOrdered(r: Region, i: nat, j: nat)
    requires i < j < |r.descriptors| && Contiguous(r.descriptors, |r.payload|)
    ensures r.descriptors[i].offset + r.descriptors[i].length <= r.descriptors[j].offset
  {
    var ds := r.descriptors;
    assert GoodAt(ds, i, |r.payload|);
    assert GoodAt(ds, j, |r.payload|);
    SumMonotone(ds, i + 1, j);
  }

  lemma {:induction false} RegionIsPartition(r: Region, bitmap: u32)
    requires RegionError(r, bitmap).None?
    ensures ExactPartition(r)
  {
    var ds := r.descriptors;
    NoErrorIff(ds, 0, |r.payload|);
    assert Contiguous(ds, |r.payload|);
    ViewsExist(r, |ds|);
    ViewsJoin(r, |ds|);
    assert r.payload[..|r.payload|] == r.payload;
    forall i | 0 <= i < |ds| ensures StartsAfterOthers(ds, i) {
      assert GoodAt(ds, i, |r.payload|);
    }
    forall i, j | 0 <= i < j < |ds| ensures ds[i].offset + ds[i].length <= ds[j].offset {
      RangesOrdered(r, i, j);
    }
  }

  /** Every region the parser accepts is an exact partition. */
  lemma {:induction false} ParsedIsPartition(bitmap: u32, count: u16, descriptors: seq<byte>, payload: seq<byte>)
    requires Parse(bitmap, count, descriptors, payload).Ok?
    ensures ExactPartition(Parse(bitmap, count, descriptors, payload).value)
  {
    if count > 0 {
      RegionIsPartition(Parse(bitmap, count, descriptors, payload).value, bitmap);
    }
  }

  /** Every region the builder accepts is an exact partition. */
  lemma {:induction false} BuiltIsPartition(bitmap: u32, ds: seq<Descriptor>, payload: seq<byte>)
    requires FromParts(bitmap, ds, payload).Ok?
    ensures ExactPartition(FromParts(bitmap, ds, payload).value)
  {
    RegionIsPartition(Region(ds, payload), bitmap);
  }

  // ---------------------------------------------------------------- builder and parser

  lemma {:induction false} UnionBits(ds: seq<Descriptor>, k: nat, i: nat)
    requires k <= |ds| && forall j | 0 <= j < k :: ds[j].kind != TENSOR
    ensures Bit(UnionTo(ds, k), i) ==> 1 <= i <= 6
  {
    if k == 0 {
      ZeroBits(i);
    } else {
      UnionBits(ds, k - 1, i);
      OrBit(UnionTo(ds, k - 1), Pow2(ds[k - 1].kind), i);
      PowerBit(ds[k - 1].kind, i);
    }
  }

  lemma {:induction false} KnownMaskBit(i: nat)
    requires i <= 6
    ensures Bit(PAYLOAD_KIND_KNOWN_MASK, i)
  {
    assert Bit(0x1f, 0) && Bit(0x0f, 0) && Bit(0x07, 0) && Bit(0x03, 0) && Bit(0x01, 0);
    assert Bit(0x1f, 1) && Bit(0x1f, 2) && Bit(0x07, 1) && Bit(0x07, 2);
    assert Bit(0x1f, 3) && Bit(0x1f, 4);
    assert Bit(0x3f, 4) && Bit(0x3f, 5);
  }

  ghost predicate HasKind(ds: seq<Descriptor>, n: nat, k: nat)
    requires n <= |ds|
  {
    exists i :: 0 <= i < n && ds[i].kind == k
  }

  lemma {:induction false} UnionIff(ds: seq<Descriptor>, n: nat, k: nat)
    requires n <= |ds|
    ensures Bit(UnionTo(ds, n), k) <==> HasKind(ds, n, k)
  {
    if n == 0 {
      ZeroBits(k);
    } else {
      UnionIff(ds, n - 1, k);
      OrBit(UnionTo(ds, n - 1), Pow2(ds[n - 1].kind), k);
      PowerBit(ds[n - 1].kind, k);
      if HasKind(ds, n - 1, k) {
        var i :| 0 <= i < n - 1 && ds[i].kind == k;
      }
    }
  }

  lemma {:induction false} TensorFree(ds: seq<Descriptor>, bitmap: nat)
    ensures UnionTo(ds, |ds|) == AndNot(bitmap, Pow2(TENSOR)) <==>
      forall k: nat :: HasKind(ds, |ds|, k) <==> Bit(bitmap, k) && k != 0
  {
    forall k: nat ensures Bit(UnionTo(ds, |ds|), k) <==> HasKind(ds, |ds|, k) { UnionIff(ds, |ds|, k); }
    forall k: nat ensures Bit(AndNot(bitmap, Pow2(TENSOR)), k) <==> Bit(bitmap, k) && k != 0 {
      AndNotBit(bitmap, Pow2(TENSOR), k);
      PowerBit(TENSOR, k);
    }
    if forall k: nat :: HasKind(ds, |ds|, k) <==> Bit(bitmap, k) && k != 0 {
      SameBits(UnionTo(ds, |ds|), AndNot(bitmap, Pow2(TENSOR)));
    }
  }

  /** No tensor and no tensor profile; token chunks are under the token profile. */
  predicate ProfileAllowed(d: Descriptor) { d.kind != 0 && d.profileId != 1 && (d.kind == 1 ==> d.profileId == 2) }

  /** The total length of a list of frames. */
  function Lengths(ds: seq<Descriptor>): nat {
    if ds == [] then 0 else Lengths(ds[..|ds| - 1]) + ds[|ds| - 1].length
  }

  lemma {:induction false} LengthsTo(ds: seq<Descriptor>, k: nat)
    requires k <= |ds|
    ensures SumTo(ds, k) == Lengths(ds[..k])
  {
    if k > 0 {
      LengthsTo(ds, k - 1);
      assert ds[..k][..k - 1] == ds[..k - 1];
    }
  }

  /** A frame that may stand at `i`: an allowed profile, starting where the earlier frames end, and ending
      inside 32 bits and the payload. */
  predicate FrameFits(ds: seq<Descriptor>, i: nat, payloadLen: nat)
    requires i < |ds|
  {
    && ProfileAllowed(ds[i]) && ds[i].offset == Lengths(ds[..i])
    && ds[i].offset as int + ds[i].length as int <= 0xffff_ffff
    && ds[i].offset as int + ds[i].length as int <= payloadLen
  }

  /** The rule that a frame breaks first, by the order of the tests. */
  function BrokenRule(ds: seq<Descriptor>, k: nat, payloadLen: nat): NnrpError
    requires k < |ds|
  {
    var d := ds[k];
    if d.kind == 0 then InvalidProtocolCombination(TensorDescriptor)
    else if d.profileId == 1 then InvalidProtocolCombination(TensorProfile)
    else if d.kind == 1 && d.profileId != 2 then InvalidProtocolCombination(TokenProfile)
    else if d.offset != Lengths(ds[..k]) then InvalidProtocolCombination(NotContiguous)
    else if d.offset as int + d.length as int > 0xffff_ffff then MessageLengthOverflow
    else InvalidProtocolCombination(RangeTooLong)
  }

  ghost predicate FirstMisfit(ds: seq<Descriptor>, k: int, n: nat) {
    0 <= k < |ds| && (forall i | 0 <= i < k :: FrameFits(ds, i, n)) && !FrameFits(ds, k, n)
  }

  lemma {:induction false} FirstErrorAt(ds: seq<Descriptor>, j: nat, k: nat, n: nat)
    requires j <= k && FirstMisfit(ds, k, n)
    ensures FirstError(ds, j, n) == Some(BrokenRule(ds, k, n))
    decreases k - j
  {
    LengthsTo(ds, j);
    if j < k {
      assert FrameFits(ds, j, n);
      FirstErrorAt(ds, j + 1, k, n);
    }
  }

  /** A refused region is refused for the first frame that does not fit, then for bytes that no frame
      covers, then for its kinds. */
  lemma {:induction false} RegionRefusal(bitmap: u32, ds: seq<Descriptor>, payload: seq<byte>)
    requires |ds| <= 0xffff && FromParts(bitmap, ds, payload).Err?
    ensures var e := FromParts(bitmap, ds, payload).error;
      && (forall k | FirstMisfit(ds, k, |payload|) :: e == BrokenRule(ds, k, |payload|))
      && ((forall i | 0 <= i < |ds| :: FrameFits(ds, i, |payload|)) ==>
            e == InvalidProtocolCombination(if Lengths(ds) != |payload| then NotCovered else KindUnionMismatch))
  {
    var n := |payload|;
    forall k | FirstMisfit(ds, k, n) ensures FromParts(bitmap, ds, payload).error == BrokenRule(ds, k, n) {
      FirstErrorAt(ds, 0, k, n);
    }
    if forall i | 0 <= i < |ds| :: FrameFits(ds, i, n) {
      NoErrorIff(ds, 0, n);
      forall i | 0 <= i < |ds| ensures GoodAt(ds, i, n) {
        assert FrameFits(ds, i, n);
        LengthsTo(ds, i);
      }
      LengthsTo(ds, |ds|);
      assert ds[..|ds|] == ds;
    }
  }

  /** Which regions the builder accepts: at most 65535 frames, each fitting, together exactly the payload,
      and of exactly the kinds that the bitmap declares apart from tensors. */
  lemma {:induction false} BuiltIff(bitmap: u32, ds: seq<Descriptor>, payload: seq<byte>)
    ensures FromParts(bitmap, ds, payload).Ok? <==>
      && |ds| <= 0xffff && (forall i | 0 <= i < |ds| :: FrameFits(ds, i, |payload|)) && Lengths(ds) == |payload|
      && forall k: nat :: HasKind(ds, |ds|, k) <==> Bit(bitmap, k) && k != 0
  {
    NoErrorIff(ds, 0, |payload|);
    forall i | 0 <= i < |ds| ensures GoodAt(ds, i, |payload|) <==> FrameFits(ds, i, |payload|) { LengthsTo(ds, i); }
    LengthsTo(ds, |ds|);
    assert ds[..|ds|] == ds;
    TensorFree(ds, bitmap);
  }

  /** The builder never checks the bitmap mask, yet accepts only bitmaps with known bits. */
  lemma {:induction false} BuiltBitmapIsKnown(r: Region, bitmap: u32)
    requires RegionError(r, bitmap).None?
    ensures AndNot(bitmap, PAYLOAD_KIND_KNOWN_MASK) == 0
  {
    var ds := r.descriptors;
    NoErrorIff(ds, 0, |r.payload|);
    forall i: nat | Bit(bitmap, i) ensures Bit(PAYLOAD_KIND_KNOWN_MASK, i) {
      AndNotBit(bitmap, Pow2(TENSOR), i);
      PowerBit(TENSOR, i);
      forall j | 0 <= j < |ds| ensures ds[j].kind != TENSOR {
        assert GoodAt(ds, j, |r.payload|);
      }
      UnionBits(ds, |ds|, i);
      KnownMaskBit(i);
    }
    AndNotSubset(bitmap, PAYLOAD_KIND_KNOWN_MASK);
  }

  /** What the builder accepts and can write, the parser reads back as the same region. */
  lemma {:induction false} BuildThenParse(bitmap: u32, ds: seq<Descriptor>, payload: seq<byte>)
    requires FromParts(bitmap, ds, payload).Ok? && DescriptorsToBytes(ds).Ok?
    ensures Parse(bitmap, |ds|, DescriptorsToBytes(ds).value, payload) == FromParts(bitmap, ds, payload)
  {
    BuiltBitmapIsKnown(Region(ds, payload), bitmap);
    DescriptorsBytesLength(ds, DescriptorsToBytes(ds).value);
    DescriptorsCodec(DescriptorsToBytes(ds).value, ds);
  }

  /** What the parser accepts with frames, the builder accepts and writes back to the same bytes. */
  lemma {:induction false} ParseThenBuild(bitmap: u32, count: u16, descriptors: seq<byte>, payload: seq<byte>)
    requires Parse(bitmap, count, descriptors, payload).Ok? && count > 0
    ensures var r := Parse(bitmap, count, descriptors, payload).value;
      && |r.descriptors| == count
      && DescriptorsToBytes(r.descriptors) == Ok(descriptors)
      && FromParts(bitmap, r.descriptors, payload) == Ok(r)
  {
    DescriptorsLength(descriptors);
    DescriptorsCodec(descriptors, ParseDescriptors(descriptors).value);
  }

  predicate FlagsKnown(ds: seq<Descriptor>) {
    forall i | 0 <= i < |ds| :: AndNot(ds[i].flags, DESCRIPTOR_FLAGS_KNOWN_MASK) == 0
  }

  lemma {:induction false} FlagsDecide(ds: seq<Descriptor>)
    ensures DescriptorsToBytes(ds).Ok? <==> FlagsKnown(ds)
  {
    if ds != [] {
      FlagsDecide(ds[1..]);
      assert forall i | 1 <= i < |ds| :: ds[i] == ds[1..][i - 1];
    }
  }

  /** The parser can return the region: some count and descriptor bytes lead to it. */
  ghost predicate Readable(bitmap: u32, ds: seq<Descriptor>, payload: seq<byte>) {
    exists count: u16, descriptors: seq<byte> :: Parse(bitmap, count, descriptors, payload) == Ok(Region(ds, payload))
  }

  lemma {:induction false} BuiltIsReadable(bitmap: u32, ds: seq<Descriptor>, payload: seq<byte>)
    requires FromParts(bitmap, ds, payload).Ok? && FlagsKnown(ds)
    ensures Readable(bitmap, ds, payload)
  {
    FlagsDecide(ds);
    BuildThenParse(bitmap, ds, payload);
  }

  lemma {:induction false} ParsedIsBuildable(
    bitmap: u32, count: u16, descriptors: seq<byte>, ds: seq<Descriptor>, payload: seq<byte>)
    requires Parse(bitmap, count, descriptors, payload) == Ok(Region(ds, payload))
    ensures count > 0 ==> FromParts(bitmap, ds, payload).Ok? && FlagsKnown(ds)
    ensures count == 0 ==> ds == [] && payload == [] && AndNot(bitmap, PAYLOAD_KIND_KNOWN_MASK) == 0
  {
    if count > 0 {
      ParseThenBuild(bitmap, count, descriptors, payload);
      FlagsDecide(ds);
    }
  }

  /** The parser can return a region exactly when the builder accepts it and all descriptor flags are
      known, or when it is empty and the bitmap has known bits. */
  lemma {:induction false} ReadableIff(bitmap: u32, ds: seq<Descriptor>, payload: seq<byte>)
    ensures Readable(bitmap, ds, payload) <==>
      || (FromParts(bitmap, ds, payload).Ok? && FlagsKnown(ds))
      || (ds == [] && payload == [] && AndNot(bitmap, PAYLOAD_KIND_KNOWN_MASK) == 0)
  {
    if Readable(bitmap, ds, payload) {
      var count: u16, descriptors: seq<byte> :| Parse(bitmap, count, descriptors, payload) == Ok(Region(ds, payload));
      ParsedIsBuildable(bitmap, count, descriptors, ds, payload);
    }
    if FromParts(bitmap, ds, payload).Ok? && FlagsKnown(ds) {
      BuiltIsReadable(bitmap, ds, payload);
    }
    if ds == [] && payload == [] && AndNot(bitmap, PAYLOAD_KIND_KNOWN_MASK) == 0 {
      assert Parse(bitmap, 0, [], []) == Ok(Region([], []));
    }
  }

  /** Builder and parser disagree on a region exactly when the builder accepts an unknown descriptor
      flag, which it never looks at, or when the region is empty and the bitmap declares a known kind
      other than tensor, which the parser does not compare with the frames it has. */
  lemma {:induction false} BuilderParserDisagreeIff(bitmap: u32, ds: seq<Descriptor>, payload: seq<byte>)
    ensures Readable(bitmap, ds, payload) != FromParts(bitmap, ds, payload).Ok? <==>
      || (FromParts(bitmap, ds, payload).Ok? && !FlagsKnown(ds))
      || (ds == [] && payload == []
            && AndNot(bitmap, PAYLOAD_KIND_KNOWN_MASK) == 0 && AndNot(bitmap, Pow2(TENSOR)) != 0)
  {
    ReadableIff(bitmap, ds, payload);
  }

  /** The builder accepts a frame with an unknown descriptor flag, which no bytes can hold. */
  lemma {:induction false} BuiltButUnreadable()
    ensures var ds := [Descriptor(0, 6, 0x10, 0, 0, 0, 0, 0)];
      FromParts(0x40, ds, []).Ok? && !Readable(0x40, ds, [])
  {
    var d := Descriptor(0, 6, 0x10, 0, 0, 0, 0, 0);
    KindBits(0x40, 6);
    assert SumTo([d], 1) == 0 && UnionTo([d], 1) == 0x40;
    assert FirstError([d], 0, 0) == FirstError([d], 1, 0);
    assert AndNot(0x40, 1) == 0x40 by { assert AndNot(0x20, 0) == 0x20 by { AndNotZero(0x20); } }
    assert AndNot(0x10, DESCRIPTOR_FLAGS_KNOWN_MASK) != 0 by { LowMask(0x10, 4); assert Pow2(4) == 0x10; }
    ReadableIff(0x40, [d], []);
  }

  /** The parser accepts an empty region that declares a kind; the builder does not. */
  lemma {:induction false} ReadButNotBuilt()
    ensures Parse(2, 0, [], []).Ok? && FromParts(2, [], []).Err?
  {
    LowMask(2, 7);
    assert Pow2(7) == 0x80 by { assert Pow2(3) == 8; assert Pow2(5) == 32; }
    assert AndNot(2, Pow2(TENSOR)) == 2 by { assert AndNot(1, 0) == 1; }
  }
}
