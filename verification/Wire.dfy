/** Bytes, results and little-endian fixed layouts shared by every wire codec of the protocol.

    The protocol's fixed messages are written by storing fields at fixed offsets into a
    zero-filled buffer and read by loading them from the same offsets. A layout is the list of
    those fields, reserved ones included; the two lemmas at the end prove once, for every layout
    that tiles its message, that storing and loading are inverse to each other. */
module Wire {

  type byte = x: int | 0 <= x < 0x100
  type u16 = x: int | 0 <= x < 0x1_0000
  type u32 = x: int | 0 <= x < 0x1_0000_0000
  type u64 = x: int | 0 <= x < 0x1_0000_0000_0000_0000

  const U16_MAX := 0xffff
  const U32_MAX := 0xffff_ffff

  datatype Option<+T> = None | Some(value: T)

  datatype Result<+T, +E> = Ok(value: T) | Err(error: E)

  /** The protocol errors the model distinguishes; texts are reduced to a rule name. */
  datatype NnrpError =
    | UnsupportedWireFormat(value: nat)
    | SourceTooShort(expected: nat, actual: nat)
    | DestinationTooShort(expected: nat, actual: nat)
    | InvalidMagic
    | InvalidHeaderLength(value: nat)
    | UnsupportedVersionMajor(value: nat)
    | UnknownMessageType(value: nat)
    | UnknownEnumValue(value: nat)
    | ReservedBitsSet(value: nat, allowed: nat)
    | InvalidProtocolCombination(rule: Rule)
    | ConnectionNotOpen
    | ConnectionAlreadyClosed
    | SessionAlreadyExists(id: nat)
    | UnknownSession(id: nat)
    | SessionNotOpen(id: nat)
    | OperationAlreadyExists(id: nat)
    | UnknownOperation(id: nat)
    | InvalidOperationRelationship(rule: Rule)
    | InvalidOperationTransition(from: nat, to: nat)
    | NonZeroReservedField
    | PacketLengthMismatch(declared: nat, actual: nat)
    | DeclaredLengthMismatch(declared: nat, actual: nat)
    | MessageLengthOverflow
    | InvalidCapabilityTokenBody(rule: Rule)
    | InvalidCapabilityToken(token: seq<byte>)

  datatype Rule =
    // lifecycle
    | OpenAckNeedsSession | RejectedAckCarriesSession
    | NotSessionClose | SessionCloseZeroSession
    | NotSessionCloseAck | SessionCloseAckZeroSession
    | NotFlowUpdate | ConnectionFlowFields | SessionFlowFields | OperationFlowFields | RetryAfterFlag
    // operations
    | ZeroSession | ZeroOperation | SelfParent | ZeroGroup | ForeignParent
    | ForeignSchedule | NotScheduling | ForeignCancel | NoGroup
    // capability tokens
    | TokensNotUnique | TokensNotSorted | ZeroCountWithBody | CountWithoutBody
    | LengthMissing | ZeroLengthToken | TokenTooLong | TokenNotAscii
    // data regions
    | ZeroSubmitOperation | TensorFieldsSet | StaleDisagrees | CoverageFieldsSet
    | PartialWithoutDrops | CoverageMismatch | ReferenceAlignment | DescriptorAlignment | ExtensionAlignment
    | InlineWithMask | ReferenceWithoutMask | SlotsNotSorted | SlotDuplicated | SlotNotDeclared | MaskNotCovered
    | DescriptorRegionLength | ZeroFramesWithBytes | DescriptorCount | TensorDescriptor | TensorProfile
    | TokenProfile | NotContiguous | RangeTooLong | NotCovered | KindUnionMismatch
    | BaselineReserved | BaselineKind | KindNotDeclared | RangeOverflow
    | ZeroIdentity | FrameCount

  // ---------------------------------------------------------------- little-endian integers

  function Pow256(w: nat): (p: nat)
    ensures p > 0
  {
    if w == 0 then 1 else 256 * Pow256(w - 1)
  }

  /** The integer a little-endian byte string denotes. */
  function FromLE(b: seq<byte>): (v: nat)
    ensures v < Pow256(|b|)
  {
    if |b| == 0 then 0 else b[0] + 256 * FromLE(b[1..])
  }

  /** The `w` low bytes of `v`, least significant first. */
  function ToLE(v: nat, w: nat): (b: seq<byte>)
    ensures |b| == w
  {
    if w == 0 then [] else [v % 256] + ToLE(v / 256, w - 1)
  }

  lemma {:induction false} FromToLE(v: nat, w: nat)
    requires v < Pow256(w)
    ensures FromLE(ToLE(v, w)) == v
  {
    if w > 0 {
      FromToLE(v / 256, w - 1);
      assert ToLE(v, w)[1..] == ToLE(v / 256, w - 1);
    }
  }

  lemma {:induction false} ByteSplit(low: byte, high: nat)
    ensures (low + 256 * high) % 256 == low && (low + 256 * high) / 256 == high
  {
  }

  lemma {:induction false} ToFromLE(b: seq<byte>)
    ensures ToLE(FromLE(b), |b|) == b
  {
    if |b| > 0 {
      ToFromLE(b[1..]);
      ByteSplit(b[0], FromLE(b[1..]));
      assert ToLE(FromLE(b), |b|) == [b[0]] + ToLE(FromLE(b[1..]), |b| - 1);
      assert b == [b[0]] + b[1..];
    }
  }

  lemma {:induction false} Widths()
    ensures Pow256(1) == 0x100 && Pow256(2) == 0x1_0000 && Pow256(4) == 0x1_0000_0000
    ensures Pow256(8) == 0x1_0000_0000_0000_0000
  {
    assert Pow256(3) == 0x100_0000;
    assert Pow256(5) == 0x100_0000_0000;
    assert Pow256(6) == 0x1_0000_0000_0000;
    assert Pow256(7) == 0x100_0000_0000_0000;
  }

  // ---------------------------------------------------------------- fixed layouts

  /** One field of a fixed message: its byte offset and its width. */
  datatype Field = Field(off: nat, width: nat)

  function Load(b: seq<byte>, off: nat, width: nat): (v: nat)
    requires off + width <= |b|
    ensures v < Pow256(width)
  {
    FromLE(b[off..off + width])
  }

  /** From field `i` on, the fields follow each other without gaps from byte `at` to byte `n`. */
  predicate Tiles(layout: seq<Field>, i: nat, at: nat, n: nat)
    requires i <= |layout|
    decreases |layout| - i
  {
    if i == |layout| then at == n
    else layout[i].off == at && Tiles(layout, i + 1, at + layout[i].width, n)
  }

  predicate Covers(layout: seq<Field>, n: nat) { Tiles(layout, 0, 0, n) }

  predicate Fits(layout: seq<Field>, vals: seq<nat>) {
    && |vals| == |layout|
    && forall i | 0 <= i < |vals| :: vals[i] < Pow256(layout[i].width)
  }

  lemma {:induction false} TilesInside(layout: seq<Field>, i: nat, at: nat, n: nat)
    requires i <= |layout| && Tiles(layout, i, at, n)
    ensures at <= n
    ensures forall k | i <= k < |layout| :: at <= layout[k].off && layout[k].off + layout[k].width <= n
    decreases |layout| - i
  {
    if i < |layout| {
      TilesInside(layout, i + 1, at + layout[i].width, n);
    }
  }

  /** Field `i` ends where the next field, or the message, begins. */
  predicate Linked(layout: seq<Field>, i: nat, n: nat)
    requires i < |layout|
  {
    layout[i].off + layout[i].width == if i + 1 < |layout| then layout[i + 1].off else n
  }

  lemma {:induction false} LinkedTiles(layout: seq<Field>, i: nat, n: nat)
    requires i < |layout| && forall k | 0 <= k < |layout| :: Linked(layout, k, n)
    ensures Tiles(layout, i, layout[i].off, n)
    decreases |layout| - i
  {
    assert Linked(layout, i, n);
    if i + 1 < |layout| {
      LinkedTiles(layout, i + 1, n);
    }
  }

  /** The bytes of the fields from `i` on, in order. */
  function PackFrom(layout: seq<Field>, vals: seq<nat>, i: nat): (b: seq<byte>)
    requires |vals| == |layout| && i <= |layout|
    decreases |layout| - i
  {
    if i == |layout| then [] else ToLE(vals[i], layout[i].width) + PackFrom(layout, vals, i + 1)
  }

  /** The message that holds `vals`. */
  function Pack(layout: seq<Field>, vals: seq<nat>): (b: seq<byte>)
    requires |vals| == |layout|
  {
    PackFrom(layout, vals, 0)
  }

  lemma {:induction false} PackLength(layout: seq<Field>, vals: seq<nat>, i: nat, at: nat, n: nat)
    requires |vals| == |layout| && i <= |layout| && Tiles(layout, i, at, n)
    ensures at + |PackFrom(layout, vals, i)| == n
    decreases |layout| - i
  {
    if i < |layout| {
      PackLength(layout, vals, i + 1, at + layout[i].width, n);
    }
  }

  /** The values loaded from each field's own offset. */
  function Unpack(layout: seq<Field>, b: seq<byte>): (vals: seq<nat>)
    requires Covers(layout, |b|)
    ensures Fits(layout, vals)
    ensures forall i | 0 <= i < |layout| ::
      layout[i].off + layout[i].width <= |b| && vals[i] == Load(b, layout[i].off, layout[i].width)
  {
    TilesInside(layout, 0, 0, |b|);
    seq(|layout|, i requires 0 <= i < |layout| => Load(b, layout[i].off, layout[i].width))
  }

  /** The field of `width` bytes at `off` holds `x`. */
  predicate At(source: seq<byte>, off: nat, width: nat, x: nat) {
    off + width <= |source| && Load(source, off, width) == x
  }

  /** The field of `width` bytes at `off`, or zero when it is not there. */
  function Num(source: seq<byte>, off: nat, width: nat): nat {
    if off + width <= |source| then Load(source, off, width) else 0
  }

  /** What little-endian means for the narrow fields. */
  lemma {:induction false} LittleEndian(source: seq<byte>, off: nat)
    ensures off + 1 <= |source| ==> Num(source, off, 1) == source[off]
    ensures off + 2 <= |source| ==> Num(source, off, 2) == source[off] as int + 0x100 * source[off + 1] as int
    ensures off + 4 <= |source| ==>
      Num(source, off, 4) == Num(source, off, 2) + 0x1_0000 * Num(source, off + 2, 2)
    ensures off + 8 <= |source| ==>
      Num(source, off, 8) == Num(source, off, 4) + 0x1_0000_0000 * Num(source, off + 4, 4)
  {
    Widths();
    if off + 1 <= |source| { OneByte(source, off); }
    if off + 2 <= |source| {
      OneByte(source, off + 1);
      SplitLE(source[off..off + 2], 1);
      SliceParts(source, off, 1, 2);
    }
    if off + 4 <= |source| { SplitLE(source[off..off + 4], 2); SliceParts(source, off, 2, 4); }
    if off + 8 <= |source| { SplitLE(source[off..off + 8], 4); SliceParts(source, off, 4, 8); }
  }

  lemma {:induction false} OneByte(source: seq<byte>, off: nat)
    requires off < |source|
    ensures FromLE(source[off..off + 1]) == source[off]
  {
    assert source[off..off + 1][1..] == [];
  }

  lemma {:induction false} SliceParts(source: seq<byte>, off: nat, k: nat, n: nat)
    requires k <= n && off + n <= |source|
    ensures source[off..off + n][..k] == source[off..off + k] && source[off..off + n][k..] == source[off + k..off + n]
  {
  }

  lemma {:induction false} SplitLE(b: seq<byte>, k: nat)
    requires k <= |b|
    ensures FromLE(b) == FromLE(b[..k]) + Pow256(k) * FromLE(b[k..])
    decreases k
  {
    if k == 0 {
      assert b[..0] == [] && b[0..] == b;
    } else {
      var low, high := FromLE(b[..k][1..]), FromLE(b[k..]);
      SplitLE(b[1..], k - 1);
      assert b[1..][..k - 1] == b[..k][1..] && b[1..][k - 1..] == b[k..];
      assert FromLE(b) == b[0] as int + 256 * (low + Pow256(k - 1) * high);
      Distribute(low, Pow256(k - 1), high);
    }
  }

  lemma {:induction false} Distribute(low: nat, p: nat, high: nat)
    ensures 256 * (low + p * high) == 256 * low + (256 * p) * high
  {
  }

  /** Loading the first `n` bytes loads each field from its own offset in the whole input. */
  lemma {:induction false} UnpackPrefix(layout: seq<Field>, source: seq<byte>, n: nat)
    requires n <= |source| && Covers(layout, n)
    ensures var v := Unpack(layout, source[..n]);
      forall i | 0 <= i < |layout| :: At(source, layout[i].off, layout[i].width, v[i])
  {
    var v := Unpack(layout, source[..n]);
    forall i | 0 <= i < |layout| ensures At(source, layout[i].off, layout[i].width, v[i]) {
      var from, to := layout[i].off, layout[i].off + layout[i].width;
      assert v[i] == Load(source[..n], from, layout[i].width);
      assert source[..n][from..to] == source[from..to];
    }
  }

  lemma {:induction false} LoadPacked(layout: seq<Field>, vals: seq<nat>, b: seq<byte>, i: nat, at: nat)
    requires Fits(layout, vals) && i <= |layout| && Tiles(layout, i, at, |b|)
    requires at <= |b| && b[at..] == PackFrom(layout, vals, i)
    ensures forall k | i <= k < |layout| ::
      layout[k].off + layout[k].width <= |b| && Load(b, layout[k].off, layout[k].width) == vals[k]
    decreases |layout| - i
  {
    if i < |layout| {
      var w := layout[i].width;
      TilesInside(layout, i, at, |b|);
      assert b[at..][..w] == ToLE(vals[i], w) && b[at..][..w] == b[at..at + w];
      FromToLE(vals[i], w);
      assert b[at..][w..] == PackFrom(layout, vals, i + 1) && b[at..][w..] == b[at + w..];
      LoadPacked(layout, vals, b, i + 1, at + w);
    }
  }

  /** Loading a packed message gives back the values that were stored. */
  lemma {:induction false} UnpackPack(layout: seq<Field>, vals: seq<nat>, n: nat)
    requires Fits(layout, vals) && Covers(layout, n)
    ensures |Pack(layout, vals)| == n
    ensures Unpack(layout, Pack(layout, vals)) == vals
  {
    PackLength(layout, vals, 0, 0, n);
    var b := Pack(layout, vals);
    assert b[0..] == b;
    LoadPacked(layout, vals, b, 0, 0);
  }

  lemma {:induction false} RepackFrom(layout: seq<Field>, b: seq<byte>, i: nat, at: nat)
    requires Covers(layout, |b|) && i <= |layout| && Tiles(layout, i, at, |b|) && at <= |b|
    ensures PackFrom(layout, Unpack(layout, b), i) == b[at..]
    decreases |layout| - i
  {
    if i < |layout| {
      var w := layout[i].width;
      TilesInside(layout, i, at, |b|);
      RepackFrom(layout, b, i + 1, at + w);
      ToFromLE(b[at..at + w]);
      assert b[at..] == b[at..at + w] + b[at + w..];
    }
  }

  /** Packing what was loaded from a message reproduces the message byte for byte. */
  lemma {:induction false} PackUnpack(layout: seq<Field>, b: seq<byte>)
    requires Covers(layout, |b|)
    ensures Pack(layout, Unpack(layout, b)) == b
  {
    RepackFrom(layout, b, 0, 0);
    assert b[0..] == b;
  }

  /** Storing field `k` behind the bytes already packed packs one field more. */
  lemma {:induction false} PlaceField(
    layout: seq<Field>, vals: seq<nat>, k: nat, before: seq<byte>, after: seq<byte>, pos: nat)
    requires k < |layout| == |vals| && pos + layout[k].width <= |before| == |after|
    requires before[..pos] + PackFrom(layout, vals, k) == Pack(layout, vals)
    requires after == before[..pos] + ToLE(vals[k], layout[k].width) + before[pos + layout[k].width..]
    ensures after[..pos + layout[k].width] + PackFrom(layout, vals, k + 1) == Pack(layout, vals)
  {
    var field, rest := ToLE(vals[k], layout[k].width), PackFrom(layout, vals, k + 1);
    assert after[..pos + layout[k].width] == before[..pos] + field;
    Regroup(before[..pos], field, rest);
  }

  lemma {:induction false} Regroup<T>(a: seq<T>, b: seq<T>, c: seq<T>)
    ensures a + (b + c) == a + b + c
  {
  }

  /** The write loop of every fixed message: zero the message, then store each field in place. */
  method WriteFields(dst: array<byte>, layout: seq<Field>, vals: seq<nat>, n: nat)
    requires Covers(layout, n) && |vals| == |layout| && n <= dst.Length
    modifies dst
    ensures dst[..n] == Pack(layout, vals)
    ensures dst[n..] == old(dst[n..])
  {
    PackLength(layout, vals, 0, 0, n);
    forall i | 0 <= i < n { dst[i] := 0; }
    ghost var pos: nat := 0;
    assert dst[..0] + Pack(layout, vals) == Pack(layout, vals);
    for k := 0 to |layout|
      invariant pos <= n && Tiles(layout, k, pos, n)
      invariant dst[..][..pos] + PackFrom(layout, vals, k) == Pack(layout, vals)
      invariant dst[n..] == old(dst[n..])
    {
      TilesInside(layout, k, pos, n);
      ghost var before := dst[..];
      StoreField(dst, layout[k], vals[k]);
      PlaceField(layout, vals, k, before, dst[..], pos);
      assert dst[n..] == dst[..][n..] == before[n..];
      pos := pos + layout[k].width;
    }
    assert dst[..][..n] == dst[..n];
  }

  method StoreField(dst: array<byte>, f: Field, v: nat)
    requires f.off + f.width <= dst.Length
    modifies dst
    ensures dst[..] == old(dst[..])[..f.off] + ToLE(v, f.width) + old(dst[..])[f.off + f.width..]
  {
    var bytes := ToLE(v, f.width);
    forall i | 0 <= i < f.width { dst[f.off + i] := bytes[i]; }
  }
}
