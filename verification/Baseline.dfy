/** The NNRP/1 baseline typed payload region: 16-byte descriptors and the region check over them. */
module Baseline {
  import opened Wire
  import opened Bits

  const DESCRIPTOR_LEN := 16

  datatype Descriptor = Descriptor(kind: byte, flags: byte, profileId: u16, offset: u32, length: u32)

  const LAYOUT: seq<Field> := [Field(0, 1), Field(1, 1), Field(2, 2), Field(4, 4), Field(8, 4), Field(12, 4)]

  lemma {:induction false} LayoutCovers()
    ensures Covers(LAYOUT, DESCRIPTOR_LEN)
  {
    assert forall i | 0 <= i < |LAYOUT| :: Linked(LAYOUT, i, DESCRIPTOR_LEN);
    LinkedTiles(LAYOUT, 0, DESCRIPTOR_LEN);
  }

  predicate BadKind(kind: nat) {
    kind == 0 || And(kind, kind - 1) != 0 || AndNot(kind, PAYLOAD_KIND_KNOWN_MASK) != 0
  }

  function FromValues(v: seq<nat>): Result<Descriptor, Rule>
    requires Fits(LAYOUT, v)
  {
    Widths();
    assert forall i | 0 <= i < 6 :: v[i] < Pow256(LAYOUT[i].width);
    if v[1] != 0 || v[5] != 0 then Err(BaselineReserved)
    else if BadKind(v[0]) then Err(BaselineKind)
    else Ok(Descriptor(v[0], v[1], v[2], v[3], v[4]))
  }

  function Parse(source: seq<byte>): Result<Descriptor, Rule> {
    if |source| != DESCRIPTOR_LEN then Err(DescriptorRegionLength)
    else
      LayoutCovers();
      FromValues(Unpack(LAYOUT, source))
  }

  function Values(d: Descriptor): (v: seq<nat>)
    ensures Fits(LAYOUT, v)
  {
    Widths();
    [d.kind, d.flags, d.profileId, d.offset, d.length, 0]
  }

  function ToBytes(d: Descriptor): (b: seq<byte>)
    ensures |b| == DESCRIPTOR_LEN
  {
    LayoutCovers();
    PackLength(LAYOUT, Values(d), 0, 0, DESCRIPTOR_LEN);
    Pack(LAYOUT, Values(d))
  }

  /** No flags, and a kind that is one of the seven known bits. */
  ghost predicate WellFormed(d: Descriptor) { d.flags == 0 && SingleKnownBit(d.kind) }

  ghost predicate SingleKnownBit(kind: nat) { exists k: nat | k <= 6 :: kind == Pow2(k) }

  // ---------------------------------------------------------------- one descriptor

  lemma {:induction false} AndSelf(x: nat)
    ensures And(x, x) == x
  {
    if x > 0 { AndSelf(x / 2); }
  }

  ghost predicate IsPower(x: nat) { exists k: nat :: x == Pow2(k) }

  lemma {:induction false} OddPower(x: nat)
    requires x % 2 == 1
    ensures IsPower(x) <==> x == 1
  {
    if x == 1 { assert x == Pow2(0); }
    assert forall k: nat | k > 0 :: Pow2(k) % 2 == 0;
  }

  lemma {:induction false} EvenPower(h: nat)
    requires h > 0
    ensures IsPower(2 * h) <==> IsPower(h)
  {
    if k: nat :| h == Pow2(k) { assert 2 * h == Pow2(k + 1); }
    if k: nat :| 2 * h == Pow2(k) { assert h == Pow2(k - 1); }
  }

  /** `x & (x - 1)` is zero exactly for a power of two. */
  lemma {:induction false} PowerOfTwoIff(x: nat)
    requires x > 0
    ensures And(x, x - 1) == 0 <==> IsPower(x)
  {
    var h := x / 2;
    if x % 2 == 1 {
      assert And(x, x - 1) == 2 * And(h, h);
      AndSelf(h);
      OddPower(x);
    } else {
      assert And(x, x - 1) == 2 * And(h, h - 1);
      PowerOfTwoIff(h);
      EvenPower(h);
    }
  }

  lemma {:induction false} PowerMonotone(j: nat, k: nat)
    requires j <= k
    ensures Pow2(j) <= Pow2(k)
    decreases k
  {
    if j < k { PowerMonotone(j, k - 1); }
  }

  lemma {:induction false} KnownKindIff(kind: nat)
    ensures !BadKind(kind) <==> SingleKnownBit(kind)
    ensures !BadKind(kind) ==> kind < 0x80
  {
    assert Pow2(7) == 0x80 by { assert Pow2(3) == 8; assert Pow2(5) == 32; }
    LowMask(kind, 7);
    if kind > 0 { PowerOfTwoIff(kind); }
    if k: nat :| kind == Pow2(k) && k > 6 { PowerMonotone(7, k); }
    if k: nat :| kind == Pow2(k) && k <= 6 { PowerMonotone(k, 6); assert Pow2(7) == 2 * Pow2(6); }
  }

  lemma {:induction false} ValuesAcceptedIff(d: Descriptor)
    ensures FromValues(Values(d)) == Ok(d) <==> d.flags == 0 && !BadKind(d.kind)
  {
    KnownKindIff(d.kind);
  }

  /** A descriptor survives writing and reading exactly when it is well formed. */
  lemma {:induction false} WriteThenParseIff(d: Descriptor)
    ensures Parse(ToBytes(d)) == Ok(d) <==> WellFormed(d)
  {
    LayoutCovers();
    UnpackPack(LAYOUT, Values(d), DESCRIPTOR_LEN);
    ValuesAcceptedIff(d);
    KnownKindIff(d.kind);
  }

  lemma {:induction false} AcceptedValues(v: seq<nat>)
    requires Fits(LAYOUT, v) && FromValues(v).Ok?
    ensures WellFormed(FromValues(v).value) && Values(FromValues(v).value) == v
  {
    KnownKindIff(v[0]);
  }

  /** An accepted descriptor is well formed and is written back to the same bytes. */
  lemma {:induction false} ParseThenWrite(b: seq<byte>)
    requires Parse(b).Ok?
    ensures ToBytes(Parse(b).value) == b && WellFormed(Parse(b).value)
  {
    LayoutCovers();
    PackUnpack(LAYOUT, b);
    AcceptedValues(Unpack(LAYOUT, b));
  }

  /** A chunk parses to a descriptor exactly when the descriptor is well formed and written as it. */
  lemma {:induction false} ParseIff(chunk: seq<byte>, d: Descriptor)
    ensures Parse(chunk) == Ok(d) <==> WellFormed(d) && ToBytes(d) == chunk
  {
    WriteThenParseIff(d);
    if Parse(chunk) == Ok(d) { ParseThenWrite(chunk); }
  }

  /** The fixed fields, each loaded from its own offset. */
  function Loaded(source: seq<byte>): seq<nat> {
    [
      Num(source, 0, 1), Num(source, 1, 1), Num(source, 2, 2), Num(source, 4, 4), Num(source, 8, 4),
      Num(source, 12, 4)
    ]
  }

  lemma {:induction false} LoadedFields(source: seq<byte>)
    requires |source| >= DESCRIPTOR_LEN && Covers(LAYOUT, DESCRIPTOR_LEN)
    ensures Unpack(LAYOUT, source[..DESCRIPTOR_LEN]) == Loaded(source)
  {
    var v := Unpack(LAYOUT, source[..DESCRIPTOR_LEN]);
    UnpackPrefix(LAYOUT, source, DESCRIPTOR_LEN);
    assert v == [
      v[0], v[1], v[2], v[3], v[4], v[5]
    ];
  }

  /** What a descriptor is read as: each field at its offset, one known kind bit and clear reserved fields. */
  lemma {:induction false} ReadAs(source: seq<byte>, d: Descriptor)
    ensures Parse(source) == Ok(d) <==>
      && |source| == 16 && Num(source, 1, 1) == 0 && Num(source, 12, 4) == 0 && SingleKnownBit(Num(source, 0, 1))
      && d.kind == Num(source, 0, 1) && d.flags == 0 && d.profileId == Num(source, 2, 2)
      && d.offset == Num(source, 4, 4) && d.length == Num(source, 8, 4)
  {
    if |source| == DESCRIPTOR_LEN {
      LayoutCovers();
      LoadedFields(source);
      assert source[..DESCRIPTOR_LEN] == source;
      KnownKindIff(Num(source, 0, 1));
    }
  }

  // ---------------------------------------------------------------- the region check

  function DescriptorError(d: Descriptor, bitmap: u32, next: u32, payloadLen: nat): Option<Rule> {
    if AndNot(d.kind, bitmap) != 0 then Some(KindNotDeclared)
    else if d.offset != next then Some(NotContiguous)
    else if d.offset + d.length > U32_MAX then Some(RangeOverflow)
    else if d.offset + d.length > payloadLen then Some(RangeTooLong)
    else None
  }

  /** Check the parsed chunks from `k` on, with `next` the offset the next descriptor must have. */
  function CheckFrom(bitmap: u32, parsed: seq<Result<Descriptor, Rule>>, k: nat, next: u32, n: nat): Option<Rule>
    requires k <= |parsed|
    decreases |parsed| - k
  {
    if k == |parsed| then if next != n then Some(NotCovered) else None
    else if parsed[k].Err? then Some(parsed[k].error)
    else
      var d := parsed[k].value;
      var e := DescriptorError(d, bitmap, next, n);
      if e.Some? then e else CheckFrom(bitmap, parsed, k + 1, d.offset + d.length, n)
  }

  /** The bytes of descriptor `k`. */
  function Chunk(b: seq<byte>, k: nat): (chunk: seq<byte>)
    requires DESCRIPTOR_LEN * k + DESCRIPTOR_LEN <= |b|
    ensures |chunk| == DESCRIPTOR_LEN
  {
    b[DESCRIPTOR_LEN * k..DESCRIPTOR_LEN * k + DESCRIPTOR_LEN]
  }

  function ParseChunks(b: seq<byte>, count: nat): (parsed: seq<Result<Descriptor, Rule>>)
    requires |b| == DESCRIPTOR_LEN * count
    ensures |parsed| == count && forall i | 0 <= i < count :: parsed[i] == Parse(Chunk(b, i))
  {
    seq(count, i requires 0 <= i < count => Parse(Chunk(b, i)))
  }

  function RegionError(bitmap: u32, count: u16, descriptors: seq<byte>, n: nat): Option<Rule> {
    if |descriptors| != DESCRIPTOR_LEN * count then Some(DescriptorRegionLength)
    else CheckFrom(bitmap, ParseChunks(descriptors, count), 0, 0, n)
  }

  method ParseAt(b: seq<byte>, k: nat, count: nat, ghost parsed: seq<Result<Descriptor, Rule>>)
    returns (d: Result<Descriptor, Rule>)
    requires k < count && |b| == DESCRIPTOR_LEN * count && parsed == ParseChunks(b, count)
    ensures d == parsed[k]
  {
    d := Parse(Chunk(b, k));
  }

  method CheckDescriptor(d: Descriptor, bitmap: u32, next: u32, payloadLen: nat) returns (e: Option<Rule>)
    ensures e == DescriptorError(d, bitmap, next, payloadLen)
  {
    if AndNot(d.kind, bitmap) != 0 { return Some(KindNotDeclared); }
    if d.offset != next { return Some(NotContiguous); }
    if d.offset + d.length > U32_MAX { return Some(RangeOverflow); }
    if d.offset + d.length > payloadLen { return Some(RangeTooLong); }
    e := None;
  }

  /** The loop over the chunks, each parsed when its turn comes. */
  method CheckChunks(bitmap: u32, b: seq<byte>, count: nat, n: nat, ghost parsed: seq<Result<Descriptor, Rule>>)
    returns (e: Option<Rule>)
    requires |b| == DESCRIPTOR_LEN * count && parsed == ParseChunks(b, count)
    ensures e == CheckFrom(bitmap, parsed, 0, 0, n)
  {
    var next: u32 := 0;
    for k := 0 to count
      invariant CheckFrom(bitmap, parsed, 0, 0, n) == CheckFrom(bitmap, parsed, k, next, n)
    {
      var d := ParseAt(b, k, count, parsed);
      if d.Err? { return Some(d.error); }
      e := CheckDescriptor(d.value, bitmap, next, n);
      if e.Some? { return; }
      next := d.value.offset + d.value.length;
    }
    e := if next != n then Some(NotCovered) else None;
  }

  method ValidateRegion(bitmap: u32, count: u16, descriptors: seq<byte>, payload: seq<byte>)
    returns (r: Result<(), Rule>)
    ensures r == var e := RegionError(bitmap, count, descriptors, |payload|); if e.Some? then Err(e.value) else Ok(())
  {
    if |descriptors| != DESCRIPTOR_LEN * count { return Err(DescriptorRegionLength); }
    var e := CheckChunks(bitmap, descriptors, count, |payload|, ParseChunks(descriptors, count));
    r := if e.Some? then Err(e.value) else Ok(());
  }

  // ---------------------------------------------------------------- what the check accepts

  function EncodeAll(ds: seq<Descriptor>): (b: seq<byte>)
    ensures |b| == DESCRIPTOR_LEN * |ds|
  {
    if ds == [] then [] else EncodeAll(ds[..|ds| - 1]) + ToBytes(ds[|ds| - 1])
  }

  /** From `from` to `to`, the ranges of the descriptors from `k` on follow each other without gap or
      overlap. */
  predicate Tile(ds: seq<Descriptor>, k: nat, from: nat, to: nat)
    requires k <= |ds|
    decreases |ds| - k
  {
    if k == |ds| then from == to
    else ds[k].offset == from && from + ds[k].length <= U32_MAX && Tile(ds, k + 1, from + ds[k].length, to)
  }

  /** No flags, and a kind that is a single known bit of the declared bitmap. */
  ghost predicate Declared(d: Descriptor, bitmap: u32) {
    d.flags == 0 && exists k: nat | k <= 6 :: d.kind == Pow2(k) && Bit(bitmap, k)
  }

  ghost predicate Describes(ds: seq<Descriptor>, bitmap: u32, b: seq<byte>, n: nat) {
    EncodeAll(ds) == b && Tile(ds, 0, 0, n) && forall i | 0 <= i < |ds| :: Declared(ds[i], bitmap)
  }

  lemma {:induction false} DeclaredIff(d: Descriptor, bitmap: u32)
    ensures Declared(d, bitmap) <==> WellFormed(d) && AndNot(d.kind, bitmap) == 0
  {
    if k: nat :| k <= 6 && d.kind == Pow2(k) { SingleBit(k, bitmap); }
    if Declared(d, bitmap) {
      var k: nat :| k <= 6 && d.kind == Pow2(k) && Bit(bitmap, k);
      SingleBit(k, bitmap);
    }
  }

  lemma {:induction false} TileBound(ds: seq<Descriptor>, k: nat, from: nat, to: nat)
    requires k <= |ds| && Tile(ds, k, from, to)
    ensures from <= to
    decreases |ds| - k
  {
    if k < |ds| { TileBound(ds, k + 1, from + ds[k].length, to); }
  }

  lemma {:induction false} CheckedAreParsed(
    bitmap: u32, parsed: seq<Result<Descriptor, Rule>>, k: nat, next: u32, n: nat, i: nat)
    requires k <= i < |parsed| && CheckFrom(bitmap, parsed, k, next, n).None?
    ensures parsed[i].Ok?
    decreases |parsed| - k
  {
    if k < i {
      var d := parsed[k].value;
      CheckedAreParsed(bitmap, parsed, k + 1, d.offset + d.length, n, i);
    }
  }

  /** Parsed descriptors pass exactly when their kinds are declared and their ranges tile the rest. */
  lemma {:induction false} CheckIff(
    bitmap: u32, parsed: seq<Result<Descriptor, Rule>>, ds: seq<Descriptor>, k: nat, next: u32, n: nat)
    requires |parsed| == |ds| && k <= |ds| && forall i | 0 <= i < |ds| :: parsed[i] == Ok(ds[i])
    ensures CheckFrom(bitmap, parsed, k, next, n).None? <==>
      Tile(ds, k, next, n) && forall i | k <= i < |ds| :: AndNot(ds[i].kind, bitmap) == 0
    decreases |ds| - k
  {
    if k < |ds| {
      var d := ds[k];
      if Tile(ds, k, next, n) { TileBound(ds, k + 1, next + d.length, n); }
      if d.offset == next && next + d.length <= U32_MAX { CheckIff(bitmap, parsed, ds, k + 1, next + d.length, n); }
    }
  }

  lemma {:induction false} ChunkAppend(before: seq<byte>, last: seq<byte>, n: nat, i: nat)
    requires |before| == DESCRIPTOR_LEN * n && |last| == DESCRIPTOR_LEN && i <= n
    ensures Chunk(before + last, i) == if i < n then Chunk(before, i) else last
  {
  }

  lemma {:induction false} EncodedChunk(ds: seq<Descriptor>, i: nat)
    requires i < |ds|
    ensures Chunk(EncodeAll(ds), i) == ToBytes(ds[i])
  {
    var n := |ds| - 1;
    ChunkAppend(EncodeAll(ds[..n]), ToBytes(ds[n]), n, i);
    if i < n { EncodedChunk(ds[..n], i); }
  }

  lemma {:induction false} SameChunks(a: seq<byte>, b: seq<byte>, count: nat)
    requires |a| == |b| == DESCRIPTOR_LEN * count && forall i | 0 <= i < count :: Chunk(a, i) == Chunk(b, i)
    ensures a == b
    decreases count
  {
    if count > 0 {
      var n := count - 1;
      var x, y := a[..DESCRIPTOR_LEN * n], b[..DESCRIPTOR_LEN * n];
      forall i | 0 <= i < n ensures Chunk(x, i) == Chunk(y, i) {
        assert Chunk(x, i) == Chunk(a, i) && Chunk(y, i) == Chunk(b, i);
      }
      SameChunks(x, y, n);
      assert a == x + Chunk(a, n) && b == y + Chunk(b, n);
    }
  }

  /** Descriptors encode to a region exactly when they are what its chunks encode. */
  lemma {:induction false} EncodesIff(ds: seq<Descriptor>, b: seq<byte>)
    requires |b| == DESCRIPTOR_LEN * |ds|
    ensures EncodeAll(ds) == b <==> forall i | 0 <= i < |ds| :: ToBytes(ds[i]) == Chunk(b, i)
  {
    forall i | 0 <= i < |ds| ensures Chunk(EncodeAll(ds), i) == ToBytes(ds[i]) { EncodedChunk(ds, i); }
    if forall i | 0 <= i < |ds| :: ToBytes(ds[i]) == Chunk(b, i) { SameChunks(EncodeAll(ds), b, |ds|); }
  }

  /** The chunks of a region parse to well-formed descriptors exactly when these encode to it. */
  lemma {:induction false} ParsedIff(ds: seq<Descriptor>, b: seq<byte>)
    requires |b| == DESCRIPTOR_LEN * |ds|
    ensures (forall i | 0 <= i < |ds| :: ParseChunks(b, |ds|)[i] == Ok(ds[i])) <==>
      EncodeAll(ds) == b && forall i | 0 <= i < |ds| :: WellFormed(ds[i])
  {
    EncodesIff(ds, b);
    forall i | 0 <= i < |ds|
      ensures ParseChunks(b, |ds|)[i] == Ok(ds[i]) <==> WellFormed(ds[i]) && ToBytes(ds[i]) == Chunk(b, i)
    {
      ParseIff(Chunk(b, i), ds[i]);
    }
  }

  lemma {:induction false} DescribesIff(ds: seq<Descriptor>, bitmap: u32, b: seq<byte>, n: nat)
    requires |b| == DESCRIPTOR_LEN * |ds|
    ensures Describes(ds, bitmap, b, n) <==>
      && (forall i | 0 <= i < |ds| :: ParseChunks(b, |ds|)[i] == Ok(ds[i]))
      && Tile(ds, 0, 0, n) && forall i | 0 <= i < |ds| :: AndNot(ds[i].kind, bitmap) == 0
  {
    ParsedIff(ds, b);
    forall i | 0 <= i < |ds| ensures Declared(ds[i], bitmap) <==> WellFormed(ds[i]) && AndNot(ds[i].kind, bitmap) == 0 {
      DeclaredIff(ds[i], bitmap);
    }
  }

  lemma {:induction false} AcceptedDescribes(bitmap: u32, count: u16, descriptors: seq<byte>, n: nat)
    returns (ds: seq<Descriptor>)
    requires RegionError(bitmap, count, descriptors, n).None?
    ensures |ds| == count && Describes(ds, bitmap, descriptors, n)
  {
    var parsed := ParseChunks(descriptors, count);
    forall i | 0 <= i < count ensures parsed[i].Ok? { CheckedAreParsed(bitmap, parsed, 0, 0, n, i); }
    ds := seq(count, i requires 0 <= i < count => parsed[i].value);
    CheckIff(bitmap, parsed, ds, 0, 0, n);
    DescribesIff(ds, bitmap, descriptors, n);
  }

  /** A region is accepted exactly when its bytes encode `count` descriptors of declared kinds whose
      ranges tile the payload. The kinds declared need not all be used. */
  lemma {:induction false} RegionAcceptedIff(bitmap: u32, count: u16, descriptors: seq<byte>, n: nat)
    ensures RegionError(bitmap, count, descriptors, n).None? <==>
      exists ds :: |ds| == count && Describes(ds, bitmap, descriptors, n)
  {
    if RegionError(bitmap, count, descriptors, n).None? {
      var ds := AcceptedDescribes(bitmap, count, descriptors, n);
    }
    if ds :| |ds| == count && Describes(ds, bitmap, descriptors, n) {
      DescribesIff(ds, bitmap, descriptors, n);
      CheckIff(bitmap, ParseChunks(descriptors, count), ds, 0, 0, n);
    }
  }

  lemma {:induction false} TileAt(ds: seq<Descriptor>, k: nat, from: nat, to: nat, i: nat)
    requires k <= i < |ds| && Tile(ds, k, from, to)
    ensures from <= ds[i].offset && ds[i].offset + ds[i].length <= U32_MAX
    ensures Tile(ds, i + 1, ds[i].offset + ds[i].length, to)
    decreases i - k
  {
    if k < i { TileAt(ds, k + 1, from + ds[k].length, to, i); }
  }

  /** Tiling, read off per pair of frames: ranges are ordered, disjoint, addressable and inside the payload. */
  lemma {:induction false} TileRanges(ds: seq<Descriptor>, to: nat, i: nat, j: nat)
    requires Tile(ds, 0, 0, to) && i < j < |ds|
    ensures ds[i].offset + ds[i].length <= ds[j].offset
    ensures ds[j].offset + ds[j].length <= to && ds[j].offset + ds[j].length <= U32_MAX
  {
    TileAt(ds, 0, 0, to, i);
    TileAt(ds, i + 1, ds[i].offset + ds[i].length, to, j);
    TileBound(ds, j + 1, ds[j].offset + ds[j].length, to);
  }
}
