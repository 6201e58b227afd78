/** Object reference blocks, the region that lists them, and the slot mask a submit declares for it. */
module ObjectReference {
  import opened Wire
  import opened Bits
  import opened Order
  import FrameSubmit
  import opened Cache

  const BLOCK_LEN := 24
  const KNOWN_SLOTS := 0x0f

  datatype Block = Block(kind: ObjectKind, refFlags: u16, namespace: u32, keyHi: u64, keyLo: u64)

  const LAYOUT: seq<Field> := [Field(0, 2), Field(2, 2), Field(4, 4), Field(8, 8), Field(16, 8)]

  lemma {:induction false} LayoutCovers()
    ensures Covers(LAYOUT, BLOCK_LEN)
  {
    assert forall i | 0 <= i < |LAYOUT| :: Linked(LAYOUT, i, BLOCK_LEN);
    LinkedTiles(LAYOUT, 0, BLOCK_LEN);
  }

  function Values(b: Block): (v: seq<nat>)
    ensures Fits(LAYOUT, v)
  {
    Widths();
    [b.kind, 0, b.namespace, b.keyHi, b.keyLo]
  }

  function FromValues(v: seq<nat>): Result<Block, NnrpError>
    requires Fits(LAYOUT, v)
  {
    Widths();
    assert forall i | 0 <= i < 5 :: v[i] < Pow256(LAYOUT[i].width);
    if v[1] != 0 then Err(NonZeroReservedField)
    else if !(1 <= v[0] <= 9) then Err(UnknownEnumValue(v[0]))
    else Ok(Block(v[0], v[1], v[2], v[3], v[4]))
  }

  function ParseBlock(source: seq<byte>): Result<Block, NnrpError> {
    if |source| < BLOCK_LEN then Err(SourceTooShort(BLOCK_LEN, |source|))
    else
      LayoutCovers();
      FromValues(Unpack(LAYOUT, source[..BLOCK_LEN]))
  }

  function BlockToBytes(b: Block): Result<seq<byte>, NnrpError> {
    if b.refFlags != 0 then Err(NonZeroReservedField) else Ok(Pack(LAYOUT, Values(b)))
  }

  lemma {:induction false} AcceptedValues(v: seq<nat>)
    requires Fits(LAYOUT, v) && FromValues(v).Ok?
    ensures FromValues(v).value.refFlags == 0 && Values(FromValues(v).value) == v
  {
  }

  /** A block and its 24 bytes determine each other. */
  lemma {:induction false} BlockCodec(b: seq<byte>, block: Block)
    requires |b| == BLOCK_LEN
    ensures ParseBlock(b) == Ok(block) <==> BlockToBytes(block) == Ok(b)
  {
    LayoutCovers();
    assert b[..BLOCK_LEN] == b;
    if ParseBlock(b) == Ok(block) {
      PackUnpack(LAYOUT, b);
      AcceptedValues(Unpack(LAYOUT, b));
    }
    if BlockToBytes(block) == Ok(b) {
      UnpackPack(LAYOUT, Values(block), BLOCK_LEN);
    }
  }

  lemma {:induction false} BlockLength(block: Block)
    requires BlockToBytes(block).Ok?
    ensures |BlockToBytes(block).value| == BLOCK_LEN
  {
    LayoutCovers();
    PackLength(LAYOUT, Values(block), 0, 0, BLOCK_LEN);
  }

  /** The fixed fields, each loaded from its own offset. */
  function Loaded(source: seq<byte>): seq<nat> {
    [
      Num(source, 0, 2), Num(source, 2, 2), Num(source, 4, 4), Num(source, 8, 8), Num(source, 16, 8)
    ]
  }

  lemma {:induction false} LoadedFields(source: seq<byte>)
    requires |source| >= BLOCK_LEN && Covers(LAYOUT, BLOCK_LEN)
    ensures Unpack(LAYOUT, source[..BLOCK_LEN]) == Loaded(source)
  {
    var v := Unpack(LAYOUT, source[..BLOCK_LEN]);
    UnpackPrefix(LAYOUT, source, BLOCK_LEN);
    assert v == [
      v[0], v[1], v[2], v[3], v[4]
    ];
  }

  /** What a block is read as: kind, namespace and key at their offsets, a known kind and no flags. */
  lemma {:induction false} ReadAs(source: seq<byte>, b: Block)
    ensures ParseBlock(source) == Ok(b) <==>
      && |source| >= 24 && 1 <= Num(source, 0, 2) <= 9 && Num(source, 2, 2) == 0
      && b.kind == Num(source, 0, 2) && b.refFlags == 0 && b.namespace == Num(source, 4, 4)
      && b.keyHi == Num(source, 8, 8) && b.keyLo == Num(source, 16, 8)
  {
    if |source| >= BLOCK_LEN {
      LayoutCovers();
      LoadedFields(source);
    }
  }

  // ---------------------------------------------------------------- regions

  function ParseBlocks(b: seq<byte>): Result<seq<Block>, NnrpError>
    requires |b| % BLOCK_LEN == 0
  {
    if b == [] then Ok([])
    else
      var head := ParseBlock(b[..BLOCK_LEN]);
      if head.Err? then Err(head.error)
      else
        var rest := ParseBlocks(b[BLOCK_LEN..]);
        if rest.Err? then rest else Ok([head.value] + rest.value)
  }

  function ParseRegion(b: seq<byte>): Result<seq<Block>, NnrpError> {
    if |b| % BLOCK_LEN != 0 then Err(InvalidProtocolCombination(ReferenceAlignment)) else ParseBlocks(b)
  }

  function RegionToBytes(blocks: seq<Block>): Result<seq<byte>, NnrpError> {
    if blocks == [] then Ok([])
    else
      var head := BlockToBytes(blocks[0]);
      if head.Err? then head
      else
        var rest := RegionToBytes(blocks[1..]);
        if rest.Err? then rest else Ok(head.value + rest.value)
  }

  /** One block in front of a region. */
  lemma {:induction false} ParseBlocksCons(head: seq<byte>, rest: seq<byte>)
    requires |head| == BLOCK_LEN && |rest| % BLOCK_LEN == 0 && ParseBlock(head).Ok? && ParseBlocks(rest).Ok?
    ensures |head + rest| % BLOCK_LEN == 0
    ensures ParseBlocks(head + rest) == Ok([ParseBlock(head).value] + ParseBlocks(rest).value)
  {
    assert (head + rest)[..BLOCK_LEN] == head && (head + rest)[BLOCK_LEN..] == rest;
  }

  lemma {:induction false} ParsedRegionWrites(b: seq<byte>)
    requires |b| % BLOCK_LEN == 0 && ParseBlocks(b).Ok?
    ensures RegionToBytes(ParseBlocks(b).value) == Ok(b)
    decreases |b|
  {
    if b != [] {
      var head, rest := b[..BLOCK_LEN], b[BLOCK_LEN..];
      BlockCodec(head, ParseBlock(head).value);
      ParsedRegionWrites(rest);
      assert ParseBlocks(b).value[1..] == ParseBlocks(rest).value;
      assert b == head + rest;
    }
  }

  lemma {:induction false} WrittenRegionParses(blocks: seq<Block>)
    requires RegionToBytes(blocks).Ok?
    ensures |RegionToBytes(blocks).value| == BLOCK_LEN * |blocks|
    ensures ParseRegion(RegionToBytes(blocks).value) == Ok(blocks)
    decreases |blocks|
  {
    if blocks != [] {
      var head, rest := BlockToBytes(blocks[0]).value, RegionToBytes(blocks[1..]).value;
      BlockLength(blocks[0]);
      BlockCodec(head, blocks[0]);
      WrittenRegionParses(blocks[1..]);
      ParseBlocksCons(head, rest);
      assert blocks == [blocks[0]] + blocks[1..];
    }
  }

  /** A region of any number of blocks and its bytes determine each other. */
  lemma {:induction false} RegionCodec(b: seq<byte>, blocks: seq<Block>)
    ensures ParseRegion(b) == Ok(blocks) <==> RegionToBytes(blocks) == Ok(b)
  {
    if ParseRegion(b) == Ok(blocks) { ParsedRegionWrites(b); }
    if RegionToBytes(blocks) == Ok(b) { WrittenRegionParses(blocks); }
  }

  // ---------------------------------------------------------------- the submit mask

  function MaskRuleError(mode: FrameSubmit.SubmitMode, mask: u32): Option<NnrpError> {
    if AndNot(mask, KNOWN_SLOTS) != 0 then Some(ReservedBitsSet(mask, KNOWN_SLOTS))
    else if mode == 0 && mask != 0 then Some(InvalidProtocolCombination(InlineWithMask))
    else if mode != 0 && mask == 0 then Some(InvalidProtocolCombination(ReferenceWithoutMask))
    else None
  }

  /** The slot of a standard object kind. */
  function SlotOf(kind: ObjectKind): Option<nat> {
    if kind == 1 then Some(0) else if kind == 2 then Some(1) else if kind == 3 then Some(2)
    else if kind == 6 then Some(3) else None
  }

  /** What a slot can be refused for, given the last slot and the slots seen before it. */
  function SlotError(slot: nat, expected: nat, seen: nat, mask: nat): Option<NnrpError> {
    if slot < expected then Some(InvalidProtocolCombination(SlotsNotSorted))
    else if And(seen, Pow2(slot)) != 0 then Some(InvalidProtocolCombination(SlotDuplicated))
    else if And(mask, Pow2(slot)) == 0 then Some(InvalidProtocolCombination(SlotNotDeclared))
    else None
  }

  function SlotsError(blocks: seq<Block>, k: nat, expected: nat, seen: nat, mask: nat): Option<NnrpError>
    requires k <= |blocks|
    decreases |blocks| - k
  {
    if k == |blocks| then
      if seen != mask then Some(InvalidProtocolCombination(MaskNotCovered)) else None
    else
      match SlotOf(blocks[k].kind)
      case None => SlotsError(blocks, k + 1, expected, seen, mask)
      case Some(slot) =>
        if SlotError(slot, expected, seen, mask).Some? then SlotError(slot, expected, seen, mask)
        else SlotsError(blocks, k + 1, slot, Or(seen, Pow2(slot)), mask)
  }

  function MaskError(blocks: seq<Block>, mode: FrameSubmit.SubmitMode, mask: u32): Option<NnrpError> {
    if MaskRuleError(mode, mask).Some? then MaskRuleError(mode, mask) else SlotsError(blocks, 0, 0, 0, mask)
  }

  /** The scan over the blocks, with the last slot and the mask of slots seen so far. */
  method ValidateSubmitMask(blocks: seq<Block>, mode: FrameSubmit.SubmitMode, mask: u32)
    returns (r: Result<(), NnrpError>)
    ensures r == if MaskError(blocks, mode, mask).Some? then Err(MaskError(blocks, mode, mask).value) else Ok(())
  {
    var rule := MaskRuleError(mode, mask);
    if rule.Some? { return Err(rule.value); }
    var expected, seen: nat := 0, 0;
    for k := 0 to |blocks|
      invariant SlotsError(blocks, 0, 0, 0, mask) == SlotsError(blocks, k, expected, seen, mask)
    {
      var slot := SlotOf(blocks[k].kind);
      if slot.None? { continue; }
      if slot.value < expected { return Err(InvalidProtocolCombination(SlotsNotSorted)); }
      expected := slot.value;
      var bit := Pow2(slot.value);
      if And(seen, bit) != 0 { return Err(InvalidProtocolCombination(SlotDuplicated)); }
      if And(mask, bit) == 0 { return Err(InvalidProtocolCombination(SlotNotDeclared)); }
      seen := Or(seen, bit);
    }
    if seen != mask { return Err(InvalidProtocolCombination(MaskNotCovered)); }
    r := Ok(());
  }

  /** The slots of the standard kinds among the blocks from `k` on, in order. */
  function SlotsFrom(blocks: seq<Block>, k: nat): seq<nat>
    requires k <= |blocks|
    decreases |blocks| - k
  {
    if k == |blocks| then []
    else
      var slot := SlotOf(blocks[k].kind);
      (if slot.Some? then [slot.value] else []) + SlotsFrom(blocks, k + 1)
  }

  /** `slots` is the ascending list of the set bits of `mask`. */
  ghost predicate ListsBits(slots: seq<nat>, mask: nat) {
    Ascending(slots) && forall i: nat :: Bit(mask, i) <==> i in slots
  }

  /** After the slots `done`: the last one is `expected` and they are the bits of `seen`. */
  ghost predicate Progress(done: seq<nat>, expected: nat, seen: nat) {
    && ListsBits(done, seen)
    && (done == [] ==> expected == 0) && (done != [] ==> expected == done[|done| - 1])
  }

  lemma {:induction false} AndPower(x: nat, k: nat)
    ensures And(x, Pow2(k)) != 0 <==> Bit(x, k)
  {
    AndBit(x, Pow2(k), k);
    PowerBit(k, k);
    if And(x, Pow2(k)) == 0 {
      ZeroBits(k);
    } else {
      var i := SomeBit(And(x, Pow2(k)));
      AndBit(x, Pow2(k), i);
      PowerBit(k, i);
    }
  }

  /** A slot passes the three tests exactly when it is above all earlier ones and declared. */
  lemma {:induction false} SlotOkIff(done: seq<nat>, slot: nat, expected: nat, seen: nat, mask: nat)
    requires Progress(done, expected, seen)
    ensures SlotError(slot, expected, seen, mask).None? <==> (forall x | x in done :: x < slot) && Bit(mask, slot)
  {
    AndPower(seen, slot);
    AndPower(mask, slot);
    if done != [] { assert expected in done; }
  }

  lemma {:induction false} SlotProgress(done: seq<nat>, slot: nat, expected: nat, seen: nat)
    requires Progress(done, expected, seen) && forall x | x in done :: x < slot
    ensures Progress(done + [slot], slot, Or(seen, Pow2(slot)))
  {
    forall i: nat ensures Bit(Or(seen, Pow2(slot)), i) <==> i in done + [slot] {
      OrBit(seen, Pow2(slot), i);
      PowerBit(slot, i);
    }
    assert forall i | 0 <= i < |done| :: done[i] in done;
  }

  lemma {:induction false} BadSlot(done: seq<nat>, slot: nat, rest: seq<nat>, mask: nat)
    requires ListsBits(done + [slot] + rest, mask)
    ensures (forall x | x in done :: x < slot) && Bit(mask, slot)
  {
    var all := done + [slot] + rest;
    assert all[|done|] == slot;
    forall x | x in done ensures x < slot {
      var i :| 0 <= i < |done| && done[i] == x;
      assert all[i] == x;
    }
    assert slot in all;
  }

  lemma {:induction false} EqualMasks(done: seq<nat>, seen: nat, mask: nat)
    requires ListsBits(done, seen)
    ensures seen == mask <==> ListsBits(done, mask)
  {
    if ListsBits(done, mask) {
      assert forall i: nat :: Bit(seen, i) == Bit(mask, i);
      SameBits(seen, mask);
    }
  }

  lemma {:induction false} SlotsOkIff(
    blocks: seq<Block>, k: nat, done: seq<nat>, expected: nat, seen: nat, mask: nat)
    requires k <= |blocks| && Progress(done, expected, seen)
    ensures SlotsError(blocks, k, expected, seen, mask).None? <==> ListsBits(done + SlotsFrom(blocks, k), mask)
    decreases |blocks| - k
  {
    if k == |blocks| {
      assert done + [] == done;
      EqualMasks(done, seen, mask);
    } else if SlotOf(blocks[k].kind).None? {
      SlotsOkIff(blocks, k + 1, done, expected, seen, mask);
      assert [] + SlotsFrom(blocks, k + 1) == SlotsFrom(blocks, k + 1);
    } else {
      var slot, rest := SlotOf(blocks[k].kind).value, SlotsFrom(blocks, k + 1);
      Regroup(done, [slot], rest);
      SlotOkIff(done, slot, expected, seen, mask);
      if SlotError(slot, expected, seen, mask).None? {
        SlotProgress(done, slot, expected, seen);
        SlotsOkIff(blocks, k + 1, done + [slot], slot, Or(seen, Pow2(slot)), mask);
      } else if ListsBits(done + [slot] + rest, mask) {
        BadSlot(done, slot, rest, mask);
      }
    }
  }

  /** A region matches a submit exactly when the mask is legal for the submit mode and the slots of its
      standard-kind blocks, all others skipped, are the ascending list of the set bits of the mask. */
  lemma {:induction false} SubmitMaskIff(blocks: seq<Block>, mode: FrameSubmit.SubmitMode, mask: u32)
    ensures MaskError(blocks, mode, mask).None? <==>
      && (forall i: nat :: Bit(mask, i) ==> i < 4)
      && (mask == 0 <==> mode == 0)
      && ListsBits(SlotsFrom(blocks, 0), mask)
  {
    assert Pow2(4) == 16 && Pow2(4) - 1 == KNOWN_SLOTS;
    AndNotSubset(mask, KNOWN_SLOTS);
    forall i: nat ensures Bit(KNOWN_SLOTS, i) <==> i < 4 { FourBits(i); }
    forall i: nat ensures !Bit(0, i) { ZeroBits(i); }
    SlotsOkIff(blocks, 0, [], 0, 0, mask);
    assert [] + SlotsFrom(blocks, 0) == SlotsFrom(blocks, 0);
  }

  lemma {:induction false} FourBits(i: nat)
    ensures Bit(KNOWN_SLOTS, i) <==> i < 4
  {
    if i >= 4 {
      ZeroBits(i - 4);
      assert Bit(3, i - 2) == Bit(0, i - 4);
    } else {
      assert Bit(3, 0) && Bit(3, 1);
    }
  }

  // ---------------------------------------------------------------- the mask by object kinds

  /** The kinds that have a slot: camera, tile index, section table and layout template. */
  predicate Standard(b: Block) { b.kind == 1 || b.kind == 2 || b.kind == 3 || b.kind == 6 }

  ghost predicate HasKind(blocks: seq<Block>, k: nat, kind: int)
    requires k <= |blocks|
  {
    exists i :: k <= i < |blocks| && blocks[i].kind == kind
  }

  /** The standard kinds among the blocks from `k` on are in ascending order without repetition. */
  ghost predicate KindsAscend(blocks: seq<Block>, k: nat)
    requires k <= |blocks|
  {
    forall i, j | k <= i < j < |blocks| && Standard(blocks[i]) && Standard(blocks[j]) :: blocks[i].kind < blocks[j].kind
  }

  function KindOfSlot(slot: nat): int { if slot == 3 then 6 else slot + 1 }

  lemma {:induction false} SlotMembers(blocks: seq<Block>, k: nat, slot: nat)
    requires k <= |blocks|
    ensures slot in SlotsFrom(blocks, k) <==> slot <= 3 && HasKind(blocks, k, KindOfSlot(slot))
    decreases |blocks| - k
  {
    if k < |blocks| {
      SlotMembers(blocks, k + 1, slot);
      var kind := KindOfSlot(slot);
      assert HasKind(blocks, k, kind) <==> blocks[k].kind == kind || HasKind(blocks, k + 1, kind);
    }
  }

  ghost predicate AllAbove(slot: nat, slots: seq<nat>) { forall x | x in slots :: slot < x }

  lemma {:induction false} FirstSlot(slot: nat, rest: seq<nat>)
    ensures Ascending([slot] + rest) <==> Ascending(rest) && AllAbove(slot, rest)
  {
    var all := [slot] + rest;
    if Ascending(all) {
      forall i, j | 0 <= i < j < |rest| ensures rest[i] < rest[j] {
        assert all[i + 1] == rest[i] && all[j + 1] == rest[j];
      }
      forall x | x in rest ensures slot < x {
        var i :| 0 <= i < |rest| && rest[i] == x;
        assert all[0] == slot && all[i + 1] == x;
      }
    } else {
      var i, j :| 0 <= i < j < |all| && all[i] >= all[j];
      assert all[j] == rest[j - 1] && all[j] in rest;
      if i > 0 { assert all[i] == rest[i - 1]; }
    }
  }

  lemma {:induction false} SlotsAscendIff(blocks: seq<Block>, k: nat)
    requires k <= |blocks|
    ensures Ascending(SlotsFrom(blocks, k)) <==> KindsAscend(blocks, k)
    decreases |blocks| - k
  {
    if k < |blocks| {
      SlotsAscendIff(blocks, k + 1);
      var rest := SlotsFrom(blocks, k + 1);
      if SlotOf(blocks[k].kind).None? {
        assert [] + rest == rest;
        assert !Standard(blocks[k]);
      } else {
        var slot := SlotOf(blocks[k].kind).value;
        FirstSlot(slot, rest);
        StandardAfter(blocks, k, slot);
      }
    }
  }

  /** All later slots are above this one exactly when all later standard kinds are. */
  lemma {:induction false} StandardAfter(blocks: seq<Block>, k: nat, slot: nat)
    requires k < |blocks| && SlotOf(blocks[k].kind) == Some(slot)
    ensures AllAbove(slot, SlotsFrom(blocks, k + 1)) <==>
      forall j | k < j < |blocks| && Standard(blocks[j]) :: blocks[k].kind < blocks[j].kind
  {
    forall x: nat ensures x in SlotsFrom(blocks, k + 1) <==> x <= 3 && HasKind(blocks, k + 1, KindOfSlot(x)) {
      SlotMembers(blocks, k + 1, x);
    }
    var later := SlotsFrom(blocks, k + 1);
    if AllAbove(slot, later) {
      forall j | k < j < |blocks| && Standard(blocks[j]) ensures blocks[k].kind < blocks[j].kind {
        var x := SlotOf(blocks[j].kind).value;
        assert HasKind(blocks, k + 1, KindOfSlot(x)) && x in later;
      }
    }
    if forall j | k < j < |blocks| && Standard(blocks[j]) :: blocks[k].kind < blocks[j].kind {
      forall x | x in later ensures slot < x {
        var j :| k + 1 <= j < |blocks| && blocks[j].kind == KindOfSlot(x);
      }
    }
  }

  lemma {:induction false} LowNibble(mask: nat)
    ensures mask < 0x10 <==> forall i: nat :: Bit(mask, i) ==> i < 4
  {
    KnownMasks(mask);
    AndNotSubset(mask, KNOWN_SLOTS);
    forall i: nat ensures Bit(KNOWN_SLOTS, i) <==> i < 4 { FourBits(i); }
  }

  lemma {:induction false} FourDecide(mask: nat, slots: seq<nat>)
    requires mask < 0x10 && forall x | x in slots :: x <= 3
    ensures (forall i: nat :: Bit(mask, i) <==> i in slots) <==>
      && (Bit(mask, 0) <==> 0 in slots) && (Bit(mask, 1) <==> 1 in slots)
      && (Bit(mask, 2) <==> 2 in slots) && (Bit(mask, 3) <==> 3 in slots)
  {
    LowNibble(mask);
    if (Bit(mask, 0) <==> 0 in slots) && (Bit(mask, 1) <==> 1 in slots) && (Bit(mask, 2) <==> 2 in slots)
      && (Bit(mask, 3) <==> 3 in slots)
    {
      forall i: nat ensures Bit(mask, i) <==> i in slots {
        if i > 3 { assert !Bit(mask, i); }
      }
    }
  }

  /** A region matches a submit exactly when the mask is legal for the mode, its standard blocks come in
      ascending order of kind without repetition, and each of the four low bits of the mask says whether
      its kind is present. */
  lemma {:induction false} SubmitMaskByKind(blocks: seq<Block>, mode: FrameSubmit.SubmitMode, mask: u32)
    ensures MaskError(blocks, mode, mask).None? <==>
      && mask < 0x10 && (mask == 0 <==> mode == 0) && KindsAscend(blocks, 0)
      && (Bit(mask, 0) <==> HasKind(blocks, 0, 1)) && (Bit(mask, 1) <==> HasKind(blocks, 0, 2))
      && (Bit(mask, 2) <==> HasKind(blocks, 0, 3)) && (Bit(mask, 3) <==> HasKind(blocks, 0, 6))
  {
    SubmitMaskIff(blocks, mode, mask);
    SlotsAscendIff(blocks, 0);
    forall x: nat ensures x in SlotsFrom(blocks, 0) <==> x <= 3 && HasKind(blocks, 0, KindOfSlot(x)) {
      SlotMembers(blocks, 0, x);
    }
    LowNibble(mask);
    var slots := SlotsFrom(blocks, 0);
    assert KindOfSlot(0) == 1 && KindOfSlot(1) == 2 && KindOfSlot(2) == 3 && KindOfSlot(3) == 6;
    assert (0 in slots <==> HasKind(blocks, 0, 1)) && (1 in slots <==> HasKind(blocks, 0, 2));
    assert (2 in slots <==> HasKind(blocks, 0, 3)) && (3 in slots <==> HasKind(blocks, 0, 6));
    assert ListsBits(slots, mask) <==> KindsAscend(blocks, 0) && forall i: nat :: Bit(mask, i) <==> i in slots;
    if mask < 0x10 {
      FourDecide(mask, slots);
      assert forall i: nat :: Bit(mask, i) ==> i < 4;
    } else {
      assert MaskError(blocks, mode, mask).Some?;
    }
  }

  /** Why a mask is refused before the blocks are looked at. */
  lemma {:induction false} MaskRefusal(blocks: seq<Block>, mode: FrameSubmit.SubmitMode, mask: u32)
    ensures mask >= 0x10 ==> MaskError(blocks, mode, mask) == Some(ReservedBitsSet(mask, 0x0f))
    ensures mask < 0x10 && mode == 0 && mask != 0 ==>
      MaskError(blocks, mode, mask) == Some(InvalidProtocolCombination(InlineWithMask))
    ensures mode != 0 && mask == 0 ==>
      MaskError(blocks, mode, mask) == Some(InvalidProtocolCombination(ReferenceWithoutMask))
  {
    KnownMasks(mask);
  }

  /** Why a standard block is refused after the slots `done`: it comes before the last of them, repeats one
      of them, or is not declared. */
  lemma {:induction false} SlotRefusal(done: seq<nat>, slot: nat, expected: nat, seen: nat, mask: nat)
    requires Progress(done, expected, seen)
    ensures SlotError(slot, expected, seen, mask) ==
      if exists x :: x in done && slot < x then Some(InvalidProtocolCombination(SlotsNotSorted))
      else if slot in done then Some(InvalidProtocolCombination(SlotDuplicated))
      else if !Bit(mask, slot) then Some(InvalidProtocolCombination(SlotNotDeclared))
      else None
  {
    AndPower(seen, slot);
    AndPower(mask, slot);
    if done != [] { assert expected in done; }
    if slot < expected { assert done != [] && expected in done; }
  }
}
