/**
 The AVR node id store as functions on EEPROM images: two copies of a ring of ten
 eight-byte blocks. Entry e of an image is slot e % 10 of copy e / 10.
 */
module AvrNodeId {
  import opened Bytes
  import opened Options
  import opened ByteWrites
  import opened CyclicCounters
  import opened Records
  import Crc16

  const BLOCK_VALID: byte := 0xaa
  const BLOCK_INVALID: byte := 0x00
  const BLOCK_COUNT := 10
  const COPIES := 2
  const ENTRIES := 20
  const BLOCK_SIZE := 8

  /** flags, seq, node_id, reserved, node_type (two bytes), crc (low byte first) */
  const FORMAT := Format(BLOCK_VALID, true, 4, 1)

  /** A block is valid exactly if its flags are 0xaa and the CRC over it, the stored one turned round, is zero. */
  lemma BlockResidue(b: Record)
    requires |b| == BLOCK_SIZE
    ensures Valid(FORMAT, b) <==> b[0] == 0xaa && Crc16.Checksum(b[..6] + [b[7], b[6]]) == 0
  {
    hide Valid, Crc16.Checksum;
    ValidIffResidue(FORMAT, b);
  }

  ghost predicate IsImage(img: Image) {
    Shaped(img, ENTRIES, BLOCK_SIZE)
  }

  function Sequences(img: Image): (s: seq<Option<byte>>)
    ensures |s| == |img|
    ensures forall e :: 0 <= e < |img| ==>
      s[e] == if Valid(FORMAT, img[e]) then Some(img[e][1]) else None
  {
    seq(|img|, e requires 0 <= e < |img| => if Valid(FORMAT, img[e]) then Some(img[e][1]) else None)
  }

  /** The entry find_node_id_block() settles on, or -1. */
  function Find(img: Image): (p: int)
    ensures -1 <= p < |img|
    ensures p >= 0 ==> Valid(FORMAT, img[p])
    ensures p < 0 ==> forall e :: 0 <= e < |img| ==> !Valid(FORMAT, img[e])
  {
    Newest(NewerSequence, Sequences(img), |img|)
  }

  function ReadId(img: Image): byte {
    var p := Find(img);
    if p < 0 then 0 else img[p][2]
  }

  /** The entries of all other slots, in the order they are invalidated. */
  function Others(slot: nat, n: nat): (es: seq<nat>)
    ensures forall e :: e in es <==> 0 <= e < n && e % BLOCK_COUNT != slot
    ensures forall i :: 0 <= i < |es| ==> es[i] < n
  {
    if n == 0 then []
    else if (n - 1) % BLOCK_COUNT != slot then Others(slot, n - 1) + [n - 1]
    else Others(slot, n - 1)
  }

  /** node_id_store(): the block into both copies, then every other block invalidated. */
  function StorePokes(slot: nat, block: Record): seq<Poke> {
    RecordPokes(slot, block) + RestPokes(slot, block)
  }

  /** What node_id_store() writes once the first copy is in place. */
  function RestPokes(slot: nat, block: Record): seq<Poke> {
    RecordPokes(BLOCK_COUNT + slot, block) + ClearPokes(Others(slot, ENTRIES))
  }

  type word = x: int | 0 <= x < 65536

  function Payload(nodeId: byte, nodeType: word): (p: Record)
    ensures |p| == 4 && p[0] == nodeId
  {
    [nodeId, 0xff, nodeType % 256, nodeType / 256]
  }

  function NextSlot(img: Image): nat {
    var p := Find(img);
    if p < 0 then 0 else (p % BLOCK_COUNT + 1) % BLOCK_COUNT
  }

  function NewBlock(img: Image, nodeId: byte, nodeType: word): (b: Record)
    ensures |b| == BLOCK_SIZE && Valid(FORMAT, b) && b[2] == nodeId
  {
    var p := Find(img);
    var b := MakeRecord(FORMAT, if p < 0 then 0 else Wrap(img[p][1] as int + 1), Payload(nodeId, nodeType));
    assert b[2] == b[2..6][0];
    b
  }

  function WritePokes(img: Image, nodeId: byte, nodeType: word): seq<Poke> {
    StorePokes(NextSlot(img), NewBlock(img, nodeId, nodeType))
  }

  /** Some block of the newest slot is invalid or of another write, or some other block is valid. */
  predicate DamagedEntry(img: Image, p: nat, e: nat)
    requires p < |img| && e < |img| && |img[p]| > 1
  {
    if e % BLOCK_COUNT == p % BLOCK_COUNT
    then !Valid(FORMAT, img[e]) || img[e][1] != img[p][1]
    else Valid(FORMAT, img[e])
  }

  predicate Damaged(img: Image, p: nat)
    requires p < |img| && |img[p]| > 1
  {
    exists e :: 0 <= e < |img| && DamagedEntry(img, p, e)
  }

  function RepairPokes(img: Image): seq<Poke> {
    var p := Find(img);
    if p >= 0 && Damaged(img, p) then StorePokes(p % BLOCK_COUNT, img[p]) else []
  }

  // ---------- From arbitrary EEPROM contents ----------

  /** One slot is valid, with the same block in both copies, and it is the only valid one. */
  ghost predicate Healthy(img: Image, slot: nat, block: Record) {
    && IsImage(img) && slot < BLOCK_COUNT && Valid(FORMAT, block)
    && img[slot] == img[BLOCK_COUNT + slot] == block
    && forall e :: 0 <= e < ENTRIES && e % BLOCK_COUNT != slot ==> !Valid(FORMAT, img[e])
  }

  lemma SameSlot(e: nat, slot: nat)
    requires e < ENTRIES && slot < BLOCK_COUNT
    ensures e % BLOCK_COUNT == slot <==> e == slot || e == BLOCK_COUNT + slot
  {
  }

  lemma ClearedIsInvalid(r: Record)
    requires |r| == BLOCK_SIZE
    ensures !Valid(FORMAT, r[0 := 0])
  {
  }

  /** The image after all writes of node_id_store(), whatever was there before. */
  lemma StoreResult(img: Image, slot: nat, block: Record)
    requires IsImage(img) && slot < BLOCK_COUNT && |block| == BLOCK_SIZE
    ensures var r := Apply(img, StorePokes(slot, block));
      && IsImage(r) && r[slot] == r[BLOCK_COUNT + slot] == block
      && forall e :: 0 <= e < ENTRIES && e % BLOCK_COUNT != slot ==> r[e] == img[e][0 := 0]
  {
    hide Apply, ApplyOne, RecordPokes, ClearPokes, Others;
    var others := Others(slot, ENTRIES);
    ApplyWholeRecord(img, slot, block);
    var first := img[slot := block];
    ApplyWholeRecord(first, BLOCK_COUNT + slot, block);
    var second := first[BLOCK_COUNT + slot := block];
    ApplyClearPokes(second, others, |others|);
    assert ClearPokes(others)[..|others|] == ClearPokes(others);
    assert others[..|others|] == others;
    ApplyConcat(first, RecordPokes(BLOCK_COUNT + slot, block), ClearPokes(others));
    ApplyConcat(img, RecordPokes(slot, block), RestPokes(slot, block));
    SameSlot(slot, slot);
    SameSlot(BLOCK_COUNT + slot, slot);
  }

  lemma StoreComplete(img: Image, slot: nat, block: Record)
    requires IsImage(img) && slot < BLOCK_COUNT && Valid(FORMAT, block)
    ensures Healthy(Apply(img, StorePokes(slot, block)), slot, block)
  {
    hide Valid, Apply, StorePokes;
    StoreResult(img, slot, block);
    forall e | 0 <= e < ENTRIES && e % BLOCK_COUNT != slot
      ensures !Valid(FORMAT, Apply(img, StorePokes(slot, block))[e])
    {
      ClearedIsInvalid(img[e]);
    }
  }

  /** In a healthy image the scan finds the only block, in the first copy. */
  lemma HealthyFind(img: Image, slot: nat, block: Record)
    requires Healthy(img, slot, block)
    ensures Find(img) == slot && ReadId(img) == block[2]
    ensures RepairPokes(img) == []
  {
    hide Valid, NewerSequence, Wrap;
    var numbers := seq(ENTRIES, _ => block[1] as int);
    assert Numbered(Sequences(img), numbers, 127) by {
      assert block[1] == Wrap(block[1]) by { WrapSmall(block[1]); }
      forall e | 0 <= e < ENTRIES && Sequences(img)[e].Some?
        ensures Sequences(img)[e].value == Wrap(numbers[e])
      {
        SameSlot(e, slot);
      }
    }
    SequenceOrders();
    NewestIsLogicallyNewest(NewerSequence, 127, Sequences(img), numbers, ENTRIES);
    assert Sequences(img)[slot].Some?;
    SameSlot(Find(img), slot);
    forall e | 0 <= e < ENTRIES
      ensures !DamagedEntry(img, slot, e)
    {
      SameSlot(e, slot);
    }
  }

  /** The bytes of a complete block: node_id, 0xff, then the node type with its low byte first. */
  ghost predicate BlockOf(b: Record, nodeId: byte, nodeType: word) {
    && Valid(FORMAT, b) && b[0] == 0xaa && b[2] == nodeId && b[3] == 0xff
    && b[4] as nat + 256 * b[5] as nat == nodeType
  }

  lemma NewBlockBytes(img: Image, nodeId: byte, nodeType: word)
    ensures BlockOf(NewBlock(img, nodeId, nodeType), nodeId, nodeType)
  {
    hide Sealed, Find;
    var b := NewBlock(img, nodeId, nodeType);
    assert b[2..6] == Payload(nodeId, nodeType);
    assert forall i :: 2 <= i < 6 ==> b[i] == b[2..6][i - 2];
  }

  /**
   Writing an id over any EEPROM contents: the id is read back, exactly one slot is valid, it
   holds the id and the node type in both copies, of all other blocks only the flags are
   cleared, and the next start has nothing to repair.
   */
  lemma WriteThenRead(img: Image, nodeId: byte, nodeType: word)
    requires IsImage(img)
    ensures var r, slot := Apply(img, WritePokes(img, nodeId, nodeType)), NextSlot(img);
      && Healthy(r, slot, NewBlock(img, nodeId, nodeType))
      && BlockOf(r[slot], nodeId, nodeType) && BlockOf(r[BLOCK_COUNT + slot], nodeId, nodeType)
      && (forall e :: 0 <= e < ENTRIES && e % BLOCK_COUNT != slot ==> r[e] == img[e][0 := 0])
      && ReadId(r) == nodeId
      && RepairPokes(r) == []
  {
    hide Valid, Apply, NewBlock, NextSlot, StorePokes, BlockOf;
    NextSlotInRange(img);
    NewBlockBytes(img, nodeId, nodeType);
    StoreResult(img, NextSlot(img), NewBlock(img, nodeId, nodeType));
    StoreComplete(img, NextSlot(img), NewBlock(img, nodeId, nodeType));
    HealthyFind(Apply(img, WritePokes(img, nodeId, nodeType)), NextSlot(img), NewBlock(img, nodeId, nodeType));
  }

  lemma NextSlotInRange(img: Image)
    ensures NextSlot(img) < BLOCK_COUNT
  {
  }

  /** Repairing keeps the id that is read, and a second repair writes nothing. */
  lemma RepairKeepsIdAndIsIdempotent(img: Image)
    requires IsImage(img)
    ensures var r := Apply(img, RepairPokes(img));
      ReadId(r) == ReadId(img) && RepairPokes(r) == []
  {
    hide Valid, StorePokes;
    var p := Find(img);
    if p >= 0 && Damaged(img, p) {
      hide Apply;
      var slot := p % BLOCK_COUNT;
      StoreComplete(img, slot, img[p]);
      HealthyFind(Apply(img, RepairPokes(img)), slot, img[p]);
    }
  }

  /** One slot is valid in both copies, under one sequence number, and no other block is valid. */
  ghost predicate Sound(img: Image, slot: nat) {
    && IsImage(img) && slot < BLOCK_COUNT
    && Valid(FORMAT, img[slot]) && Valid(FORMAT, img[BLOCK_COUNT + slot])
    && img[slot][1] == img[BLOCK_COUNT + slot][1]
    && forall e :: 0 <= e < ENTRIES && e != slot && e != BLOCK_COUNT + slot ==> !Valid(FORMAT, img[e])
  }

  lemma UndamagedIsSound(img: Image, p: nat)
    requires IsImage(img) && p < ENTRIES && Valid(FORMAT, img[p]) && !Damaged(img, p)
    ensures Sound(img, p % BLOCK_COUNT)
  {
    hide Valid;
    var slot := p % BLOCK_COUNT;
    SameSlot(p, slot);
    assert !DamagedEntry(img, p, slot) && !DamagedEntry(img, p, BLOCK_COUNT + slot);
    SameSlot(slot, slot);
    SameSlot(BLOCK_COUNT + slot, slot);
    forall e | 0 <= e < ENTRIES && e != slot && e != BLOCK_COUNT + slot
      ensures !Valid(FORMAT, img[e])
    {
      SameSlot(e, slot);
      assert !DamagedEntry(img, p, e);
    }
  }

  lemma SoundIsUndamaged(img: Image, slot: nat, p: nat)
    requires Sound(img, slot) && (p == slot || p == BLOCK_COUNT + slot)
    ensures !Damaged(img, p)
  {
    hide Valid;
    SameSlot(p, slot);
    forall e | 0 <= e < ENTRIES
      ensures !DamagedEntry(img, p, e)
    {
      SameSlot(e, slot);
    }
  }

  lemma StoreWrites(slot: nat, block: Record)
    requires |block| == BLOCK_SIZE
    ensures StorePokes(slot, block) != []
  {
  }

  /** From any contents: a start writes nothing exactly if no id is stored or both copies of one slot are sound. */
  lemma RepairIsIdleIff(img: Image)
    requires IsImage(img)
    ensures RepairPokes(img) == [] <==>
      (forall e :: 0 <= e < ENTRIES ==> !Valid(FORMAT, img[e])) || exists slot :: Sound(img, slot)
  {
    hide Valid, StorePokes, Damaged;
    var p := Find(img);
    if p >= 0 {
      if !Damaged(img, p) {
        UndamagedIsSound(img, p);
      } else {
        StoreWrites(p % BLOCK_COUNT, img[p]);
      }
      if slot :| Sound(img, slot) {
        SoundIsUndamaged(img, slot, p);
      }
    }
  }

  /** From any contents in which an id is stored: a repair leaves both copies of one slot sound, and nothing else. */
  lemma RepairLeavesSound(img: Image)
    requires IsImage(img) && exists e :: 0 <= e < ENTRIES && Valid(FORMAT, img[e])
    ensures exists slot :: Sound(Apply(img, RepairPokes(img)), slot)
  {
    hide Valid, StorePokes, Damaged;
    var p := Find(img);
    var slot := p % BLOCK_COUNT;
    if Damaged(img, p) {
      hide Apply;
      StoreComplete(img, slot, img[p]);
      HealthyIsSound(Apply(img, RepairPokes(img)), slot, img[p]);
    } else {
      UndamagedIsSound(img, p);
      ApplyNothing(img);
      assert Sound(Apply(img, RepairPokes(img)), slot);
    }
  }

  lemma HealthyIsSound(img: Image, slot: nat, block: Record)
    requires Healthy(img, slot, block)
    ensures Sound(img, slot)
  {
    hide Valid;
    forall e | 0 <= e < ENTRIES && e != slot && e != BLOCK_COUNT + slot
      ensures !Valid(FORMAT, img[e])
    {
      SameSlot(e, slot);
    }
  }

  /**
   Losing any one block of a healthy store, to any contents that are not a valid block,
   leaves the id readable; if the block was one of the two copies, repair restores both.
   */
  lemma OneDamagedBlock(img: Image, slot: nat, block: Record, e: nat, damaged: Record)
    requires Healthy(img, slot, block)
    requires e < ENTRIES && |damaged| == BLOCK_SIZE && !Valid(FORMAT, damaged)
    ensures var hurt := img[e := damaged];
      && ReadId(hurt) == block[2]
      && Healthy(Apply(hurt, RepairPokes(hurt)), slot, block)
  {
    hide Valid, NewerSequence, Wrap, Apply, StorePokes;
    var hurt := img[e := damaged];
    var numbers := seq(ENTRIES, _ => block[1] as int);
    SameSlot(e, slot);
    assert Numbered(Sequences(hurt), numbers, 127) by {
      assert block[1] == Wrap(block[1]) by { WrapSmall(block[1]); }
      forall i | 0 <= i < ENTRIES && Sequences(hurt)[i].Some?
        ensures Sequences(hurt)[i].value == Wrap(numbers[i])
      {
        SameSlot(i, slot);
      }
    }
    var good := if e == slot then BLOCK_COUNT + slot else slot;
    assert Sequences(hurt)[good].Some?;
    var p := Find(hurt);
    SameSlot(p, slot);
    assert hurt[p] == block;
    if e % BLOCK_COUNT == slot {
      assert DamagedEntry(hurt, p, e);
      StoreComplete(hurt, slot, block);
    } else {
      forall i | 0 <= i < ENTRIES
        ensures !DamagedEntry(hurt, p, i)
      {
        SameSlot(i, slot);
      }
      ApplyNothing(hurt);
    }
  }

  lemma ApplyNothing(img: Image)
    ensures Apply(img, []) == img
  {
  }
}
