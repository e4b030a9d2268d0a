/**
 The functions of the AVR node id store as they work on the EEPROM, loop by loop, proved
 to make exactly the byte updates of the specification in the same order.
 */
module AvrNodeIdCode {
  import opened Bytes
  import opened ByteWrites
  import opened CyclicCounters
  import opened Records
  import opened AvrNodeId
  import opened Eeproms
  import Crc16

  const COPY0_OFFSET := 0x10
  const COPY1_OFFSET := 0x80

  function BlockAddress(copy: nat, i: nat): nat {
    (if copy != 0 then COPY1_OFFSET else COPY0_OFFSET) + BLOCK_SIZE * i
  }

  /** Both rings: 0x10-0x5f and 0x80-0xcf. */
  function Rings(): (l: Layout)
    ensures |l.starts| == ENTRIES && l.size == BLOCK_SIZE
    ensures forall e :: 0 <= e < ENTRIES ==> l.starts[e] == BlockAddress(e / BLOCK_COUNT, e % BLOCK_COUNT)
  {
    Layout(seq(ENTRIES, e requires 0 <= e < ENTRIES => BlockAddress(e / BLOCK_COUNT, e % BLOCK_COUNT)), BLOCK_SIZE)
  }

  lemma EntryAddress(copy: nat, i: nat)
    requires copy < COPIES && i < BLOCK_COUNT
    ensures BLOCK_COUNT * copy + i < ENTRIES
    ensures Rings().starts[BLOCK_COUNT * copy + i] == BlockAddress(copy, i)
    ensures (BLOCK_COUNT * copy + i) / BLOCK_COUNT == copy && (BLOCK_COUNT * copy + i) % BLOCK_COUNT == i
  {
  }

  /** The rings do not overlap, fit in the smallest EEPROM of the family and use 0x10-0x5f and 0x80-0xcf. */
  lemma RingsFit()
    ensures Rings().Fits(512)
    ensures forall address: nat :: Rings().Owns(address) <==> 0x10 <= address < 0x60 || 0x80 <= address < 0xd0
  {
    var l := Rings();
    forall address: nat | 0x10 <= address < 0x60 || 0x80 <= address < 0xd0
      ensures l.Owns(address)
    {
      var copy, at := if address < 0x60 then 0 else 1, if address < 0x60 then address - 0x10 else address - 0x80;
      EntryAddress(copy, at / BLOCK_SIZE);
    }
    forall d, e | 0 <= d < e < |l.starts|
      ensures l.starts[d] + l.size <= l.starts[e]
    {
      if d / BLOCK_COUNT == e / BLOCK_COUNT {
        assert d % BLOCK_COUNT < e % BLOCK_COUNT;
      }
    }
  }

  ghost function ImageOf(ee: Eeprom): (img: Image)
    requires Rings().Fits(ee.cells.Length)
    reads ee, ee.cells
    ensures IsImage(img)
  {
    Rings().View(ee.cells[..])
  }

  /** node_id_block_read(): the block, and whether its flags and its checksum are right. */
  method BlockRead(ee: Eeprom, copy: nat, i: nat) returns (valid: bool, b: Record)
    requires Rings().Fits(ee.cells.Length) && copy < COPIES && i < BLOCK_COUNT
    ensures var e := BLOCK_COUNT * copy + i;
      b == ImageOf(ee)[e] && (valid <==> Valid(FORMAT, ImageOf(ee)[e]))
  {
    hide Crc16.Checksum, Crc16.LowByte, Crc16.HighByte;
    EntryAddress(copy, i);
    b := ee.ReadRecord(BlockAddress(copy, i), BLOCK_SIZE);
    var crc := Crc16.Compute(b[..6]);
    valid := b[0] == BLOCK_VALID && b[6] == Crc16.LowByte(crc) && b[7] == Crc16.HighByte(crc);
    assert b[6..] == [b[6], b[7]];
  }

  lemma NewestNext(img: Image, e: nat)
    requires IsImage(img) && e < ENTRIES
    ensures var p := Newest(NewerSequence, Sequences(img), e);
      && (p >= 0 ==> Valid(FORMAT, img[p]))
      && Newest(NewerSequence, Sequences(img), e + 1)
           == if Valid(FORMAT, img[e]) && (p < 0 || IsNewer(img[e], img[p])) then e else p
  {
    hide Valid, NewerSequence;
  }

  /** find_node_id_block(): slot of the newest valid block of either copy, or -1. */
  method FindNodeIdBlock(ee: Eeprom) returns (slot: int, out: Record)
    requires Rings().Fits(ee.cells.Length)
    ensures var p := Find(ImageOf(ee));
      slot == (if p < 0 then -1 else p % BLOCK_COUNT) && (p >= 0 ==> out == ImageOf(ee)[p])
  {
    hide Valid, Sequences, Rings, Newest, IsNewer, BlockAddress, Layout.View, Layout.Fits;
    slot, out := -1, [];
    ghost var img := ImageOf(ee);
    ghost var p := -1;
    NothingScanned(img);
    for copy := 0 to COPIES
      invariant p == Newest(NewerSequence, Sequences(img), BLOCK_COUNT * copy)
      invariant slot == if p < 0 then -1 else p % BLOCK_COUNT
      invariant -1 <= p < ENTRIES && (p >= 0 ==> out == img[p])
    {
      for i := 0 to BLOCK_COUNT
        invariant p == Newest(NewerSequence, Sequences(img), BLOCK_COUNT * copy + i)
        invariant slot == if p < 0 then -1 else p % BLOCK_COUNT
        invariant -1 <= p < ENTRIES && (p >= 0 ==> out == img[p])
      {
        EntryAddress(copy, i);
        ghost var e := BLOCK_COUNT * copy + i;
        NewestNext(img, e);
        var valid, b := BlockRead(ee, copy, i);
        if valid {
          if slot < 0 || IsNewer(b, out) {
            out := b;
            slot := i;
            p := e;
          }
        }
      }
    }
  }

  lemma NothingScanned(img: Image)
    ensures Newest(NewerSequence, Sequences(img), 0) == -1
  {
  }

  /** The comparison of the two eight-bit sequence numbers. */
  predicate IsNewer(b: Record, out: Record)
    requires |b| > 1 && |out| > 1
  {
    NewerSequence(b[1], out[1])
  }

  method ReadNodeId(ee: Eeprom) returns (id: byte)
    requires Rings().Fits(ee.cells.Length)
    ensures id == ReadId(ImageOf(ee))
  {
    var slot, b := FindNodeIdBlock(ee);
    if slot < 0 {
      return 0;
    }
    return b[2];
  }

  /** The first loop of node_id_store(): the block into the same slot of both copies. */
  method StoreCopies(ee: Eeprom, slot: nat, b: Record) returns (ghost done: seq<Poke>)
    requires ee.Valid() && ee.stuck == {} && Rings().Fits(ee.cells.Length)
    requires slot < BLOCK_COUNT && |b| == BLOCK_SIZE
    modifies ee`log, ee.cells
    ensures ee.Valid() && Rings().Covers(done)
    ensures done == RecordPokes(slot, b) + RecordPokes(BLOCK_COUNT + slot, b)
    ensures ee.log == old(ee.log) + Rings().Flatten(done)
  {
    hide Rings, Replay, Layout.Flatten, Layout.View, RecordPokes, CopyPokes, BlockAddress, Layout.Fits, Layout.Covers,
      Eeprom.Valid;
    done := [];
    BothCopies(slot, b);
    NothingWritten();
    for copy := 0 to COPIES
      invariant ee.Valid() && Rings().Covers(done)
      invariant done == CopyPokes(slot, b, copy)
      invariant ee.log == old(ee.log) + Rings().Flatten(done)
    {
      EntryAddress(copy, slot);
      ghost var ps := RecordPokes(BLOCK_COUNT * copy + slot, b);
      ee.UpdateRecord(Rings(), BLOCK_COUNT * copy + slot, BlockAddress(copy, slot), b);
      Rings().FlattenConcat(done, ps);
      done := done + ps;
      NextCopy(slot, b, copy);
    }
  }

  /** The block into the same slot of the first `copies` copies. */
  function CopyPokes(slot: nat, b: Record, copies: nat): seq<Poke> {
    if copies == 0 then [] else CopyPokes(slot, b, copies - 1) + RecordPokes(BLOCK_COUNT * (copies - 1) + slot, b)
  }

  lemma NextCopy(slot: nat, b: Record, copy: nat)
    ensures CopyPokes(slot, b, copy + 1) == CopyPokes(slot, b, copy) + RecordPokes(BLOCK_COUNT * copy + slot, b)
  {
  }

  lemma BothCopies(slot: nat, b: Record)
    ensures CopyPokes(slot, b, 0) == []
    ensures CopyPokes(slot, b, COPIES) == RecordPokes(slot, b) + RecordPokes(BLOCK_COUNT + slot, b)
  {
    assert CopyPokes(slot, b, 1) == CopyPokes(slot, b, 0) + RecordPokes(slot, b);
  }

  /** The body of the second loop of node_id_store(): the flags of one block. */
  method InvalidateBlock(ee: Eeprom, copy: nat, i: nat, ghost before: seq<CellWrite>, ghost done: seq<Poke>)
    requires ee.Valid() && ee.stuck == {} && Rings().Fits(ee.cells.Length) && copy < COPIES && i < BLOCK_COUNT
    requires Rings().Covers(done) && ee.log == before + Rings().Flatten(done)
    modifies ee`log, ee.cells
    ensures var done' := done + [Poke(BLOCK_COUNT * copy + i, 0, BLOCK_INVALID)];
      ee.Valid() && Rings().Covers(done') && ee.log == before + Rings().Flatten(done')
  {
    hide Rings, Replay, Layout.Flatten, Layout.View, BlockAddress, Layout.Fits, Layout.Covers, Eeprom.Valid;
    EntryAddress(copy, i);
    Rings().EntryInside(ee.cells.Length, BLOCK_COUNT * copy + i, 0);
    ee.UpdateByte(BlockAddress(copy, i), BLOCK_INVALID);
    Rings().FlattenOne(done, Poke(BLOCK_COUNT * copy + i, 0, BLOCK_INVALID));
  }

  /** The second loop of node_id_store(): the flags of all other blocks, in both copies. */
  method InvalidateOthers(ee: Eeprom, slot: nat)
    requires ee.Valid() && ee.stuck == {} && Rings().Fits(ee.cells.Length) && slot < BLOCK_COUNT
    modifies ee`log, ee.cells
    ensures ee.Valid() && Rings().Covers(ClearPokes(Others(slot, ENTRIES)))
    ensures ee.log == old(ee.log) + Rings().Flatten(ClearPokes(Others(slot, ENTRIES)))
  {
    hide *;
    NothingWritten();
    ClearOthersStart(slot);
    EntriesAre();
    for copy := 0 to COPIES
      invariant ee.Valid() && Rings().Covers(ClearPokes(Others(slot, BLOCK_COUNT * copy)))
      invariant ee.log == old(ee.log) + Rings().Flatten(ClearPokes(Others(slot, BLOCK_COUNT * copy)))
    {
      for i := 0 to BLOCK_COUNT
        invariant ee.Valid() && Rings().Covers(ClearPokes(Others(slot, BLOCK_COUNT * copy + i)))
        invariant ee.log == old(ee.log) + Rings().Flatten(ClearPokes(Others(slot, BLOCK_COUNT * copy + i)))
      {
        EntryAddress(copy, i);
        ClearOthersNext(slot, BLOCK_COUNT * copy + i);
        if i != slot {
          InvalidateBlock(ee, copy, i, old(ee.log), ClearPokes(Others(slot, BLOCK_COUNT * copy + i)));
        }
      }
    }
  }

  lemma EntriesAre()
    ensures ENTRIES == 20 && BLOCK_COUNT == 10 && COPIES == 2
  {
  }

  /** node_id_store(): both copies first, then the flags of every other block. */
  method NodeIdStore(ee: Eeprom, slot: nat, b: Record)
    requires ee.Valid() && ee.stuck == {} && Rings().Fits(ee.cells.Length)
    requires slot < BLOCK_COUNT && |b| == BLOCK_SIZE
    modifies ee`log, ee.cells
    ensures ee.Valid() && Rings().Covers(StorePokes(slot, b))
    ensures ee.log == old(ee.log) + Rings().Flatten(StorePokes(slot, b))
    ensures ImageOf(ee) == Apply(old(ImageOf(ee)), StorePokes(slot, b))
  {
    hide Rings, Replay, Layout.Flatten, Layout.View, RecordPokes, ClearPokes, Others, Apply;
    ghost var before := ee.log;
    ghost var done := StoreCopies(ee, slot, b);
    InvalidateOthers(ee, slot);
    Rings().FlattenConcat(done, ClearPokes(Others(slot, ENTRIES)));
    assert done + ClearPokes(Others(slot, ENTRIES)) == StorePokes(slot, b);
    ee.ImageSince(Rings(), before, StorePokes(slot, b));
  }

  lemma NothingWritten()
    ensures Rings().Covers([]) && Rings().Flatten([]) == []
  {
  }

  lemma ClearOthersStart(slot: nat)
    ensures ClearPokes(Others(slot, 0)) == []
  {
  }

  lemma ClearOthersNext(slot: nat, e: nat)
    ensures ClearPokes(Others(slot, e + 1))
         == if e % BLOCK_COUNT != slot then ClearPokes(Others(slot, e)) + [Poke(e, 0, BLOCK_INVALID)]
            else ClearPokes(Others(slot, e))
  {
  }

  /** write_node_id(): the next slot and sequence number after the newest block. */
  method WriteNodeId(ee: Eeprom, nodeId: byte, nodeType: word)
    requires ee.Valid() && ee.stuck == {} && Rings().Fits(ee.cells.Length)
    modifies ee`log, ee.cells
    ensures ee.Valid() && Rings().Covers(old(WritePokes(ImageOf(ee), nodeId, nodeType)))
    ensures ee.log == old(ee.log) + Rings().Flatten(old(WritePokes(ImageOf(ee), nodeId, nodeType)))
    ensures ImageOf(ee) == old(Apply(ImageOf(ee), WritePokes(ImageOf(ee), nodeId, nodeType)))
  {
    hide Rings, StorePokes, Apply, Valid, Crc16.Checksum, Crc16.LowByte, Crc16.HighByte;
    ghost var img := ImageOf(ee);
    var current, b := FindNodeIdBlock(ee);
    var slot := if current < 0 then 0 else (current + 1) % BLOCK_COUNT;
    var sequence := if current < 0 then 0 else Wrap(b[1] as int + 1);
    var message: Record := [BLOCK_VALID, sequence] + Payload(nodeId, nodeType);
    var crc := Crc16.Compute(message);
    b := message + [Crc16.LowByte(crc), Crc16.HighByte(crc)];
    assert b == NewBlock(img, nodeId, nodeType);
    NodeIdStore(ee, slot, b);
  }

  ghost predicate AnyDamaged(img: Image, p: nat, n: nat)
    requires IsImage(img) && p < ENTRIES && n <= ENTRIES
  {
    exists e :: 0 <= e < n && DamagedEntry(img, p, e)
  }

  lemma AnyDamagedNext(img: Image, p: nat, e: nat)
    requires IsImage(img) && p < ENTRIES && e < ENTRIES
    ensures AnyDamaged(img, p, e + 1) <==> AnyDamaged(img, p, e) || DamagedEntry(img, p, e)
  {
    hide DamagedEntry;
    if AnyDamaged(img, p, e + 1) && !DamagedEntry(img, p, e) {
      var d :| 0 <= d < e + 1 && DamagedEntry(img, p, d);
      assert d < e;
    }
  }

  /** node_id_repair(): rewrite the newest block only if something is damaged or stale. */
  method NodeIdRepair(ee: Eeprom) returns (repaired: bool)
    requires ee.Valid() && ee.stuck == {} && Rings().Fits(ee.cells.Length)
    modifies ee`log, ee.cells
    ensures ee.Valid() && Rings().Covers(old(RepairPokes(ImageOf(ee))))
    ensures ee.log == old(ee.log) + Rings().Flatten(old(RepairPokes(ImageOf(ee))))
    ensures ImageOf(ee) == old(Apply(ImageOf(ee), RepairPokes(ImageOf(ee))))
    ensures repaired <==> old(RepairPokes(ImageOf(ee))) != []
  {
    hide Rings, StorePokes, Apply, Valid, AnyDamaged, Replay, Layout.Flatten, Layout.View, Find, BlockAddress;
    ghost var img := ImageOf(ee);
    ghost var p := Find(img);
    var slot, newest := FindNodeIdBlock(ee);
    assert Rings().Flatten([]) == [];
    ApplyNothing(img);
    if p >= 0 {
      AllEntriesDamaged(img, p);
    }
    if slot < 0 {
      return false;
    }
    var damaged := false;
    for copy := 0 to COPIES
      invariant damaged <==> AnyDamaged(img, p, BLOCK_COUNT * copy)
      modifies {}
    {
      for i := 0 to BLOCK_COUNT
        invariant damaged <==> AnyDamaged(img, p, BLOCK_COUNT * copy + i)
        modifies {}
      {
        EntryAddress(copy, i);
        AnyDamagedNext(img, p, BLOCK_COUNT * copy + i);
        var valid, b := BlockRead(ee, copy, i);
        if if i == slot then !valid || b[1] != newest[1] else valid {
          damaged := true;
        }
      }
    }
    AllEntriesDamaged(img, p);
    StoreIsNotEmpty(slot, newest);
    if damaged {
      NodeIdStore(ee, slot, newest);
    }
    return damaged;
  }

  lemma AllEntriesDamaged(img: Image, p: nat)
    requires IsImage(img) && p < ENTRIES
    ensures !AnyDamaged(img, p, 0)
    ensures AnyDamaged(img, p, ENTRIES) <==> Damaged(img, p)
  {
  }

  lemma StoreIsNotEmpty(slot: nat, b: Record)
    requires |b| == BLOCK_SIZE
    ensures StorePokes(slot, b) != []
  {
  }
}
