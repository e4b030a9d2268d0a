/**
 Power loss on an AVR node id store that was not started on an erased EEPROM: a complete
 write heals any contents, but it leaves the bytes of all other blocks in place except for
 their flags. The next write sets the flags of one of them before it replaces the rest.
 */
module AvrNodeIdForeign {
  import opened Bytes
  import opened ByteWrites
  import opened CyclicCounters
  import opened Records
  import opened AvrNodeId

  function After(slot: nat): nat {
    (slot + 1) % BLOCK_COUNT
  }

  function Woken(r: Record): (r': Record)
    requires r != []
    ensures |r'| == |r|
  {
    r[0 := BLOCK_VALID]
  }

  // ---------- Sequence numbers ----------

  lemma NewerFacts(a: byte, c: byte)
    ensures !NewerSequence(a, a)
    ensures NewerSequence(a, c) ==> !NewerSequence(c, a)
    ensures NewerSequence(Wrap(c as int + 1), c) && !NewerSequence(c, Wrap(c as int + 1))
    ensures NewerSequence(a, Wrap(c as int + 1)) ==> !NewerSequence(c, a)
  {
  }

  // ---------- The image at every cut ----------

  lemma FirstCopyCut(img: Image, e: nat, next: Record, k: nat)
    requires IsImage(img) && e < BLOCK_COUNT && |next| == BLOCK_SIZE && k <= BLOCK_SIZE
    ensures Apply(img, StorePokes(e, next)[..k]) == img[e := Partial(img[e], next, k)]
  {
    hide Apply, ClearPokes;
    ApplyPrefix(img, RecordPokes(e, next), RestPokes(e, next), k);
    ApplyRecordPokes(img, e, next, k);
  }

  lemma SecondCopyCut(img: Image, e: nat, next: Record, k: nat)
    requires IsImage(img) && e < BLOCK_COUNT && |next| == BLOCK_SIZE && BLOCK_SIZE < k <= 2 * BLOCK_SIZE
    ensures Apply(img, StorePokes(e, next)[..k])
         == img[e := next][BLOCK_COUNT + e := Partial(img[BLOCK_COUNT + e], next, k - BLOCK_SIZE)]
  {
    hide Apply, ClearPokes, RecordPokes, Partial;
    ApplyPrefix(img, RecordPokes(e, next), RestPokes(e, next), k);
    ApplyWholeRecord(img, e, next);
    var first := img[e := next];
    ApplyPrefix(first, RecordPokes(BLOCK_COUNT + e, next), ClearPokes(Others(e, ENTRIES)), k - BLOCK_SIZE);
    ApplyRecordPokes(first, BLOCK_COUNT + e, next, k - BLOCK_SIZE);
  }

  /** The other flags are being cleared; nothing but flags changes any more. */
  ghost predicate OnlyFlagsCleared(img: Image, img': Image, e: nat, next: Record) {
    && IsImage(img) && IsImage(img') && e < BLOCK_COUNT && img'[e] == img'[BLOCK_COUNT + e] == next
    && forall i :: 0 <= i < ENTRIES && i % BLOCK_COUNT != e ==> img'[i] == img[i] || img'[i] == img[i][0 := 0]
  }

  lemma FlagsClearing(img: Image, e: nat, next: Record, j: nat)
    requires IsImage(img) && e < BLOCK_COUNT && |next| == BLOCK_SIZE && j <= |Others(e, ENTRIES)|
    ensures var second := img[e := next][BLOCK_COUNT + e := next];
      OnlyFlagsCleared(img, Apply(second, ClearPokes(Others(e, ENTRIES))[..j]), e, next)
  {
    hide Apply, ClearPokes;
    var second, others := img[e := next][BLOCK_COUNT + e := next], Others(e, ENTRIES);
    var img' := Apply(second, ClearPokes(others)[..j]);
    ApplyClearPokes(second, others, j);
    forall i | 0 <= i < ENTRIES
      ensures i % BLOCK_COUNT != e ==> img'[i] == img[i] || img'[i] == img[i][0 := 0]
      ensures i % BLOCK_COUNT == e ==> img'[i] == next
    {
      SameSlot(i, e);
      assert i in others[..j] ==> i in others;
    }
    SameSlot(e, e);
    SameSlot(BLOCK_COUNT + e, e);
  }

  lemma ClearingCut(img: Image, e: nat, next: Record, k: nat)
    requires IsImage(img) && e < BLOCK_COUNT && |next| == BLOCK_SIZE
    requires 2 * BLOCK_SIZE < k <= |StorePokes(e, next)|
    ensures OnlyFlagsCleared(img, Apply(img, StorePokes(e, next)[..k]), e, next)
  {
    hide Apply, ClearPokes, RecordPokes, Partial, OnlyFlagsCleared, Others;
    ApplyPrefix(img, RecordPokes(e, next), RestPokes(e, next), k);
    ApplyWholeRecord(img, e, next);
    var first, clear := img[e := next], ClearPokes(Others(e, ENTRIES));
    ApplyPrefix(first, RecordPokes(BLOCK_COUNT + e, next), clear, k - BLOCK_SIZE);
    ApplyWholeRecord(first, BLOCK_COUNT + e, next);
    FlagsClearing(img, e, next, k - 2 * BLOCK_SIZE);
  }

  // ---------- What a cut write reads ----------

  /** The block of the next slot is preferred to the current one; it is scanned first only in slot 0. */
  predicate Wins(slot: nat, candidate: byte, current: byte) {
    if slot == BLOCK_COUNT - 1 then !NewerSequence(current, candidate) else NewerSequence(candidate, current)
  }

  lemma OnlyTheSlot(img: Image, slot: nat, block: Record)
    requires Healthy(img, slot, block)
    ensures IsImage(img) && slot < BLOCK_COUNT && |block| == BLOCK_SIZE && Valid(FORMAT, block)
    ensures img[slot] == img[BLOCK_COUNT + slot] == block
    ensures forall e :: 0 <= e < ENTRIES && e != slot && e != BLOCK_COUNT + slot ==> !Valid(FORMAT, img[e])
  {
    hide Valid;
    forall e | 0 <= e < ENTRIES && e != slot && e != BLOCK_COUNT + slot
      ensures !Valid(FORMAT, img[e])
    {
      SameSlot(e, slot);
    }
  }

  /** Only the block of the next slot in the first copy differs from a healthy store. */
  lemma FirstCopyRead(img: Image, slot: nat, block: Record, r: Record)
    requires Healthy(img, slot, block) && |r| == BLOCK_SIZE
    ensures ReadId(img[After(slot) := r])
         == if Valid(FORMAT, r) && Wins(slot, r[1], block[1]) then r[2] else block[2]
  {
    hide Valid, NewerSequence, Healthy, Newest;
    OnlyTheSlot(img, slot, block);
    var img' := img[After(slot) := r];
    var s := Sequences(img');
    NewerFacts(r[1], block[1]);
    if slot == BLOCK_COUNT - 1 {
      ScanFour(NewerSequence, s, 0, 9, 10, 19);
    } else {
      ScanFour(NewerSequence, s, slot, slot + 1, 10 + slot, 11 + slot);
    }
  }

  /** The first copy is written, and the block of the second one is being written. */
  lemma SecondCopyRead(img: Image, slot: nat, block: Record, next: Record, r: Record)
    requires Healthy(img, slot, block) && |r| == BLOCK_SIZE
    requires Valid(FORMAT, next) && next[1] == Wrap(block[1] as int + 1)
    ensures ReadId(img[After(slot) := next][BLOCK_COUNT + After(slot) := r])
         == if Valid(FORMAT, r) && NewerSequence(r[1], next[1]) then r[2] else next[2]
  {
    hide Valid, NewerSequence, Healthy, Newest, Wrap;
    OnlyTheSlot(img, slot, block);
    var img' := img[After(slot) := next][BLOCK_COUNT + After(slot) := r];
    var s := Sequences(img');
    NewerFacts(r[1], block[1]);
    NewerFacts(block[1], block[1]);
    if slot == BLOCK_COUNT - 1 {
      ScanFour(NewerSequence, s, 0, 9, 10, 19);
    } else {
      ScanFour(NewerSequence, s, slot, slot + 1, 10 + slot, 11 + slot);
    }
  }

  /** Both copies are written, and some of the other flags are cleared. */
  lemma ClearedRead(img: Image, slot: nat, block: Record, next: Record, img': Image)
    requires Healthy(img, slot, block) && OnlyFlagsCleared(img, img', After(slot), next)
    requires Valid(FORMAT, next) && next[1] == Wrap(block[1] as int + 1)
    ensures ReadId(img') == next[2]
  {
    hide Valid, NewerSequence, Healthy, Newest, Wrap;
    var s := Sequences(img');
    OnlyTheSlot(img, slot, block);
    NewerFacts(block[1], block[1]);
    NewerFacts(next[1], next[1]);
    forall e | 0 <= e < ENTRIES && e % BLOCK_COUNT != After(slot)
      ensures Valid(FORMAT, img'[e]) ==> img'[e] == block && (e == slot || e == BLOCK_COUNT + slot)
    {
      ClearedIsInvalid(img[e]);
    }
    OnlyFourAreValid(img', slot, block);
    if slot == BLOCK_COUNT - 1 {
      ScanFour(NewerSequence, s, 0, 9, 10, 19);
    } else {
      ScanFour(NewerSequence, s, slot, slot + 1, 10 + slot, 11 + slot);
    }
  }

  lemma OnlyFourAreValid(img: Image, slot: nat, block: Record)
    requires IsImage(img) && slot < BLOCK_COUNT && |block| == BLOCK_SIZE
    requires forall e :: 0 <= e < ENTRIES && e % BLOCK_COUNT != After(slot) && Valid(FORMAT, img[e]) ==>
      img[e] == block && (e == slot || e == BLOCK_COUNT + slot)
    ensures forall e :: 0 <= e < ENTRIES && Sequences(img)[e].Some? ==>
      e == slot || e == BLOCK_COUNT + slot || e == After(slot) || e == BLOCK_COUNT + After(slot)
    ensures Sequences(img)[slot].Some? ==> Sequences(img)[slot].value == block[1]
    ensures Sequences(img)[BLOCK_COUNT + slot].Some? ==> Sequences(img)[BLOCK_COUNT + slot].value == block[1]
  {
    hide Valid;
    SameSlot(slot, After(slot));
    SameSlot(BLOCK_COUNT + slot, After(slot));
    forall e | 0 <= e < ENTRIES && Sequences(img)[e].Some?
      ensures e == slot || e == BLOCK_COUNT + slot || e == After(slot) || e == BLOCK_COUNT + After(slot)
    {
      SameSlot(e, After(slot));
    }
  }

  // ---------- When every cut is safe ----------

  /** The block of the next slot with its flags set, and then with the next sequence number. */
  function Renumbered(r: Record, current: byte): (r': Record)
    requires |r| >= 2
    ensures |r'| == |r|
  {
    [BLOCK_VALID, Wrap(current as int + 1)] + r[2..]
  }

  /**
   One of three mixes is read with an id of its own: the old block of the next slot with its
   flags set, the same with the new sequence number, or the old block of the second copy
   with its flags set.
   */
  predicate WakesForeign(img: Image, slot: nat, block: Record, nodeId: byte)
    requires IsImage(img) && slot < BLOCK_COUNT && |block| == BLOCK_SIZE
  {
    var first, second := img[After(slot)], img[BLOCK_COUNT + After(slot)];
    || (&& Sealed(FORMAT, Woken(first)) && Wins(slot, first[1], block[1])
        && first[2] != block[2] && first[2] != nodeId)
    || (&& Sealed(FORMAT, Renumbered(first, block[1]))
        && first[2] != block[2] && first[2] != nodeId)
    || (&& Sealed(FORMAT, Woken(second)) && NewerSequence(second[1], Wrap(block[1] as int + 1))
        && second[2] != block[2] && second[2] != nodeId)
  }

  ghost predicate CutsAreSafe(img: Image, block: Record, nodeId: byte, nodeType: word)
    requires |block| == BLOCK_SIZE
  {
    var ps := WritePokes(img, nodeId, nodeType);
    forall k :: 0 <= k <= |ps| ==>
      ReadId(Apply(img, ps[..k])) == block[2] || ReadId(Apply(img, ps[..k])) == nodeId
  }

  lemma NextWrite(img: Image, slot: nat, block: Record, nodeId: byte, nodeType: word)
    requires Healthy(img, slot, block)
    ensures var next := NewBlock(img, nodeId, nodeType);
      && WritePokes(img, nodeId, nodeType) == StorePokes(After(slot), next)
      && next[0] == BLOCK_VALID && next[1] == Wrap(block[1] as int + 1)
      && |WritePokes(img, nodeId, nodeType)| >= 2 * BLOCK_SIZE
  {
    hide Sealed, StoredChecksum, Wrap;
    HealthyFind(img, slot, block);
  }

  /** What is read when the power fails inside the first copy. */
  lemma FirstCopyReads(img: Image, slot: nat, block: Record, next: Record, k: nat)
    requires Healthy(img, slot, block) && k <= BLOCK_SIZE
    requires Valid(FORMAT, next) && next[1] == Wrap(block[1] as int + 1)
    ensures var id, first := ReadId(Apply(img, StorePokes(After(slot), next)[..k])), img[After(slot)];
      && (k == 0 ==> id == block[2])
      && (k == 1 ==> id == if Sealed(FORMAT, Woken(first)) && Wins(slot, first[1], block[1])
            then first[2] else block[2])
      && (k == 2 ==> id == if Sealed(FORMAT, Renumbered(first, block[1])) then first[2] else block[2])
      && (k > 2 ==> id == block[2] || id == next[2])
  {
    hide Sealed, Healthy, Apply, StorePokes, NewerSequence, Wrap, ReadId;
    OnlyTheSlot(img, slot, block);
    var e := After(slot);
    var r := Partial(img[e], next, k);
    FirstCopyCut(img, e, next, k);
    FirstCopyRead(img, slot, block, r);
    NewerFacts(block[1], block[1]);
    if k == 0 {
      assert r == img[e];
    } else if k == 1 {
      assert r == Woken(img[e]);
    } else if k == 2 {
      assert r == Renumbered(img[e], block[1]);
    }
  }

  /** What is read when the power fails inside the second copy or later. */
  lemma LaterReads(img: Image, slot: nat, block: Record, next: Record, k: nat)
    requires Healthy(img, slot, block) && BLOCK_SIZE < k <= |StorePokes(After(slot), next)|
    requires Valid(FORMAT, next) && next[1] == Wrap(block[1] as int + 1)
    ensures var id, second := ReadId(Apply(img, StorePokes(After(slot), next)[..k])), img[BLOCK_COUNT + After(slot)];
      && (k == BLOCK_SIZE + 1 ==> id == if Sealed(FORMAT, Woken(second)) && NewerSequence(second[1], next[1])
            then second[2] else next[2])
      && (k > BLOCK_SIZE + 1 ==> id == next[2])
  {
    hide Sealed, Healthy, Apply, StorePokes, NewerSequence, Wrap, ReadId;
    OnlyTheSlot(img, slot, block);
    var e := After(slot);
    if k <= 2 * BLOCK_SIZE {
      var r := Partial(img[BLOCK_COUNT + e], next, k - BLOCK_SIZE);
      SecondCopyCut(img, e, next, k);
      SecondCopyRead(img, slot, block, next, r);
      NewerFacts(next[1], next[1]);
      if k == BLOCK_SIZE + 1 {
        assert r == Woken(img[BLOCK_COUNT + e]);
      }
    } else {
      ClearingCut(img, e, next, k);
      ClearedRead(img, slot, block, next, Apply(img, StorePokes(e, next)[..k]));
    }
  }

  /**
   From a healthy store with any bytes in its invalid blocks: every cut of a write reads the
   old or the new id exactly if the next slot holds no foreign block that the write wakes.
   */
  lemma CutsAreSafeIff(img: Image, slot: nat, block: Record, nodeId: byte, nodeType: word)
    requires Healthy(img, slot, block)
    ensures CutsAreSafe(img, block, nodeId, nodeType) <==> !WakesForeign(img, slot, block, nodeId)
  {
    hide Sealed, Healthy, Apply, StorePokes, NewerSequence, Wrap, ReadId, Renumbered, Woken, Wins;
    OnlyTheSlot(img, slot, block);
    NextWrite(img, slot, block, nodeId, nodeType);
    var next, ps := NewBlock(img, nodeId, nodeType), WritePokes(img, nodeId, nodeType);
    forall k | 0 <= k <= |ps|
      ensures ReadId(Apply(img, ps[..k])) == block[2] || ReadId(Apply(img, ps[..k])) == nodeId
        || WakesForeign(img, slot, block, nodeId)
    {
      if k <= BLOCK_SIZE {
        FirstCopyReads(img, slot, block, next, k);
      } else {
        LaterReads(img, slot, block, next, k);
      }
    }
    FirstCopyReads(img, slot, block, next, 1);
    FirstCopyReads(img, slot, block, next, 2);
    LaterReads(img, slot, block, next, 9);
    if CutsAreSafe(img, block, nodeId, nodeType) {
      assert ReadId(Apply(img, ps[..1])) == block[2] || ReadId(Apply(img, ps[..1])) == nodeId;
      assert ReadId(Apply(img, ps[..2])) == block[2] || ReadId(Apply(img, ps[..2])) == nodeId;
      assert ReadId(Apply(img, ps[..9])) == block[2] || ReadId(Apply(img, ps[..9])) == nodeId;
    }
  }

  /** A store that reads 5, and 7 when a write of 6 stops after its first byte. */
  lemma ForeignBlockIsRead() returns (img: Image, block: Record)
    ensures Healthy(img, 0, block) && ReadId(img) == 5
    ensures ReadId(Apply(img, WritePokes(img, 6, 0)[..1])) == 7
  {
    hide Sealed, StoredChecksum, Apply, StorePokes;
    block := MakeRecord(FORMAT, 0, Payload(5, 0));
    var foreign := MakeRecord(FORMAT, 1, Payload(7, 0));
    assert block[2] == block[2..6][0] && foreign[2] == foreign[2..6][0];
    var cleared := foreign[0 := 0];
    ClearedIsInvalid(foreign);
    img := seq(ENTRIES, e => if e % BLOCK_COUNT == 0 then block else cleared);
    HealthyFind(img, 0, block);
    NextWrite(img, 0, block, 6, 0);
    assert Woken(cleared) == foreign;
    FirstCopyReads(img, 0, block, NewBlock(img, 6, 0), 1);
  }
}
