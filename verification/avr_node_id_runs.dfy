/**
 Power loss safety of the AVR node id store over whole runs. Writes are numbered from 0
 on an erased EEPROM; write n goes to slot n % 10 with sequence number n % 256.
 */
module AvrNodeIdRuns {
  import opened Bytes
  import opened ByteWrites
  import opened CyclicCounters
  import opened Records
  import opened AvrNodeId

  function First(n: int): nat {
    n % BLOCK_COUNT
  }

  function Second(n: int): nat {
    BLOCK_COUNT + n % BLOCK_COUNT
  }

  function Next(n: int): nat {
    (n + 1) % BLOCK_COUNT
  }

  /** The number of the last write to a slot when `n` writes after the first are done; negative if none. */
  function LastWrite(n: int, slot: nat): int {
    n - (n - slot) % BLOCK_COUNT
  }

  /** The copy of the current id; before the first write (n = -1) an erased block, read as 0. */
  ghost predicate Current(r: Record, n: int, v: byte) {
    if n < 0 then Dormant(FORMAT, r, n) && v == 0 else Holds(FORMAT, r, n, [v])
  }

  /** The block of the current slot in the second copy, possibly not written or torn. */
  ghost predicate Following(r: Record, n: int, v: byte) {
    if n < 0 then Dormant(FORMAT, r, n) else InProgress(FORMAT, BLOCK_COUNT, r, n, [v], [v])
  }

  ghost predicate Elsewhere(n: int, e: int) {
    0 <= e < ENTRIES && e % BLOCK_COUNT != n % BLOCK_COUNT && e != Next(n)
  }

  /** What every image of a run has in common after `n` + 1 writes, the last one of `v`. */
  ghost predicate Base(img: Image, n: int, v: byte) {
    && n >= -1 && IsImage(img)
    && Current(img[First(n)], n, v)
    && (forall e :: Elsewhere(n, e) ==> Dormant(FORMAT, img[e], LastWrite(n, e % BLOCK_COUNT)))
  }

  ghost predicate OthersInvalid(img: Image, n: int)
    requires |img| == ENTRIES
  {
    forall e :: 0 <= e < ENTRIES && e % BLOCK_COUNT != n % BLOCK_COUNT ==> !Valid(FORMAT, img[e])
  }

  /** The next write was cut off inside its first copy; nothing else is wrong. */
  ghost predicate NextTorn(img: Image, n: int, v: byte) {
    && Base(img, n, v)
    && Current(img[Second(n)], n, v)
    && Torn(FORMAT, img[Next(n)], n + 1)
    && OthersInvalid(img, n)
  }

  /** The first copy is written; the second one and the invalidation may be unfinished. */
  ghost predicate Spreading(img: Image, n: int, v: byte) {
    && Base(img, n, v)
    && Following(img[Second(n)], n, v)
    && Dormant(FORMAT, img[Next(n)], n - 9)
  }

  /** The invariant of every image a run can leave behind: `v` is the stored id. */
  ghost predicate Stored(img: Image, n: int, v: byte) {
    NextTorn(img, n, v) || Spreading(img, n, v)
  }

  /** The stronger state from which the application writes: both copies are in place. */
  ghost predicate Ready(img: Image, n: int, v: byte) {
    Stored(img, n, v) && Current(img[Second(n)], n, v) && OthersInvalid(img, n)
  }

  // ---------- The format ----------

  lemma FormatFacts()
    ensures FORMAT.Sensible() && ErasedIsUnsealed(FORMAT)
  {
    hide Crc16.Checksum;
    forall c: byte
      ensures !Sealed(FORMAT, [FORMAT.marker, c] + Erased(6))
    {
      var r := [FORMAT.marker, c] + Erased(6);
      assert r[..6] == [0xaa, c] + [0xff, 0xff, 0xff, 0xff];
      assert r[6..] == [0xff, 0xff];
      Crc16.ErasedAvrBlock(c);
      Crc16.AllOnes(Crc16.Checksum(r[..6]));
    }
  }

  // ---------- Slots and numbers ----------

  lemma SlotsAdvance(n: int, slot: nat)
    requires slot < BLOCK_COUNT
    ensures LastWrite(n, First(n)) == n && LastWrite(n, Next(n)) == n - 9
    ensures First(n + 1) == Next(n) != First(n)
    ensures LastWrite(n + 1, slot) == if slot == Next(n) then n + 1 else LastWrite(n, slot)
    ensures n - 9 <= LastWrite(n, slot) <= n
  {
    Remainder(n, slot);
    Remainder(n, First(n));
    Remainder(n, Next(n));
    Remainder(n + 1, slot);
    NextRemainder(n);
  }

  lemma Remainder(n: int, slot: nat)
    requires slot < BLOCK_COUNT
    ensures (n - slot) % BLOCK_COUNT
         == if n % BLOCK_COUNT >= slot then n % BLOCK_COUNT - slot else n % BLOCK_COUNT - slot + BLOCK_COUNT
  {
  }

  lemma NextRemainder(n: int)
    ensures (n + 1) % BLOCK_COUNT
         == if n % BLOCK_COUNT == BLOCK_COUNT - 1 then 0 else n % BLOCK_COUNT + 1
  {
  }

  // ---------- Reading ----------

  /** The unbounded numbers behind the sequence numbers of the valid blocks. */
  ghost function Numbers(img: Image, n: int): (numbers: seq<int>)
    requires IsImage(img)
    ensures |numbers| == ENTRIES
  {
    seq(ENTRIES, e requires 0 <= e < ENTRIES =>
      if e == Second(n) && img[e][1] != Wrap(n) then n - 10 else LastWrite(n, e % BLOCK_COUNT))
  }

  lemma NumbersAreRight(img: Image, n: int, v: byte)
    requires Stored(img, n, v)
    ensures Numbered(Sequences(img), Numbers(img, n), 10)
    ensures n < 0 ==> forall e :: 0 <= e < ENTRIES ==> !Valid(FORMAT, img[e])
  {
    hide Valid, Wrap;
    FormatFacts();
    forall e | 0 <= e < ENTRIES
      ensures Valid(FORMAT, img[e]) ==> n >= 0 && img[e][1] == Wrap(Numbers(img, n)[e])
      ensures n - 10 <= Numbers(img, n)[e] <= n
    {
      SlotsAdvance(n, e % BLOCK_COUNT);
      if Valid(FORMAT, img[e]) {
        NumberIsRight(img, n, v, e);
      }
    }
  }

  lemma NumberIsRight(img: Image, n: int, v: byte, e: nat)
    requires Stored(img, n, v) && e < ENTRIES && Valid(FORMAT, img[e])
    ensures n >= 0 && img[e][1] == Wrap(Numbers(img, n)[e])
  {
    hide Valid, Sealed, Wrap, Dormant, Torn, Following, LastWrite, Current;
    SameSlot(e, First(n));
    if Elsewhere(n, e) {
      WokenNumber(img[e], n, LastWrite(n, e % BLOCK_COUNT), e);
    } else if e == Next(n) {
      TornIsInvalid(FORMAT, img[e], n + 1);
      SlotsAdvance(n, e);
      WokenNumber(img[e], n, n - 9, e);
    } else {
      SecondNumber(img[e], n, v);
      SlotsAdvance(n, First(n));
      if e == First(n) {
        FirstNumber(img[e], n, v);
      }
    }
  }

  lemma WokenNumber(r: Record, n: int, m: int, e: nat)
    requires Dormant(FORMAT, r, m) && Valid(FORMAT, r) && e < ENTRIES
    requires m == LastWrite(n, e % BLOCK_COUNT)
    ensures n >= 0 && r[1] == Wrap(m)
  {
    hide Valid, Sealed, Wrap, Dormant, LastWrite;
    FormatFacts();
    DormantValid(FORMAT, r, m);
    SlotsAdvance(n, e % BLOCK_COUNT);
  }

  lemma FirstNumber(r: Record, n: int, v: byte)
    requires n >= 0 && Current(r, n, v)
    ensures r[1] == Wrap(n)
  {
    hide Valid, Sealed, Wrap;
  }

  lemma SecondNumber(r: Record, n: int, v: byte)
    requires Current(r, n, v) || Following(r, n, v)
    requires Valid(FORMAT, r)
    ensures n >= 0 && (r[1] == Wrap(n) || r[1] == Wrap(n - 10))
  {
    hide Valid, Sealed, Wrap;
    FormatFacts();
    if n < 0 {
      DormantValid(FORMAT, r, n);
    } else {
      TornIsInvalid(FORMAT, r, n);
      if Dormant(FORMAT, r, n - BLOCK_COUNT) {
        DormantValid(FORMAT, r, n - BLOCK_COUNT);
      }
    }
  }

  /** The scan settles on the current block of the first copy. */
  lemma FindsCurrent(img: Image, n: int, v: byte)
    requires Stored(img, n, v)
    ensures Find(img) == if n < 0 then -1 else First(n)
    ensures ReadId(img) == v
  {
    hide Valid, Sealed, Wrap, NewerSequence, LastWrite, Following, Dormant, Torn;
    NumbersAreRight(img, n, v);
    Wider(Sequences(img), Numbers(img, n), 10, 127);
    SequenceOrders();
    NewestIsLogicallyNewest(NewerSequence, 127, Sequences(img), Numbers(img, n), ENTRIES);
    if n >= 0 {
      CurrentIsFirst(img, n, v);
      NewestNumberIsInSlot(img, n, v, Find(img));
    }
  }

  lemma CurrentIsFirst(img: Image, n: int, v: byte)
    requires n >= 0 && Stored(img, n, v)
    ensures IsImage(img) && Valid(FORMAT, img[First(n)]) && img[First(n)][2] == v
    ensures Numbers(img, n)[First(n)] == n
  {
    hide Sealed, Wrap, Following;
    SlotsAdvance(n, First(n));
    CurrentIsValid(img[First(n)], n, v);
  }

  lemma NewestNumberIsInSlot(img: Image, n: int, v: byte, e: nat)
    requires Stored(img, n, v) && e < ENTRIES
    requires Numbers(img, n)[e] >= n
    ensures e == First(n) || e == Second(n)
    ensures Numbers(img, n)[e] == n
  {
    hide Valid, Sealed, Wrap, Base, Following;
    SlotsAdvance(n, e % BLOCK_COUNT);
    Remainder(n, e % BLOCK_COUNT);
    SameSlot(e, First(n));
  }

  lemma CurrentIsValid(r: Record, n: int, v: byte)
    requires n >= 0 && Current(r, n, v)
    ensures Valid(FORMAT, r) && r[1] == Wrap(n) && r[2] == v
  {
    assert Value(FORMAT, r)[0] == r[2];
  }

  // ---------- After the first copy is in place ----------

  /** Any prefix of the bytes of the second copy leaves the id stored. */
  lemma SecondCopyProgress(img: Image, n: nat, v: byte, k: nat)
    requires Spreading(img, n, v) && k <= BLOCK_SIZE
    ensures Spreading(Apply(img, RecordPokes(Second(n), img[First(n)])[..k]), n, v)
  {
    hide Valid, Sealed, Wrap, Dormant, Torn, Apply, Holds, LastWrite;
    FormatFacts();
    var block := img[First(n)];
    ApplyRecordPokes(img, Second(n), block, k);
    SingleByteMixSafe(FORMAT, BLOCK_COUNT, img[Second(n)], block, n, [v], [v]);
    OverwriteProgress(FORMAT, BLOCK_COUNT, img[Second(n)], block, n, [v], [v], k);
  }

  /** Some blocks of the other slots had their flags cleared. */
  ghost predicate PartlyCleared(img: Image, r: Image, n: nat) {
    && IsImage(img) && IsImage(r)
    && r[First(n)] == img[First(n)] && r[Second(n)] == img[Second(n)]
    && forall e :: 0 <= e < ENTRIES && e % BLOCK_COUNT != n % BLOCK_COUNT ==>
         r[e] == img[e] || r[e] == img[e][0 := 0]
  }

  lemma ClearingKeepsCurrent(img: Image, n: nat, k: nat)
    requires IsImage(img) && k <= |Others(First(n), ENTRIES)|
    ensures PartlyCleared(img, Apply(img, ClearPokes(Others(First(n), ENTRIES))[..k]), n)
  {
    hide Apply, ClearPokes;
    var others := Others(First(n), ENTRIES);
    ApplyClearPokes(img, others, k);
    SameSlot(First(n), First(n));
    SameSlot(Second(n), First(n));
    assert forall e :: e in others[..k] ==> e in others;
  }

  /** Invalidating any of the other blocks leaves the id stored. */
  lemma ClearedIsStored(img: Image, r: Image, n: nat, v: byte)
    requires Spreading(img, n, v) && PartlyCleared(img, r, n)
    ensures Spreading(r, n, v)
  {
    hide Valid, Sealed, Wrap, Dormant, Torn, Holds, LastWrite;
    SlotsAdvance(n, Next(n));
    forall e | 0 <= e < ENTRIES && e % BLOCK_COUNT != n % BLOCK_COUNT
      ensures Dormant(FORMAT, r[e], LastWrite(n, e % BLOCK_COUNT))
    {
      assert Elsewhere(n, e) || e == Next(n);
      DormantCleared(FORMAT, img[e], LastWrite(n, e % BLOCK_COUNT), 0);
    }
  }

  /** The rest of node_id_store() after its first copy: every cut keeps the id, the end is ready. */
  lemma FinishStore(img: Image, n: nat, v: byte, k: nat)
    requires Spreading(img, n, v) && k <= |RestPokes(First(n), img[First(n)])|
    ensures var ps := RestPokes(First(n), img[First(n)]);
      && Spreading(Apply(img, ps[..k]), n, v)
      && (k == |ps| ==> Ready(Apply(img, ps[..k]), n, v))
  {
    hide Valid, Sealed, Wrap, Dormant, Torn, Apply, ApplyOne, Holds, LastWrite, RecordPokes, ClearPokes;
    var block := img[First(n)];
    var a, b := RecordPokes(Second(n), block), ClearPokes(Others(First(n), ENTRIES));
    ApplyPrefix(img, a, b, k);
    if k <= |a| {
      SecondCopyProgress(img, n, v, k);
    } else {
      SecondCopyProgress(img, n, v, |a|);
      assert a[..|a|] == a;
      ClearingKeepsCurrent(Apply(img, a), n, k - |a|);
      ClearedIsStored(Apply(img, a), Apply(img, (a + b)[..k]), n, v);
    }
    if k == |a + b| {
      FinishedIsReady(img, n, v);
      assert (a + b)[..k] == a + b;
    }
  }

  lemma FinishedIsReady(img: Image, n: nat, v: byte)
    requires Spreading(img, n, v)
    ensures var r := Apply(img, RestPokes(First(n), img[First(n)]));
      Current(r[Second(n)], n, v) && |r| == ENTRIES && OthersInvalid(r, n)
  {
    hide Valid, Sealed, Wrap, Dormant, Torn, Apply, ApplyOne, LastWrite, RecordPokes, ClearPokes, Others;
    var block := img[First(n)];
    var a, others := RecordPokes(Second(n), block), Others(First(n), ENTRIES);
    ApplyWholeRecord(img, Second(n), block);
    ApplyClearPokes(Apply(img, a), others, |others|);
    assert ClearPokes(others)[..|others|] == ClearPokes(others);
    assert others[..|others|] == others;
    ApplyConcat(img, a, ClearPokes(others));
    var r := Apply(img, RestPokes(First(n), block));
    SameSlot(Second(n), First(n));
    forall e | 0 <= e < ENTRIES && e % BLOCK_COUNT != n % BLOCK_COUNT
      ensures !Valid(FORMAT, r[e])
    {
      SameSlot(e, First(n));
      ClearedIsInvalid(img[e]);
    }
  }

  // ---------- Repair at start ----------

  lemma RewritingSameRecord(img: Image, e: nat, k: nat)
    requires e < |img| && k <= |img[e]|
    ensures Apply(img, RecordPokes(e, img[e])[..k]) == img
  {
    ApplyRecordPokes(img, e, img[e], k);
    assert Partial(img[e], img[e], k) == img[e];
  }

  lemma UndamagedSecond(r: Record, n: nat, v: byte)
    requires Following(r, n, v) && Valid(FORMAT, r) && r[1] == Wrap(n)
    ensures Current(r, n, v)
  {
    hide Valid, Sealed, Wrap, Dormant, Torn;
    FormatFacts();
    TornIsInvalid(FORMAT, r, n);
    if Dormant(FORMAT, r, n - BLOCK_COUNT) {
      DormantValid(FORMAT, r, n - BLOCK_COUNT);
      WrapDistinct(n, n - BLOCK_COUNT);
    }
  }

  lemma NothingDamaged(img: Image, n: int, v: byte)
    requires Stored(img, n, v) && RepairPokes(img) == []
    ensures Ready(img, n, v)
  {
    hide Valid, Sealed, Wrap, Dormant, Torn, Following, LastWrite, Holds;
    if n < 0 {
      NumbersAreRight(img, n, v);
      if Spreading(img, n, v) {
        ErasedSecond(img[Second(n)], n, v);
      }
    } else {
      FindsCurrent(img, n, v);
      CurrentIsValid(img[First(n)], n, v);
      RestIsNotEmpty(First(n), img[First(n)]);
      UndamagedIsReady(img, n, v);
    }
  }

  lemma UndamagedIsReady(img: Image, n: nat, v: byte)
    requires Stored(img, n, v) && Valid(FORMAT, img[First(n)]) && img[First(n)][1] == Wrap(n)
    requires forall e :: 0 <= e < ENTRIES ==> !DamagedEntry(img, First(n), e)
    ensures Ready(img, n, v)
  {
    hide Valid, Sealed, Wrap, Dormant, Torn, Following, LastWrite, Holds;
    SameSlot(Second(n), First(n));
    assert !DamagedEntry(img, First(n), Second(n));
    if Spreading(img, n, v) {
      UndamagedSecond(img[Second(n)], n, v);
    }
    forall e | 0 <= e < ENTRIES && e % BLOCK_COUNT != n % BLOCK_COUNT
      ensures !Valid(FORMAT, img[e])
    {
      assert !DamagedEntry(img, First(n), e);
    }
  }

  lemma ErasedSecond(r: Record, n: int, v: byte)
    requires n < 0 && v == 0 && Following(r, n, v)
    ensures Current(r, n, v)
  {
  }

  lemma TornNextNeedsNoRepair(img: Image, n: int, v: byte)
    requires NextTorn(img, n, v)
    ensures RepairPokes(img) == []
  {
    hide Valid, Sealed, Wrap, Dormant, Torn, LastWrite, StorePokes;
    FindsCurrent(img, n, v);
    if n >= 0 {
      CurrentIsValid(img[First(n)], n, v);
      CurrentIsValid(img[Second(n)], n, v);
      forall e | 0 <= e < ENTRIES
        ensures !DamagedEntry(img, First(n), e)
      {
        SameSlot(e, First(n));
      }
    }
  }

  /** Repair cut off anywhere keeps the id; completed, it makes the store ready for writing. */
  lemma RepairIsSafe(img: Image, n: int, v: byte, k: nat)
    requires Stored(img, n, v) && k <= |RepairPokes(img)|
    ensures Stored(Apply(img, RepairPokes(img)[..k]), n, v)
    ensures k == |RepairPokes(img)| ==> Ready(Apply(img, RepairPokes(img)[..k]), n, v)
  {
    hide Valid, Sealed, Wrap, Dormant, Torn, LastWrite, Apply, ApplyOne, RestPokes, Base, Current, Following, Ready;
    var ps := RepairPokes(img);
    if ps == [] {
      ApplyNothing(img);
      NothingDamaged(img, n, v);
    } else {
      FindsCurrent(img, n, v);
      SpreadingIsImage(img, n, v);
      if NextTorn(img, n, v) {
        TornNextNeedsNoRepair(img, n, v);
      }
      var block := img[First(n)];
      var a, b := RecordPokes(First(n), block), RestPokes(First(n), block);
      ApplyPrefix(img, a, b, k);
      RestIsNotEmpty(First(n), block);
      if k <= |a| {
        RewritingSameRecord(img, First(n), k);
      } else {
        RewritingSameRecord(img, First(n), |a|);
        assert a[..|a|] == a;
        FinishStore(img, n, v, k - |a|);
      }
    }
  }

  lemma SpreadingIsImage(img: Image, n: int, v: byte)
    requires Stored(img, n, v)
    ensures IsImage(img)
  {
    hide Valid, Sealed, Wrap, Dormant, Torn, LastWrite;
  }

  // ---------- Writing a new id ----------

  lemma NewBlockIsNext(img: Image, n: int, v: byte, nodeId: byte, nodeType: word)
    requires Ready(img, n, v)
    ensures NextSlot(img) == Next(n)
    ensures Holds(FORMAT, NewBlock(img, nodeId, nodeType), n + 1, [nodeId])
  {
    hide Valid, Sealed, Dormant, Torn, LastWrite;
    FindsCurrent(img, n, v);
    var b := NewBlock(img, nodeId, nodeType);
    assert Value(FORMAT, b) == [b[2]];
    NextRemainder(n);
    if n >= 0 {
      CurrentIsValid(img[First(n)], n, v);
      WrapAgain(n, 1);
    }
  }

  /** In a ready store every block but the next one is a complete block of its last write. */
  lemma ReadyIsDormant(img: Image, n: int, v: byte, e: nat)
    requires Ready(img, n, v) && e < ENTRIES && e != Next(n)
    ensures Dormant(FORMAT, img[e], LastWrite(n, e % BLOCK_COUNT))
  {
    hide Valid, Sealed, Wrap, Torn, LastWrite, Dormant, Current, Following;
    SameSlot(e, First(n));
    SlotsAdvance(n, First(n));
    if e == First(n) || e == Second(n) {
      CurrentIsDormant(img[e], n, v);
    } else {
      assert Elsewhere(n, e);
    }
  }

  /** With the new block valid in the first copy the new id is the stored one. */
  lemma FirstCopyTakesOver(img: Image, n: int, v: byte, r: Record, w: byte)
    requires Ready(img, n, v)
    requires Holds(FORMAT, r, n + 1, [w])
    ensures Spreading(img[Next(n) := r], n + 1, w)
  {
    hide Valid, Sealed, Wrap, Torn, LastWrite, Dormant, Ready;
    ReadyFacts(img, n, v);
    var img' := img[Next(n) := r];
    NextRemainder(n);
    NextRemainder(n + 1);
    forall e | 0 <= e < ENTRIES && e != Next(n)
      ensures Dormant(FORMAT, img'[e], if e % BLOCK_COUNT == Next(n) then n - 9 else LastWrite(n + 1, e % BLOCK_COUNT))
    {
      ReadyIsDormant(img, n, v, e);
      SlotsAdvance(n, e % BLOCK_COUNT);
    }
    SlotsAdvance(n + 1, Next(n + 1));
    SameSlot(Second(n + 1), Next(n));
  }

  lemma CurrentIsDormant(r: Record, n: int, v: byte)
    requires Current(r, n, v)
    ensures Dormant(FORMAT, r, n)
  {
    hide Valid, Sealed, Wrap, Dormant;
    if n >= 0 {
      HoldsIsDormant(FORMAT, r, n, [v]);
    }
  }

  /** Any prefix of the first copy of the new block: either nothing happened or the new id took over. */
  lemma FirstCopyProgress(img: Image, n: int, v: byte, block: Record, w: byte, k: nat)
    requires Ready(img, n, v) && k <= BLOCK_SIZE == |block|
    requires Holds(FORMAT, block, n + 1, [w])
    ensures var r := Apply(img, RecordPokes(Next(n), block)[..k]);
      && (Stored(r, n, v) || Spreading(r, n + 1, w))
      && (k == BLOCK_SIZE ==> Spreading(r, n + 1, w) && r[First(n + 1)] == block)
  {
    hide Valid, Sealed, Wrap, Dormant, Torn, Apply, Holds, LastWrite, Value;
    FormatFacts();
    var e := Next(n);
    var old' := img[e];
    ApplyRecordPokes(img, e, block, k);
    SingleByteMixSafe(FORMAT, BLOCK_COUNT, old', block, n + 1, [w], [w]);
    OverwriteProgress(FORMAT, BLOCK_COUNT, old', block, n + 1, [w], [w], k);
    var r := Partial(old', block, k);
    if Holds(FORMAT, r, n + 1, [w]) {
      FirstCopyTakesOver(img, n, v, r, w);
    } else {
      FirstCopyUnfinished(img, n, v, r);
    }
    if k == BLOCK_SIZE {
      assert r == block;
      FirstCopyTakesOver(img, n, v, r, w);
      NextRemainder(n);
    }
  }

  lemma FirstCopyUnfinished(img: Image, n: int, v: byte, r: Record)
    requires Ready(img, n, v) && |r| == BLOCK_SIZE
    requires Dormant(FORMAT, r, n - 9) || Torn(FORMAT, r, n + 1)
    ensures Stored(img[Next(n) := r], n, v)
  {
    hide Valid, Sealed, Wrap, Dormant, Torn, LastWrite, Current;
    var img' := img[Next(n) := r];
    NextRemainder(n);
    TornIsInvalid(FORMAT, r, n + 1);
    CurrentFollows(img[Second(n)], n, v);
    if Torn(FORMAT, r, n + 1) {
      assert OthersInvalid(img', n);
      assert NextTorn(img', n, v);
    } else {
      assert Spreading(img', n, v);
    }
  }

  lemma CurrentFollows(r: Record, n: int, v: byte)
    requires Current(r, n, v)
    ensures Following(r, n, v)
  {
  }

  /**
   Writing a new id cut off anywhere leaves the old id or the new one; completed, it
   leaves the new one, ready for the next write.
   */
  lemma WriteIsSafe(img: Image, n: int, v: byte, nodeId: byte, nodeType: word, k: nat)
    requires Ready(img, n, v) && k <= |WritePokes(img, nodeId, nodeType)|
    ensures var r := Apply(img, WritePokes(img, nodeId, nodeType)[..k]);
      && (Stored(r, n, v) || Stored(r, n + 1, nodeId))
      && (k == |WritePokes(img, nodeId, nodeType)| ==> Ready(r, n + 1, nodeId))
  {
    hide Valid, Sealed, Wrap, Dormant, Torn, Apply, ApplyOne, Holds, LastWrite, RestPokes, NewBlock, NextSlot,
      Ready, NextTorn, Spreading;
    ReadyFacts(img, n, v);
    NewBlockIsNext(img, n, v, nodeId, nodeType);
    var block := NewBlock(img, nodeId, nodeType);
    var a, b := RecordPokes(Next(n), block), RestPokes(Next(n), block);
    RestIsNotEmpty(Next(n), block);
    ApplyPrefix(img, a, b, k);
    if k <= |a| {
      FirstCopyProgress(img, n, v, block, nodeId, k);
    } else {
      FirstCopyProgress(img, n, v, block, nodeId, |a|);
      assert a[..|a|] == a;
      NextRemainder(n);
      FinishStore(Apply(img, a), n + 1, nodeId, k - |a|);
    }
  }

  lemma ReadyFacts(img: Image, n: int, v: byte)
    requires Ready(img, n, v)
    ensures n >= -1 && IsImage(img)
  {
    hide Valid, Sealed, Wrap, Dormant, Torn, LastWrite;
  }

  lemma RestIsNotEmpty(slot: nat, block: Record)
    requires |block| == BLOCK_SIZE
    ensures |RestPokes(slot, block)| > 0
  {
  }

  // ---------- Whole runs ----------

  /** What can happen to a node: a write of the id, a start, or either of them cut off by a power failure. */
  datatype Event =
    | Write(nodeId: byte, nodeType: word)
    | CutWrite(nodeId: byte, nodeType: word, k: nat)
    | Start
    | CutStart(k: nat)

  datatype Node = Node(eeprom: Image, running: bool)

  ghost predicate Step(s: Node, ev: Event, s': Node) {
    match ev
    case Write(id, nodeType) =>
      s.running && s'.running && s'.eeprom == Apply(s.eeprom, WritePokes(s.eeprom, id, nodeType))
    case CutWrite(id, nodeType, k) =>
      && s.running && !s'.running && k <= |WritePokes(s.eeprom, id, nodeType)|
      && s'.eeprom == Apply(s.eeprom, WritePokes(s.eeprom, id, nodeType)[..k])
    case Start =>
      s'.running && s'.eeprom == Apply(s.eeprom, RepairPokes(s.eeprom))
    case CutStart(k) =>
      && !s'.running && k <= |RepairPokes(s.eeprom)|
      && s'.eeprom == Apply(s.eeprom, RepairPokes(s.eeprom)[..k])
  }

  /** A run of a node whose EEPROM comes erased from the factory. */
  ghost predicate Run(states: seq<Node>, events: seq<Event>) {
    && |states| == |events| + 1
    && states[0] == Node(seq(ENTRIES, _ => Erased(BLOCK_SIZE)), false)
    && forall i :: 0 <= i < |events| ==> Step(states[i], events[i], states[i + 1])
  }

  /** An id register whose writes happen completely or, if the power fails, possibly not at all. */
  ghost predicate RegisterStep(id: byte, ev: Event, id': byte) {
    match ev
    case Write(nodeId, _) => id' == nodeId
    case CutWrite(nodeId, _, _) => id' == id || id' == nodeId
    case Start => id' == id
    case CutStart(_) => id' == id
  }

  ghost predicate Invariant(s: Node, n: int, v: byte) {
    Stored(s.eeprom, n, v) && (s.running ==> Ready(s.eeprom, n, v))
  }

  lemma FactoryState()
    ensures Invariant(Node(seq(ENTRIES, _ => Erased(BLOCK_SIZE)), false), -1, 0)
  {
    hide Sealed, Wrap;
    var img: Image := seq(ENTRIES, _ => Erased(BLOCK_SIZE));
    forall e | 0 <= e < ENTRIES
      ensures |img[e]| == BLOCK_SIZE && img[e][1..] == Erased(7)
    {
    }
    SlotsAdvance(-1, 9);
    forall e | Elsewhere(-1, e)
      ensures Dormant(FORMAT, img[e], LastWrite(-1, e % BLOCK_COUNT))
    {
      SlotsAdvance(-1, e % BLOCK_COUNT);
    }
    assert Spreading(img, -1, 0);
  }

  lemma StepKeepsInvariant(s: Node, ev: Event, s': Node, n: int, v: byte) returns (n': int, v': byte)
    requires Invariant(s, n, v) && Step(s, ev, s')
    ensures Invariant(s', n', v') && RegisterStep(v, ev, v')
  {
    hide Stored, Ready, Apply, WritePokes, RepairPokes;
    match ev
    case Write(id, nodeType) =>
      var ps := WritePokes(s.eeprom, id, nodeType);
      WriteIsSafe(s.eeprom, n, v, id, nodeType, |ps|);
      assert ps[..|ps|] == ps;
      ReadyIsStored(s'.eeprom, n + 1, id);
      n', v' := n + 1, id;
    case CutWrite(id, nodeType, k) =>
      WriteIsSafe(s.eeprom, n, v, id, nodeType, k);
      if Stored(s'.eeprom, n, v) {
        n', v' := n, v;
      } else {
        n', v' := n + 1, id;
      }
    case Start =>
      var ps := RepairPokes(s.eeprom);
      RepairIsSafe(s.eeprom, n, v, |ps|);
      assert ps[..|ps|] == ps;
      n', v' := n, v;
    case CutStart(k) =>
      RepairIsSafe(s.eeprom, n, v, k);
      n', v' := n, v;
  }

  lemma ReadyIsStored(img: Image, n: int, v: byte)
    requires Ready(img, n, v)
    ensures Stored(img, n, v)
  {
    hide NextTorn, Spreading;
  }

  lemma {:induction false} RunKeepsInvariant(states: seq<Node>, events: seq<Event>, i: nat) returns (n: int, v: byte)
    requires Run(states, events) && i <= |events|
    ensures Invariant(states[i], n, v)
  {
    hide Invariant, Step;
    if i == 0 {
      FactoryState();
      n, v := -1, 0;
    } else {
      var m, u := RunKeepsInvariant(states, events, i - 1);
      n, v := StepKeepsInvariant(states[i - 1], events[i - 1], states[i], m, u);
    }
  }

  /**
   Over every run, whatever is cut off and wherever, the id that read_node_id() returns
   changes exactly like the register: never to an older id, never to a mixed one.
   */
  lemma ReadIdIsAtomicRegister(states: seq<Node>, events: seq<Event>, i: nat)
    requires Run(states, events) && i < |events|
    ensures RegisterStep(ReadId(states[i].eeprom), events[i], ReadId(states[i + 1].eeprom))
    ensures ReadId(states[0].eeprom) == 0
  {
    hide Step, ReadId, Stored, Ready, RegisterStep;
    var n, v := RunKeepsInvariant(states, events, i);
    var n', v' := StepKeepsInvariant(states[i], events[i], states[i + 1], n, v);
    FindsCurrent(states[i].eeprom, n, v);
    FindsCurrent(states[i + 1].eeprom, n', v');
    FactoryState();
    FindsCurrent(states[0].eeprom, -1, 0);
  }

  /** In every reachable state the write numbers of the valid blocks are within 10 of each other, far inside 127. */
  lemma NumbersStayWithinTen(states: seq<Node>, events: seq<Event>, i: nat) returns (numbers: seq<int>)
    requires Run(states, events) && i <= |events|
    ensures Numbered(Sequences(states[i].eeprom), numbers, 10)
  {
    hide Step, Stored, Ready, Numbered;
    var n, v := RunKeepsInvariant(states, events, i);
    SpreadingIsImage(states[i].eeprom, n, v);
    NumbersAreRight(states[i].eeprom, n, v);
    numbers := Numbers(states[i].eeprom, n);
  }
}
