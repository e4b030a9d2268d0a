/**
 Values of two and three bytes in the PIC sector store: what a power failure in the middle of
 a write can do to them, shown by whole runs, and when it cannot.
 */
module PicEeMemMixes {
  import opened Bytes
  import opened Options
  import opened ByteWrites
  import opened CyclicCounters
  import opened Records
  import opened PicEeMem
  import opened PicEeMemCopies
  import opened PicEeMemRuns
  import Crc16

  // ---------- Complete and cut-off writes ----------

  /** A complete write: a pair in the next two sectors, and in the others at most the magic byte cleared. */
  lemma CompleteWrite(img: Image, size: nat, n: int, v: Option<Record>, data: Record)
    requires Stored(img, size, n, v) && |data| == size
    ensures var r := Apply(img, WritePokes({}, img, data));
      && Solid(r, size, n + 2, Some(data))
      && Pair(r, data, SectorOf(n + 1), SectorOf(n + 2), Wrap(n + 1))
      && r[SectorOf(n + 1)] == Sector(Wrap(n + 1), data)
      && forall e :: 0 <= e < SECTOR_NUMBER && e != SectorOf(n + 1) && e != SectorOf(n + 2) ==>
           r[e] == img[e] || r[e] == img[e][0 := 0]
  {
    hide Valid, Sealed, Wrap, LastWrite, Stored, Solid, Apply, FindNewest, CopyRecord, Target, Sector, RecordPokes,
      ClearPokes, WritePokes, WriteCopies, Working;
    StoredIsStore(img, size, n, v);
    WriteShape(img, size, n, v, data);
    WriteWithoutFaults(img, data);
    TwoAttempts(img, data);
    NoMoreAttempts(img, data, SECTOR_NUMBER);
    var i, i' := SectorOf(n + 1), SectorOf(n + 2);
    var written := [i, i'];
    var copied := Apply(img, CopyPokes(img, data));
    CopiesAre(img, data);
    var stale := Stale(copied, written, SECTOR_NUMBER);
    ApplyConcat(img, CopyPokes(img, data), ClearPokes(stale));
    assert ClearPokes(stale)[..|stale|] == ClearPokes(stale) && stale[..|stale|] == stale;
    CopiesComplete(img, size, n, v, data);
    ClearingKeepsValue(copied, size, n + 2, Some(data), written, |stale|);
    ApplyClearPokes(copied, stale, |stale|);
    WriteLeavesPair({}, img, data);
    CopyRecords(img, data);
  }

  lemma CopiesAre(img: Image, data: Record)
    requires IsStore(img, |data|)
    ensures var p := FindNewest(img, |data|);
      Apply(img, CopyPokes(img, data))
        == img[Target(p, 0) := CopyRecord(img, data, 0)][Target(p, 1) := CopyRecord(img, data, 1)]
  {
    hide FindNewest, CopyRecord, Target, Apply, RecordPokes;
    var p := FindNewest(img, |data|);
    var i, i' := Target(p, 0), Target(p, 1);
    var r, r' := CopyRecord(img, data, 0), CopyRecord(img, data, 1);
    ApplyWholeRecord(img, i, r);
    ApplyWholeRecord(img[i := r], i', r');
    ApplyConcat(img, RecordPokes(i, r), RecordPokes(i', r'));
  }

  /** A write cut off in its first copy. */
  lemma CutInFirstCopy(img: Image, size: nat, n: int, v: Option<Record>, data: Record, k: nat)
    requires Stored(img, size, n, v) && |data| == size && k <= size + 4
    ensures k <= |WritePokes({}, img, data)| && IsStore(img, size)
    ensures var i := SectorOf(n + 1);
      Apply(img, WritePokes({}, img, data)[..k]) == img[i := Partial(img[i], Sector(Wrap(n + 1), data), k)]
  {
    hide Valid, Sealed, Wrap, LastWrite, Stored, Apply, FindNewest, CopyRecord, Target, Sector, RecordPokes, ClearPokes,
      WritePokes, Partial;
    StoredIsStore(img, size, n, v);
    WriteShape(img, size, n, v, data);
    WriteWithoutFaults(img, data);
    var i, r := SectorOf(n + 1), Sector(Wrap(n + 1), data);
    assert WritePokes({}, img, data)[..k] == RecordPokes(i, r)[..k];
    ApplyRecordPokes(img, i, r, k);
  }

  // ---------- Eight writes on an erased EEPROM ----------

  ghost function AfterWrites(data: Record, k: nat): (img: Image)
    ensures |img| == SECTOR_NUMBER
  {
    if k == 0 then seq(SECTOR_NUMBER, _ => Erased(|data| + 4))
    else
      var before := AfterWrites(data, k - 1);
      Apply(before, WritePokes({}, before, data))
  }

  /** Until the seventeenth sector write the first sector keeps the data of the first write behind its magic byte. */
  lemma {:induction false} WritesFillSectors(data: Record, k: nat)
    requires 1 <= |data| <= 255 && 1 <= k <= 8
    ensures var img, n := AfterWrites(data, k), 2 * k - 1;
      && Solid(img, |data|, n, Some(data)) && Pair(img, data, SectorOf(n - 1), SectorOf(n), Wrap(n - 1))
      && |img[0]| == |data| + 4 && img[0][0 := MAGIC_BYTE] == Sector(Wrap(0), data)
  {
    hide Valid, Sealed, Wrap, Solid, Stored, Apply, WritePokes, Sector;
    var before := AfterWrites(data, k - 1);
    if k == 1 {
      FactoryState(|data|);
      CompleteWrite(before, |data|, -1, None, data);
      SectorShape(Wrap(0), data);
    } else {
      WritesFillSectors(data, k - 1);
      SolidIsStored(before, |data|, 2 * k - 3, Some(data));
      CompleteWrite(before, |data|, 2 * k - 3, Some(data), data);
      var r := AfterWrites(data, k)[0];
      assert r[0 := MAGIC_BYTE] == before[0][0 := MAGIC_BYTE];
    }
  }

  lemma SectorShape(counter: byte, data: Record)
    ensures var r := Sector(counter, data); |r| == |data| + 4 && r[0 := MAGIC_BYTE] == r
  {
  }

  // ---------- Three bytes ----------

  /** Over 00 00 00 (write 0), its magic byte cleared or not, two new bytes of 12 31 01 pass for a complete 12 31 00. */
  lemma ThreeByteMixIsSealed(old': Record)
    requires |old'| == 7 && old'[0 := MAGIC_BYTE] == Sector(Wrap(0), [0, 0, 0])
    ensures var mix := Partial(old', Sector(Wrap(16), [0x12, 0x31, 0x01]), 4);
      Sealed(SectorFormat(3), mix) && Data(mix, 3) == [0x12, 0x31, 0x00]
  {
    hide Crc16.Checksum, Crc16.LowByte, Crc16.HighByte;
    var first, r := Sector(Wrap(0), [0, 0, 0]), Sector(Wrap(16), [0x12, 0x31, 0x01]);
    var mix := Partial(old', r, 4);
    Crc16.ThreeBytesCanCollide(0);
    assert first[..5] == [0xa5, 0x00] + [0x00, 0x00, 0x00];
    assert forall i :: 1 <= i < 7 ==> first[i] == old'[0 := MAGIC_BYTE][i] == old'[i];
    assert forall i :: 4 <= i < 7 ==> mix[i] == old'[i];
    assert first[4] == 0x00;
    assert mix[..5] == [0xa5, 0x10] + [0x12, 0x31, 0x00];
    assert mix[5..] == first[5..];
  }

  /** So a three-byte value can be read as neither the old nor the new one after a power failure. */
  lemma ThreeByteValueCanBeMixed(img: Image, n: int, v: Record)
    requires Stored(img, 3, n, Some(v)) && n % 256 == 15 && v != [0x12, 0x31, 0x00]
    requires |img[0]| == 7 && img[0][0 := MAGIC_BYTE] == Sector(Wrap(0), [0, 0, 0])
    ensures !CutReadsAreSafe(img, Some(v), [0x12, 0x31, 0x01])
  {
    hide Sealed, Stored, CutReadsAreSafe, Sector, ReadData, FindNewest, Valid, Target;
    var data: Record := [0x12, 0x31, 0x01];
    CutReadsAreSafeIffUnambiguous(img, 3, n, Some(v), data);
    if Unambiguous(img, data) {
      ThreeByteMixIsSealed(img[0]);
      WriteShape(img, 3, n, Some(v), data);
      ReadsStored(img, 3, n, Some(v));
      NumberOfSectorZero(n);
    }
  }

  lemma NumberOfSectorZero(n: int)
    requires n % 256 == 15
    ensures SectorOf(n + 1) == 0 && Wrap(n + 1) == Wrap(16)
  {
  }

  /** Eight equal writes on an erased EEPROM. */
  ghost function EightWrites(data: Record): (states: seq<Image>)
    ensures |states| == 9
  {
    seq(9, k requires 0 <= k < 9 => AfterWrites(data, k))
  }

  function EightEvents(data: Record): (events: seq<Event>)
    ensures |events| == 8
  {
    seq(8, _ => Write(data))
  }

  lemma EightWritesRun(data: Record)
    requires 1 <= |data| <= 255
    ensures Run(|data|, EightWrites(data), EightEvents(data)) && EightWrites(data)[8] == AfterWrites(data, 8)
  {
    hide AfterWrites, Step;
    WriteStep(data, 0);
    forall i | 0 <= i < 8
      ensures Step(|data|, EightWrites(data)[i], Write(data), EightWrites(data)[i + 1])
    {
      WriteStep(data, i);
    }
  }

  lemma WriteStep(data: Record, k: nat)
    ensures AfterWrites(data, 0) == seq(SECTOR_NUMBER, _ => Erased(|data| + 4))
    ensures Step(|data|, AfterWrites(data, k), Write(data), AfterWrites(data, k + 1))
  {
    hide Apply, WritePokes;
  }

  /** A mix in the first copy that passes the checksum is what is read after the cut. */
  lemma MixIsRead(img: Image, size: nat, n: int, v: Option<Record>, data: Record, k: nat)
    requires Stored(img, size, n, v) && |data| == size && 2 <= k < 2 + size
    requires IsStore(img, size)
    requires Sealed(SectorFormat(size), Partial(img[SectorOf(n + 1)], Sector(Wrap(n + 1), data), k))
    ensures k <= |WritePokes({}, img, data)|
    ensures ReadData(Apply(img, WritePokes({}, img, data)[..k]), size)
         == Some(Data(Partial(img[SectorOf(n + 1)], Sector(Wrap(n + 1), data), k), size))
  {
    hide Stored, Apply, WritePokes, Sector, Partial, RecordPokes, Wrap, ReadData, Sealed, Data;
    StoredIsStore(img, size, n, v);
    CutInFirstCopy(img, size, n, v, data, k);
    ApplyRecordPokes(img, SectorOf(n + 1), Sector(Wrap(n + 1), data), k);
    SectorHolds(n + 1, data);
    SealedMixIsRead(img, size, n, v, Sector(Wrap(n + 1), data), data, k);
  }

  /** After eight writes the last value is stored and the first sector is the next. */
  ghost predicate FullLap(img: Image, data: Record) {
    && IsStore(img, |data|) && Stored(img, |data|, 15, Some(data)) && Solid(img, |data|, 15, Some(data))
    && Pair(img, data, 14, 15, Wrap(14)) && ReadData(img, |data|) == Some(data)
    && SectorOf(16) == 0 && img[0][0 := MAGIC_BYTE] == Sector(Wrap(0), data)
  }

  lemma EightWritesAreStored(data: Record, k: nat)
    requires 1 <= |data| <= 255 && k == 8
    ensures FullLap(AfterWrites(data, k), data)
  {
    hide Valid, Sealed, Stored, Solid, Apply, WritePokes, Sector, ReadData, Pair, Wrap, AfterWrites, NewestHolds;
    var img := AfterWrites(data, k);
    WritesFillSectors(data, k);
    SolidIsStored(img, |data|, 15, Some(data));
    ReadsStored(img, |data|, 15, Some(data));
    StoredIsStore(img, |data|, 15, Some(data));
  }

  /** It happens: eight complete writes and one cut off after four bytes. */
  lemma ThreeByteRun() returns (states: seq<Image>, events: seq<Event>)
    ensures events == EightEvents([0, 0, 0]) + [CutWrite([0x12, 0x31, 0x01], 4)]
    ensures Run(3, states, events)
    ensures ReadData(states[8], 3) == Some([0, 0, 0]) && ReadData(states[9], 3) == Some([0x12, 0x31, 0x00])
  {
    hide Valid, Sealed, Stored, Solid, Apply, WritePokes, Sector, ReadData, Pair, Partial, Data, Wrap, Run, AfterWrites,
      EightWrites, EightEvents;
    var zero: Record, data: Record := [0, 0, 0], [0x12, 0x31, 0x01];
    var img := AfterWrites(zero, 8);
    EightWritesAreStored(zero, 8);
    ThreeByteMixIsSealed(img[0]);
    MixIsRead(img, 3, 15, Some(zero), data, 4);
    EightWritesRun(zero);
    var cut := Apply(img, WritePokes({}, img, data)[..4]);
    states, events := EightWrites(zero) + [cut], EightEvents(zero) + [CutWrite(data, 4)];
    RunContinues(3, EightWrites(zero), EightEvents(zero), CutWrite(data, 4), cut);
  }

  lemma RunContinues(size: nat, states: seq<Image>, events: seq<Event>, ev: Event, next: Image)
    requires Run(size, states, events) && Step(size, states[|events|], ev, next)
    ensures Run(size, states + [next], events + [ev])
  {
    hide Step;
  }

  // ---------- Two bytes ----------

  /** 00 00 (write 0) with the counter and both bytes of 07 31 written over it: not valid. */
  ghost function TornSector(): Record {
    Partial(Sector(Wrap(0), [0, 0]), Sector(Wrap(16), [0x07, 0x31]), 4)
  }

  lemma TornSectorIs()
    ensures Torn(SectorFormat(2), TornSector(), 16)
    ensures var mix := Partial(TornSector(), Sector(Wrap(16), [0x12, 0x99]), 3);
      Sealed(SectorFormat(2), mix) && Data(mix, 2) == [0x12, 0x31]
  {
    hide Crc16.Checksum, Crc16.LowByte, Crc16.HighByte;
    var first, torn := Sector(Wrap(0), [0, 0]), TornSector();
    var mix := Partial(torn, Sector(Wrap(16), [0x12, 0x99]), 3);
    Crc16.ThreeBytesCanCollide(0);
    assert first[..4] == [0xa5, 0x00] + [0x00, 0x00];
    assert mix[..4] == [0xa5, 0x10] + [0x12, 0x31];
    assert torn[..4] == [0xa5, 0x10] + [0x07, 0x31];
    assert mix[4..] == first[4..] == torn[4..];
    Crc16.BurstDetected([0xa5, 0x10], 0x12, 0x31, 0x07, 0x31, []);
    assert [0xa5, 0x10] + [0x12, 0x31] + [] == mix[..4];
    assert [0xa5, 0x10] + [0x07, 0x31] + [] == torn[..4];
    DifferentChecksumUnseals(SectorFormat(2), mix, torn);
  }

  /** The torn sector in place of the first one: nothing changes for the reader or for a refresh. */
  lemma TornIsIgnored(img: Image, v: Record)
    requires Solid(img, 2, 15, Some(v)) && Pair(img, v, 14, 15, Wrap(14))
    ensures |img| == SECTOR_NUMBER
    ensures var torn := img[0 := TornSector()];
      && Stored(torn, 2, 15, Some(v)) && ReadData(torn, 2) == Some(v) && RefreshPokes({}, torn, 2) == []
  {
    hide Valid, Sealed, Wrap, ReadData, RefreshPokes, Sector, Dormant, LastWrite, TornSector;
    TornSectorIs();
    TornIsInvalid(SectorFormat(2), TornSector(), 16);
    var torn := img[0 := TornSector()];
    assert SectorOf(16) == 0 && SectorOf(15) == 15;
    PairIsHealthy({}, torn, v, 14, 15, Wrap(14));
    assert |TornSector()| == 6;
  }

  /**
   Two bytes after two power failures: eight complete writes, a write cut off after four
   bytes, a start that finds nothing to refresh, and a write cut off after three.
   */
  lemma TwoByteRun() returns (states: seq<Image>, events: seq<Event>)
    ensures events == EightEvents([0, 0]) + [CutWrite([0x07, 0x31], 4)] + [Start] + [CutWrite([0x12, 0x99], 3)]
    ensures Run(2, states, events)
    ensures forall i :: 8 <= i <= 10 ==> ReadData(states[i], 2) == Some([0, 0])
    ensures ReadData(states[11], 2) == Some([0x12, 0x31])
  {
    hide Valid, Sealed, Stored, Solid, Apply, WritePokes, Sector, ReadData, Pair, Partial, Data, Wrap, Run, AfterWrites,
      EightWrites, EightEvents, RefreshPokes, TornSector, Step;
    var zero: Record := [0, 0];
    var img := AfterWrites(zero, 8);
    EightWritesAreStored(zero, 8);
    var torn := FirstCut(img);
    var mixed := SecondCut(img);
    EightWritesRun(zero);
    var first, second := CutWrite([0x07, 0x31], 4), CutWrite([0x12, 0x99], 3);
    states, events := EightWrites(zero), EightEvents(zero);
    RunContinues(2, states, events, first, torn);
    states, events := states + [torn], events + [first];
    RunContinues(2, states, events, Start, torn);
    states, events := states + [torn], events + [Start];
    RunContinues(2, states, events, second, mixed);
    states, events := states + [mixed], events + [second];
  }

  lemma FirstCut(img: Image) returns (torn: Image)
    requires FullLap(img, [0, 0])
    ensures |img| == SECTOR_NUMBER && torn == img[0 := TornSector()] && ReadData(torn, 2) == Some([0, 0])
    ensures Step(2, img, CutWrite([0x07, 0x31], 4), torn) && Step(2, torn, Start, torn)
  {
    hide Valid, Sealed, Stored, Solid, Apply, WritePokes, ReadData, Pair, Wrap, RefreshPokes;
    torn := img[0 := TornSector()];
    TornIsIgnored(img, [0, 0]);
    CutInFirstCopy(img, 2, 15, Some([0, 0]), [0x07, 0x31], 4);
    assert Apply(torn, []) == torn by { NothingApplied(torn); }
    SameTail(img[0], Sector(Wrap(0), [0, 0]), Sector(Wrap(16), [0x07, 0x31]), 4);
  }

  lemma NothingApplied(img: Image)
    ensures Apply(img, []) == img
  {
  }

  lemma SameTail(old': Record, first: Record, bytes: Record, k: nat)
    requires |old'| == |first| == |bytes| && 1 <= k <= |bytes| && old'[0 := MAGIC_BYTE] == first
    ensures Partial(old', bytes, k) == Partial(first, bytes, k)
  {
    assert forall i :: 1 <= i < |old'| ==> first[i] == old'[0 := MAGIC_BYTE][i] == old'[i];
  }

  lemma SecondCut(img: Image) returns (mixed: Image)
    requires FullLap(img, [0, 0])
    ensures |img| == SECTOR_NUMBER
    ensures Step(2, img[0 := TornSector()], CutWrite([0x12, 0x99], 3), mixed)
    ensures ReadData(mixed, 2) == Some([0x12, 0x31])
  {
    hide Valid, Sealed, Stored, Solid, Apply, WritePokes, Sector, ReadData, Pair, Partial, Data, Wrap, TornSector;
    TornIsIgnored(img, [0, 0]);
    TornSectorIs();
    var torn := img[0 := TornSector()];
    StoredIsStore(torn, 2, 15, Some([0, 0]));
    assert SectorOf(16) == 0;
    MixIsRead(torn, 2, 15, Some([0, 0]), [0x12, 0x99], 3);
    mixed := Apply(torn, WritePokes({}, torn, [0x12, 0x99])[..3]);
  }

  /** A dormant sector of two bytes with the counter and one new byte written is never valid. */
  lemma OneOfTwoBytesUnsealed(old': Record, bytes: Record, m: nat, w: Record)
    requires Dormant(SectorFormat(2), old', m - LAP) && Holds(SectorFormat(2), bytes, m, w)
    ensures !Sealed(SectorFormat(2), Partial(old', bytes, 3))
  {
    hide Crc16.Checksum, Crc16.LowByte, Crc16.HighByte;
    var f, r := SectorFormat(2), Partial(old', bytes, 3);
    if m < LAP {
      assert forall i :: 1 <= i < 6 ==> old'[i] == old'[1..][i - 1] == 0xff;
      assert r[..4] == [0xa5, bytes[1]] + [bytes[2], 0xff];
      assert r[4..] == [0xff, 0xff];
      Crc16.ErasedSecondByte(bytes[1], bytes[2]);
      Crc16.AllOnes(Crc16.Checksum(r[..4]));
    } else {
      var woken := old'[0 := MAGIC_BYTE];
      WrapDistinct(m, m - LAP);
      assert woken[..4] == [0xa5] + [woken[1], woken[2]] + [old'[3]];
      assert r[..4] == [0xa5] + [r[1], r[2]] + [old'[3]];
      Crc16.BurstDetected([0xa5], woken[1], woken[2], r[1], r[2], [old'[3]]);
      assert r[4..] == woken[4..];
      DifferentChecksumUnseals(f, woken, r);
    }
  }

  lemma TwoBytesMixSafe(old': Record, bytes: Record, m: nat, u: Record, w: Record)
    requires Dormant(SectorFormat(2), old', m - LAP) && Holds(SectorFormat(2), bytes, m, w)
    ensures MixSafe(SectorFormat(2), old', bytes, u, w)
  {
    hide Sealed, Dormant, Holds, Value, Partial;
    EverySizeFormat(2);
    assert |old'| == |bytes| == 6 by { Sizes(old', bytes, m, w); }
    CounterWritten(SectorFormat(2), LAP, old', bytes, m, w);
    OneOfTwoBytesUnsealed(old', bytes, m, w);
  }

  lemma Sizes(old': Record, bytes: Record, m: nat, w: Record)
    requires Dormant(SectorFormat(2), old', m - LAP) && Holds(SectorFormat(2), bytes, m, w)
    ensures |old'| == |bytes| == 6
  {
  }

  /**
   A two-byte value is safe while the next sector is not torn: then a write cut off
   anywhere is read as the old or the new value.
   */
  lemma TwoBytesAreUnambiguous(img: Image, n: int, v: Option<Record>, data: Record)
    requires Solid(img, 2, n, v) && |data| == 2
    ensures IsStore(img, 2) && Unambiguous(img, data) && CutReadsAreSafe(img, v, data)
  {
    hide Valid, Sealed, Wrap, LastWrite, Dormant, Torn, Apply, FindNewest, CopyRecord, Target, Sector, Holds,
      MixSafe, ReadData, CutReadsAreSafe;
    SolidIsStored(img, 2, n, v);
    StoredIsStore(img, 2, n, v);
    WriteShape(img, 2, n, v, data);
    SectorHolds(n + 1, data);
    SectorHolds(n + 2, data);
    SectorsAdvance(n, SectorOf(n + 2));
    SectorsAdvance(n + 1, SectorOf(n + 2));
    var u := OldOr(ReadData(img, 2), data);
    TwoBytesMixSafe(img[SectorOf(n + 1)], CopyRecord(img, data, 0), n + 1, u, data);
    TwoBytesMixSafe(img[SectorOf(n + 2)], CopyRecord(img, data, 1), n + 2, u, data);
    CutReadsAreSafeIffUnambiguous(img, 2, n, v, data);
  }
}
