/**
 Power loss on a PIC sector store that was not started on an erased EEPROM: a complete write
 heals any contents, but of all other sectors it clears the magic byte only. The next write
 sets it again in two of them before it replaces the rest.
 */
module PicEeMemForeign {
  import opened Bytes
  import opened Options
  import opened ByteWrites
  import opened CyclicCounters
  import opened Records
  import opened PicEeMem
  import opened PicEeMemCopies
  import opened PicEeMemRuns

  /** Sector number `d` after sector `a`. */
  function Behind(a: nat, d: nat): (i: nat)
    ensures i < SECTOR_NUMBER
  {
    (a + d) % SECTOR_NUMBER
  }

  /** Two copies in neighbouring sectors, the older one in sector `a`; all other sectors are invalid. */
  ghost predicate Healthy(img: Image, v: Record, a: nat, counter: byte) {
    Pair(img, v, a, Behind(a, 1), counter)
  }

  function Later(counter: byte, d: nat): byte {
    Wrap(counter as int + d)
  }

  function Woken(r: Record): (r': Record)
    requires r != []
    ensures |r'| == |r|
  {
    r[0 := MAGIC_BYTE]
  }

  /** With working cells a complete write leaves such a store, whatever was there before. */
  lemma CompleteWriteIsHealthy(img: Image, data: Record)
    requires IsStore(img, |data|)
    ensures Healthy(Apply(img, WritePokes({}, img, data)), data,
                    Target(FindNewest(img, |data|), 0), NextCounter(img, |data|))
  {
    hide WriteCopies, WritePokes, Apply, Pair, FindNewest, NextCounter, CopyPokes;
    TwoAttempts(img, data);
    NoMoreAttempts(img, data, SECTOR_NUMBER);
    WriteLeavesPair({}, img, data);
  }

  // ---------- Counters ----------

  /**
   A foreign counter in sector i is preferred to the valid ones, which are `counter` and up to
   `newest` behind it. In the first sector it is scanned before all others.
   */
  predicate Preferred(i: nat, foreign: byte, counter: byte, newest: nat) {
    if i == 0 then forall d: nat :: d <= newest ==> !CounterGreat(Later(counter, d), foreign)
    else CounterGreat(foreign, Later(counter, newest))
  }

  lemma LaterOrders(counter: byte, d: nat, e: nat)
    requires d <= 3 && e <= 3
    ensures CounterGreat(Later(counter, d), Later(counter, e)) <==> d > e
  {
    hide Wrap, CounterGreat;
    CounterOrders();
    assert CounterGreat(Wrap(counter as int + d), Wrap(counter as int + e)) <==>
      counter as int + d > counter as int + e;
  }

  /** What is newer than the newest is not older than the ones before it. */
  lemma ForeignStaysAhead(counter: byte, g: byte, newest: nat, d: nat)
    requires d <= newest <= 2 && CounterGreat(g, Later(counter, newest))
    ensures !CounterGreat(Later(counter, d), g)
  {
    hide Wrap;
    var latest, ahead := counter as int + newest, Wrap(Later(counter, newest) - g);
    WrapOfDistance(Later(counter, newest), g);
    WrapDifference(latest, ahead);
    WrapOfByte(ahead);
    assert g == Wrap(latest - ahead);
    WrapDifference(latest - ahead, counter as int + d);
    WrapSmall(newest - d - ahead);
  }

  lemma WrapOfDistance(a: byte, b: byte)
    ensures Wrap(a - Wrap(a - b)) == b
  {
  }

  /** The counter of the next copy is preferred everywhere. */
  lemma NextIsPreferred(i: nat, counter: byte, newest: nat)
    requires newest <= 2
    ensures Preferred(i, Later(counter, newest + 1), counter, newest)
  {
    hide Later, CounterGreat;
    LaterOrders(counter, newest + 1, newest);
    forall d: nat | d <= newest
      ensures !CounterGreat(Later(counter, d), Later(counter, newest + 1))
    {
      LaterOrders(counter, d, newest + 1);
    }
  }

  // ---------- The scan ----------

  /** The valid sectors are in a row from sector `a` on, with consecutive counters; then comes a foreign one. */
  ghost predicate Row(s: seq<Option<byte>>, a: nat, counter: byte, newest: nat) {
    && |s| == SECTOR_NUMBER && a < SECTOR_NUMBER && 1 <= newest <= 2
    && (forall d: nat :: d <= newest ==> s[Behind(a, d)] == Some(Later(counter, d)))
    && (newest == 1 ==> s[Behind(a, 3)] == None)
    && forall i :: 0 <= i < SECTOR_NUMBER && s[i].Some? ==>
         i == Behind(a, 0) || i == Behind(a, 1) || i == Behind(a, 2) || i == Behind(a, 3)
  }

  /** All comparisons the scan can make. */
  lemma RowOrders(s: seq<Option<byte>>, a: nat, counter: byte, newest: nat)
    requires Row(s, a, counter, newest)
    ensures forall d: nat, e: nat :: d <= newest && e <= newest ==>
      (CounterGreat(Later(counter, d), Later(counter, e)) <==> d > e)
    ensures var t := Behind(a, newest + 1);
      s[t].Some? && CounterGreat(s[t].value, Later(counter, newest)) ==>
        forall d: nat :: d <= newest ==> !CounterGreat(Later(counter, d), s[t].value)
  {
    hide CounterGreat, Later;
    forall d: nat, e: nat | d <= newest && e <= newest
      ensures CounterGreat(Later(counter, d), Later(counter, e)) <==> d > e
    {
      LaterOrders(counter, d, e);
    }
    var t := Behind(a, newest + 1);
    if s[t].Some? && CounterGreat(s[t].value, Later(counter, newest)) {
      forall d: nat | d <= newest
        ensures !CounterGreat(Later(counter, d), s[t].value)
      {
        ForeignStaysAhead(counter, s[t].value, newest, d);
      }
    }
  }

  /** What the scan settles on: the newest sector of the row, or the foreign one behind it. */
  ghost predicate Settles(s: seq<Option<byte>>, a: nat, counter: byte, newest: nat)
    requires |s| == SECTOR_NUMBER
  {
    var t := Behind(a, newest + 1);
    Newest(CounterGreat, s, SECTOR_NUMBER)
      == if s[t].Some? && Preferred(t, s[t].value, counter, newest) then t else Behind(a, newest)
  }

  lemma RowFacts(s: seq<Option<byte>>, a: nat, counter: byte, newest: nat)
    requires Row(s, a, counter, newest)
    ensures s[Behind(a, 0)] == Some(Later(counter, 0)) && s[Behind(a, 1)] == Some(Later(counter, 1))
    ensures if newest == 1 then s[Behind(a, 3)] == None else s[Behind(a, 2)] == Some(Later(counter, 2))
  {
    hide Behind, Later;
  }

  lemma RowUnbroken(s: seq<Option<byte>>, a: nat, counter: byte, newest: nat)
    requires Row(s, a, counter, newest) && a <= 12
    ensures Settles(s, a, counter, newest)
  {
    hide CounterGreat, Newest, Later, Row;
    RowOrders(s, a, counter, newest);
    RowFacts(s, a, counter, newest);
    RowOnly(s, a, counter, newest);
    ScanFour(CounterGreat, s, a, a + 1, a + 2, a + 3);
  }

  lemma RowBroken(s: seq<Option<byte>>, a: nat, counter: byte, newest: nat)
    requires Row(s, a, counter, newest) && a > 12
    ensures Settles(s, a, counter, newest)
  {
    hide CounterGreat, Newest, Later, Row;
    RowOrders(s, a, counter, newest);
    RowFacts(s, a, counter, newest);
    RowOnly(s, a, counter, newest);
    if a == 13 {
      ScanFour(CounterGreat, s, 0, 13, 14, 15);
    } else if a == 14 {
      ScanFour(CounterGreat, s, 0, 1, 14, 15);
    } else {
      ScanFour(CounterGreat, s, 0, 1, 2, 15);
    }
  }

  lemma RowOnly(s: seq<Option<byte>>, a: nat, counter: byte, newest: nat)
    requires Row(s, a, counter, newest)
    ensures |s| == SECTOR_NUMBER && a < SECTOR_NUMBER && 1 <= newest <= 2
    ensures forall i :: 0 <= i < SECTOR_NUMBER ==>
      s[i].None? || i == Behind(a, 0) || i == Behind(a, 1) || i == Behind(a, 2) || i == Behind(a, 3)
  {
    hide Behind, Later;
  }

  lemma RowScanned(s: seq<Option<byte>>, a: nat, counter: byte, newest: nat)
    requires Row(s, a, counter, newest)
    ensures Settles(s, a, counter, newest)
  {
    hide Settles;
    if a <= 12 {
      RowUnbroken(s, a, counter, newest);
    } else {
      RowBroken(s, a, counter, newest);
    }
  }

  // ---------- What a cut write reads ----------

  lemma HealthyMeans(img: Image, v: Record, a: nat, counter: byte)
    requires Healthy(img, v, a, counter)
    ensures IsStore(img, |v|) && a < SECTOR_NUMBER
    ensures var f := SectorFormat(|v|);
      && Valid(f, img[a]) && img[a][1] == Later(counter, 0)
      && Valid(f, img[Behind(a, 1)]) && img[Behind(a, 1)][1] == Later(counter, 1)
      && Data(img[Behind(a, 1)], |v|) == v
      && forall i :: 0 <= i < SECTOR_NUMBER && i != a && i != Behind(a, 1) ==> !Valid(f, img[i])
    ensures Behind(a, 0) == a
  {
    hide Valid, Sector;
  }

  /** What is read when sector i holds `r`: its data if it is preferred, or that of the newest copy. */
  function Reading(r: Record, i: nat, counter: byte, newest: nat, otherwise: Record): (v: Record)
    requires |r| == |otherwise| + 4
  {
    if Valid(SectorFormat(|otherwise|), r) && Preferred(i, r[1], counter, newest) then Data(r, |otherwise|)
    else otherwise
  }

  /** Only the sector behind the two copies differs. */
  lemma FirstCopyRead(img: Image, v: Record, a: nat, counter: byte, r: Record)
    requires Healthy(img, v, a, counter) && |r| == |v| + 4
    ensures ReadData(img[Behind(a, 2) := r], |v|) == Some(Reading(r, Behind(a, 2), counter, 1, v))
  {
    hide Valid, Healthy, Later, Preferred, CounterGreat, Newest, Data;
    HealthyMeans(img, v, a, counter);
    RowScanned(Counters(img[Behind(a, 2) := r], |v|), a, counter, 1);
  }

  /** The first copy is written, and the sector of the second differs. */
  lemma SecondCopyRead(img: Image, v: Record, a: nat, counter: byte, first: Record, r: Record)
    requires Healthy(img, v, a, counter) && |r| == |v| + 4
    requires Valid(SectorFormat(|v|), first) && first[1] == Later(counter, 2)
    ensures ReadData(img[Behind(a, 2) := first][Behind(a, 3) := r], |v|)
         == Some(Reading(r, Behind(a, 3), counter, 2, Data(first, |v|)))
  {
    hide Valid, Healthy, Later, Preferred, CounterGreat, Newest, Data;
    HealthyMeans(img, v, a, counter);
    RowScanned(Counters(img[Behind(a, 2) := first][Behind(a, 3) := r], |v|), a, counter, 2);
  }

  /** Both copies are written, and some other magic bytes are cleared. */
  ghost predicate OnlyMagicCleared(img: Image, img': Image, size: nat, a: nat, first: Record, second: Record) {
    && IsStore(img, size) && IsStore(img', size)
    && img'[Behind(a, 2)] == first && img'[Behind(a, 3)] == second
    && forall i :: 0 <= i < SECTOR_NUMBER && i != Behind(a, 2) && i != Behind(a, 3) ==>
         img'[i] == img[i] || img'[i] == img[i][0 := 0]
  }

  lemma ClearedRead(img: Image, v: Record, a: nat, counter: byte, first: Record, second: Record, img': Image)
    requires Healthy(img, v, a, counter) && OnlyMagicCleared(img, img', |v|, a, first, second)
    requires Valid(SectorFormat(|v|), first) && first[1] == Later(counter, 2)
    requires Valid(SectorFormat(|v|), second) && second[1] == Later(counter, 3)
    ensures ReadData(img', |v|) == Some(Data(second, |v|))
  {
    hide Valid, Healthy, Wrap, CounterGreat, Newest, Data;
    HealthyMeans(img, v, a, counter);
    var s := Counters(img', |v|);
    var numbers := seq(SECTOR_NUMBER, i => counter as int + if i == a then 0 else if i == Behind(a, 1) then 1
                                           else if i == Behind(a, 2) then 2 else 3);
    forall i | 0 <= i < SECTOR_NUMBER && s[i].Some?
      ensures s[i].value == Wrap(numbers[i])
      ensures i == a || i == Behind(a, 1) || i == Behind(a, 2) || i == Behind(a, 3)
    {
      if i != Behind(a, 2) && i != Behind(a, 3) {
        UnmarkedIsInvalid(img[i][0 := 0], |v|);
      }
    }
    assert Numbered(s, numbers, 112);
    CounterOrders();
    NewestIsLogicallyNewest(CounterGreat, 112, s, numbers, SECTOR_NUMBER);
    assert s[Behind(a, 3)].Some?;
  }

  // ---------- The image at every cut ----------

  lemma HealthyNewest(img: Image, v: Record, a: nat, counter: byte)
    requires Healthy(img, v, a, counter)
    ensures FindNewest(img, |v|) == Behind(a, 1) && ReadData(img, |v|) == Some(v)
    ensures |img| == SECTOR_NUMBER && |img[Behind(a, 1)]| > 1 && NextCounter(img, |v|) == Later(counter, 2)
  {
    hide Valid, Sector, FindNewest, Data, Newest, CounterGreat;
    PairIsHealthy({}, img, v, a, Behind(a, 1), counter);
    HealthyMeans(img, v, a, counter);
    NewestOfPair(img, v, FindNewest(img, |v|), a, Behind(a, 1), counter);
    CountersGoOn(counter);
  }

  lemma NextWrite(img: Image, v: Record, a: nat, counter: byte, data: Record)
    requires Healthy(img, v, a, counter) && |data| == |v|
    ensures var p := FindNewest(img, |data|);
      p >= -1 && Target(p, 0) == Behind(a, 2) && Target(p, 1) == Behind(a, 3)
    ensures CopyRecord(img, data, 0)[1] == Later(counter, 2) && CopyRecord(img, data, 1)[1] == Later(counter, 3)
    ensures CopyRecord(img, data, 0)[0] == CopyRecord(img, data, 1)[0] == MAGIC_BYTE
  {
    hide Healthy, FindNewest, NextCounter, CopyRecord, ReadData, Later;
    HealthyNewest(img, v, a, counter);
    CountersGoOn(counter);
    RecordStarts(img, data, 0);
    RecordStarts(img, data, 1);
  }

  lemma RecordStarts(img: Image, data: Record, copies: nat)
    ensures var r := CopyRecord(img, data, copies);
      r[0] == MAGIC_BYTE && r[1] == Wrap(NextCounter(img, |data|) as int + copies)
  {
    hide Sealed;
  }

  lemma CountersGoOn(counter: byte)
    ensures Wrap(Later(counter, 1) as int + 1) == Later(counter, 2)
    ensures Wrap(Later(counter, 2) as int + 0) == Later(counter, 2)
    ensures Wrap(Later(counter, 2) as int + 1) == Later(counter, 3)
  {
    hide Wrap;
    WrapAgain(counter as int + 1, 1);
    WrapAgain(counter as int + 2, 0);
    WrapAgain(counter as int + 2, 1);
  }

  /** The writes of both copies, and of the other magic bytes. */
  lemma WriteIs(img: Image, data: Record, a: nat) returns (rest: seq<nat>)
    requires IsStore(img, |data|)
    requires Behind(a, 2) == Target(FindNewest(img, |data|), 0) && Behind(a, 3) == Target(FindNewest(img, |data|), 1)
    ensures var i, i' := Behind(a, 2), Behind(a, 3);
      && i != i' && (forall e :: e in rest ==> e < SECTOR_NUMBER && e != i && e != i')
      && WritePokes({}, img, data) == RecordPokes(i, CopyRecord(img, data, 0))
           + (RecordPokes(i', CopyRecord(img, data, 1)) + ClearPokes(rest))
  {
    hide FindNewest, CopyRecord, Apply, RecordPokes, ClearPokes, WritePokes, Behind;
    var i, i' := Behind(a, 2), Behind(a, 3);
    WriteWithoutFaults(img, data);
    TargetsDiffer(FindNewest(img, |data|), 0, 1);
    rest := Stale(Apply(img, CopyPokes(img, data)), [i, i'], SECTOR_NUMBER);
    var first, second := RecordPokes(i, CopyRecord(img, data, 0)), RecordPokes(i', CopyRecord(img, data, 1));
    assert (first + second) + ClearPokes(rest) == first + (second + ClearPokes(rest));
  }

  lemma FirstCopyCut(img: Image, i: nat, first: Record, rest: seq<Poke>, k: nat)
    requires i < |img| && |img[i]| == |first| && k <= |first|
    ensures Apply(img, (RecordPokes(i, first) + rest)[..k]) == img[i := Partial(img[i], first, k)]
  {
    hide Apply;
    ApplyPrefix(img, RecordPokes(i, first), rest, k);
    ApplyRecordPokes(img, i, first, k);
  }

  lemma SecondCopyCut(img: Image, i: nat, first: Record, i': nat, second: Record, rest: seq<Poke>, k: nat)
    requires i < |img| && i' < |img| && i != i' && |img[i]| == |first| && |img[i']| == |second|
    requires |first| < k <= |first| + |second|
    ensures Apply(img, (RecordPokes(i, first) + (RecordPokes(i', second) + rest))[..k])
         == img[i := first][i' := Partial(img[i'], second, k - |first|)]
  {
    hide Apply, RecordPokes, Partial;
    var after, more := img[i := first], RecordPokes(i', second) + rest;
    assert |after| == |img| && after[i'] == img[i'];
    ApplyPrefix(img, RecordPokes(i, first), more, k);
    ApplyWholeRecord(img, i, first);
    FirstCopyCut(after, i', second, rest, k - |first|);
  }

  lemma ClearingCut(img: Image, size: nat, a: nat, first: Record, second: Record, rest: seq<nat>, k: nat)
    requires IsStore(img, size) && |first| == |second| == size + 4 && Behind(a, 2) != Behind(a, 3)
    requires forall e :: e in rest ==> e < SECTOR_NUMBER && e != Behind(a, 2) && e != Behind(a, 3)
    requires 2 * (size + 4) < k <= 2 * (size + 4) + |rest|
    ensures var ps := RecordPokes(Behind(a, 2), first) + (RecordPokes(Behind(a, 3), second) + ClearPokes(rest));
      OnlyMagicCleared(img, Apply(img, ps[..k]), size, a, first, second)
  {
    hide Apply, RecordPokes, Behind, ClearPokes;
    var i, i', j := Behind(a, 2), Behind(a, 3), k - 2 * (size + 4);
    ApplyPrefix(img, RecordPokes(i, first), RecordPokes(i', second) + ClearPokes(rest), k);
    ApplyWholeRecord(img, i, first);
    ApplyPrefix(img[i := first], RecordPokes(i', second), ClearPokes(rest), k - (size + 4));
    ApplyWholeRecord(img[i := first], i', second);
    var both := img[i := first][i' := second];
    assert forall e :: 0 <= e < |rest| ==> rest[e] in rest;
    assert forall e :: e in rest[..j] ==> e in rest;
    ApplyClearPokes(both, rest, j);
  }

  // ---------- When every cut is safe ----------

  /** The bytes of sector i with the magic byte set are no complete foreign sector that is preferred. */
  ghost predicate StaysAsleep(r: Record, i: nat, v: Record, counter: byte, newest: nat, data: Record)
    requires |r| == |v| + 4
  {
    Sealed(SectorFormat(|v|), Woken(r)) && Preferred(i, r[1], counter, newest) ==>
      Data(r, |v|) == v || Data(r, |v|) == data
  }

  /** No foreign sector is woken, and no mix of foreign bytes and a new copy passes for a complete sector. */
  ghost predicate NothingForeign(img: Image, v: Record, a: nat, counter: byte, data: Record)
    requires IsStore(img, |v|) && |data| == |v|
  {
    var f, first, second := SectorFormat(|v|), img[Behind(a, 2)], img[Behind(a, 3)];
    && StaysAsleep(first, Behind(a, 2), v, counter, 1, data)
    && MixSafe(f, first, CopyRecord(img, data, 0), v, data)
    && StaysAsleep(second, Behind(a, 3), v, counter, 2, data)
    && MixSafe(f, second, CopyRecord(img, data, 1), v, data)
  }

  /** What a half-written copy is read as, in a sector that was invalid. */
  lemma MixIsPreferred(r: Record, copy: Record, i: nat, counter: byte, newest: nat, k: nat)
    requires |r| == |copy| >= 4 && 2 <= k <= |copy| && newest <= 2 && copy[1] == Later(counter, newest + 1)
    ensures Preferred(i, Partial(r, copy, k)[1], counter, newest)
  {
    hide Later, Preferred;
    NextIsPreferred(i, counter, newest);
  }

  /** The half-written copy of every length is read as one of two values. */
  ghost predicate CopyIsSafe(r: Record, copy: Record, i: nat, counter: byte, newest: nat, otherwise: Record,
                             v: Record, data: Record)
    requires |r| == |copy| == |otherwise| + 4
  {
    forall k | 0 <= k <= |copy| ::
      var read := Reading(Partial(r, copy, k), i, counter, newest, otherwise);
      read == v || read == data
  }

  lemma CopyIsSafeIff(r: Record, copy: Record, i: nat, counter: byte, newest: nat, otherwise: Record,
                      v: Record, data: Record)
    requires |r| == |copy| == |v| + 4 && 1 <= |v| == |data| && newest <= 2 && (otherwise == v || otherwise == data)
    requires copy[0] == MAGIC_BYTE && copy[1] == Later(counter, newest + 1) && Data(copy, |v|) == data
    requires !Valid(SectorFormat(|v|), r)
    ensures CopyIsSafe(r, copy, i, counter, newest, otherwise, v, data)
      <==> StaysAsleep(r, i, v, counter, newest, data) && MixSafe(SectorFormat(|v|), r, copy, v, data)
  {
    hide Sealed, Later, Preferred, Partial, Data;
    MixesAre(r, copy, |v|);
    forall k | 2 <= k <= |copy|
      ensures Preferred(i, Partial(r, copy, k)[1], counter, newest)
    {
      MixIsPreferred(r, copy, i, counter, newest, k);
    }
  }

  lemma MixesAre(r: Record, copy: Record, size: nat)
    requires |r| == |copy| == size + 4 && size >= 1 && copy[0] == MAGIC_BYTE
    ensures Partial(r, copy, 0) == r && Partial(r, copy, 1) == Woken(r)
    ensures Data(Woken(r), size) == Data(r, size) && Woken(r)[0] == MAGIC_BYTE && Woken(r)[1] == r[1]
    ensures forall k :: 2 <= k <= |copy| ==> Partial(r, copy, k)[0] == MAGIC_BYTE
    ensures forall k :: 2 + size <= k <= |copy| ==> Data(Partial(r, copy, k), size) == Data(copy, size)
    ensures forall k :: 0 <= k <= |copy| ==>
      Data(Partial(r, copy, k), size) == Value(SectorFormat(size), Partial(r, copy, k))
  {
  }

  // ---------- What a write is read as at every cut ----------

  lemma FirstCutReads(img: Image, v: Record, a: nat, counter: byte, data: Record, k: nat)
    requires Healthy(img, v, a, counter) && |data| == |v| && IsStore(img, |v|) && k <= |v| + 4
    ensures k <= |WritePokes({}, img, data)|
    ensures ReadData(Apply(img, WritePokes({}, img, data)[..k]), |v|)
         == Some(Reading(Partial(img[Behind(a, 2)], CopyRecord(img, data, 0), k), Behind(a, 2), counter, 1, v))
  {
    hide Valid, Healthy, Later, Reading, ReadData, Apply, WritePokes, FindNewest, Target, RecordPokes, ClearPokes,
      Partial, CopyRecord, Behind;
    NextWrite(img, v, a, counter, data);
    var rest := WriteIs(img, data, a);
    var i, first, second := Behind(a, 2), CopyRecord(img, data, 0), CopyRecord(img, data, 1);
    FirstCopyCut(img, i, first, RecordPokes(Behind(a, 3), second) + ClearPokes(rest), k);
    FirstCopyRead(img, v, a, counter, Partial(img[i], first, k));
  }

  lemma SecondCutReads(img: Image, v: Record, a: nat, counter: byte, data: Record, k: nat)
    requires Healthy(img, v, a, counter) && |data| == |v| && IsStore(img, |v|) && 0 < k <= |v| + 4
    ensures |v| + 4 + k <= |WritePokes({}, img, data)|
    ensures ReadData(Apply(img, WritePokes({}, img, data)[..|v| + 4 + k]), |v|)
         == Some(Reading(Partial(img[Behind(a, 3)], CopyRecord(img, data, 1), k), Behind(a, 3), counter, 2, data))
  {
    hide Valid, Healthy, Later, Reading, ReadData, Apply, WritePokes, FindNewest, Target, RecordPokes, ClearPokes,
      Partial, CopyRecord, Behind, Data;
    NextWrite(img, v, a, counter, data);
    var rest := WriteIs(img, data, a);
    var i', first, second := Behind(a, 3), CopyRecord(img, data, 0), CopyRecord(img, data, 1);
    CopyHolds(img, data, 0);
    SecondCopyCut(img, Behind(a, 2), first, i', second, ClearPokes(rest), |v| + 4 + k);
    SecondCopyRead(img, v, a, counter, first, Partial(img[i'], second, k));
  }

  lemma LateCutReads(img: Image, v: Record, a: nat, counter: byte, data: Record, k: nat)
    requires Healthy(img, v, a, counter) && |data| == |v| && 2 * (|v| + 4) < k <= |WritePokes({}, img, data)|
    ensures ReadData(Apply(img, WritePokes({}, img, data)[..k]), |v|) == Some(data)
  {
    hide Valid, Later, ReadData, Apply, WritePokes, FindNewest, Target, RecordPokes, ClearPokes, CopyRecord, Behind,
      Data, OnlyMagicCleared;
    NextWrite(img, v, a, counter, data);
    var rest := WriteIs(img, data, a);
    var first, second := CopyRecord(img, data, 0), CopyRecord(img, data, 1);
    CopyHolds(img, data, 0);
    CopyHolds(img, data, 1);
    ClearingCut(img, |v|, a, first, second, rest, k);
    ClearedRead(img, v, a, counter, first, second, Apply(img, WritePokes({}, img, data)[..k]));
  }

  lemma CopyHolds(img: Image, data: Record, copies: nat)
    ensures var r := CopyRecord(img, data, copies); Valid(SectorFormat(|data|), r) && Data(r, |data|) == data
  {
    hide Sealed;
  }

  /**
   From a healthy store with any bytes in its invalid sectors: every cut of a write reads the
   old or the new value exactly if the next two sectors hold nothing foreign that the write
   wakes or completes.
   */
  lemma CutsAreSafeIff(img: Image, v: Record, a: nat, counter: byte, data: Record)
    requires Healthy(img, v, a, counter) && |data| == |v|
    ensures IsStore(img, |v|)
    ensures CutReadsAreSafe(img, Some(v), data) <==> NothingForeign(img, v, a, counter, data)
  {
    hide Valid, Healthy, Later, Reading, ReadData, Apply, WritePokes, FindNewest, CopyRecord, Partial, MixSafe,
      StaysAsleep, Behind, Data, CopyIsSafe;
    HealthyMeans(img, v, a, counter);
    NextWrite(img, v, a, counter, data);
    CopyHolds(img, data, 0);
    CopyHolds(img, data, 1);
    NotTheCopies(a);
    CopyIsSafeIff(img[Behind(a, 2)], CopyRecord(img, data, 0), Behind(a, 2), counter, 1, v, v, data);
    CopyIsSafeIff(img[Behind(a, 3)], CopyRecord(img, data, 1), Behind(a, 3), counter, 2, data, v, data);
    BothCopiesAreSafe(img, v, a, counter, data);
  }

  lemma BothCopiesAreSafe(img: Image, v: Record, a: nat, counter: byte, data: Record)
    requires Healthy(img, v, a, counter) && |data| == |v| && IsStore(img, |v|)
    ensures CutReadsAreSafe(img, Some(v), data) <==>
      && CopyIsSafe(img[Behind(a, 2)], CopyRecord(img, data, 0), Behind(a, 2), counter, 1, v, v, data)
      && CopyIsSafe(img[Behind(a, 3)], CopyRecord(img, data, 1), Behind(a, 3), counter, 2, data, v, data)
  {
    hide Healthy, Reading, ReadData, Apply, WritePokes, CopyRecord, Partial, Behind;
    var size, ps := |v| + 4, WritePokes({}, img, data);
    var first, second := CopyRecord(img, data, 0), CopyRecord(img, data, 1);
    if CutReadsAreSafe(img, Some(v), data) {
      forall k | 0 <= k <= size
        ensures k <= |ps| && OldOrNew(ReadData(Apply(img, ps[..k]), |v|), Some(v), data)
        ensures var read := Reading(Partial(img[Behind(a, 2)], first, k), Behind(a, 2), counter, 1, v);
          read == v || read == data
      {
        FirstCutReads(img, v, a, counter, data, k);
      }
      forall k | 0 <= k <= size
        ensures var read := Reading(Partial(img[Behind(a, 3)], second, k), Behind(a, 3), counter, 2, data);
          read == v || read == data
      {
        if k == 0 {
          UntouchedIsNotRead(img, v, a, counter, data, second);
        } else {
          SecondCutReads(img, v, a, counter, data, k);
          assert OldOrNew(ReadData(Apply(img, ps[..size + k]), |v|), Some(v), data);
        }
      }
    }
    if CopyIsSafe(img[Behind(a, 2)], first, Behind(a, 2), counter, 1, v, v, data)
      && CopyIsSafe(img[Behind(a, 3)], second, Behind(a, 3), counter, 2, data, v, data) {
      forall k | 0 <= k <= |ps|
        ensures OldOrNew(ReadData(Apply(img, ps[..k]), |v|), Some(v), data)
      {
        if k <= size {
          FirstCutReads(img, v, a, counter, data, k);
        } else if k <= 2 * size {
          SecondCutReads(img, v, a, counter, data, k - size);
          assert size + (k - size) == k;
        } else {
          LateCutReads(img, v, a, counter, data, k);
        }
      }
    }
  }

  lemma UntouchedIsNotRead(img: Image, v: Record, a: nat, counter: byte, data: Record, second: Record)
    requires Healthy(img, v, a, counter) && |data| == |v| && IsStore(img, |v|) && |second| == |v| + 4
    ensures Reading(Partial(img[Behind(a, 3)], second, 0), Behind(a, 3), counter, 2, data) == data
  {
    hide Valid, Healthy;
    HealthyMeans(img, v, a, counter);
    assert Partial(img[Behind(a, 3)], second, 0) == img[Behind(a, 3)];
  }

  lemma NotTheCopies(a: nat)
    requires a < SECTOR_NUMBER
    ensures Behind(a, 2) != a && Behind(a, 2) != Behind(a, 1) && Behind(a, 3) != a && Behind(a, 3) != Behind(a, 1)
  {
  }

  /**
   Whatever the value stored, the one being written and a third one of the same size: there
   is a healthy store that reads as the third when the write stops at the right byte.
   */
  lemma ForeignSectorIsRead(v: Record, data: Record, foreign: Record, counter: byte) returns (img: Image)
    requires 1 <= |v| == |data| == |foreign| <= 255
    ensures Healthy(img, v, 0, counter) && ReadData(img, |v|) == Some(v)
    ensures exists k: nat | k <= |WritePokes({}, img, data)| ::
      ReadData(Apply(img, WritePokes({}, img, data)[..k]), |v|) == Some(foreign)
  {
    hide Sealed, Apply, WritePokes, ReadData, CopyRecord, Sector, CounterGreat, Wrap, FindNewest, Partial;
    var old', woken := Sector(counter, v), Sector(Later(counter, 3), foreign);
    var old'', cleared := Sector(Later(counter, 1), v), woken[0 := 0];
    img := seq(SECTOR_NUMBER, i => if i == 0 then old' else if i == 1 then old'' else cleared);
    UnmarkedIsInvalid(cleared, |v|);
    HealthyNewest(img, v, 0, counter);
    FirstCutReads(img, v, 0, counter, data, 1);
    RecordStarts(img, data, 0);
    MixesAre(cleared, CopyRecord(img, data, 0), |v|);
    assert Woken(cleared) == woken;
    LaterOrders(counter, 3, 1);
  }
}
