/**
 What write_data() and read_data_and_refresh() do to any EEPROM contents, with any set of
 faulty cells.
 */
module PicEeMemCopies {
  import opened Bytes
  import opened Options
  import opened ByteWrites
  import opened CyclicCounters
  import opened Records
  import opened PicEeMem

  // ---------- Faulty cells ----------

  ghost predicate GoodSector(bad: Faults, i: nat, size: nat) {
    forall o :: 0 <= o < size + 4 ==> (i, o) !in bad
  }

  ghost predicate Touches(ps: seq<Poke>, i: nat) {
    exists k :: 0 <= k < |ps| && ps[k].entry == i
  }

  lemma {:induction false} UntouchedRecord(img: Image, ps: seq<Poke>, i: nat)
    requires i < |img| && !Touches(ps, i)
    ensures Apply(img, ps)[i] == img[i]
  {
    if ps != [] {
      var front := ps[..|ps| - 1];
      assert forall k :: 0 <= k < |front| ==> ps[k] == front[k];
      UntouchedRecord(img, front, i);
      assert ps[|ps| - 1].entry != i;
    }
  }

  lemma {:induction false} WorkingTouches(bad: Faults, ps: seq<Poke>, i: nat)
    requires !Touches(ps, i)
    ensures !Touches(Working(bad, ps), i)
  {
    if ps != [] {
      var front := ps[..|ps| - 1];
      assert forall k :: 0 <= k < |front| ==> ps[k] == front[k];
      WorkingTouches(bad, front, i);
      assert ps[|ps| - 1].entry != i;
    }
  }

  lemma {:induction false} WorkingAll(bad: Faults, ps: seq<Poke>)
    requires forall k :: 0 <= k < |ps| ==> (ps[k].entry, ps[k].offset) !in bad
    ensures Working(bad, ps) == ps
  {
    if ps != [] {
      WorkingAll(bad, ps[..|ps| - 1]);
    }
  }

  lemma TouchesConcat(a: seq<Poke>, b: seq<Poke>, i: nat)
    requires !Touches(a, i) && !Touches(b, i)
    ensures !Touches(a + b, i)
  {
  }

  lemma TouchesPrefix(ps: seq<Poke>, k: nat, i: nat)
    requires !Touches(ps, i) && k <= |ps|
    ensures !Touches(ps[..k], i)
  {
  }

  // ---------- The attempts ----------

  lemma TargetsDiffer(p: int, s: nat, t: nat)
    requires p >= -1 && s < t < SECTOR_NUMBER
    ensures Target(p, s) != Target(p, t)
  {
  }

  lemma TargetAvoidsNewest(p: int, t: nat)
    requires 0 <= p < SECTOR_NUMBER && t < SECTOR_NUMBER - 1
    ensures Target(p, t) != p
  {
  }

  /** Every sector but the newest is the target of one of the first fifteen attempts. */
  lemma TargetsReachOthers(p: int, i: nat) returns (t: nat)
    requires -1 <= p < SECTOR_NUMBER && i < SECTOR_NUMBER && i != p
    ensures t < SECTOR_NUMBER && Target(p, t) == i
    ensures p >= 0 ==> t < SECTOR_NUMBER - 1
  {
    t := (i - p - 1) % SECTOR_NUMBER;
  }

  ghost predicate TargetBefore(p: int, j: nat, i: nat)
    requires p >= -1
  {
    exists t :: 0 <= t < j && i == Target(p, t)
  }

  lemma TargetBeforeNext(p: int, j: nat, i: nat)
    requires p >= -1
    ensures TargetBefore(p, j + 1, Target(p, j))
    ensures TargetBefore(p, j, i) ==> TargetBefore(p, j + 1, i)
  {
    hide Target;
  }

  /** A written copy is the target of an earlier attempt and holds its record. */
  ghost predicate CopiesPlaced(bad: Faults, img: Image, data: Record, j: nat) {
    var c := WriteCopies(bad, img, data, j);
    var p := FindNewest(img, |data|);
    var after := Apply(img, c.pokes);
    && (forall k :: 0 <= k < |c.written| ==>
          c.written[k] < |after| && after[c.written[k]] == CopyRecord(img, data, k))
    && (forall k :: 0 <= k < |c.written| ==> TargetBefore(p, j, c.written[k]))
    && (|c.written| == 2 ==> c.written[0] != c.written[1])
  }

  /** A later attempt goes to another sector and keeps the first copy. */
  lemma FirstCopySurvives(bad: Faults, m: Image, p: int, j: nat, first: nat, r: Record)
    requires p >= -1 && j < SECTOR_NUMBER && first < |m|
    requires TargetBefore(p, j, first)
    ensures Target(p, j) != first
    ensures Apply(m, Working(bad, RecordPokes(Target(p, j), r)))[first] == m[first]
  {
    hide Target, Working, Apply, RecordPokes;
    var t :| 0 <= t < j && first == Target(p, t);
    TargetsDiffer(p, t, j);
    var ps := RecordPokes(Target(p, j), r);
    RecordTouchesOnly(Target(p, j), r, first);
    WorkingTouches(bad, ps, first);
    UntouchedRecord(m, Working(bad, ps), first);
  }

  lemma AttemptPlacesCopy(bad: Faults, img: Image, data: Record, j: nat)
    requires IsStore(img, |data|) && j < SECTOR_NUMBER && CopiesPlaced(bad, img, data, j)
    requires |WriteCopies(bad, img, data, j).written| < 2
    ensures CopiesPlaced(bad, img, data, j + 1)
  {
    hide Sealed, Valid, FindNewest, CopyRecord, Target, TargetBefore, Working, Apply, RecordPokes;
    var c, p := WriteCopies(bad, img, data, j), FindNewest(img, |data|);
    var ps := Working(bad, RecordPokes(Target(p, j), CopyRecord(img, data, |c.written|)));
    ApplyConcat(img, c.pokes, ps);
    TargetBeforeNext(p, j, 0);
    if |c.written| == 1 {
      TargetBeforeNext(p, j, c.written[0]);
      FirstCopySurvives(bad, Apply(img, c.pokes), p, j, c.written[0], CopyRecord(img, data, 1));
    }
  }

  lemma NothingPlaced(bad: Faults, img: Image, data: Record)
    requires IsStore(img, |data|)
    ensures CopiesPlaced(bad, img, data, 0)
  {
  }

  /** Nothing is attempted any more when there are two copies. */
  lemma CopiesStay(bad: Faults, img: Image, data: Record, j: nat)
    requires CopiesPlaced(bad, img, data, j) && |WriteCopies(bad, img, data, j).written| == 2
    ensures CopiesPlaced(bad, img, data, j + 1)
  {
    hide FindNewest, CopyRecord, Target, TargetBefore, WriteCopies, Apply;
    AttemptsStop(bad, img, data, j, j + 1);
    var c, p := WriteCopies(bad, img, data, j), FindNewest(img, |data|);
    TargetBeforeNext(p, j, c.written[0]);
    TargetBeforeNext(p, j, c.written[1]);
  }

  lemma {:induction false} CopiesArePlaced(bad: Faults, img: Image, data: Record, j: nat)
    requires IsStore(img, |data|) && j <= SECTOR_NUMBER
    ensures CopiesPlaced(bad, img, data, j)
  {
    hide CopiesPlaced, WriteCopies;
    if j == 0 {
      NothingPlaced(bad, img, data);
    } else {
      CopiesArePlaced(bad, img, data, j - 1);
      if |WriteCopies(bad, img, data, j - 1).written| < 2 {
        AttemptPlacesCopy(bad, img, data, j - 1);
      } else {
        CopiesStay(bad, img, data, j - 1);
      }
    }
  }

  lemma RecordTouchesOnly(i: nat, r: Record, other: nat)
    requires i != other
    ensures !Touches(RecordPokes(i, r), other)
  {
  }

  /** No attempt before `j` touches a sector that is not one of their targets. */
  lemma {:induction false} AttemptsTouchTargets(bad: Faults, img: Image, data: Record, j: nat, i: nat)
    requires forall t :: 0 <= t < j ==> Target(FindNewest(img, |data|), t) != i
    ensures !Touches(WriteCopies(bad, img, data, j).pokes, i)
  {
    hide Sealed, Valid, FindNewest, CopyRecord, Target, Working, Apply, RecordPokes;
    if j > 0 {
      AttemptsTouchTargets(bad, img, data, j - 1, i);
      var c := WriteCopies(bad, img, data, j - 1);
      if |c.written| < 2 {
        var r := CopyRecord(img, data, |c.written|);
        var target := Target(FindNewest(img, |data|), j - 1);
        RecordTouchesOnly(target, r, i);
        WorkingTouches(bad, RecordPokes(target, r), i);
        TouchesConcat(c.pokes, Working(bad, RecordPokes(target, r)), i);
      }
    }
  }

  /** A sector without faulty cells always verifies: it is taken unless two copies exist already. */
  lemma {:induction false} GoodSectorsAreTaken(bad: Faults, img: Image, data: Record, j: nat, t: nat)
    requires IsStore(img, |data|) && t < j <= SECTOR_NUMBER
    requires GoodSector(bad, Target(FindNewest(img, |data|), t), |data|)
    ensures var c := WriteCopies(bad, img, data, j);
      |c.written| == 2 || Target(FindNewest(img, |data|), t) in c.written
  {
    hide Sealed, Valid, FindNewest, CopyRecord, Target, Working, Apply, RecordPokes;
    var c := WriteCopies(bad, img, data, j - 1);
    if t < j - 1 {
      GoodSectorsAreTaken(bad, img, data, j - 1, t);
    } else if |c.written| < 2 {
      var i, r := Target(FindNewest(img, |data|), t), CopyRecord(img, data, |c.written|);
      GoodSectorVerifies(bad, Apply(img, c.pokes), i, r, |data|);
      ApplyConcat(img, c.pokes, Working(bad, RecordPokes(i, r)));
    }
  }

  lemma GoodSectorVerifies(bad: Faults, img: Image, i: nat, r: Record, size: nat)
    requires i < |img| && |img[i]| == |r| == size + 4 && GoodSector(bad, i, size)
    ensures Working(bad, RecordPokes(i, r)) == RecordPokes(i, r)
    ensures Apply(img, Working(bad, RecordPokes(i, r))) == img[i := r]
  {
    hide Working, Apply;
    WorkingAll(bad, RecordPokes(i, r));
    ApplyWholeRecord(img, i, r);
  }

  lemma {:induction false} AttemptsStop(bad: Faults, img: Image, data: Record, j: nat, k: nat)
    requires j <= k && |WriteCopies(bad, img, data, j).written| == 2
    ensures WriteCopies(bad, img, data, k) == WriteCopies(bad, img, data, j)
  {
    hide FindNewest, CopyRecord, Target, Working, Apply, RecordPokes;
    if k > j {
      AttemptsStop(bad, img, data, j, k - 1);
    }
  }

  /**
   If two sectors other than the newest have no faulty cell, two copies are written and
   verified, in two different sectors, and until then no byte of the newest sector is
   written: it keeps its value after any prefix of the byte writes of the copies.
   */
  lemma TwoGoodSectorsSuffice(bad: Faults, img: Image, data: Record, i: nat, i': nat)
    requires IsStore(img, |data|)
    requires i != i' && i < SECTOR_NUMBER && i' < SECTOR_NUMBER
    requires i != FindNewest(img, |data|) && i' != FindNewest(img, |data|)
    requires GoodSector(bad, i, |data|) && GoodSector(bad, i', |data|)
    ensures var c := WriteCopies(bad, img, data, SECTOR_NUMBER);
      var p := FindNewest(img, |data|);
      && |c.written| == 2 && CopiesPlaced(bad, img, data, SECTOR_NUMBER)
      && (p >= 0 ==> forall k :: 0 <= k <= |c.pokes| ==> Apply(img, c.pokes[..k])[p] == img[p])
  {
    hide Sealed, Valid, FindNewest, CopyRecord, Target, Working, Apply, RecordPokes, WriteCopies;
    var p := FindNewest(img, |data|);
    var t := TargetsReachOthers(p, i);
    var t' := TargetsReachOthers(p, i');
    var j := if p >= 0 then SECTOR_NUMBER - 1 else SECTOR_NUMBER;
    GoodSectorsAreTaken(bad, img, data, j, t);
    GoodSectorsAreTaken(bad, img, data, j, t');
    AttemptsStop(bad, img, data, j, SECTOR_NUMBER);
    CopiesArePlaced(bad, img, data, SECTOR_NUMBER);
    var c := WriteCopies(bad, img, data, SECTOR_NUMBER);
    if p >= 0 {
      forall s | 0 <= s < j
        ensures Target(p, s) != p
      {
        TargetAvoidsNewest(p, s);
      }
      AttemptsTouchTargets(bad, img, data, j, p);
      forall k | 0 <= k <= |c.pokes|
        ensures Apply(img, c.pokes[..k])[p] == img[p]
      {
        TouchesPrefix(c.pokes, k, p);
        UntouchedRecord(img, c.pokes[..k], p);
      }
    }
  }

  // ---------- The finished write ----------

  /** Exactly two sectors are valid: two copies of the data with consecutive counters. */
  ghost predicate Pair(img: Image, data: Record, i: nat, i': nat, counter: byte) {
    && IsStore(img, |data|) && i < SECTOR_NUMBER && i' < SECTOR_NUMBER && i != i'
    && img[i] == Sector(counter, data) && img[i'] == Sector(Wrap(counter as int + 1), data)
    && forall e :: 0 <= e < SECTOR_NUMBER && e != i && e != i' ==> !Valid(SectorFormat(|data|), img[e])
  }

  lemma {:induction false} CountOfPair(img: Image, data: Record, i: nat, i': nat, counter: byte, n: nat)
    requires Pair(img, data, i, i', counter) && n <= SECTOR_NUMBER
    ensures CountValid(img, |data|, n) == (if i < n then 1 else 0) + if i' < n then 1 else 0
  {
    hide Valid, Sector;
    if n > 0 {
      CountOfPair(img, data, i, i', counter, n - 1);
    }
  }

  lemma {:induction false} SecondCopyOfPair(img: Image, data: Record, i: nat, i': nat, counter: byte, n: nat)
    requires Pair(img, data, i, i', counter) && n <= SECTOR_NUMBER
    ensures SecondCopyFound(img, |data|, i', n) <==> i < n
  {
    hide Valid, Sector, Wrap, Data;
    if n > 0 {
      SecondCopyOfPair(img, data, i, i', counter, n - 1);
      WrapBack(counter);
    }
  }

  lemma WrapBack(counter: byte)
    ensures Wrap(Wrap(counter as int + 1) as int - 1) == counter
  {
  }

  /** Sectors that hold the data with counter c or c + 1 are told apart by the scan. */
  lemma NewestOfPair(img: Image, data: Record, p: int, i: nat, i': nat, counter: byte)
    requires IsStore(img, |data|) && i < SECTOR_NUMBER && i' < SECTOR_NUMBER && i != i'
    requires forall e :: 0 <= e < SECTOR_NUMBER && e != i && e != i' ==> !Valid(SectorFormat(|data|), img[e])
    requires img[i] == Sector(counter, data) || !Valid(SectorFormat(|data|), img[i])
    requires img[i'] == Sector(Wrap(counter as int + 1), data) || !Valid(SectorFormat(|data|), img[i'])
    requires p == FindNewest(img, |data|)
    ensures Valid(SectorFormat(|data|), img[i']) ==> p == i'
    ensures !Valid(SectorFormat(|data|), img[i']) && Valid(SectorFormat(|data|), img[i]) ==> p == i
  {
    hide Valid, Sector, Wrap, CounterGreat, Counters;
    var numbers := seq(SECTOR_NUMBER, e => if e == i' then counter as int + 1 else counter as int);
    WrapOfByte(counter);
    assert Numbered(Counters(img, |data|), numbers, 112);
    CounterOrders();
    NewestIsLogicallyNewest(CounterGreat, 112, Counters(img, |data|), numbers, SECTOR_NUMBER);
  }

  /** A pair is read back and needs no refresh. */
  lemma PairIsHealthy(bad: Faults, img: Image, data: Record, i: nat, i': nat, counter: byte)
    requires Pair(img, data, i, i', counter)
    ensures ReadData(img, |data|) == Some(data)
    ensures RefreshPokes(bad, img, |data|) == []
  {
    hide Valid, Sector, Wrap, FindNewest;
    NewestOfPair(img, data, FindNewest(img, |data|), i, i', counter);
    CountOfPair(img, data, i, i', counter, SECTOR_NUMBER);
    SecondCopyOfPair(img, data, i, i', counter, SECTOR_NUMBER);
  }

  /** Invalidating the stale sectors keeps the written ones and leaves no other magic byte. */
  lemma StaleAreInvalidated(bad: Faults, img: Image, written: seq<nat>, size: nat)
    requires IsStore(img, size)
    requires forall i :: 0 <= i < SECTOR_NUMBER ==> (i, 0) !in bad
    ensures var r := Apply(img, InvalidatePokes(bad, img, written));
      && IsStore(r, size)
      && (forall e :: 0 <= e < SECTOR_NUMBER && e in written ==> r[e] == img[e])
      && (forall e :: 0 <= e < SECTOR_NUMBER && e !in written ==> r[e][0] != MAGIC_BYTE)
  {
    hide Apply, Working, ClearPokes;
    var stale := Stale(img, written, SECTOR_NUMBER);
    ClearPokesWork(bad, stale);
    ApplyClearPokes(img, stale, |stale|);
    assert ClearPokes(stale)[..|stale|] == ClearPokes(stale);
    assert stale[..|stale|] == stale;
  }

  lemma ClearPokesWork(bad: Faults, stale: seq<nat>)
    requires forall i :: 0 <= i < SECTOR_NUMBER ==> (i, 0) !in bad
    requires forall k :: 0 <= k < |stale| ==> stale[k] < SECTOR_NUMBER
    ensures Working(bad, ClearPokes(stale)) == ClearPokes(stale)
  {
    hide Working;
    WorkingAll(bad, ClearPokes(stale));
  }

  /** When both copies verify and the magic cells work, exactly the two copies stay valid. */
  lemma WriteLeavesPair(bad: Faults, img: Image, data: Record)
    requires IsStore(img, |data|)
    requires forall i :: 0 <= i < SECTOR_NUMBER ==> (i, 0) !in bad
    requires |WriteCopies(bad, img, data, SECTOR_NUMBER).written| == 2
    ensures var w := WriteCopies(bad, img, data, SECTOR_NUMBER).written;
      Pair(Apply(img, WritePokes(bad, img, data)), data, w[0], w[1], NextCounter(img, |data|))
  {
    hide Valid, Sealed, Wrap, FindNewest, Apply, WriteCopies, Working, CopyRecord, NextCounter, InvalidatePokes, Sector;
    var c := WriteCopies(bad, img, data, SECTOR_NUMBER);
    CopiesArePlaced(bad, img, data, SECTOR_NUMBER);
    var after := Apply(img, c.pokes);
    ApplyConcat(img, c.pokes, InvalidatePokes(bad, after, c.written));
    StaleAreInvalidated(bad, after, c.written, |data|);
    var r := Apply(img, WritePokes(bad, img, data));
    forall e | 0 <= e < SECTOR_NUMBER && e != c.written[0] && e != c.written[1]
      ensures !Valid(SectorFormat(|data|), r[e])
    {
      UnmarkedIsInvalid(r[e], |data|);
    }
    CopyRecords(img, data);
  }

  lemma UnmarkedIsInvalid(r: Record, size: nat)
    requires |r| > 0 && r[0] != MAGIC_BYTE
    ensures !Valid(SectorFormat(size), r)
  {
  }

  lemma CopyRecords(img: Image, data: Record)
    ensures CopyRecord(img, data, 0) == Sector(NextCounter(img, |data|), data)
    ensures CopyRecord(img, data, 1) == Sector(Wrap(NextCounter(img, |data|) as int + 1), data)
  {
    WrapOfByte(NextCounter(img, |data|));
  }

  /**
   Writing over any EEPROM contents, with working magic cells and two other sectors free of
   faulty cells: the data is read back, exactly two sectors are valid, with consecutive
   counters, and the next start has nothing to refresh.
   */
  lemma WriteThenRead(bad: Faults, img: Image, data: Record, i: nat, i': nat)
    requires IsStore(img, |data|)
    requires forall e :: 0 <= e < SECTOR_NUMBER ==> (e, 0) !in bad
    requires i != i' && i < SECTOR_NUMBER && i' < SECTOR_NUMBER
    requires i != FindNewest(img, |data|) && i' != FindNewest(img, |data|)
    requires GoodSector(bad, i, |data|) && GoodSector(bad, i', |data|)
    ensures var r := Apply(img, WritePokes(bad, img, data));
      && (exists a, b, c :: Pair(r, data, a, b, c))
      && ReadData(r, |data|) == Some(data)
      && RefreshPokes(bad, r, |data|) == []
  {
    hide WriteCopies, WritePokes, Apply, Pair;
    TwoGoodSectorsSuffice(bad, img, data, i, i');
    WriteLeavesPair(bad, img, data);
    var w := WriteCopies(bad, img, data, SECTOR_NUMBER).written;
    PairIsHealthy(bad, Apply(img, WritePokes(bad, img, data)), data, w[0], w[1], NextCounter(img, |data|));
  }

  /**
   Losing either copy of a pair, to any contents that are not a valid sector, leaves the
   value readable, and a refresh restores two copies of it.
   */
  lemma LostCopyIsRestored(img: Image, data: Record, i: nat, i': nat, counter: byte, lost: nat, damaged: Record)
    requires Pair(img, data, i, i', counter) && (lost == i || lost == i')
    requires |damaged| == |data| + 4 && !Valid(SectorFormat(|data|), damaged)
    ensures var hurt := img[lost := damaged];
      && ReadData(hurt, |data|) == Some(data)
      && (exists a, b, c :: Pair(Apply(hurt, RefreshPokes({}, hurt, |data|)), data, a, b, c))
  {
    hide Valid, Sector, Wrap, FindNewest, WritePokes, Apply;
    var hurt := img[lost := damaged];
    var p := FindNewest(hurt, |data|);
    NewestOfPair(hurt, data, p, i, i', counter);
    CountAfterLoss(img, data, i, i', counter, lost, damaged, SECTOR_NUMBER);
    var a, b := (p + 1) % SECTOR_NUMBER, (p + 2) % SECTOR_NUMBER;
    assert RefreshPokes({}, hurt, |data|) == WritePokes({}, hurt, data);
    WriteThenRead({}, hurt, data, a, b);
  }

  lemma {:induction false} CountAfterLoss(
      img: Image, data: Record, i: nat, i': nat, counter: byte, lost: nat, damaged: Record, n: nat)
    requires Pair(img, data, i, i', counter) && (lost == i || lost == i') && n <= SECTOR_NUMBER
    requires |damaged| == |data| + 4 && !Valid(SectorFormat(|data|), damaged)
    ensures CountValid(img[lost := damaged], |data|, n) <= 1
    ensures CountValid(img[lost := damaged], |data|, n) == if (if lost == i then i' else i) < n then 1 else 0
  {
    hide Valid, Sector;
    if n > 0 {
      CountAfterLoss(img, data, i, i', counter, lost, damaged, n - 1);
    }
  }
}
