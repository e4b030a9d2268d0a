/**
 What a complete write_data() leaves in every sector when cells are faulty, and exactly when
 the old or the new value can still be read. With fewer than two sectors that take the data
 the sixteenth attempt writes over the newest sector itself.
 */
module PicEeMemFaults {
  import opened Bytes
  import opened Options
  import opened ByteWrites
  import opened CyclicCounters
  import opened Records
  import opened PicEeMem
  import opened PicEeMemCopies
  import Crc16

  // ---------- One sector ----------

  /** What sector i holds after `r` was written over it: a faulty cell keeps its byte. */
  function Mixed(bad: Faults, old': Record, i: nat, r: Record): (m: Record)
    requires |old'| == |r|
    ensures |m| == |r|
  {
    seq(|r|, o requires 0 <= o < |r| => if (i, o) in bad then old'[o] else r[o])
  }

  function MixedUpTo(bad: Faults, old': Record, i: nat, r: Record, k: nat): (m: Record)
    requires |old'| == |r|
    ensures |m| == |r|
  {
    seq(|r|, o requires 0 <= o < |r| => if o < k && (i, o) !in bad then r[o] else old'[o])
  }

  lemma {:induction false} PrefixMixed(bad: Faults, img: Image, i: nat, r: Record, k: nat)
    requires i < |img| && |img[i]| == |r| && k <= |r|
    ensures Apply(img, Working(bad, RecordPokes(i, r)[..k])) == img[i := MixedUpTo(bad, img[i], i, r, k)]
  {
    hide Apply, Working;
    var ps := RecordPokes(i, r);
    if k == 0 {
      NothingWorks(bad, img);
      assert ps[..0] == [];
      assert MixedUpTo(bad, img[i], i, r, 0) == img[i];
    } else {
      PrefixMixed(bad, img, i, r, k - 1);
      assert ps[..k] == ps[..k - 1] + [Poke(i, k - 1, r[k - 1])];
      WorkingNext(bad, ps[..k - 1], Poke(i, k - 1, r[k - 1]));
      var before, after := MixedUpTo(bad, img[i], i, r, k - 1), MixedUpTo(bad, img[i], i, r, k);
      if (i, k - 1) in bad {
        assert before == after;
      } else {
        assert before[k - 1 := r[k - 1]] == after;
        LastApplied(img, Working(bad, ps[..k - 1]), Poke(i, k - 1, r[k - 1]));
      }
    }
  }

  lemma NothingWorks(bad: Faults, img: Image)
    ensures Apply(img, Working(bad, [])) == img
  {
  }

  lemma LastApplied(img: Image, ps: seq<Poke>, p: Poke)
    ensures Apply(img, ps + [p]) == ApplyOne(Apply(img, ps), p)
  {
    assert (ps + [p])[..|ps|] == ps;
  }

  lemma SectorMixed(bad: Faults, img: Image, i: nat, r: Record)
    requires i < |img| && |img[i]| == |r|
    ensures Apply(img, Working(bad, RecordPokes(i, r))) == img[i := Mixed(bad, img[i], i, r)]
  {
    PrefixMixed(bad, img, i, r, |r|);
    assert RecordPokes(i, r)[..|r|] == RecordPokes(i, r);
    assert MixedUpTo(bad, img[i], i, r, |r|) == Mixed(bad, img[i], i, r);
  }

  // ---------- All sectors ----------

  /** The sectors that take a copy in the first `j` attempts, told from the contents before the call. */
  function Taken(bad: Faults, img: Image, data: Record, j: nat): (w: seq<nat>)
    requires IsStore(img, |data|)
    ensures |w| <= 2
  {
    if j == 0 then []
    else
      var w := Taken(bad, img, data, j - 1);
      var i := Target(FindNewest(img, |data|), j - 1);
      if |w| < 2 && Takes(bad, img, data, i, |w|) then w + [i] else w
  }

  /** Every faulty cell of the sector already holds the byte of the record of copy number `copies`. */
  predicate Takes(bad: Faults, img: Image, data: Record, i: nat, copies: nat)
    requires IsStore(img, |data|) && i < SECTOR_NUMBER
  {
    Mixed(bad, img[i], i, CopyRecord(img, data, copies)) == CopyRecord(img, data, copies)
  }

  /** The number of the attempt whose target is sector i. */
  function AttemptOf(p: int, i: nat): (t: nat)
    requires -1 <= p < SECTOR_NUMBER && i < SECTOR_NUMBER
    ensures t < SECTOR_NUMBER && Target(p, t) == i
  {
    (i - p - 1) % SECTOR_NUMBER
  }

  /** What sector i holds when the attempts are over. */
  function Held(bad: Faults, img: Image, data: Record, i: nat): (r: Record)
    requires IsStore(img, |data|) && i < SECTOR_NUMBER
    ensures |r| == |data| + 4
  {
    var copies := |Taken(bad, img, data, AttemptOf(FindNewest(img, |data|), i))|;
    if copies == 2 then img[i] else Mixed(bad, img[i], i, CopyRecord(img, data, copies))
  }

  /** The attempts before number `j` leave what Held says in their targets, and touch nothing else. */
  ghost predicate Attempted(bad: Faults, img: Image, data: Record, j: nat)
    requires IsStore(img, |data|)
  {
    var c, p := WriteCopies(bad, img, data, j), FindNewest(img, |data|);
    && c.written == Taken(bad, img, data, j)
    && forall i :: 0 <= i < SECTOR_NUMBER ==>
         Apply(img, c.pokes)[i] == if AttemptOf(p, i) < j then Held(bad, img, data, i) else img[i]
  }

  lemma {:induction false} AttemptsLeave(bad: Faults, img: Image, data: Record, j: nat)
    requires IsStore(img, |data|) && j <= SECTOR_NUMBER
    ensures Attempted(bad, img, data, j)
  {
    hide Attempted;
    if j == 0 {
      NothingAttempted(bad, img, data);
    } else {
      AttemptsLeave(bad, img, data, j - 1);
      AttemptLeaves(bad, img, data, j - 1);
    }
  }

  lemma NothingAttempted(bad: Faults, img: Image, data: Record)
    requires IsStore(img, |data|)
    ensures Attempted(bad, img, data, 0)
  {
    hide Held, FindNewest;
  }

  /** One attempt. */
  lemma AttemptLeaves(bad: Faults, img: Image, data: Record, j: nat)
    requires IsStore(img, |data|) && j < SECTOR_NUMBER
    requires Attempted(bad, img, data, j)
    ensures Attempted(bad, img, data, j + 1)
  {
    hide Sealed, Valid, FindNewest, CopyRecord, Target, Working, Apply, RecordPokes, Mixed, AttemptOf;
    var c, p := WriteCopies(bad, img, data, j), FindNewest(img, |data|);
    var i := Target(p, j);
    forall e | 0 <= e < SECTOR_NUMBER
      ensures AttemptOf(p, e) == j <==> e == i
    {
      AttemptIs(p, e, j);
    }
    if |c.written| < 2 {
      var r := CopyRecord(img, data, |c.written|);
      ApplyConcat(img, c.pokes, Working(bad, RecordPokes(i, r)));
      SectorMixed(bad, Apply(img, c.pokes), i, r);
    }
  }

  lemma AttemptIs(p: int, e: nat, j: nat)
    requires -1 <= p < SECTOR_NUMBER && e < SECTOR_NUMBER && j < SECTOR_NUMBER
    ensures AttemptOf(p, e) == j <==> e == Target(p, j)
  {
    hide AttemptOf;
    if AttemptOf(p, e) != j {
      if AttemptOf(p, e) < j {
        TargetsDiffer(p, AttemptOf(p, e), j);
      } else {
        TargetsDiffer(p, j, AttemptOf(p, e));
      }
    }
  }

  /** What sector i holds after the whole call. */
  function Left(bad: Faults, img: Image, data: Record, i: nat): (r: Record)
    requires IsStore(img, |data|) && i < SECTOR_NUMBER
    ensures |r| == |data| + 4
  {
    var written, r := Taken(bad, img, data, SECTOR_NUMBER), Held(bad, img, data, i);
    if |written| == 2 && i !in written && r[0] == MAGIC_BYTE && (i, 0) !in bad then r[0 := 0] else r
  }

  lemma {:induction false} ClearWorking(bad: Faults, img: Image, es: seq<nat>)
    requires forall k :: 0 <= k < |es| ==> es[k] < |img|
    requires forall e :: 0 <= e < |img| ==> |img[e]| > 0
    ensures forall e :: 0 <= e < |img| ==>
      Apply(img, Working(bad, ClearPokes(es)))[e] == if e in es && (e, 0) !in bad then img[e][0 := 0] else img[e]
  {
    hide Apply, Working;
    if es == [] {
      NothingCleared(bad, img);
    } else {
      var front, last := es[..|es| - 1], es[|es| - 1];
      ClearWorking(bad, img, front);
      assert ClearPokes(es) == ClearPokes(front) + [Poke(last, 0, 0)];
      assert es == front + [last];
      WorkingNext(bad, ClearPokes(front), Poke(last, 0, 0));
      if (last, 0) !in bad {
        LastApplied(img, Working(bad, ClearPokes(front)), Poke(last, 0, 0));
      }
    }
  }

  lemma NothingCleared(bad: Faults, img: Image)
    ensures Apply(img, Working(bad, ClearPokes([]))) == img
  {
  }

  /**
   After a complete write_data() with any faulty cells over any contents, every sector holds
   exactly what Left says in terms of the contents before.
   */
  lemma WriteLeaves(bad: Faults, img: Image, data: Record, i: nat)
    requires IsStore(img, |data|) && i < SECTOR_NUMBER
    ensures Apply(img, WritePokes(bad, img, data))[i] == Left(bad, img, data, i)
  {
    hide Sealed, Valid, FindNewest, WriteCopies, Taken, Held, Working, Apply, ClearPokes;
    AttemptsLeave(bad, img, data, SECTOR_NUMBER);
    var c := WriteCopies(bad, img, data, SECTOR_NUMBER);
    if |c.written| == 2 {
      var after := Apply(img, c.pokes);
      var stale := Stale(after, c.written, SECTOR_NUMBER);
      ApplyConcat(img, c.pokes, InvalidatePokes(bad, after, c.written));
      ClearWorking(bad, after, stale);
    }
  }

  // ---------- Fewer than two copies ----------

  ghost predicate OnlyMarks(ps: seq<Poke>) {
    forall k :: 0 <= k < |ps| && ps[k].offset == 0 ==> ps[k].value == MAGIC_BYTE
  }

  lemma {:induction false} WorkingMarks(bad: Faults, ps: seq<Poke>)
    requires OnlyMarks(ps)
    ensures OnlyMarks(Working(bad, ps))
  {
    if ps != [] {
      WorkingMarks(bad, ps[..|ps| - 1]);
    }
  }

  lemma {:induction false} CopiesMark(bad: Faults, img: Image, data: Record, j: nat)
    ensures OnlyMarks(WriteCopies(bad, img, data, j).pokes)
  {
    hide FindNewest, Target, Working, Apply, CopyRecord;
    if j > 0 {
      CopiesMark(bad, img, data, j - 1);
      var c := WriteCopies(bad, img, data, j - 1);
      if |c.written| < 2 {
        var r := CopyRecord(img, data, |c.written|);
        RecordIsMarked(img, data, |c.written|);
        WorkingMarks(bad, RecordPokes(Target(FindNewest(img, |data|), j - 1), r));
      }
    }
  }

  lemma RecordIsMarked(img: Image, data: Record, copies: nat)
    ensures CopyRecord(img, data, copies)[0] == MAGIC_BYTE && Valid(SectorFormat(|data|), CopyRecord(img, data, copies))
    ensures CopyRecord(img, data, copies)[1] == Wrap(NextCounter(img, |data|) as int + copies)
    ensures Data(CopyRecord(img, data, copies), |data|) == data
  {
    hide Sealed, NextCounter, Wrap;
  }

  lemma {:induction false} MarksStay(img: Image, ps: seq<Poke>, i: nat)
    requires OnlyMarks(ps) && i < |img| && |img[i]| > 0 && img[i][0] == MAGIC_BYTE
    ensures Apply(img, ps)[i][0] == MAGIC_BYTE
  {
    if ps != [] {
      MarksStay(img, ps[..|ps| - 1], i);
    }
  }

  /** If fewer than two sectors take a copy, no magic byte is ever cleared. */
  lemma NothingIsInvalidated(bad: Faults, img: Image, data: Record, k: nat, i: nat)
    requires IsStore(img, |data|) && |Taken(bad, img, data, SECTOR_NUMBER)| < 2
    requires k <= |WritePokes(bad, img, data)| && i < SECTOR_NUMBER && img[i][0] == MAGIC_BYTE
    ensures Apply(img, WritePokes(bad, img, data)[..k])[i][0] == MAGIC_BYTE
  {
    hide WriteCopies, Apply, Taken;
    AttemptsLeave(bad, img, data, SECTOR_NUMBER);
    CopiesMark(bad, img, data, SECTOR_NUMBER);
    MarksStay(img, WritePokes(bad, img, data)[..k], i);
  }

  // ---------- What can be read afterwards ----------

  /** No mix of stuck bytes and a record to be written passes for a complete sector of anything else. */
  ghost predicate NoForgery(bad: Faults, img: Image, data: Record)
    requires IsStore(img, |data|)
  {
    forall i, copies :: 0 <= i < SECTOR_NUMBER && 0 <= copies <= 1 ==> !Forged(bad, img, data, i, copies)
  }

  ghost predicate Forged(bad: Faults, img: Image, data: Record, i: nat, copies: nat)
    requires IsStore(img, |data|) && i < SECTOR_NUMBER
  {
    var r := CopyRecord(img, data, copies);
    var m := Mixed(bad, img[i], i, r);
    Valid(SectorFormat(|data|), m) && m != r && m != img[i]
  }

  /** No cell of the sector changes: every cell whose byte differs from the first record is faulty. */
  predicate Keeps(bad: Faults, img: Image, data: Record, i: nat)
    requires IsStore(img, |data|) && i < SECTOR_NUMBER
  {
    Mixed(bad, img[i], i, CopyRecord(img, data, 0)) == img[i]
  }

  predicate SomeTakes(bad: Faults, img: Image, data: Record)
    requires IsStore(img, |data|)
  {
    exists i: nat | i < SECTOR_NUMBER :: Takes(bad, img, data, i, 0)
  }

  lemma {:induction false} TakenByAttempts(bad: Faults, img: Image, data: Record, j: nat)
    requires IsStore(img, |data|) && j <= SECTOR_NUMBER
    ensures var w, p := Taken(bad, img, data, j), FindNewest(img, |data|);
      && (w == [] <==> forall t :: 0 <= t < j ==> !Takes(bad, img, data, Target(p, t), 0))
      && (w != [] ==>
            && w[0] < SECTOR_NUMBER && Takes(bad, img, data, w[0], 0) && AttemptOf(p, w[0]) < j
            && Taken(bad, img, data, AttemptOf(p, w[0])) == [])
  {
    hide FindNewest, Takes, Target, AttemptOf;
    if j > 0 {
      TakenByAttempts(bad, img, data, j - 1);
      var p := FindNewest(img, |data|);
      AttemptIs(p, Target(p, j - 1), j - 1);
    }
  }

  /** Some sector takes the first copy exactly if one does among all sixteen. */
  lemma TakenIff(bad: Faults, img: Image, data: Record)
    requires IsStore(img, |data|)
    ensures Taken(bad, img, data, SECTOR_NUMBER) != [] <==> SomeTakes(bad, img, data)
    ensures var w := Taken(bad, img, data, SECTOR_NUMBER);
      w != [] ==> w[0] < SECTOR_NUMBER && Held(bad, img, data, w[0]) == CopyRecord(img, data, 0)
  {
    hide FindNewest, Target, AttemptOf, Taken, Mixed, CopyRecord;
    TakenByAttempts(bad, img, data, SECTOR_NUMBER);
    var p := FindNewest(img, |data|);
    if SomeTakes(bad, img, data) {
      var i: nat :| i < SECTOR_NUMBER && Takes(bad, img, data, i, 0);
      assert Takes(bad, img, data, Target(p, AttemptOf(p, i)), 0);
    }
  }

  lemma {:induction false} NothingTaken(bad: Faults, img: Image, data: Record, j: nat)
    requires IsStore(img, |data|) && j <= SECTOR_NUMBER && !SomeTakes(bad, img, data)
    ensures Taken(bad, img, data, j) == []
  {
    hide FindNewest, Takes, Target;
    if j > 0 {
      NothingTaken(bad, img, data, j - 1);
    }
  }

  /** The contents before have write numbers, close together, and the newest is number n; -1 if there is none. */
  ghost predicate Ranked(img: Image, size: nat, numbers: seq<int>, n: int) {
    && Numbered(Counters(img, size), numbers, 100)
    && n == if FindNewest(img, size) >= 0 then NumberAt(numbers, FindNewest(img, size)) else -1
  }

  function NumberAt(numbers: seq<int>, i: nat): int {
    if i < |numbers| then numbers[i] else 0
  }

  lemma NewestIsHighest(img: Image, size: nat, numbers: seq<int>, n: int, i: nat)
    requires IsStore(img, size) && Ranked(img, size, numbers, n)
    requires i < SECTOR_NUMBER && Valid(SectorFormat(size), img[i])
    ensures FindNewest(img, size) >= 0 && n - 100 <= numbers[i] <= n && img[i][1] == Wrap(numbers[i])
  {
    hide Valid, Wrap, CounterGreat, Newest;
    CounterOrders();
    Wider(Counters(img, size), numbers, 100, 112);
    NewestIsLogicallyNewest(CounterGreat, 112, Counters(img, size), numbers, SECTOR_NUMBER);
    NewestDefined(img, size);
  }

  lemma NewestDefined(img: Image, size: nat)
    ensures FindNewest(img, size) == Newest(CounterGreat, Counters(img, size), |img|)
  {
  }

  lemma NextCounterIs(img: Image, size: nat, numbers: seq<int>, n: int)
    requires IsStore(img, size) && Ranked(img, size, numbers, n)
    ensures NextCounter(img, size) == Wrap(n + 1)
    ensures Wrap(NextCounter(img, size) as int + 0) == Wrap(n + 1)
    ensures Wrap(NextCounter(img, size) as int + 1) == Wrap(n + 2)
  {
    hide Valid, CounterGreat;
    var p := FindNewest(img, size);
    if p >= 0 {
      NewestIsHighest(img, size, numbers, n, p);
    }
    WrapAgain(n, 1);
    WrapAgain(n + 1, 0);
    WrapAgain(n + 1, 1);
    WrapSmall(0);
  }

  /** A sector that is valid afterwards holds one of the two records or what it held before. */
  lemma ValidIsHonest(bad: Faults, img: Image, data: Record, i: nat)
    requires IsStore(img, |data|) && i < SECTOR_NUMBER && NoForgery(bad, img, data)
    requires Valid(SectorFormat(|data|), Left(bad, img, data, i))
    ensures var r := Left(bad, img, data, i);
      r == CopyRecord(img, data, 0) || r == CopyRecord(img, data, 1) || r == img[i]
  {
    hide Sealed, FindNewest, CopyRecord, Taken, Mixed, AttemptOf;
    var r, held := Left(bad, img, data, i), Held(bad, img, data, i);
    assert r == held;
    var copies := |Taken(bad, img, data, AttemptOf(FindNewest(img, |data|), i))|;
    if copies < 2 {
      assert !Forged(bad, img, data, i, copies);
    }
  }

  /** The numbers of the sectors afterwards. */
  function NewNumbers(img: Image, after: Image, data: Record, numbers: seq<int>, n: int): (m: seq<int>)
    requires |after| == |numbers|
    ensures |m| == |numbers|
  {
    seq(|numbers|, i requires 0 <= i < |numbers| =>
      if after[i] == CopyRecord(img, data, 1) then n + 2
      else if after[i] == CopyRecord(img, data, 0) then n + 1 else numbers[i])
  }

  lemma NewNumber(bad: Faults, img: Image, data: Record, numbers: seq<int>, n: int, after: Image, i: nat)
    requires IsStore(img, |data|) && Ranked(img, |data|, numbers, n) && NoForgery(bad, img, data)
    requires |after| == |numbers| == SECTOR_NUMBER && i < SECTOR_NUMBER && after[i] == Left(bad, img, data, i)
    requires Valid(SectorFormat(|data|), after[i])
    ensures var m := NewNumbers(img, after, data, numbers, n)[i];
      && after[i][1] == Wrap(m) && n - 100 <= m <= n + 2
      && (m > n ==> Data(after[i], |data|) == data)
  {
    hide Valid, Wrap, CopyRecord, Left, NextCounter, FindNewest, Data;
    ValidIsHonest(bad, img, data, i);
    NextCounterIs(img, |data|, numbers, n);
    RecordIsMarked(img, data, 0);
    RecordIsMarked(img, data, 1);
    if after[i] != CopyRecord(img, data, 0) && after[i] != CopyRecord(img, data, 1) {
      NewestIsHighest(img, |data|, numbers, n, i);
    }
  }

  /** As soon as one sector takes the data, the data is read. */
  lemma TakenIsRead(bad: Faults, img: Image, data: Record, numbers: seq<int>, n: int)
    requires IsStore(img, |data|) && Ranked(img, |data|, numbers, n) && NoForgery(bad, img, data)
    requires SomeTakes(bad, img, data)
    ensures ReadData(Apply(img, WritePokes(bad, img, data)), |data|) == Some(data)
  {
    hide Valid, Wrap, CopyRecord, Left, Held, NextCounter, FindNewest, Data, Taken, WritePokes, Apply, CounterGreat;
    hide Newest,
      Ranked, NoForgery, SomeTakes, NewNumbers;
    var size, after := |data|, Apply(img, WritePokes(bad, img, data));
    RankedLength(img, size, numbers, n);
    var m := NewNumbers(img, after, data, numbers, n);
    forall i | 0 <= i < SECTOR_NUMBER
      ensures Valid(SectorFormat(size), after[i]) ==>
        && after[i][1] == Wrap(m[i]) && n - 100 <= m[i] <= n + 2 && (m[i] > n ==> Data(after[i], size) == data)
    {
      WriteLeaves(bad, img, data, i);
      if Valid(SectorFormat(size), after[i]) {
        NewNumber(bad, img, data, numbers, n, after, i);
      }
    }
    FirstTakenIsLeft(bad, img, data, after, numbers, n);
    CounterOrders();
    NewestIsLogicallyNewest(CounterGreat, 112, Counters(after, size), m, SECTOR_NUMBER);
    NewestDefined(after, size);
  }

  lemma RankedLength(img: Image, size: nat, numbers: seq<int>, n: int)
    requires IsStore(img, size) && Ranked(img, size, numbers, n)
    ensures |numbers| == SECTOR_NUMBER
  {
  }

  /** The sector that took the first copy is valid and has a new number. */
  lemma FirstTakenIsLeft(bad: Faults, img: Image, data: Record, after: Image, numbers: seq<int>, n: int)
    requires IsStore(img, |data|) && SomeTakes(bad, img, data)
    requires after == Apply(img, WritePokes(bad, img, data)) && |numbers| == SECTOR_NUMBER == |after|
    ensures exists i ::
      0 <= i < SECTOR_NUMBER && Valid(SectorFormat(|data|), after[i]) && NewNumbers(img, after, data, numbers, n)[i] > n
  {
    hide Valid, CopyRecord, Held, FindNewest, Taken, WritePokes, Apply, SomeTakes;
    TakenIff(bad, img, data);
    var w := Taken(bad, img, data, SECTOR_NUMBER);
    WriteLeaves(bad, img, data, w[0]);
    RecordIsMarked(img, data, 0);
    assert after[w[0]] == CopyRecord(img, data, 0);
  }

  /** If no sector takes the data, exactly the valid sectors that nothing changes stay valid. */
  lemma OnlyKeptAreValid(bad: Faults, img: Image, data: Record, i: nat)
    requires IsStore(img, |data|) && i < SECTOR_NUMBER && NoForgery(bad, img, data) && !SomeTakes(bad, img, data)
    ensures var r := Left(bad, img, data, i);
      && (Keeps(bad, img, data, i) ==> r == img[i])
      && (Valid(SectorFormat(|data|), r) ==> Keeps(bad, img, data, i))
  {
    hide Sealed, FindNewest, CopyRecord, Taken, Mixed, AttemptOf, SomeTakes;
    NothingTaken(bad, img, data, SECTOR_NUMBER);
    NothingTaken(bad, img, data, AttemptOf(FindNewest(img, |data|), i));
    assert !Forged(bad, img, data, i, 0);
    NotTaken(bad, img, data, i);
  }

  lemma NotTaken(bad: Faults, img: Image, data: Record, i: nat)
    requires IsStore(img, |data|) && i < SECTOR_NUMBER && !SomeTakes(bad, img, data)
    ensures !Takes(bad, img, data, i, 0)
  {
    hide Takes;
  }

  /** Sector i is the newest of the valid sectors that nothing changes. */
  ghost predicate Foremost(bad: Faults, img: Image, data: Record, numbers: seq<int>, i: nat)
    requires IsStore(img, |data|) && |numbers| == SECTOR_NUMBER
  {
    && i < SECTOR_NUMBER && Keeps(bad, img, data, i) && Valid(SectorFormat(|data|), img[i])
    && forall e :: 0 <= e < SECTOR_NUMBER && Keeps(bad, img, data, e) && Valid(SectorFormat(|data|), img[e]) ==>
         numbers[e] < numbers[i] || (numbers[e] == numbers[i] && i <= e)
  }

  /** And it holds the old or the new value. */
  ghost predicate KeptNewest(bad: Faults, img: Image, data: Record, numbers: seq<int>, i: nat)
    requires IsStore(img, |data|) && |numbers| == SECTOR_NUMBER
  {
    && Foremost(bad, img, data, numbers, i)
    && (Some(Data(img[i], |data|)) == ReadData(img, |data|) || Data(img[i], |data|) == data)
  }

  /** What is read if no sector takes the data: the newest of the sectors that nothing changes. */
  lemma KeptIsRead(bad: Faults, img: Image, data: Record, numbers: seq<int>, n: int)
    requires IsStore(img, |data|) && Ranked(img, |data|, numbers, n) && NoForgery(bad, img, data)
    requires !SomeTakes(bad, img, data)
    ensures |numbers| == SECTOR_NUMBER
    ensures var read := ReadData(Apply(img, WritePokes(bad, img, data)), |data|);
      && (read == None ==> !exists i: nat :: Foremost(bad, img, data, numbers, i))
      && (read.Some? ==>
            exists i: nat ::
              i < SECTOR_NUMBER && Foremost(bad, img, data, numbers, i) && read == Some(Data(img[i], |data|)))
  {
    hide Valid, Wrap, CopyRecord, Left, NextCounter, FindNewest, Data, WritePokes, Apply, CounterGreat, Newest, Ranked,
      NoForgery, SomeTakes, Keeps;
    var size, after := |data|, Apply(img, WritePokes(bad, img, data));
    RankedLength(img, size, numbers, n);
    forall i | 0 <= i < SECTOR_NUMBER
      ensures Keeps(bad, img, data, i) ==> after[i] == img[i]
      ensures Valid(SectorFormat(size), after[i]) ==>
        && Keeps(bad, img, data, i)
        && after[i][1] == Wrap(numbers[i]) && n - 100 <= numbers[i] <= n
    {
      WriteLeaves(bad, img, data, i);
      OnlyKeptAreValid(bad, img, data, i);
      if Valid(SectorFormat(size), after[i]) {
        NewestIsHighest(img, size, numbers, n, i);
      }
    }
    CounterOrders();
    NewestIsLogicallyNewest(CounterGreat, 112, Counters(after, size), numbers, SECTOR_NUMBER);
    NewestDefined(after, size);
    var q := FindNewest(after, size);
    if q >= 0 {
      assert Foremost(bad, img, data, numbers, q);
    }
  }

  lemma ForemostIsOne(bad: Faults, img: Image, data: Record, numbers: seq<int>, i: nat, k: nat)
    requires IsStore(img, |data|) && |numbers| == SECTOR_NUMBER
    requires Foremost(bad, img, data, numbers, i) && Foremost(bad, img, data, numbers, k)
    ensures i == k
  {
    hide Valid, Keeps;
  }

  /**
   Exactly when a complete write_data() leaves the old or the new value readable, with any
   faulty cells: a sector takes the data, or nothing was stored, or the newest of the valid
   sectors in which no cell changes holds one of the two values.
   */
  lemma OldOrNewIsReadIff(bad: Faults, img: Image, data: Record, numbers: seq<int>, n: int)
    requires IsStore(img, |data|) && Ranked(img, |data|, numbers, n) && NoForgery(bad, img, data)
    ensures |numbers| == SECTOR_NUMBER
    ensures var read := ReadData(Apply(img, WritePokes(bad, img, data)), |data|);
      (read == ReadData(img, |data|) || read == Some(data)) <==>
        || SomeTakes(bad, img, data) || ReadData(img, |data|) == None
        || exists i: nat :: KeptNewest(bad, img, data, numbers, i)
  {
    hide Valid, CopyRecord, FindNewest, Data, WritePokes, Apply, Ranked, NoForgery, SomeTakes, Keeps, Foremost;
    hide ReadData;
    RankedLength(img, |data|, numbers, n);
    if SomeTakes(bad, img, data) {
      TakenIsRead(bad, img, data, numbers, n);
    } else {
      KeptIsRead(bad, img, data, numbers, n);
      if ReadData(img, |data|) == None {
        NothingIsKept(bad, img, data, numbers);
      }
      var read := ReadData(Apply(img, WritePokes(bad, img, data)), |data|);
      if k: nat :| k < SECTOR_NUMBER && Foremost(bad, img, data, numbers, k) && read == Some(Data(img[k], |data|)) {
        assert read == ReadData(img, |data|) || read == Some(data) <==> KeptNewest(bad, img, data, numbers, k) by {
          KeptMeans(bad, img, data, numbers, k);
        }
        forall i: nat | KeptNewest(bad, img, data, numbers, i)
          ensures i == k
        {
          ForemostIsOne(bad, img, data, numbers, i, k);
        }
      }
    }
  }

  lemma KeptMeans(bad: Faults, img: Image, data: Record, numbers: seq<int>, k: nat)
    requires IsStore(img, |data|) && |numbers| == SECTOR_NUMBER && Foremost(bad, img, data, numbers, k)
    ensures KeptNewest(bad, img, data, numbers, k) <==>
      Some(Data(img[k], |data|)) == ReadData(img, |data|) || Some(Data(img[k], |data|)) == Some(data)
  {
    hide Foremost, ReadData, Data;
  }

  lemma NothingIsKept(bad: Faults, img: Image, data: Record, numbers: seq<int>)
    requires IsStore(img, |data|) && |numbers| == SECTOR_NUMBER && ReadData(img, |data|) == None
    ensures !exists i: nat :: Foremost(bad, img, data, numbers, i)
  {
    hide Valid, Keeps;
  }

  /** From a healthy store: one sector takes the data, or one of the two copies is not changed at all. */
  lemma HealthyStoreIsReadIff(bad: Faults, img: Image, old': Record, data: Record, a: nat, b: nat, counter: byte)
    requires Pair(img, old', a, b, counter) && |data| == |old'| && NoForgery(bad, img, data)
    ensures ReadData(img, |data|) == Some(old')
    ensures var read := ReadData(Apply(img, WritePokes(bad, img, data)), |data|);
      && (SomeTakes(bad, img, data) ==> read == Some(data))
      && (!SomeTakes(bad, img, data) ==>
            read == if Keeps(bad, img, data, a) || Keeps(bad, img, data, b) then Some(old') else None)
  {
    hide Valid, CopyRecord, FindNewest, WritePokes, Apply, NoForgery, SomeTakes, Keeps, Ranked, Sector;
    var size, numbers, n := |data|, PairNumbers(b, counter), counter as int + 1;
    PairIsRanked(img, old', a, b, counter);
    PairIsHealthy(bad, img, old', a, b, counter);
    PairData(old', counter);
    if SomeTakes(bad, img, data) {
      TakenIsRead(bad, img, data, numbers, n);
    } else {
      KeptIsRead(bad, img, data, numbers, n);
      forall i: nat | i < SECTOR_NUMBER && Valid(SectorFormat(size), img[i])
        ensures i == a || i == b
      {
      }
      if Keeps(bad, img, data, b) {
        assert Foremost(bad, img, data, numbers, b);
      } else if Keeps(bad, img, data, a) {
        assert Foremost(bad, img, data, numbers, a);
      }
    }
  }

  function PairNumbers(b: nat, counter: byte): (numbers: seq<int>)
    ensures |numbers| == SECTOR_NUMBER
  {
    seq(SECTOR_NUMBER, e => if e == b then counter as int + 1 else counter as int)
  }

  lemma PairData(data: Record, counter: byte)
    ensures Data(Sector(counter, data), |data|) == data && Valid(SectorFormat(|data|), Sector(counter, data))
    ensures Data(Sector(Wrap(counter as int + 1), data), |data|) == data
    ensures Valid(SectorFormat(|data|), Sector(Wrap(counter as int + 1), data))
  {
    hide Sealed;
  }

  lemma PairIsRanked(img: Image, old': Record, a: nat, b: nat, counter: byte)
    requires Pair(img, old', a, b, counter)
    ensures Ranked(img, |old'|, PairNumbers(b, counter), counter as int + 1)
  {
    hide Valid, Sector, Wrap, FindNewest;
    NewestOfPair(img, old', FindNewest(img, |old'|), a, b, counter);
    WrapOfByte(counter);
    PairData(old', counter);
  }

  // ---------- When nothing is forged ----------

  /** What differs from a sealed record only in two adjacent bytes, of the checksum too, is not sealed. */
  lemma TwoAdjacentUnseal(f: Format, r: Record, m: Record, o: nat)
    requires !f.lowByteFirst && f.payload >= 1 && Sealed(f, r) && |m| == |r| && m != r
    requires forall k :: 0 <= k < |r| && k != o && k != o + 1 ==> m[k] == r[k]
    ensures !Sealed(f, m)
  {
    hide Crc16.Checksum, Crc16.LowByte, Crc16.HighByte, Sealed;
    var end := f.payload + 2;
    SealedMeans(f, r);
    if o + 1 < end {
      BurstUnseals(f, r, m, o);
    } else if o + 1 == end && m[o] != r[o] {
      assert r[..end] == r[..o] + [r[o]] && m[..end] == r[..o] + [m[o]];
      Crc16.LastByteChangesLowByte(r[..o], r[o], m[o]);
      if Sealed(f, m) {
        SealedMeans(f, m);
      }
    } else {
      assert r[..end] == m[..end];
      if Sealed(f, m) {
        SameMessageSameRecord(f, r, m);
      }
    }
  }

  lemma SealedMeans(f: Format, r: Record)
    requires Sealed(f, r) && !f.lowByteFirst
    ensures var end := f.payload + 2;
      && |r| == end + 2
      && r[end] == Crc16.HighByte(Crc16.Checksum(r[..end])) && r[end + 1] == Crc16.LowByte(Crc16.Checksum(r[..end]))
  {
    hide Crc16.Checksum, Crc16.LowByte, Crc16.HighByte;
    var end := f.payload + 2;
    assert r[end] == r[end..][0] && r[end + 1] == r[end..][1];
  }

  lemma SameMessageSameRecord(f: Format, r: Record, m: Record)
    requires Sealed(f, r) && Sealed(f, m) && !f.lowByteFirst && r[..f.payload + 2] == m[..f.payload + 2]
    ensures m == r
  {
    hide Crc16.Checksum, Crc16.LowByte, Crc16.HighByte;
    SealedMeans(f, r);
    SealedMeans(f, m);
    assert forall k :: 0 <= k < f.payload + 2 ==> m[k] == m[..f.payload + 2][k] == r[k];
  }

  lemma SameBytes(r: Record, m: Record, o: nat)
    requires |m| == |r| && o + 1 < |r| && m[o] == r[o] && m[o + 1] == r[o + 1]
    requires forall k :: 0 <= k < |r| && k != o && k != o + 1 ==> m[k] == r[k]
    ensures m == r
  {
  }

  lemma BurstUnseals(f: Format, r: Record, m: Record, o: nat)
    requires Sealed(f, r) && |m| == |r| && m != r && o + 1 < f.payload + 2
    requires forall k :: 0 <= k < |r| && k != o && k != o + 1 ==> m[k] == r[k]
    ensures !Sealed(f, m)
  {
    hide Crc16.Checksum, StoredChecksum;
    var end := f.payload + 2;
    var prefix, suffix := r[..o], r[o + 2..end];
    assert r[..end] == prefix + [r[o], r[o + 1]] + suffix;
    assert m[..end] == prefix + [m[o], m[o + 1]] + suffix;
    if m[o] == r[o] && m[o + 1] == r[o + 1] {
      SameBytes(r, m, o);
    }
    Crc16.BurstDetected(prefix, r[o], r[o + 1], m[o], m[o + 1], suffix);
    assert m[end..] == r[end..];
    DifferentChecksumUnseals(f, r, m);
  }

  /** The faulty cells of the sector are at o and o + 1, or its magic cell is stuck at another value. */
  ghost predicate Harmless(bad: Faults, img: Image, size: nat, i: nat, o: nat)
    requires IsStore(img, size) && i < SECTOR_NUMBER
  {
    || (forall k: nat :: k < size + 4 && (i, k) in bad ==> k == o || k == o + 1)
    || ((i, 0) in bad && img[i][0] != MAGIC_BYTE)
  }

  ghost predicate HarmlessSector(bad: Faults, img: Image, size: nat, i: nat)
    requires IsStore(img, size) && i < SECTOR_NUMBER
  {
    exists o: nat :: Harmless(bad, img, size, i, o)
  }

  lemma HarmlessIsNotForged(bad: Faults, img: Image, data: Record, i: nat, copies: nat, o: nat)
    requires IsStore(img, |data|) && i < SECTOR_NUMBER && Harmless(bad, img, |data|, i, o)
    ensures !Forged(bad, img, data, i, copies)
  {
    hide Sealed, CopyRecord;
    var r, f := CopyRecord(img, data, copies), SectorFormat(|data|);
    var m := Mixed(bad, img[i], i, r);
    RecordIsMarked(img, data, copies);
    if (i, 0) in bad && img[i][0] != MAGIC_BYTE {
      assert m[0] != MAGIC_BYTE;
    } else if m != r {
      TwoAdjacentUnseal(f, r, m, o);
    }
  }

  /** So with at most two faulty cells per sector, next to each other, nothing is ever forged. */
  lemma HarmlessCellsForgeNothing(bad: Faults, img: Image, data: Record)
    requires IsStore(img, |data|)
    requires forall i :: 0 <= i < SECTOR_NUMBER ==> HarmlessSector(bad, img, |data|, i)
    ensures NoForgery(bad, img, data)
  {
    hide Forged, Harmless;
    forall i, copies | 0 <= i < SECTOR_NUMBER && 0 <= copies <= 1
      ensures !Forged(bad, img, data, i, copies)
    {
      assert HarmlessSector(bad, img, |data|, i);
      var o: nat :| Harmless(bad, img, |data|, i, o);
      HarmlessIsNotForged(bad, img, data, i, copies, o);
    }
  }

  // ---------- A complete write that loses both values ----------

  /** The newest sector has a dead counter cell, and no other sector can be marked. */
  ghost predicate LastSectorWeak(bad: Faults, img: Image, size: nat, p: nat) {
    && IsStore(img, size) && p < SECTOR_NUMBER && Valid(SectorFormat(size), img[p])
    && (forall k: nat :: k < size + 4 ==> ((p, k) in bad <==> k == 1))
    && forall i :: 0 <= i < SECTOR_NUMBER && i != p ==> (i, 0) in bad && img[i][0] != MAGIC_BYTE
  }

  /** Then a complete, uninterrupted write of any data leaves neither the old value nor the new one. */
  lemma WriteCanLoseBoth(bad: Faults, img: Image, data: Record, p: nat)
    requires LastSectorWeak(bad, img, |data|, p)
    ensures ReadData(img, |data|) == Some(Data(img[p], |data|))
    ensures Taken(bad, img, data, SECTOR_NUMBER) == []
    ensures ReadData(Apply(img, WritePokes(bad, img, data)), |data|) == None
  {
    hide Sealed, Apply, WritePokes, FindNewest, CopyRecord, Taken, Mixed, Numbered, Ranked, NoForgery;
    hide HarmlessSector, Data, Wrap;
    var size, numbers := |data|, seq(SECTOR_NUMBER, _ => img[p][1] as int);
    OnlyOneValid(bad, img, size, p);
    forall i: nat | i < SECTOR_NUMBER
      ensures HarmlessSector(bad, img, size, i)
      ensures !Takes(bad, img, data, i, 0) && (Valid(SectorFormat(size), img[i]) ==> !Keeps(bad, img, data, i))
    {
      WeakSector(bad, img, data, p, i);
    }
    HarmlessCellsForgeNothing(bad, img, data);
    NothingTaken(bad, img, data, SECTOR_NUMBER);
    KeptIsRead(bad, img, data, numbers, img[p][1] as int);
  }

  lemma OnlyOneValid(bad: Faults, img: Image, size: nat, p: nat)
    requires LastSectorWeak(bad, img, size, p)
    ensures FindNewest(img, size) == p && ReadData(img, size) == Some(Data(img[p], size))
    ensures Ranked(img, size, seq(SECTOR_NUMBER, _ => img[p][1] as int), img[p][1] as int)
  {
    hide Sealed, Wrap, CounterGreat, Newest, FindNewest, Data;
    forall i | 0 <= i < SECTOR_NUMBER && i != p
      ensures !Valid(SectorFormat(size), img[i])
    {
    }
    WrapOfByte(img[p][1]);
  }

  lemma WeakSector(bad: Faults, img: Image, data: Record, p: nat, i: nat)
    requires LastSectorWeak(bad, img, |data|, p) && i < SECTOR_NUMBER && FindNewest(img, |data|) == p
    ensures HarmlessSector(bad, img, |data|, i)
    ensures !Takes(bad, img, data, i, 0)
    ensures Valid(SectorFormat(|data|), img[i]) ==> !Keeps(bad, img, data, i)
  {
    hide Sealed, FindNewest, CopyRecord, Wrap;
    var f, r := SectorFormat(|data|), CopyRecord(img, data, 0);
    RecordIsMarked(img, data, 0);
    if i == p {
      assert Harmless(bad, img, |data|, i, 1);
      NewCounterDiffers(img, |data|, p);
      var m := Mixed(bad, img[p], p, r);
      assert m[1] == img[p][1] != r[1];
      assert m == r[1 := img[p][1]];
      CounterChangeBreaksSeal(f, r, img[p][1]);
    } else {
      assert Harmless(bad, img, |data|, i, 0);
      assert Mixed(bad, img[i], i, r)[0] == img[i][0];
    }
  }

  lemma NewCounterDiffers(img: Image, size: nat, p: nat)
    requires p < |img| && FindNewest(img, size) == p && |img[p]| > 1
    ensures Wrap(NextCounter(img, size) as int + 0) != img[p][1]
  {
  }

  /** The counter cell of sector 0 and the magic cells of the sectors 1 to n - 1. */
  function WeakCells(n: nat): (bad: Faults)
    ensures forall i: nat, k: nat :: (i, k) in bad <==> (i == 0 && k == 1) || (1 <= i < n && k == 0)
  {
    if n <= 1 then {(0, 1)} else WeakCells(n - 1) + {(n - 1, 0)}
  }

  function WeakImage(old': Record, counter: byte): (img: Image)
    ensures |img| == SECTOR_NUMBER
  {
    seq(SECTOR_NUMBER, i => if i == 0 then Sector(counter, old') else seq(|old'| + 4, _ => 0))
  }

  /** Such a store exists for every size and every stored value. */
  lemma WeakStoreExists(old': Record, counter: byte)
    requires 1 <= |old'| <= 255
    ensures LastSectorWeak(WeakCells(SECTOR_NUMBER), WeakImage(old', counter), |old'|, 0)
    ensures Data(WeakImage(old', counter)[0], |old'|) == old'
  {
    hide Sealed, WeakCells;
    assert |Sector(counter, old')| == |old'| + 4;
  }

  // ---------- A complete write that is read as a third value ----------

  /**
   Only the newest sector, number 15, can take a copy: the magic cells of the sectors 1 to 14 are
   dead, and in sector 0, which holds a cleared 00 00 00, the last data byte and the checksum are.
   */
  ghost predicate ForgingCells(bad: Faults, img: Image) {
    && IsStore(img, 3) && img[15] == Sector(15, Data(img[15], 3))
    && img[0] == Sector(0, [0, 0, 0])[0 := 0]
    && (forall k: nat :: k < 7 ==> ((0, k) in bad <==> k >= 4))
    && (forall k: nat :: k < 7 ==> (15, k) !in bad)
    && forall i :: 1 <= i < 15 ==> (i, 0) in bad && img[i][0] != MAGIC_BYTE
  }

  lemma OnlyLastValid(bad: Faults, img: Image)
    requires ForgingCells(bad, img)
    ensures FindNewest(img, 3) == 15 && ReadData(img, 3) == Some(Data(img[15], 3))
    ensures NextCounter(img, 3) == 16
  {
    hide Sealed, CounterGreat, Newest, Data;
    assert img[15][1] == 15;
    assert Counters(img, 3)[15].Some?;
    forall i | 0 <= i < 15
      ensures !Valid(SectorFormat(3), img[i])
    {
    }
  }

  lemma ForgedSector(bad: Faults, img: Image, data: Record)
    requires ForgingCells(bad, img) && data == [0x12, 0x31, 0x01] && NextCounter(img, 3) == 16
    requires FindNewest(img, 3) == 15
    ensures var mix := Mixed(bad, img[0], 0, CopyRecord(img, data, 0));
      Valid(SectorFormat(3), mix) && mix[1] == 16 && Data(mix, 3) == [0x12, 0x31, 0x00]
      && mix != CopyRecord(img, data, 0)
  {
    hide Crc16.Checksum, Crc16.LowByte, Crc16.HighByte, FindNewest, NextCounter;
    var first, r := Sector(0, [0, 0, 0]), CopyRecord(img, data, 0);
    var mix := Mixed(bad, img[0], 0, r);
    Crc16.ThreeBytesCanCollide(0);
    assert first[..5] == [0xa5, 0x00] + [0x00, 0x00, 0x00];
    assert mix[..5] == [0xa5, 0x10] + [0x12, 0x31, 0x00];
    assert mix[5..] == first[5..];
    assert mix[4] != r[4];
  }

  lemma OnlyLastTakes(bad: Faults, img: Image, data: Record)
    requires ForgingCells(bad, img) && |data| == 3 && FindNewest(img, 3) == 15
    requires !Takes(bad, img, data, 0, 0)
    ensures Taken(bad, img, data, SECTOR_NUMBER) == [15]
    ensures Held(bad, img, data, 0) == Mixed(bad, img[0], 0, CopyRecord(img, data, 0))
    ensures Held(bad, img, data, 15) == CopyRecord(img, data, 0)
    ensures forall i :: 1 <= i < 15 ==> Held(bad, img, data, i)[0] != MAGIC_BYTE
  {
    hide FindNewest, CopyRecord, Sector, Data;
    RecordIsMarked(img, data, 0);
    forall t | 0 <= t < 15
      ensures Target(15, t) == t && !Takes(bad, img, data, t, 0)
    {
      if t > 0 {
        assert Mixed(bad, img[t], t, CopyRecord(img, data, 0))[0] == img[t][0];
      }
    }
    NothingTakenBefore(bad, img, data, 15);
    NothingTakenBefore(bad, img, data, 0);
    assert Mixed(bad, img[15], 15, CopyRecord(img, data, 0)) == CopyRecord(img, data, 0);
    assert Target(15, 15) == 15 && AttemptOf(15, 15) == 15 && AttemptOf(15, 0) == 0;
  }

  lemma NothingTakenBefore(bad: Faults, img: Image, data: Record, j: nat)
    requires IsStore(img, |data|) && j <= SECTOR_NUMBER
    requires forall t :: 0 <= t < j ==> !Takes(bad, img, data, Target(FindNewest(img, |data|), t), 0)
    ensures Taken(bad, img, data, j) == []
  {
    hide FindNewest, Takes, Target, Taken;
    TakenByAttempts(bad, img, data, j);
  }

  /** Of valid sectors with one counter the scan keeps the first. */
  lemma FirstIsScanned(img: Image, size: nat)
    requires IsStore(img, size) && Valid(SectorFormat(size), img[0])
    requires forall i :: 0 <= i < SECTOR_NUMBER && Valid(SectorFormat(size), img[i]) ==> img[i][1] == img[0][1]
    ensures FindNewest(img, size) == 0
  {
    hide Valid, Wrap, CounterGreat;
    var numbers := seq(SECTOR_NUMBER, _ => img[0][1] as int);
    WrapOfByte(img[0][1]);
    CounterOrders();
    assert Numbered(Counters(img, size), numbers, 112);
    NewestIsLogicallyNewest(CounterGreat, 112, Counters(img, size), numbers, SECTOR_NUMBER);
    assert Counters(img, size)[0].Some?;
  }

  /**
   Three faulty cells next to each other are enough to forge a sector: a complete write of
   12 31 01 is verified in sector 15, but what is read is 12 31 00, from sector 0.
   */
  lemma ForgedValueIsRead(bad: Faults, img: Image)
    requires ForgingCells(bad, img)
    ensures var data: Record := [0x12, 0x31, 0x01];
      && ReadData(img, 3) == Some(Data(img[15], 3))
      && Taken(bad, img, data, SECTOR_NUMBER) == [15]
      && ReadData(Apply(img, WritePokes(bad, img, data)), 3) == Some([0x12, 0x31, 0x00])
  {
    hide Sealed, Apply, WritePokes, FindNewest, CopyRecord, Taken, Mixed, Data, Held, Sector;
    var data: Record := [0x12, 0x31, 0x01];
    var after := Apply(img, WritePokes(bad, img, data));
    OnlyLastValid(bad, img);
    ForgedSector(bad, img, data);
    OnlyLastTakes(bad, img, data);
    forall i | 0 <= i < SECTOR_NUMBER
      ensures after[i] == Held(bad, img, data, i)
    {
      WriteLeaves(bad, img, data, i);
    }
    RecordIsMarked(img, data, 0);
    FirstIsScanned(after, 3);
  }

  /** Such a store exists for every stored value. */
  lemma ForgingStoreExists(old': Record) returns (bad: Faults, img: Image)
    requires |old'| == 3
    ensures ForgingCells(bad, img) && Data(img[15], 3) == old'
  {
    hide Sealed;
    bad := set i: nat, k: nat | i < 15 && k < 7 && (if i == 0 then k >= 4 else k == 0) :: (i, k);
    var last, first, none: Record := Sector(15, old'), Sector(0, [0, 0, 0])[0 := 0], seq(7, _ => 0);
    img := seq(SECTOR_NUMBER, i => if i == 15 then last else if i == 0 then first else none);
    assert |last| == |first| == 7;
  }
}
