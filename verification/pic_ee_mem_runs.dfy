/**
 Power loss safety of the PIC sector store over whole runs, with working cells. Sector
 writes are numbered from 0 on an erased EEPROM; write n goes to sector n % 16 with counter
 n % 256, and every write_data() makes two of them.
 */
module PicEeMemRuns {
  import opened Bytes
  import opened Options
  import opened ByteWrites
  import opened CyclicCounters
  import opened Records
  import opened PicEeMem
  import Crc16

  const LAP := SECTOR_NUMBER

  function SectorOf(n: int): (i: nat)
    ensures i < SECTOR_NUMBER
  {
    n % SECTOR_NUMBER
  }

  /** The number of the last write to sector i when the newest is n; negative if none. */
  function LastWrite(n: int, i: nat): int {
    n - (n - i) % SECTOR_NUMBER
  }

  lemma SectorsAdvance(n: int, i: nat)
    requires i < SECTOR_NUMBER
    ensures LastWrite(n, SectorOf(n)) == n && LastWrite(n, SectorOf(n + 1)) == n + 1 - LAP
    ensures SectorOf(n + 1) != SectorOf(n)
    ensures SectorOf(n + 1) == if SectorOf(n) == SECTOR_NUMBER - 1 then 0 else SectorOf(n) + 1
    ensures LastWrite(n + 1, i) == if i == SectorOf(n + 1) then n + 1 else LastWrite(n, i)
    ensures n - LAP < LastWrite(n, i) <= n
    ensures LastWrite(n, i) == n <==> i == SectorOf(n)
  {
    SectorStep(n);
    Distance(n, i);
    Distance(n + 1, i);
    Distance(n, SectorOf(n + 1));
    Distance(n, SectorOf(n));
  }

  lemma SectorStep(n: int)
    ensures SectorOf(n + 1) == if SectorOf(n) == SECTOR_NUMBER - 1 then 0 else SectorOf(n) + 1
  {
  }

  lemma Distance(n: int, i: nat)
    requires i < SECTOR_NUMBER
    ensures (n - i) % SECTOR_NUMBER
         == if SectorOf(n) >= i then SectorOf(n) - i else SectorOf(n) - i + SECTOR_NUMBER
  {
  }

  /** Everything but the newest sector and the one after it is a complete sector of its last write. */
  ghost predicate Background(img: Image, size: nat, n: int) {
    && n >= -1 && IsStore(img, size)
    && forall i :: 0 <= i < SECTOR_NUMBER && i != SectorOf(n) && i != SectorOf(n + 1) ==>
         Dormant(SectorFormat(size), img[i], LastWrite(n, i))
  }

  /** The newest sector and the value read from it; none before the first write (n = -1). */
  ghost predicate NewestHolds(img: Image, size: nat, n: int, v: Option<Record>)
    requires |img| == SECTOR_NUMBER
  {
    if n < 0 then v == None && Dormant(SectorFormat(size), img[SectorOf(n)], n)
    else v.Some? && Holds(SectorFormat(size), img[SectorOf(n)], n, v.value)
  }

  /** The invariant of every image a run can leave behind. */
  ghost predicate Stored(img: Image, size: nat, n: int, v: Option<Record>) {
    && Background(img, size, n) && NewestHolds(img, size, n, v)
    && var next := img[SectorOf(n + 1)];
       Dormant(SectorFormat(size), next, n + 1 - LAP) || Torn(SectorFormat(size), next, n + 1)
  }

  /** As above, and the next sector is not torn: so it is between the writes of two sectors. */
  ghost predicate Solid(img: Image, size: nat, n: int, v: Option<Record>) {
    && Background(img, size, n) && NewestHolds(img, size, n, v)
    && Dormant(SectorFormat(size), img[SectorOf(n + 1)], n + 1 - LAP)
  }

  // ---------- The format ----------

  /** A sector of erased bytes with only the magic byte and any counter written is never valid, for any size. */
  lemma EverySizeFormat(size: nat)
    requires 1 <= size <= 255
    ensures SectorFormat(size).Sensible() && ErasedIsUnsealed(SectorFormat(size))
  {
    hide Crc16.Checksum;
    var f := SectorFormat(size);
    forall c: byte
      ensures !Sealed(f, [f.marker, c] + Erased(size + 2))
    {
      var r := [f.marker, c] + Erased(size + 2);
      assert r[..size + 2] == [0xa5, c] + Erased(size);
      assert r[size + 2..] == [0xff, 0xff];
      Crc16.ErasedPicSector(c, size);
      Crc16.AllOnes(Crc16.Checksum(r[..size + 2]));
    }
  }

  // ---------- Reading ----------

  lemma ValidNumber(img: Image, size: nat, n: int, v: Option<Record>, i: nat)
    requires Stored(img, size, n, v)
    requires i < SECTOR_NUMBER && Valid(SectorFormat(size), img[i])
    ensures n >= 0 && img[i][1] == Wrap(LastWrite(n, i))
  {
    hide Valid, Sealed, Wrap, LastWrite;
    EverySizeFormat(size);
    SectorsAdvance(n, i);
    var f := SectorFormat(size);
    TornIsInvalid(f, img[i], n + 1);
    if i == SectorOf(n) {
      NewestNumber(img, size, n, v);
    } else {
      DormantValid(f, img[i], LastWrite(n, i));
    }
  }

  lemma NewestNumber(img: Image, size: nat, n: int, v: Option<Record>)
    requires IsStore(img, size) && NewestHolds(img, size, n, v)
    ensures n >= 0 ==> Valid(SectorFormat(size), img[SectorOf(n)]) && img[SectorOf(n)][1] == Wrap(n)
    ensures n < 0 ==> !Valid(SectorFormat(size), img[SectorOf(n)])
    ensures n >= 0 ==> v == Some(Data(img[SectorOf(n)], size))
  {
    hide Valid, Sealed, Wrap;
    EverySizeFormat(size);
    if n < 0 && Valid(SectorFormat(size), img[SectorOf(n)]) {
      DormantValid(SectorFormat(size), img[SectorOf(n)], n);
    }
  }

  /** The unbounded numbers behind the counters of the valid sectors. */
  lemma NumbersAreRight(img: Image, size: nat, n: int, v: Option<Record>) returns (numbers: seq<int>)
    requires Stored(img, size, n, v)
    ensures IsStore(img, size) && Numbered(Counters(img, size), numbers, LAP - 1)
    ensures forall i :: 0 <= i < SECTOR_NUMBER ==> numbers[i] <= n && (numbers[i] == n <==> i == SectorOf(n))
    ensures n < 0 ==> forall i :: 0 <= i < SECTOR_NUMBER ==> !Valid(SectorFormat(size), img[i])
  {
    hide Valid, Sealed, Wrap, LastWrite, CounterGreat, Background, NewestHolds, Data;
    StoredIsStore(img, size, n, v);
    numbers := seq(SECTOR_NUMBER, i requires 0 <= i < SECTOR_NUMBER => LastWrite(n, i));
    forall i | 0 <= i < SECTOR_NUMBER
      ensures Valid(SectorFormat(size), img[i]) ==> n >= 0 && img[i][1] == Wrap(numbers[i])
      ensures n - LAP < numbers[i] <= n && (numbers[i] == n <==> i == SectorOf(n))
    {
      SectorsAdvance(n, i);
      if Valid(SectorFormat(size), img[i]) {
        ValidNumber(img, size, n, v, i);
      }
    }
  }

  /** Reading returns the stored value, and the scan finds the newest sector. */
  lemma ReadsStored(img: Image, size: nat, n: int, v: Option<Record>)
    requires Stored(img, size, n, v)
    ensures FindNewest(img, size) == if n < 0 then -1 else SectorOf(n)
    ensures ReadData(img, size) == v
  {
    hide Valid, Sealed, Wrap, LastWrite, CounterGreat, Background, NewestHolds, Data;
    StoredIsStore(img, size, n, v);
    var numbers := NumbersAreRight(img, size, n, v);
    Wider(Counters(img, size), numbers, LAP - 1, 112);
    CounterOrders();
    NewestIsLogicallyNewest(CounterGreat, 112, Counters(img, size), numbers, SECTOR_NUMBER);
    NewestNumber(img, size, n, v);
    NoneBeforeFirst(img, size, n, v);
  }

  lemma StoredIsStore(img: Image, size: nat, n: int, v: Option<Record>)
    requires Stored(img, size, n, v)
    ensures n >= -1 && IsStore(img, size) && NewestHolds(img, size, n, v)
  {
  }

  lemma NoneBeforeFirst(img: Image, size: nat, n: int, v: Option<Record>)
    requires Stored(img, size, n, v)
    ensures n < 0 ==> v == None
  {
  }

  // ---------- One sector ----------

  /** A valid sector number n + 1 takes over as the newest, whatever else was unfinished. */
  lemma SectorTakesOver(img: Image, size: nat, n: int, v: Option<Record>, r: Record, w: Record)
    requires Stored(img, size, n, v)
    requires Holds(SectorFormat(size), r, n + 1, w)
    ensures Solid(img[SectorOf(n + 1) := r], size, n + 1, Some(w))
  {
    hide Valid, Sealed, Wrap, LastWrite, Dormant, Torn;
    var img' := img[SectorOf(n + 1) := r];
    SectorsAdvance(n, SectorOf(n));
    SectorsAdvance(n + 1, SectorOf(n + 2));
    SectorsAdvance(n, SectorOf(n + 2));
    NewestIsDormant(img, size, n, v);
    forall i | 0 <= i < SECTOR_NUMBER && i != SectorOf(n + 1)
      ensures Dormant(SectorFormat(size), img'[i], LastWrite(n + 1, i))
    {
      SectorsAdvance(n, i);
    }
  }

  lemma NewestIsDormant(img: Image, size: nat, n: int, v: Option<Record>)
    requires IsStore(img, size) && NewestHolds(img, size, n, v)
    ensures Dormant(SectorFormat(size), img[SectorOf(n)], n)
  {
    hide Valid, Sealed, Wrap, Dormant;
    if n >= 0 {
      HoldsIsDormant(SectorFormat(size), img[SectorOf(n)], n, v.value);
    }
  }

  /** The value a reader may still see while `w` is being written: the old one, if there is one. */
  function OldOr(v: Option<Record>, w: Record): Record {
    if v.Some? then v.value else w
  }

  /**
   After any prefix of the bytes of the next sector the old state is intact, or the sector
   is valid and carries the old or the new value; after all of them, the new one.
   */
  lemma SectorProgress(img: Image, size: nat, n: int, v: Option<Record>, r: Record, u: Record, w: Record, k: nat)
    requires Stored(img, size, n, v) && k <= size + 4 == |r|
    requires Holds(SectorFormat(size), r, n + 1, w)
    requires MixSafe(SectorFormat(size), img[SectorOf(n + 1)], r, u, w)
    ensures var img' := Apply(img, RecordPokes(SectorOf(n + 1), r)[..k]);
      && (Stored(img', size, n, v) || Solid(img', size, n + 1, Some(u)) || Solid(img', size, n + 1, Some(w)))
      && (k == size + 4 ==> img' == img[SectorOf(n + 1) := r] && Solid(img', size, n + 1, Some(w)))
  {
    hide Valid, Sealed, Wrap, LastWrite, Dormant, Torn, Apply, Holds, MixSafe;
    var f, i := SectorFormat(size), SectorOf(n + 1);
    SectorsAdvance(n, i);
    ApplyRecordPokes(img, i, r, k);
    OverwriteProgress(f, LAP, img[i], r, n + 1, u, w, k);
    var p := Partial(img[i], r, k);
    if Holds(f, p, n + 1, u) {
      SectorTakesOver(img, size, n, v, p, u);
    } else if Holds(f, p, n + 1, w) {
      SectorTakesOver(img, size, n, v, p, w);
    }
    if k == size + 4 {
      assert p == r;
      SectorTakesOver(img, size, n, v, p, w);
    }
  }

  /** Invalidating stale sectors keeps the newest value. */
  lemma ClearingKeepsValue(img: Image, size: nat, n: int, v: Option<Record>, written: seq<nat>, k: nat)
    requires Solid(img, size, n, v) && SectorOf(n) in written
    requires k <= |Stale(img, written, SECTOR_NUMBER)|
    ensures Solid(Apply(img, ClearPokes(Stale(img, written, SECTOR_NUMBER))[..k]), size, n, v)
  {
    hide Valid, Sealed, Wrap, LastWrite, Dormant, Apply, Holds, ClearPokes;
    var stale := Stale(img, written, SECTOR_NUMBER);
    ApplyClearPokes(img, stale, k);
    var r := Apply(img, ClearPokes(stale)[..k]);
    assert forall e :: e in stale[..k] ==> e in stale;
    SectorsAdvance(n, SectorOf(n + 1));
    forall i | 0 <= i < SECTOR_NUMBER && i != SectorOf(n)
      ensures Dormant(SectorFormat(size), r[i], LastWrite(n, i))
    {
      DormantCleared(SectorFormat(size), img[i], LastWrite(n, i), 0);
    }
  }

  // ---------- write_data() ----------

  /** The records of the two copies write_data() makes from a stored image. */
  lemma WriteShape(img: Image, size: nat, n: int, v: Option<Record>, data: Record)
    requires Stored(img, size, n, v) && |data| == size
    ensures var p := FindNewest(img, size);
      && p >= -1 && Target(p, 0) == SectorOf(n + 1) && Target(p, 1) == SectorOf(n + 2)
    ensures CopyRecord(img, data, 0) == Sector(Wrap(n + 1), data)
    ensures CopyRecord(img, data, 1) == Sector(Wrap(n + 2), data)
    ensures SectorOf(n + 1) != SectorOf(n + 2)
  {
    hide Valid, Sealed, LastWrite, Dormant, Torn, Sector;
    ReadsStored(img, size, n, v);
    StoredIsStore(img, size, n, v);
    SectorsAdvance(n + 1, 0);
    Counting(n);
    NewestNumber(img, size, n, v);
  }

  lemma Counting(n: int)
    ensures Wrap(Wrap(n) as int + 1) == Wrap(n + 1)
    ensures Wrap(Wrap(n + 1) as int + 1) == Wrap(n + 2) && Wrap(Wrap(n + 1) as int + 0) == Wrap(n + 1)
    ensures (SectorOf(n) + 1) % SECTOR_NUMBER == SectorOf(n + 1)
    ensures (SectorOf(n) + 2) % SECTOR_NUMBER == SectorOf(n + 2)
  {
    hide Wrap;
    WrapAgain(n, 1);
    WrapAgain(n + 1, 0);
    WrapAgain(n + 1, 1);
    SectorStep(n);
    SectorStep(n + 1);
  }

  function CopyPokes(img: Image, data: Record): seq<Poke> {
    var p := FindNewest(img, |data|);
    RecordPokes(Target(p, 0), CopyRecord(img, data, 0)) + RecordPokes(Target(p, 1), CopyRecord(img, data, 1))
  }

  lemma CopyPokesLength(img: Image, data: Record)
    ensures |CopyPokes(img, data)| == 2 * (|data| + 4)
  {
  }

  lemma TwoAttempts(img: Image, data: Record)
    requires IsStore(img, |data|)
    ensures var p := FindNewest(img, |data|);
      WriteCopies({}, img, data, 2) == Copies(CopyPokes(img, data), [Target(p, 0), Target(p, 1)])
  {
    hide FindNewest, CopyRecord, Target, Working, Apply, RecordPokes;
    var p := FindNewest(img, |data|);
    var i, i' := Target(p, 0), Target(p, 1);
    var r, r' := CopyRecord(img, data, 0), CopyRecord(img, data, 1);
    NoFaults(RecordPokes(i, r));
    NoFaults(RecordPokes(i', r'));
    ApplyWholeRecord(img, i, r);
    ApplyWholeRecord(img[i := r], i', r');
    ApplyConcat(img, RecordPokes(i, r), RecordPokes(i', r'));
    assert [] + RecordPokes(i, r) == RecordPokes(i, r);
    assert WriteCopies({}, img, data, 0) == Copies([], []);
    assert WriteCopies({}, img, data, 1) == Copies(RecordPokes(i, r), [i]);
  }

  lemma {:induction false} NoFaults(ps: seq<Poke>)
    ensures Working({}, ps) == ps
  {
    if ps != [] {
      NoFaults(ps[..|ps| - 1]);
    }
  }

  lemma {:induction false} NoMoreAttempts(img: Image, data: Record, j: nat)
    requires j >= 2 && |WriteCopies({}, img, data, 2).written| == 2
    ensures WriteCopies({}, img, data, j) == WriteCopies({}, img, data, 2)
  {
    hide FindNewest, CopyRecord, Target, Working, Apply, RecordPokes;
    if j > 2 {
      NoMoreAttempts(img, data, j - 1);
    }
  }

  /** With working cells write_data() is two whole sectors and the invalidation of the stale ones. */
  lemma WriteWithoutFaults(img: Image, data: Record)
    requires IsStore(img, |data|)
    ensures var p := FindNewest(img, |data|);
      var after := Apply(img, CopyPokes(img, data));
      WritePokes({}, img, data)
        == CopyPokes(img, data) + ClearPokes(Stale(after, [Target(p, 0), Target(p, 1)], SECTOR_NUMBER))
  {
    hide FindNewest, CopyRecord, Target, Working, Apply, RecordPokes, WriteCopies, CopyPokes, ClearPokes, Stale;
    var p := FindNewest(img, |data|);
    TwoAttempts(img, data);
    NoMoreAttempts(img, data, SECTOR_NUMBER);
    var after := Apply(img, CopyPokes(img, data));
    NoFaults(ClearPokes(Stale(after, [Target(p, 0), Target(p, 1)], |after|)));
  }

  /**
   No half-written copy of `data` over `img` passes for a complete sector with a value
   other than the stored one and `data`. Trivially so for values of one byte.
   */
  ghost predicate Unambiguous(img: Image, data: Record)
    requires IsStore(img, |data|)
  {
    var f, p, u := SectorFormat(|data|), FindNewest(img, |data|), OldOr(ReadData(img, |data|), data);
    && MixSafe(f, img[Target(p, 0)], CopyRecord(img, data, 0), u, data)
    && MixSafe(f, img[Target(p, 1)], CopyRecord(img, data, 1), u, data)
  }

  ghost predicate OldOrNew(r: Option<Record>, v: Option<Record>, w: Record) {
    r == v || r == Some(w)
  }

  lemma CopiesAreSafe(img: Image, size: nat, n: int, v: Option<Record>, data: Record, k: nat)
    returns (n': int, v': Option<Record>)
    requires Stored(img, size, n, v) && |data| == size
    requires Unambiguous(img, data) && k <= 2 * (size + 4)
    ensures |CopyPokes(img, data)| == 2 * (size + 4)
    ensures Stored(Apply(img, CopyPokes(img, data)[..k]), size, n', v') && OldOrNew(v', v, data)
    ensures k == 2 * (size + 4) ==>
      n' == n + 2 && v' == Some(data) && Solid(Apply(img, CopyPokes(img, data)[..k]), size, n', v')
  {
    hide Valid, Sealed, Wrap, LastWrite, Dormant, Torn, Apply, ApplyOne, Holds, MixSafe, FindNewest, CopyRecord,
      Target, Sector, Background, RecordPokes;
    var f, u := SectorFormat(size), OldOr(v, data);
    ReadsStored(img, size, n, v);
    StoredIsStore(img, size, n, v);
    WriteShape(img, size, n, v, data);
    var r, r' := CopyRecord(img, data, 0), CopyRecord(img, data, 1);
    SectorHolds(n + 1, data);
    SectorHolds(n + 2, data);
    var a, b := RecordPokes(SectorOf(n + 1), r), RecordPokes(SectorOf(n + 2), r');
    ApplyPrefix(img, a, b, k);
    if k <= |a| {
      SectorProgress(img, size, n, v, r, u, data, k);
      var cut := Apply(img, a[..k]);
      if Stored(cut, size, n, v) {
        n', v' := n, v;
      } else {
        v' := if Solid(cut, size, n + 1, Some(u)) then Some(u) else Some(data);
        n' := n + 1;
      }
    } else {
      SectorProgress(img, size, n, v, r, u, data, |a|);
      assert a[..|a|] == a;
      var first := Apply(img, a);
      SectorProgress(first, size, n + 1, Some(data), r', u, data, k - |a|);
      var cut := Apply(first, b[..k - |a|]);
      if k == |a| + |b| {
        n', v' := n + 2, Some(data);
      } else if Stored(cut, size, n + 1, Some(data)) {
        n', v' := n + 1, Some(data);
      } else {
        v' := if Solid(cut, size, n + 2, Some(u)) then Some(u) else Some(data);
        n' := n + 2;
      }
    }
  }

  lemma SectorHolds(m: int, data: Record)
    requires m >= 0 && |data| >= 1
    ensures Holds(SectorFormat(|data|), Sector(Wrap(m), data), m, data)
  {
  }

  /**
   write_data() cut off anywhere leaves the old value or the new one; completed, it leaves
   the new one.
   */
  lemma WriteIsSafe(img: Image, size: nat, n: int, v: Option<Record>, data: Record, k: nat)
    returns (n': int, v': Option<Record>)
    requires Stored(img, size, n, v) && |data| == size
    requires Unambiguous(img, data) || k == |WritePokes({}, img, data)|
    requires k <= |WritePokes({}, img, data)|
    ensures Stored(Apply(img, WritePokes({}, img, data)[..k]), size, n', v') && OldOrNew(v', v, data)
    ensures k == |WritePokes({}, img, data)| ==> v' == Some(data)
  {
    hide Valid, Sealed, Wrap, LastWrite, Dormant, Torn, Apply, ApplyOne, Holds, FindNewest, CopyRecord,
      Target, Sector, Background, RecordPokes, ClearPokes, Stale, WritePokes, CopyPokes, Unambiguous;
    StoredIsStore(img, size, n, v);
    WriteWithoutFaults(img, data);
    WriteShape(img, size, n, v, data);
    CopyPokesLength(img, data);
    var a := CopyPokes(img, data);
    var written := [SectorOf(n + 1), SectorOf(n + 2)];
    var stale := Stale(Apply(img, a), written, SECTOR_NUMBER);
    ApplyPrefix(img, a, ClearPokes(stale), k);
    if k < |a| {
      n', v' := CopiesAreSafe(img, size, n, v, data, k);
    } else {
      CopiesComplete(img, size, n, v, data);
      assert a[..|a|] == a;
      assert ClearPokes(stale)[..0] == [];
      ApplyConcat(img, a, []);
      ClearingKeepsValue(Apply(img, a), size, n + 2, Some(data), written, k - |a|);
      n', v' := n + 2, Some(data);
    }
  }

  /** The complete copies need no assumption about half-written ones. */
  lemma CopiesComplete(img: Image, size: nat, n: int, v: Option<Record>, data: Record)
    requires Stored(img, size, n, v) && |data| == size
    ensures Solid(Apply(img, CopyPokes(img, data)), size, n + 2, Some(data))
  {
    hide Valid, Sealed, Wrap, LastWrite, Dormant, Torn, Apply, ApplyOne, Holds, FindNewest, CopyRecord,
      Target, Sector, Background, RecordPokes;
    StoredIsStore(img, size, n, v);
    WriteShape(img, size, n, v, data);
    var r, r' := CopyRecord(img, data, 0), CopyRecord(img, data, 1);
    SectorHolds(n + 1, data);
    SectorHolds(n + 2, data);
    ApplyWholeRecord(img, SectorOf(n + 1), r);
    SectorTakesOver(img, size, n, v, r, data);
    var first := img[SectorOf(n + 1) := r];
    ApplyWholeRecord(first, SectorOf(n + 2), r');
    SectorTakesOver(first, size, n + 1, Some(data), r', data);
    ApplyConcat(img, RecordPokes(SectorOf(n + 1), r), RecordPokes(SectorOf(n + 2), r'));
  }

  // ---------- When half-written copies can be told apart ----------

  /** A mix of old and new bytes that passes the checksum is what a reader gets. */
  lemma SealedMixIsRead(img: Image, size: nat, n: int, v: Option<Record>, r: Record, w: Record, k: nat)
    requires Stored(img, size, n, v)
    requires |r| == size + 4 && Holds(SectorFormat(size), r, n + 1, w) && 2 <= k < 2 + size
    requires Sealed(SectorFormat(size), Partial(img[SectorOf(n + 1)], r, k))
    ensures ReadData(Apply(img, RecordPokes(SectorOf(n + 1), r)[..k]), size)
         == Some(Data(Partial(img[SectorOf(n + 1)], r, k), size))
  {
    hide Sealed, Wrap, LastWrite, Dormant, Torn, Apply, ReadData, Solid, Stored;
    StoredIsStore(img, size, n, v);
    var p := Partial(img[SectorOf(n + 1)], r, k);
    var x := Data(p, size);
    assert p[0] == r[0] && p[1] == r[1];
    ApplyRecordPokes(img, SectorOf(n + 1), r, k);
    SectorTakesOver(img, size, n, v, p, x);
    SolidIsStored(img[SectorOf(n + 1) := p], size, n + 1, Some(x));
    ReadsStored(img[SectorOf(n + 1) := p], size, n + 1, Some(x));
  }

  lemma SolidIsStored(img: Image, size: nat, n: int, v: Option<Record>)
    requires Solid(img, size, n, v)
    ensures Stored(img, size, n, v)
  {
    hide Background, NewestHolds, Dormant, Torn;
  }

  ghost predicate CutReadsAreSafe(img: Image, v: Option<Record>, data: Record) {
    forall k :: 0 <= k <= |WritePokes({}, img, data)| ==>
      OldOrNew(ReadData(Apply(img, WritePokes({}, img, data)[..k]), |data|), v, data)
  }

  /**
   A write cut off anywhere is read as the old or the new value if and only if no
   half-written copy passes for a complete sector with a third value.
   */
  lemma CutReadsAreSafeIffUnambiguous(img: Image, size: nat, n: int, v: Option<Record>, data: Record)
    requires Stored(img, size, n, v) && |data| == size
    ensures IsStore(img, size)
    ensures CutReadsAreSafe(img, v, data) <==> Unambiguous(img, data)
  {
    hide Stored, Unambiguous, WritePokes, Apply, ReadData, OldOrNew;
    StoredIsStore(img, size, n, v);
    if Unambiguous(img, data) {
      forall k | 0 <= k <= |WritePokes({}, img, data)|
        ensures OldOrNew(ReadData(Apply(img, WritePokes({}, img, data)[..k]), |data|), v, data)
      {
        var n', v' := WriteIsSafe(img, size, n, v, data, k);
        ReadsStored(Apply(img, WritePokes({}, img, data)[..k]), size, n', v');
      }
    }
    if CutReadsAreSafe(img, v, data) {
      SafeReadsAreUnambiguous(img, size, n, v, data);
    }
  }

  lemma SafeFirstCopy(img: Image, size: nat, n: int, v: Option<Record>, data: Record)
    requires Stored(img, size, n, v) && |data| == size
    requires IsStore(img, size) && CutReadsAreSafe(img, v, data)
    ensures MixSafe(SectorFormat(size), img[SectorOf(n + 1)], CopyRecord(img, data, 0), OldOr(v, data), data)
  {
    hide Valid, Sealed, Wrap, LastWrite, Dormant, Torn, Apply, ApplyOne, FindNewest, CopyRecord, Target, Sector,
      Background, RecordPokes, ClearPokes, Stale, WritePokes, ReadData, Stored, Solid;
    StoredIsStore(img, size, n, v);
    WriteShape(img, size, n, v, data);
    WriteWithoutFaults(img, data);
    SectorHolds(n + 1, data);
    var f, i, r := SectorFormat(size), SectorOf(n + 1), CopyRecord(img, data, 0);
    var a, all, u := RecordPokes(i, r), WritePokes({}, img, data), OldOr(v, data);
    forall k | 2 <= k < 2 + f.valueLength && Sealed(f, Partial(img[i], r, k))
      ensures Value(f, Partial(img[i], r, k)) == u || Value(f, Partial(img[i], r, k)) == data
    {
      SealedMixIsRead(img, size, n, v, r, data, k);
      assert all[..k] == a[..k];
    }
  }

  lemma SafeSecondCopy(img: Image, size: nat, n: int, v: Option<Record>, data: Record)
    requires Stored(img, size, n, v) && |data| == size
    requires IsStore(img, size) && CutReadsAreSafe(img, v, data)
    ensures MixSafe(SectorFormat(size), img[SectorOf(n + 2)], CopyRecord(img, data, 1), OldOr(v, data), data)
  {
    hide Valid, Sealed, Wrap, LastWrite, Dormant, Torn, Apply, ApplyOne, FindNewest, CopyRecord, Target, Sector,
      Background, RecordPokes, ClearPokes, Stale, WritePokes, ReadData, Stored, Solid;
    StoredIsStore(img, size, n, v);
    WriteShape(img, size, n, v, data);
    WriteWithoutFaults(img, data);
    SectorHolds(n + 1, data);
    SectorHolds(n + 2, data);
    var f, i, i' := SectorFormat(size), SectorOf(n + 1), SectorOf(n + 2);
    var r, r', u := CopyRecord(img, data, 0), CopyRecord(img, data, 1), OldOr(v, data);
    var a, b, all := RecordPokes(i, r), RecordPokes(i', r'), WritePokes({}, img, data);
    ApplyWholeRecord(img, i, r);
    var first := img[i := r];
    SectorTakesOver(img, size, n, v, r, data);
    SolidIsStored(first, size, n + 1, Some(data));
    forall k | 2 <= k < 2 + f.valueLength && Sealed(f, Partial(img[i'], r', k))
      ensures Value(f, Partial(img[i'], r', k)) == u || Value(f, Partial(img[i'], r', k)) == data
    {
      SealedMixIsRead(first, size, n + 1, Some(data), r', data, k);
      ApplyConcat(img, a, b[..k]);
      assert all[..|a| + k] == a + b[..k];
    }
  }

  lemma SafeReadsAreUnambiguous(img: Image, size: nat, n: int, v: Option<Record>, data: Record)
    requires Stored(img, size, n, v) && |data| == size
    requires IsStore(img, size) && CutReadsAreSafe(img, v, data)
    ensures Unambiguous(img, data)
  {
    hide Valid, Stored, MixSafe, ReadData, FindNewest, CopyRecord, Target, CutReadsAreSafe;
    ReadsStored(img, size, n, v);
    WriteShape(img, size, n, v, data);
    SafeFirstCopy(img, size, n, v, data);
    SafeSecondCopy(img, size, n, v, data);
  }

  // ---------- One-byte values: the node id ----------

  /** Writing a one-byte value is never ambiguous. */
  lemma OneByteIsUnambiguous(img: Image, n: int, v: Option<Record>, data: Record)
    requires Stored(img, 1, n, v) && |data| == 1
    ensures IsStore(img, 1) && Unambiguous(img, data)
  {
    hide Valid, Sealed, Wrap, LastWrite, Dormant, Torn, Apply, FindNewest, CopyRecord, Target, Sector, Holds,
      MixSafe, ReadData;
    EverySizeFormat(1);
    StoredIsStore(img, 1, n, v);
    WriteShape(img, 1, n, v, data);
    SectorHolds(n + 1, data);
    SectorHolds(n + 2, data);
    SectorsAdvance(n, SectorOf(n + 2));
    SectorsAdvance(n + 1, SectorOf(n + 2));
    var f, u := SectorFormat(1), OldOr(ReadData(img, 1), data);
    SingleByteMixSafe(f, LAP, img[SectorOf(n + 1)], CopyRecord(img, data, 0), n + 1, u, data);
    SingleByteMixSafe(f, LAP, img[SectorOf(n + 2)], CopyRecord(img, data, 1), n + 2, u, data);
  }

  // ---------- Whole runs ----------

  datatype Event =
    | Write(data: Record)
    | CutWrite(data: Record, k: nat)
    | Start
    | CutStart(k: nat)

  /** The byte writes of the operation an event is about. */
  function EventPokes(size: nat, img: Image, ev: Event): seq<Poke> {
    match ev
    case Write(data) => WritePokes({}, img, data)
    case CutWrite(data, _) => WritePokes({}, img, data)
    case Start => RefreshPokes({}, img, size)
    case CutStart(_) => RefreshPokes({}, img, size)
  }

  ghost predicate Step(size: nat, img: Image, ev: Event, img': Image) {
    var ps := EventPokes(size, img, ev);
    match ev
    case Write(data) => |data| == size && img' == Apply(img, ps)
    case CutWrite(data, k) => |data| == size && k <= |ps| && img' == Apply(img, ps[..k])
    case Start => img' == Apply(img, ps)
    case CutStart(k) => k <= |ps| && img' == Apply(img, ps[..k])
  }

  /** The condition for an operation that is cut off; a start that finds nothing to refresh needs none. */
  ghost predicate Careful(size: nat, img: Image, ev: Event) {
    match ev
    case CutWrite(data, _) => IsStore(img, |data|) ==> Unambiguous(img, data)
    case CutStart(_) =>
      var v := ReadData(img, size);
      IsStore(img, size) && RefreshPokes({}, img, size) != [] && v.Some? && |v.value| == size ==>
        Unambiguous(img, v.value)
    case _ => true
  }

  ghost predicate Run(size: nat, states: seq<Image>, events: seq<Event>) {
    && 1 <= size <= 255 && |states| == |events| + 1
    && states[0] == seq(SECTOR_NUMBER, _ => Erased(size + 4))
    && forall i :: 0 <= i < |events| ==> Step(size, states[i], events[i], states[i + 1])
  }

  /** Values of one byte need no condition, longer ones that no half-written copy passes for a third value. */
  ghost predicate Distinguishable(size: nat, states: seq<Image>, events: seq<Event>) {
    size == 1 || forall i :: 0 <= i < |events| && i < |states| ==> Careful(size, states[i], events[i])
  }

  /** A register whose writes happen completely or, if the power fails, possibly not at all. */
  ghost predicate RegisterStep(v: Option<Record>, ev: Event, v': Option<Record>) {
    match ev
    case Write(data) => v' == Some(data)
    case CutWrite(data, _) => v' == v || v' == Some(data)
    case Start => v' == v
    case CutStart(_) => v' == v
  }

  lemma FactoryState(size: nat)
    requires 1 <= size <= 255
    ensures Stored(seq(SECTOR_NUMBER, _ => Erased(size + 4)), size, -1, None)
  {
    hide Sealed, Wrap;
    var img: Image := seq(SECTOR_NUMBER, _ => Erased(size + 4));
    forall i | 0 <= i < SECTOR_NUMBER
      ensures |img[i]| == size + 4 && img[i][1..] == Erased(size + 3) && LastWrite(-1, i) < 0
    {
      SectorsAdvance(-1, i);
    }
  }

  /** The refresh at start writes nothing, or the value it has read. */
  lemma RefreshIsSafe(img: Image, size: nat, n: int, v: Option<Record>, k: nat) returns (n': int)
    requires Stored(img, size, n, v)
    requires k <= |RefreshPokes({}, img, size)|
    requires Careful(size, img, CutStart(k)) || k == |RefreshPokes({}, img, size)|
    ensures Stored(Apply(img, RefreshPokes({}, img, size)[..k]), size, n', v)
  {
    hide Stored, WritePokes, Unambiguous, IsHealthy, FindNewest;
    ReadsStored(img, size, n, v);
    StoredIsStore(img, size, n, v);
    if RefreshPokes({}, img, size) == [] {
      n' := n;
    } else {
      var v';
      n', v' := WriteIsSafe(img, size, n, v, v.value, k);
    }
  }

  lemma StepKeepsInvariant(size: nat, img: Image, ev: Event, img': Image, n: int, v: Option<Record>)
    returns (n': int, v': Option<Record>)
    requires Stored(img, size, n, v)
    requires Step(size, img, ev, img') && Careful(size, img, ev)
    ensures Stored(img', size, n', v') && RegisterStep(v, ev, v')
  {
    hide Stored, WritePokes, RefreshPokes, Unambiguous, Apply, ReadData;
    StoredIsStore(img, size, n, v);
    var ps := EventPokes(size, img, ev);
    assert ps[..|ps|] == ps;
    match ev
    case Write(data) =>
      n', v' := WriteIsSafe(img, size, n, v, data, |ps|);
    case CutWrite(data, k) =>
      n', v' := WriteIsSafe(img, size, n, v, data, k);
    case Start =>
      n' := RefreshIsSafe(img, size, n, v, |ps|);
      v' := v;
    case CutStart(k) =>
      n' := RefreshIsSafe(img, size, n, v, k);
      v' := v;
  }

  lemma OneByteIsCareful(img: Image, ev: Event, n: int, v: Option<Record>)
    requires Stored(img, 1, n, v)
    requires ev.CutWrite? ==> |ev.data| == 1
    ensures Careful(1, img, ev)
  {
    hide Stored, Unambiguous, ReadData;
    match ev
    case CutWrite(data, _) =>
      OneByteIsUnambiguous(img, n, v, data);
    case CutStart(_) =>
      var u := ReadData(img, 1);
      if u.Some? && |u.value| == 1 {
        OneByteIsUnambiguous(img, n, v, u.value);
      }
    case _ =>
  }

  lemma {:induction false} RunKeepsInvariant(size: nat, states: seq<Image>, events: seq<Event>, i: nat)
    returns (n: int, v: Option<Record>)
    requires Run(size, states, events) && Distinguishable(size, states, events) && i <= |events|
    ensures Stored(states[i], size, n, v)
    ensures i < |events| ==> Careful(size, states[i], events[i])
  {
    hide Stored, Careful, EventPokes, Apply;
    if i == 0 {
      FactoryState(size);
      n, v := -1, None;
    } else {
      var m, u := RunKeepsInvariant(size, states, events, i - 1);
      n, v := StepKeepsInvariant(size, states[i - 1], events[i - 1], states[i], m, u);
    }
    if size == 1 && i < |events| {
      assert Step(size, states[i], events[i], states[i + 1]);
      OneByteIsCareful(states[i], events[i], n, v);
    }
  }

  /**
   Over every run, whatever is cut off and wherever, the value read_data() returns changes
   exactly like the register. For a node id (one byte) this needs no condition at all.
   */
  lemma ReadDataIsAtomicRegister(size: nat, states: seq<Image>, events: seq<Event>, i: nat)
    requires Run(size, states, events) && Distinguishable(size, states, events) && i < |events|
    ensures RegisterStep(ReadData(states[i], size), events[i], ReadData(states[i + 1], size))
    ensures ReadData(states[0], size) == None
  {
    hide Stored, Careful, EventPokes, Apply, ReadData, Distinguishable, RegisterStep;
    var n, v := RunKeepsInvariant(size, states, events, i);
    var n', v' := StepKeepsInvariant(size, states[i], events[i], states[i + 1], n, v);
    ReadsStored(states[i], size, n, v);
    ReadsStored(states[i + 1], size, n', v');
    FactoryState(size);
    ReadsStored(states[0], size, -1, None);
  }

  /** In every reachable state the write numbers of the valid sectors are within 15 of each other, far inside 112. */
  lemma NumbersStayWithinOneLap(size: nat, states: seq<Image>, events: seq<Event>, i: nat) returns (numbers: seq<int>)
    requires Run(size, states, events) && Distinguishable(size, states, events) && i <= |events|
    ensures Numbered(Counters(states[i], size), numbers, LAP - 1)
  {
    hide Stored, Careful, EventPokes, Apply, Distinguishable, Numbered;
    var n, v := RunKeepsInvariant(size, states, events, i);
    numbers := NumbersAreRight(states[i], size, n, v);
  }
}
