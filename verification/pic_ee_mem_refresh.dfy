/**
 When a start has to write: read_data_and_refresh() leaves two copies of the value it read,
 whatever the store held before, and writes nothing only if they are there already.
 */
module PicEeMemRefresh {
  import opened Bytes
  import opened Options
  import opened ByteWrites
  import opened CyclicCounters
  import opened Records
  import opened PicEeMem
  import opened PicEeMemCopies
  import opened PicEeMemRuns

  /** Two copies of `data` with consecutive counters, and no other valid sector. */
  ghost predicate HoldsPair(img: Image, data: Record) {
    exists i: nat, i': nat, counter: byte :: Pair(img, data, i, i', counter)
  }

  /** A valid sector is the record of its counter and its data. */
  lemma ValidIsSector(r: Record, size: nat)
    requires Valid(SectorFormat(size), r)
    ensures r == Sector(r[1], Data(r, size))
  {
    var message := [MAGIC_BYTE, r[1]] + Data(r, size);
    assert r[..size + 2] == message;
    assert r == r[..size + 2] + r[size + 2..];
  }

  // ---------- A healthy store is a pair ----------

  lemma {:induction false} CountOfOne(img: Image, size: nat, i: nat, n: nat)
    requires i < n <= |img| && Valid(SectorFormat(size), img[i])
    ensures CountValid(img, size, n) >= 1
  {
    hide Valid;
    if i < n - 1 {
      CountOfOne(img, size, i, n - 1);
    }
  }

  lemma {:induction false} CountOfTwo(img: Image, size: nat, i: nat, j: nat, n: nat)
    requires i < j < n <= |img| && Valid(SectorFormat(size), img[i]) && Valid(SectorFormat(size), img[j])
    ensures CountValid(img, size, n) >= 2
  {
    hide Valid;
    if j == n - 1 {
      CountOfOne(img, size, i, n - 1);
    } else {
      CountOfTwo(img, size, i, j, n - 1);
    }
  }

  lemma {:induction false} CountOfThree(img: Image, size: nat, i: nat, j: nat, k: nat, n: nat)
    requires i < j < k < n <= |img|
    requires Valid(SectorFormat(size), img[i]) && Valid(SectorFormat(size), img[j]) && Valid(SectorFormat(size), img[k])
    ensures CountValid(img, size, n) >= 3
  {
    hide Valid;
    if k == n - 1 {
      CountOfTwo(img, size, i, j, n - 1);
    } else {
      CountOfThree(img, size, i, j, k, n - 1);
    }
  }

  /** With two valid sectors no third one is valid. */
  lemma OnlyTwo(img: Image, size: nat, i: nat, j: nat, k: nat)
    requires i < |img| && j < |img| && k < |img| && i != j && i != k && j != k
    requires Valid(SectorFormat(size), img[i]) && Valid(SectorFormat(size), img[j])
    requires CountValid(img, size, |img|) == 2
    ensures !Valid(SectorFormat(size), img[k])
  {
    hide Valid, CountValid;
    if Valid(SectorFormat(size), img[k]) {
      var low, high := if i < j then i else j, if i < j then j else i;
      if k < low {
        CountOfThree(img, size, k, low, high, |img|);
      } else if k < high {
        CountOfThree(img, size, low, k, high, |img|);
      } else {
        CountOfThree(img, size, low, high, k, |img|);
      }
    }
  }

  /** The second copy the loop found. */
  lemma {:induction false} SecondCopyIs(img: Image, size: nat, p: nat, n: nat) returns (i: nat)
    requires n <= |img| && p < |img| && |img[p]| == size + 4 && SecondCopyFound(img, size, p, n)
    ensures i < n && i != p && Valid(SectorFormat(size), img[i])
    ensures img[i][1] == Wrap(img[p][1] as int - 1) && Data(img[i], size) == Data(img[p], size)
  {
    hide Valid, Wrap, Data;
    if n - 1 != p && Valid(SectorFormat(size), img[n - 1]) && img[n - 1][1] == Wrap(img[p][1] as int - 1) {
      i := n - 1;
    } else {
      i := SecondCopyIs(img, size, p, n - 1);
    }
  }

  lemma HealthyIsPair(img: Image, size: nat)
    requires IsStore(img, size) && FindNewest(img, size) >= 0 && IsHealthy(img, size, FindNewest(img, size))
    ensures ReadData(img, size).Some? && HoldsPair(img, ReadData(img, size).value)
  {
    hide Valid, Sector, CountValid, SecondCopyFound, FindNewest;
    var p := FindNewest(img, size);
    var i := SecondCopyIs(img, size, p, |img|);
    forall k | 0 <= k < SECTOR_NUMBER && k != i && k != p
      ensures !Valid(SectorFormat(size), img[k])
    {
      OnlyTwo(img, size, i, p, k);
    }
    ValidIsSector(img[i], size);
    ValidIsSector(img[p], size);
    CounterGoesOn(img[p][1]);
    assert Pair(img, Data(img[p], size), i, p, img[i][1]);
  }

  lemma CounterGoesOn(counter: byte)
    ensures Wrap(Wrap(counter as int - 1) as int + 1) == counter
  {
  }

  // ---------- What a refresh does ----------

  lemma SomethingIsWritten(img: Image, data: Record)
    requires IsStore(img, |data|)
    ensures WritePokes({}, img, data) != []
  {
    hide FindNewest, CopyRecord, Target, WritePokes, CopyPokes;
    WriteWithoutFaults(img, data);
    CopyPokesLength(img, data);
  }

  /**
   From any contents: a refresh writes nothing exactly if there is nothing to refresh, or two
   copies of the value read, with consecutive counters, are the only valid sectors.
   */
  lemma RefreshIsIdleIff(img: Image, size: nat)
    requires IsStore(img, size)
    ensures var v := ReadData(img, size);
      RefreshPokes({}, img, size) == [] <==> v == None || HoldsPair(img, v.value)
  {
    hide Valid, IsHealthy, FindNewest, WritePokes, Pair;
    var v, p := ReadData(img, size), FindNewest(img, size);
    if p >= 0 {
      if IsHealthy(img, size, p) {
        HealthyIsPair(img, size);
      } else {
        SomethingIsWritten(img, v.value);
      }
      if HoldsPair(img, v.value) {
        var i: nat, i': nat, counter: byte :| Pair(img, v.value, i, i', counter);
        PairIsHealthy({}, img, v.value, i, i', counter);
      }
    }
  }

  /** From any contents in which something can be read: a refresh leaves exactly two copies of it. */
  lemma RefreshLeavesPair(img: Image, size: nat)
    requires IsStore(img, size) && ReadData(img, size).Some?
    ensures var v := ReadData(img, size).value;
      HoldsPair(Apply(img, RefreshPokes({}, img, size)), v)
    ensures ReadData(Apply(img, RefreshPokes({}, img, size)), size) == ReadData(img, size)
  {
    hide Valid, IsHealthy, FindNewest, WritePokes, Apply, Pair;
    var v, p := ReadData(img, size).value, FindNewest(img, size);
    if IsHealthy(img, size, p) {
      HealthyIsPair(img, size);
      NothingApplied(img);
    } else {
      OtherSectors(p);
      WriteThenRead({}, img, v, (p + 1) % SECTOR_NUMBER, (p + 2) % SECTOR_NUMBER);
    }
  }

  lemma NothingApplied(img: Image)
    ensures Apply(img, []) == img
  {
  }

  lemma OtherSectors(p: int)
    requires 0 <= p < SECTOR_NUMBER
    ensures var i, i' := (p + 1) % SECTOR_NUMBER, (p + 2) % SECTOR_NUMBER; i != i' && i != p && i' != p
  {
  }
}
