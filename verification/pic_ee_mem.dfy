/**
 The PIC sector store as functions on EEPROM images: sixteen sectors of a value of `size`
 bytes, every write stored in the two sectors after the newest one. Cells may be faulty:
 writing a cell in `bad` changes nothing, and a sector with such a cell can fail to verify.
 */
module PicEeMem {
  import opened Bytes
  import opened Options
  import opened ByteWrites
  import opened CyclicCounters
  import opened Records
  import Crc16

  const MAGIC_BYTE: byte := 0xa5
  const SECTOR_NUMBER := 16

  /** magic, counter, the data, crc (high byte first) */
  function SectorFormat(size: nat): Format {
    Format(MAGIC_BYTE, false, size, size)
  }

  /** A sector is valid exactly if it starts with 0xa5 and the CRC over all its bytes is zero. */
  lemma SectorResidue(r: Record, size: nat)
    requires |r| == size + 4
    ensures Valid(SectorFormat(size), r) <==> r[0] == 0xa5 && Crc16.Checksum(r) == 0
  {
    hide Valid, Crc16.Checksum;
    ValidIffResidue(SectorFormat(size), r);
    assert HighByteFirst(SectorFormat(size), r) == r;
  }

  /** Sixteen sectors of a value whose size fits in eight bits. */
  ghost predicate IsStore(img: Image, size: nat) {
    1 <= size <= 255 && Shaped(img, SECTOR_NUMBER, size + 4)
  }

  function Counters(img: Image, size: nat): (s: seq<Option<byte>>)
    ensures |s| == |img|
    ensures forall i :: 0 <= i < |img| ==>
      s[i] == if Valid(SectorFormat(size), img[i]) then Some(img[i][1]) else None
  {
    seq(|img|, i requires 0 <= i < |img| => if Valid(SectorFormat(size), img[i]) then Some(img[i][1]) else None)
  }

  /** The sector find_newest_sector() returns, or -1. */
  function FindNewest(img: Image, size: nat): (p: int)
    ensures -1 <= p < |img|
    ensures p >= 0 ==> Valid(SectorFormat(size), img[p])
    ensures p < 0 ==> forall i :: 0 <= i < |img| ==> !Valid(SectorFormat(size), img[i])
  {
    Newest(CounterGreat, Counters(img, size), |img|)
  }

  /** The number of valid sectors among the first `n`. */
  function CountValid(img: Image, size: nat, n: nat): (c: nat)
    requires n <= |img|
    ensures c <= n
  {
    if n == 0 then 0 else CountValid(img, size, n - 1) + if Valid(SectorFormat(size), img[n - 1]) then 1 else 0
  }

  function Data(r: Record, size: nat): (d: Record)
    requires |r| == size + 4
    ensures |d| == size
  {
    r[2..2 + size]
  }

  /** read_data(): the value of the newest valid sector. */
  function ReadData(img: Image, size: nat): Option<Record> {
    var p := FindNewest(img, size);
    if p < 0 then None else Some(Data(img[p], size))
  }

  // ---------- write_data() ----------

  /** The copies made so far: all byte writes, and the sectors that verified. */
  datatype Copies = Copies(pokes: seq<Poke>, written: seq<nat>)

  function NextCounter(img: Image, size: nat): byte {
    var p := FindNewest(img, size);
    if p < 0 then 0 else Wrap(img[p][1] as int + 1)
  }

  function Sector(counter: byte, data: Record): (r: Record)
    ensures Valid(SectorFormat(|data|), r) && r[1] == counter && Data(r, |data|) == data
  {
    MakeRecord(SectorFormat(|data|), counter, data)
  }

  /** The sector of attempt `j`, counted from the one after the newest. */
  function Target(newest: int, j: nat): (i: nat)
    requires newest >= -1
    ensures i < SECTOR_NUMBER
  {
    (newest + 1 + j) % SECTOR_NUMBER
  }

  /** The sector record is written to attempt number `j`. */
  function CopyRecord(img: Image, data: Record, copies: nat): (r: Record)
    ensures |r| == |data| + 4
  {
    Sector(Wrap(NextCounter(img, |data|) as int + copies), data)
  }

  /** The first `j` attempts to place a copy, stopping after the second one that verifies. */
  function WriteCopies(bad: Faults, img: Image, data: Record, j: nat): (c: Copies)
    ensures |c.written| <= 2
    ensures forall k :: 0 <= k < |c.written| ==> c.written[k] < SECTOR_NUMBER
  {
    if j == 0 then Copies([], [])
    else
      var c := WriteCopies(bad, img, data, j - 1);
      if |c.written| == 2 then c
      else
        var i := Target(FindNewest(img, |data|), j - 1);
        var r := CopyRecord(img, data, |c.written|);
        var pokes := c.pokes + Working(bad, RecordPokes(i, r));
        var after := Apply(img, pokes);
        Copies(pokes, if i < |after| && after[i] == r then c.written + [i] else c.written)
  }

  /** The sectors to invalidate: not one of the two copies, with a magic byte. */
  function Stale(img: Image, written: seq<nat>, n: nat): (es: seq<nat>)
    requires n <= |img|
    ensures forall e :: e in es <==>
      0 <= e < n && e !in written && |img[e]| > 0 && img[e][0] == MAGIC_BYTE
    ensures forall i :: 0 <= i < |es| ==> es[i] < n
  {
    if n == 0 then []
    else
      var front := Stale(img, written, n - 1);
      if n - 1 !in written && |img[n - 1]| > 0 && img[n - 1][0] == MAGIC_BYTE then front + [n - 1] else front
  }

  function InvalidatePokes(bad: Faults, img: Image, written: seq<nat>): seq<Poke> {
    Working(bad, ClearPokes(Stale(img, written, |img|)))
  }

  function WritePokes(bad: Faults, img: Image, data: Record): seq<Poke> {
    var c := WriteCopies(bad, img, data, SECTOR_NUMBER);
    if |c.written| == 2 then c.pokes + InvalidatePokes(bad, Apply(img, c.pokes), c.written) else c.pokes
  }

  // ---------- read_data_and_refresh() ----------

  /** What the loop over the first `n` sectors concludes about the second copy. */
  function SecondCopyFound(img: Image, size: nat, p: nat, n: nat): bool
    requires n <= |img| && p < |img| && |img[p]| == size + 4
  {
    if n == 0 then false
    else if n - 1 == p || !Valid(SectorFormat(size), img[n - 1]) then SecondCopyFound(img, size, p, n - 1)
    else if img[n - 1][1] == Wrap(img[p][1] as int - 1) then Data(img[n - 1], size) == Data(img[p], size)
    else SecondCopyFound(img, size, p, n - 1)
  }

  predicate IsHealthy(img: Image, size: nat, p: nat)
    requires p < |img| && |img[p]| == size + 4
  {
    CountValid(img, size, |img|) == 2 && SecondCopyFound(img, size, p, |img|)
  }

  function RefreshPokes(bad: Faults, img: Image, size: nat): seq<Poke> {
    var p := FindNewest(img, size);
    if p < 0 || IsHealthy(img, size, p) then [] else WritePokes(bad, img, Data(img[p], size))
  }
}
