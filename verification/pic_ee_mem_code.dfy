/**
 The functions of the PIC sector store as they work on the EEPROM, loop by loop, proved to
 make exactly the byte updates of the specification in the same order.
 */
module PicEeMemCode {
  import opened Bytes
  import opened Options
  import opened ByteWrites
  import opened CyclicCounters
  import opened Records
  import opened PicEeMem
  import opened PicEeMemCopies
  import opened Eeproms
  import Crc16

  const USER_BASE := 0x80
  const NODE_ID_BASE := 0x100

  function RoundUp4(x: nat): (r: nat)
    ensures x <= r < x + 4 && r % 4 == 0
  {
    (x + 3) / 4 * 4
  }

  /** The distance between neighbouring sectors. */
  function Stride(size: nat): (s: nat)
    ensures size + 4 <= s < size + 8
  {
    RoundUp4(size) + 4
  }

  /** Sectors are interleaved: the next write never goes to a neighbouring sector. */
  function Position(offset: nat): (p: nat)
    ensures p < SECTOR_NUMBER
  {
    (offset * 3) % 16
  }

  function SectorAddress(base: nat, offset: nat, size: nat): nat {
    base + Position(offset) * Stride(size)
  }

  function Sectors(base: nat, size: nat): (l: Layout)
    ensures |l.starts| == SECTOR_NUMBER && l.size == size + 4
    ensures forall i :: 0 <= i < SECTOR_NUMBER ==> l.starts[i] == SectorAddress(base, i, size)
  {
    Layout(seq(SECTOR_NUMBER, i requires 0 <= i < SECTOR_NUMBER => SectorAddress(base, i, size)), size + 4)
  }

  // ---------- Layout ----------

  lemma PositionCases(i: nat)
    requires i < SECTOR_NUMBER
    ensures Position(i) == if i <= 5 then 3 * i else if i <= 10 then 3 * i - 16 else 3 * i - 32
  {
  }

  lemma Remainder16(i: nat, laps: int)
    requires i < 16
    ensures (i + 16 * laps) % 16 == i
  {
  }

  /** Eleven undoes three: every position is taken by one sector. */
  lemma PositionInverse(i: nat)
    requires i < SECTOR_NUMBER
    ensures (11 * Position(i)) % SECTOR_NUMBER == i
  {
    hide Position;
    PositionCases(i);
    var k := if i <= 5 then 0 else if i <= 10 then 1 else 2;
    assert 11 * Position(i) == i + 16 * (2 * i - 11 * k);
    Remainder16(i, 2 * i - 11 * k);
  }

  /** The sector at position p is number (11 p) mod 16. */
  lemma SectorAtPosition(p: nat)
    requires p < SECTOR_NUMBER
    ensures Position((11 * p) % SECTOR_NUMBER) == p
  {
    hide Position;
    var i := (11 * p) % SECTOR_NUMBER;
    PositionCases(i);
    var k := (11 * p) / 16;
    assert 11 * p == 16 * k + i;
    assert 3 * i == p + 16 * (2 * p - 3 * k);
    Remainder16(p, 2 * p - 3 * k);
    TripleRemainder(i);
  }

  lemma TripleRemainder(i: nat)
    requires i < SECTOR_NUMBER
    ensures Position(i) == (3 * i) % 16
  {
  }

  /** Multiplying by three permutes the sixteen positions. */
  lemma InterleaveIsPermutation(i: nat, j: nat)
    requires i < SECTOR_NUMBER && j < SECTOR_NUMBER
    ensures Position(i) == Position(j) <==> i == j
    ensures exists k: nat :: k < SECTOR_NUMBER && Position(k) == i
  {
    hide Position;
    PositionInverse(i);
    PositionInverse(j);
    SectorAtPosition(i);
  }

  /** The sector of the next write is three positions further, so it is never a neighbour of the last one. */
  lemma NextSectorIsThreeFurther(i: nat)
    requires i < SECTOR_NUMBER
    ensures Position(0) == 0 && Position((i + 1) % SECTOR_NUMBER) == (Position(i) + 3) % SECTOR_NUMBER
  {
    hide Position;
    PositionCases(0);
    PositionCases(i);
    PositionCases((i + 1) % SECTOR_NUMBER);
  }

  lemma {:induction false} Multiples(a: nat, b: nat, stride: nat)
    requires a < b
    ensures a * stride + stride <= b * stride
    decreases b - a
  {
    if a + 1 < b {
      Multiples(a + 1, b, stride);
    }
  }

  /** Sectors are as close as multiples of four bytes allow, and from an aligned base each starts at one. */
  lemma SectorsAreAligned(base: nat, offset: nat, size: nat)
    requires base % 4 == 0
    ensures Stride(size) % 4 == 0 && size + 4 <= Stride(size) < size + 8
    ensures SectorAddress(base, offset, size) % 4 == 0
  {
    hide Position;
    var p, q := Position(offset), Stride(size) / 4;
    assert p * Stride(size) == 4 * (p * q);
  }

  /** Sectors of any size never overlap and span sixteen strides from the base. */
  lemma SectorsFit(base: nat, size: nat, length: nat)
    requires base + SECTOR_NUMBER * Stride(size) <= length
    ensures Sectors(base, size).Fits(length)
    ensures forall address: nat :: Sectors(base, size).Owns(address) ==>
      base <= address < base + SECTOR_NUMBER * Stride(size)
  {
    hide Position, Stride;
    var l := Sectors(base, size);
    forall i | 0 <= i < SECTOR_NUMBER
      ensures base <= l.starts[i] && l.starts[i] + l.size <= base + SECTOR_NUMBER * Stride(size)
    {
      Multiples(Position(i), SECTOR_NUMBER, Stride(size));
    }
    forall d, e | 0 <= d < e < SECTOR_NUMBER
      ensures l.starts[d] + l.size <= l.starts[e] || l.starts[e] + l.size <= l.starts[d]
    {
      InterleaveIsPermutation(d, e);
      if Position(d) < Position(e) {
        Multiples(Position(d), Position(e), Stride(size));
      } else {
        Multiples(Position(e), Position(d), Stride(size));
      }
    }
  }

  /**
   Application data at USER_BASE shares no cell with the node id at NODE_ID_BASE exactly
   when it is at most four bytes long.
   */
  lemma UserDataIsSeparate(size: nat)
    requires size >= 1
    ensures size <= 4 <==>
      forall address: nat :: !(Sectors(USER_BASE, size).Owns(address) && Sectors(NODE_ID_BASE, 1).Owns(address))
  {
    var user, id := Sectors(USER_BASE, size), Sectors(NODE_ID_BASE, 1);
    hide Position, Stride, Sectors;
    StrideOfSize(size);
    SectorsFit(USER_BASE, size, USER_BASE + SECTOR_NUMBER * Stride(size));
    SectorsFit(NODE_ID_BASE, 1, NODE_ID_BASE + SECTOR_NUMBER * Stride(1));
    if size > 4 {
      SharedCell(size);
    }
  }

  /**
   So no operations on user data of at most four bytes, however many, change what the node
   id store reads, and the other way round.
   */
  lemma StoresDoNotInterfere(m: Memory, size: nat, ps: seq<Poke>, qs: seq<Poke>)
    requires 1 <= size <= 4 && NODE_ID_BASE + 128 <= |m|
    requires Sectors(USER_BASE, size).Covers(ps) && Sectors(NODE_ID_BASE, 1).Covers(qs)
    ensures Sectors(USER_BASE, size).Fits(|m|) && Sectors(NODE_ID_BASE, 1).Fits(|m|)
    ensures var user, id := Sectors(USER_BASE, size), Sectors(NODE_ID_BASE, 1);
      && id.View(Replay(m, user.Flatten(ps))) == id.View(m)
      && user.View(Replay(m, id.Flatten(qs))) == user.View(m)
  {
    hide Position, Stride, Sectors;
    var user, id := Sectors(USER_BASE, size), Sectors(NODE_ID_BASE, 1);
    StrideOfSize(size);
    StrideOfSize(1);
    SectorsFit(USER_BASE, size, |m|);
    SectorsFit(NODE_ID_BASE, 1, |m|);
    UserDataIsSeparate(size);
    ViewIsKept(user, id, m, ps);
    ViewIsKept(id, user, m, qs);
  }

  /** Writes to the cells of one layout leave the records of a disjoint one alone. */
  lemma ViewIsKept(written: Layout, other: Layout, m: Memory, ps: seq<Poke>)
    requires written.Covers(ps) && other.Fits(|m|)
    requires forall address: nat :: !(written.Owns(address) && other.Owns(address))
    ensures other.View(Replay(m, written.Flatten(ps))) == other.View(m)
  {
    hide *;
    var r := Replay(m, written.Flatten(ps));
    var img, img' := other.View(m), other.View(r);
    ShapeOf(img, other);
    ShapeOf(img', other);
    forall e | 0 <= e < |other.starts|
      ensures img'[e] == img[e]
    {
      EntryIsKept(written, other, m, ps, e);
    }
  }

  lemma ShapeOf(img: Image, l: Layout)
    requires Shaped(img, |l.starts|, l.size)
    ensures |img| == |l.starts|
  {
  }

  lemma EntryIsKept(written: Layout, other: Layout, m: Memory, ps: seq<Poke>, e: nat)
    requires written.Covers(ps) && other.Fits(|m|) && e < |other.starts|
    requires forall address: nat :: !(written.Owns(address) && other.Owns(address))
    ensures var r := Replay(m, written.Flatten(ps)); other.Fits(|r|) && other.View(r)[e] == other.View(m)[e]
  {
    hide Replay, Layout.Flatten, Layout.Covers, Layout.View;
    var start, r := other.starts[e], Replay(m, written.Flatten(ps));
    forall address | start <= address < start + other.size
      ensures r[address] == m[address]
    {
      assert other.Owns(address);
      written.ReplayKeepsTheRest(m, ps, address);
    }
  }

  lemma StrideOfSize(size: nat)
    requires size >= 1
    ensures size <= 4 ==> Stride(size) == 8
    ensures size > 4 ==> Stride(size) >= 12 && Stride(size) % 4 == 0
    ensures Stride(size) >= size + 4
  {
  }

  /** The first cell of the node id lies in a user sector as soon as those are longer than eight bytes. */
  lemma SharedCell(size: nat)
    requires size > 4
    ensures Sectors(USER_BASE, size).Owns(NODE_ID_BASE) && Sectors(NODE_ID_BASE, 1).Owns(NODE_ID_BASE)
  {
    hide Position, Stride, Layout.Owns, SectorAddress, Sectors;
    StrideOfSize(size);
    var p := PositionReaching128(Stride(size));
    var i := SectorAt(USER_BASE, size, p);
    FirstSector(NODE_ID_BASE, 1);
    SectorOwns(USER_BASE, size, i, NODE_ID_BASE);
    SectorOwns(NODE_ID_BASE, 1, 0, NODE_ID_BASE);
  }

  lemma SectorAt(base: nat, size: nat, p: nat) returns (i: nat)
    requires p < SECTOR_NUMBER
    ensures i < SECTOR_NUMBER && SectorAddress(base, i, size) == base + p * Stride(size)
  {
    hide Position, Stride;
    SectorAtPosition(p);
    i := (11 * p) % SECTOR_NUMBER;
  }

  lemma FirstSector(base: nat, size: nat)
    ensures SectorAddress(base, 0, size) == base
  {
    PositionCases(0);
  }

  lemma SectorOwns(base: nat, size: nat, i: nat, address: nat)
    requires i < SECTOR_NUMBER
    requires SectorAddress(base, i, size) <= address < SectorAddress(base, i, size) + size + 4
    ensures Sectors(base, size).Owns(address)
  {
    hide SectorAddress;
    assert Sectors(base, size).starts[i] == SectorAddress(base, i, size);
  }

  /** A multiple of four bytes at a time, some position reaches byte 128 within its sector. */
  lemma PositionReaching128(s: nat) returns (p: nat)
    requires s % 4 == 0 && s >= 12
    ensures p <= 10 && p * s <= 128 <= p * s + s - 4
  {
    var m;
    p, m := MultipleReaching32(s / 4, 0, 0);
    FourTimes(p, s / 4, m);
  }

  lemma FourTimes(p: nat, q: nat, m: nat)
    requires m == p * q
    ensures p * (4 * q) == 4 * m
  {
  }

  lemma {:induction false} MultipleReaching32(q: nat, p: nat, m: nat) returns (p': nat, m': nat)
    requires q >= 3 && m == p * q && 3 * p <= m <= 32
    ensures m' == p' * q && 3 * p' <= m' <= 32 <= m' + q - 1
    decreases 32 - m
  {
    p', m' := p, m;
    if m + q - 1 < 32 {
      NextMultiple(p, q, m);
      p', m' := MultipleReaching32(q, p + 1, m + q);
    }
  }

  lemma NextMultiple(p: nat, q: nat, m: nat)
    requires m == p * q
    ensures m + q == (p + 1) * q
  {
  }

  // ---------- The functions ----------

  ghost function ImageOf(ee: Eeprom, base: nat, size: nat): (img: Image)
    requires 1 <= size <= 255 && Sectors(base, size).Fits(ee.cells.Length)
    reads ee, ee.cells
    ensures IsStore(img, size)
  {
    Sectors(base, size).View(ee.cells[..])
  }

  ghost function FaultsOf(ee: Eeprom, base: nat, size: nat): Faults {
    Sectors(base, size).FaultyCells(ee.stuck)
  }

  /** The image an EEPROM had when its history was `before`. */
  ghost function ImageAt(ee: Eeprom, base: nat, size: nat, before: seq<CellWrite>): (img: Image)
    requires 1 <= size <= 255 && Sectors(base, size).Fits(|ee.origin|)
    ensures IsStore(img, size)
  {
    Sectors(base, size).View(Replay(ee.origin, before))
  }

  lemma ImageIsAt(ee: Eeprom, base: nat, size: nat)
    requires ee.Valid() && 1 <= size <= 255 && Sectors(base, size).Fits(ee.cells.Length)
    ensures |ee.origin| == ee.cells.Length
    ensures ImageOf(ee, base, size) == ImageAt(ee, base, size, ee.log)
  {
  }

  /** The image after byte updates whose history is known. */
  lemma ImageAfter(ee: Eeprom, base: nat, size: nat, before: seq<CellWrite>, ps: seq<Poke>)
    requires ee.Valid()
    requires 1 <= size <= 255 && Sectors(base, size).Fits(ee.cells.Length) && Sectors(base, size).Covers(ps)
    requires |ee.origin| == ee.cells.Length
    requires ee.log == before + Sectors(base, size).Flatten(ps)
    ensures ImageOf(ee, base, size) == Apply(ImageAt(ee, base, size, before), ps)
  {
    hide Sectors, Apply, Replay, Layout.Flatten, Layout.Covers, Layout.View, Layout.Fits;
    ee.ImageSince(Sectors(base, size), before, ps);
  }

  /** One byte of a sector. */
  method ReadCell(ee: Eeprom, base: nat, size: nat, i: nat, offset: nat) returns (b: byte)
    requires 1 <= size <= 255 && Sectors(base, size).Fits(ee.cells.Length) && i < SECTOR_NUMBER && offset < size + 4
    ensures b == ImageOf(ee, base, size)[i][offset]
  {
    hide Position, Stride;
    var addr := SectorAddress(base, i, size);
    assert ImageOf(ee, base, size)[i] == ee.cells[addr..addr + size + 4];
    b := ee.cells[addr + offset];
  }

  /** read_sector(): magic, then counter and data with the checksum computed on the way. */
  method ReadSector(ee: Eeprom, base: nat, i: nat, size: nat) returns (valid: bool, counter: byte, data: Record)
    requires 1 <= size <= 255 && Sectors(base, size).Fits(ee.cells.Length) && i < SECTOR_NUMBER
    ensures var r := ImageOf(ee, base, size)[i];
      && (valid <==> Valid(SectorFormat(size), r))
      && (valid ==> counter == r[1] && data == Data(r, size))
  {
    hide Sectors, ImageOf, Layout.Fits, Crc16.ByteStep, Crc16.Checksum, Crc16.LowByte, Crc16.HighByte;
    ghost var r := ImageOf(ee, base, size)[i];
    counter, data := 0, [];
    var magic := ReadCell(ee, base, size, i, 0);
    if magic != MAGIC_BYTE {
      return false, counter, data;
    }
    var crc := Crc16.UpdateWithByte(Crc16.INITIAL, MAGIC_BYTE);
    counter := ReadCell(ee, base, size, i, 1);
    crc := Crc16.UpdateWithByte(crc, counter);
    ChecksumOfHeader(r, crc);
    for k := 0 to size
      invariant crc == Crc16.Checksum(r[..2 + k])
      invariant data == r[2..2 + k]
    {
      var tmp := ReadCell(ee, base, size, i, 2 + k);
      ChecksumOfNext(r, 2 + k);
      crc := Crc16.UpdateWithByte(crc, tmp);
      data := data + [tmp];
    }
    var high := ReadCell(ee, base, size, i, 2 + size);
    var low := ReadCell(ee, base, size, i, 3 + size);
    valid := high == Crc16.HighByte(crc) && low == Crc16.LowByte(crc);
    assert r[size + 2..] == [high, low];
  }

  lemma ChecksumOfHeader(r: Record, crc: bv16)
    requires |r| >= 2 && crc == Crc16.ByteStep(Crc16.ByteStep(Crc16.INITIAL, r[0]), r[1])
    ensures Crc16.Checksum(r[..2]) == crc
  {
    hide Crc16.ByteStep;
    Crc16.ChecksumOfPair(r[0], r[1], []);
    assert r[..2] == [r[0], r[1]] + [];
  }

  lemma ChecksumOfNext(r: Record, k: nat)
    requires k < |r|
    ensures Crc16.Checksum(r[..k + 1]) == Crc16.ByteStep(Crc16.Checksum(r[..k]), r[k])
  {
    hide Crc16.ByteStep;
    assert r[..k + 1][..k] == r[..k];
  }

  /** find_newest_sector(): index and counter of the newest valid sector, and how many are valid. */
  method FindNewestSector(ee: Eeprom, base: nat, size: nat) returns (newest: int, counter: byte, valid: nat)
    requires 1 <= size <= 255 && Sectors(base, size).Fits(ee.cells.Length)
    ensures var img := ImageOf(ee, base, size);
      && newest == FindNewest(img, size) && valid == CountValid(img, size, SECTOR_NUMBER)
      && (newest >= 0 ==> counter == img[newest][1])
  {
    hide Valid, Sectors, ImageOf, Layout.Fits, CounterGreat, Data, Newest, Counters, CountValid;
    ghost var img := ImageOf(ee, base, size);
    newest, counter, valid := -1, 0, 0;
    NothingScanned(img, size);
    for i := 0 to SECTOR_NUMBER
      invariant newest == Newest(CounterGreat, Counters(img, size), i)
      invariant newest >= 0 ==> counter == img[newest][1]
      invariant valid == CountValid(img, size, i)
    {
      ScanNext(img, size, i);
      var ok, tmp, data := ReadSector(ee, base, i, size);
      if ok {
        valid := valid + 1;
        if newest < 0 || CounterGreat(tmp, counter) {
          counter := tmp;
          newest := i;
        }
      }
    }
  }

  lemma NothingScanned(img: Image, size: nat)
    ensures Newest(CounterGreat, Counters(img, size), 0) == -1 && CountValid(img, size, 0) == 0
  {
  }

  lemma ScanNext(img: Image, size: nat, i: nat)
    requires IsStore(img, size) && i < SECTOR_NUMBER
    ensures var p := Newest(CounterGreat, Counters(img, size), i);
      && Newest(CounterGreat, Counters(img, size), i + 1)
           == (if Valid(SectorFormat(size), img[i]) && (p < 0 || CounterGreat(img[i][1], img[p][1])) then i else p)
    ensures CountValid(img, size, i + 1)
         == CountValid(img, size, i) + if Valid(SectorFormat(size), img[i]) then 1 else 0
  {
    hide Valid, CounterGreat;
  }

  /** read_data(). */
  method ReadDataFrom(ee: Eeprom, base: nat, size: nat) returns (v: Option<Record>)
    requires 1 <= size <= 255 && Sectors(base, size).Fits(ee.cells.Length)
    ensures v == ReadData(ImageOf(ee, base, size), size)
  {
    var newest, counter, valid := FindNewestSector(ee, base, size);
    if newest < 0 {
      return None;
    }
    var ok, c, data := ReadSector(ee, base, newest, size);
    return if ok then Some(data) else None;
  }

  /** One update of the cell at an offset of a sector. */
  method UpdateCell(ee: Eeprom, base: nat, i: nat, size: nat, offset: nat, value: byte, ghost before: seq<CellWrite>,
                    ghost ps: seq<Poke>)
    requires ee.Valid() && 1 <= size <= 255 && Sectors(base, size).Fits(ee.cells.Length)
    requires i < SECTOR_NUMBER && offset < size + 4
    requires Sectors(base, size).Covers(Working(FaultsOf(ee, base, size), ps))
    requires ee.log == before + Sectors(base, size).Flatten(Working(FaultsOf(ee, base, size), ps))
    modifies ee`log, ee.cells
    ensures ee.Valid()
    ensures Sectors(base, size).Covers(Working(FaultsOf(ee, base, size), ps + [Poke(i, offset, value)]))
    ensures ee.log
      == before + Sectors(base, size).Flatten(Working(FaultsOf(ee, base, size), ps + [Poke(i, offset, value)]))
  {
    hide Sectors, FaultsOf, SectorAddress, Working, Layout.Flatten, Layout.Fits, Layout.Covers, Replay;
    ghost var l, bad := Sectors(base, size), FaultsOf(ee, base, size);
    ghost var p := Poke(i, offset, value);
    ghost var log, address := ee.log, SectorAddress(base, i, size) + offset;
    CellFacts(ee, base, size, i, offset, value);
    ee.UpdateByte(SectorAddress(base, i, size) + offset, value);
    HistoryNext(l, bad, ps, p, before, log, ee.log, CellWrite(address, value));
  }

  /** One more byte update in a history. */
  lemma HistoryNext(l: Layout, bad: Faults, ps: seq<Poke>, p: Poke, before: seq<CellWrite>, log: seq<CellWrite>,
                    log': seq<CellWrite>, w: CellWrite)
    requires l.Covers(Working(bad, ps)) && l.Covers([p]) && l.Flatten([p]) == [w]
    requires log == before + l.Flatten(Working(bad, ps))
    requires log' == if (p.entry, p.offset) in bad then log else log + [w]
    ensures l.Covers(Working(bad, ps + [p])) && log' == before + l.Flatten(Working(bad, ps + [p]))
  {
    hide Working, Layout.Flatten, Layout.Covers;
    WorkingNext(bad, ps, p);
    if (p.entry, p.offset) !in bad {
      l.FlattenConcat(Working(bad, ps), [p]);
    }
  }

  lemma CellFacts(ee: Eeprom, base: nat, size: nat, i: nat, offset: nat, value: byte)
    requires 1 <= size <= 255 && Sectors(base, size).Fits(ee.cells.Length)
    requires i < SECTOR_NUMBER && offset < size + 4
    ensures var l, p, address := Sectors(base, size), Poke(i, offset, value), SectorAddress(base, i, size) + offset;
      && address < ee.cells.Length
      && ((i, offset) in FaultsOf(ee, base, size) <==> address in ee.stuck)
      && l.Covers([p]) && l.Flatten([p]) == [CellWrite(address, value)]
  {
    hide SectorAddress, Layout.Fits;
    CellInBounds(Sectors(base, size), ee.cells.Length, i, offset);
  }

  lemma CellInBounds(l: Layout, length: nat, i: nat, offset: nat)
    requires l.Fits(length) && i < |l.starts| && offset < l.size
    ensures l.starts[i] + offset < length
  {
  }

  /** write_sector_and_verify(): the bytes in ascending order, then all of them read back. */
  method WriteSectorAndVerify(ee: Eeprom, base: nat, i: nat, counter: byte, data: Record) returns (ok: bool)
    requires ee.Valid() && 1 <= |data| <= 255 && Sectors(base, |data|).Fits(ee.cells.Length) && i < SECTOR_NUMBER
    modifies ee`log, ee.cells
    ensures var l := Sectors(base, |data|);
      var ps := Working(FaultsOf(ee, base, |data|), RecordPokes(i, Sector(counter, data)));
      && ee.Valid() && l.Covers(ps) && ee.log == old(ee.log) + l.Flatten(ps)
      && ImageOf(ee, base, |data|) == Apply(old(ImageOf(ee, base, |data|)), ps)
    ensures ok <==> ImageOf(ee, base, |data|)[i] == Sector(counter, data)
  {
    hide Sectors, Working, FaultsOf, RecordPokes, Crc16.Checksum, Crc16.LowByte, Crc16.HighByte, Apply, Sector, ImageOf,
      ImageAt, Layout.Fits, Layout.Covers, Layout.Flatten, Eeprom.Valid;
    var size := |data|;
    ImageIsAt(ee, base, size);
    var crc := Crc16.Compute([MAGIC_BYTE, counter] + data);
    ghost var before, r := ee.log, Sector(counter, data);
    ghost var ps := RecordPokes(i, r);
    SectorBytes(counter, data);
    WriteBytes(ee, base, i, [MAGIC_BYTE, counter] + data, Crc16.HighByte(crc), Crc16.LowByte(crc), size, r);
    ImageAfter(ee, base, size, before, Working(FaultsOf(ee, base, size), ps));
    ok := Verify(ee, base, i, size, [MAGIC_BYTE, counter] + data, Crc16.HighByte(crc), Crc16.LowByte(crc));
  }

  lemma SectorBytes(counter: byte, data: Record)
    ensures var message := [MAGIC_BYTE, counter] + data;
      var crc := Crc16.Checksum(message);
      Sector(counter, data) == message + [Crc16.HighByte(crc), Crc16.LowByte(crc)]
  {
  }

  /** The writing half of write_sector_and_verify(). */
  method WriteBytes(ee: Eeprom, base: nat, i: nat, message: Record, high: byte, low: byte, size: nat, ghost r: Record)
    requires ee.Valid() && 1 <= size <= 255 && Sectors(base, size).Fits(ee.cells.Length) && i < SECTOR_NUMBER
    requires |message| == size + 2 && r == message + [high, low]
    modifies ee`log, ee.cells
    ensures var l, ps := Sectors(base, size), Working(FaultsOf(ee, base, size), RecordPokes(i, r));
      && ee.Valid() && l.Covers(ps) && ee.log == old(ee.log) + l.Flatten(ps)
  {
    hide Sectors, Working, FaultsOf, RecordPokes, Layout.Flatten, Layout.Covers;
    ghost var before, ps := ee.log, RecordPokes(i, r);
    RecordPokesPrefix(i, r);
    NothingWorking(base, size, FaultsOf(ee, base, size));
    for k := 0 to size + 2
      invariant ee.Valid()
      invariant Sectors(base, size).Covers(Working(FaultsOf(ee, base, size), ps[..k]))
      invariant ee.log == before + Sectors(base, size).Flatten(Working(FaultsOf(ee, base, size), ps[..k]))
    {
      UpdateCell(ee, base, i, size, k, message[k], before, ps[..k]);
    }
    UpdateCell(ee, base, i, size, size + 2, high, before, ps[..size + 2]);
    UpdateCell(ee, base, i, size, size + 3, low, before, ps[..size + 3]);
    assert ps[..size + 4] == ps;
  }

  lemma NothingWorking(base: nat, size: nat, bad: Faults)
    ensures Sectors(base, size).Covers(Working(bad, [])) && Sectors(base, size).Flatten(Working(bad, [])) == []
  {
  }

  lemma RecordPokesPrefix(i: nat, r: Record)
    ensures RecordPokes(i, r)[..0] == []
    ensures forall k :: 0 <= k < |r| ==> RecordPokes(i, r)[..k + 1] == RecordPokes(i, r)[..k] + [Poke(i, k, r[k])]
  {
  }

  /** The reading half of write_sector_and_verify(). */
  method Verify(ee: Eeprom, base: nat, i: nat, size: nat, message: Record, high: byte, low: byte) returns (ok: bool)
    requires 1 <= size <= 255 && Sectors(base, size).Fits(ee.cells.Length) && i < SECTOR_NUMBER
    requires |message| == size + 2
    ensures ok <==> ImageOf(ee, base, size)[i] == message + [high, low]
  {
    hide Position, Stride;
    var addr := SectorAddress(base, i, size);
    ghost var r, expected := ImageOf(ee, base, size)[i], message + [high, low];
    assert r == ee.cells[addr..addr + size + 4];
    for k := 0 to size + 2
      invariant forall m :: 0 <= m < k ==> r[m] == expected[m]
    {
      if ee.cells[addr + k] != message[k] {
        assert r[k] != expected[k];
        return false;
      }
    }
    if ee.cells[addr + 2 + size] != high {
      assert r[size + 2] != expected[size + 2];
      return false;
    }
    if ee.cells[addr + 3 + size] != low {
      assert r[size + 3] != expected[size + 3];
      return false;
    }
    assert r == expected;
    return true;
  }

  /** What is known after `j` attempts to place a copy. */
  ghost predicate Attempted(ee: Eeprom, base: nat, data: Record, img: Image, before: seq<CellWrite>, j: nat,
                            written: seq<nat>)
    requires 1 <= |data| <= 255 && Sectors(base, |data|).Fits(ee.cells.Length)
    reads ee, ee.cells
  {
    var c := WriteCopies(FaultsOf(ee, base, |data|), img, data, j);
    && ee.Valid() && written == c.written
    && Sectors(base, |data|).Covers(c.pokes)
    && ee.log == before + Sectors(base, |data|).Flatten(c.pokes)
    && ImageOf(ee, base, |data|) == Apply(img, c.pokes)
  }

  /** One pass of the loop that places the copies. */
  method AttemptCopy(ee: Eeprom, base: nat, data: Record, newest: int, j: nat, written: seq<nat>, next: byte,
                     ghost img: Image, ghost before: seq<CellWrite>) returns (ok: bool)
    requires ee.Valid() && 1 <= |data| <= 255 && Sectors(base, |data|).Fits(ee.cells.Length)
    requires IsStore(img, |data|) && newest == FindNewest(img, |data|)
    requires |written| < 2 && next == Wrap(NextCounter(img, |data|) as int + |written|)
    requires Attempted(ee, base, data, img, before, j, written)
    modifies ee`log, ee.cells
    ensures Attempted(ee, base, data, img, before, j + 1, if ok then written + [Target(newest, j)] else written)
  {
    hide Sectors, Working, FaultsOf, RecordPokes, Apply, Sector, WriteCopies, Layout.Flatten, Layout.Covers, ImageOf,
      Layout.Fits, FindNewest, Wrap, Eeprom.Valid, NextCounter, Target;
    ghost var size, bad := |data|, FaultsOf(ee, base, |data|);
    ghost var c := WriteCopies(bad, img, data, j);
    var i := Target(newest, j);
    ghost var ps := Working(bad, RecordPokes(i, Sector(next, data)));
    CopiesNext(bad, img, data, j, c, i, Sector(next, data));
    ok := WriteSectorAndVerify(ee, base, i, next, data);
    Sectors(base, size).FlattenConcat(c.pokes, ps);
    ApplyConcat(img, c.pokes, ps);
  }

  /** The first loop of write_data(): two verified copies in the sectors after the newest one. */
  method PlaceCopies(ee: Eeprom, base: nat, data: Record) returns (written: seq<nat>)
    requires ee.Valid() && 1 <= |data| <= 255 && Sectors(base, |data|).Fits(ee.cells.Length)
    modifies ee`log, ee.cells
    ensures var l, c := Sectors(base, |data|),
                        WriteCopies(FaultsOf(ee, base, |data|), old(ImageOf(ee, base, |data|)), data, SECTOR_NUMBER);
      && written == c.written && ee.Valid() && l.Covers(c.pokes) && ee.log == old(ee.log) + l.Flatten(c.pokes)
      && ImageOf(ee, base, |data|) == Apply(old(ImageOf(ee, base, |data|)), c.pokes)
  {
    hide *;
    ghost var img, before := ImageOf(ee, base, |data|), ee.log;
    var newest, counter, valid := FindNewestSector(ee, base, |data|);
    var next: byte := if newest < 0 then 0 else Wrap(counter as int + 1);
    written := [];
    var j := 0;
    NothingAttempted(ee, base, data);
    FirstCounter(img, |data|);
    while j < SECTOR_NUMBER && |written| < 2
      invariant j <= SECTOR_NUMBER && |written| <= 2
      invariant Attempted(ee, base, data, img, before, j, written)
      invariant next == Wrap(NextCounter(img, |data|) as int + |written|)
      decreases SECTOR_NUMBER - j
    {
      AttemptedIsValid(ee, base, data, img, before, j, written);
      var ok := AttemptCopy(ee, base, data, newest, j, written, next, img, before);
      if ok {
        CountOn(NextCounter(img, |data|), |written|, next);
        written := written + [Target(newest, j)];
        next := Wrap(next as int + 1);
      }
      j := j + 1;
    }
    AttemptsAreOver(ee, base, data, img, before, j, written);
  }

  lemma AttemptedIsValid(
      ee: Eeprom, base: nat, data: Record, img: Image, before: seq<CellWrite>, j: nat, written: seq<nat>)
    requires 1 <= |data| <= 255 && Sectors(base, |data|).Fits(ee.cells.Length)
    requires Attempted(ee, base, data, img, before, j, written)
    ensures ee.Valid()
  {
    hide Sectors, FaultsOf, WriteCopies, ImageOf, Eeprom.Valid;
  }

  lemma AttemptsAreOver(
      ee: Eeprom, base: nat, data: Record, img: Image, before: seq<CellWrite>, j: nat, written: seq<nat>)
    requires 1 <= |data| <= 255 && Sectors(base, |data|).Fits(ee.cells.Length)
    requires Attempted(ee, base, data, img, before, j, written)
    requires j == SECTOR_NUMBER || (j < SECTOR_NUMBER && |written| == 2)
    ensures var l, c := Sectors(base, |data|), WriteCopies(FaultsOf(ee, base, |data|), img, data, SECTOR_NUMBER);
      && written == c.written && ee.Valid() && l.Covers(c.pokes) && ee.log == before + l.Flatten(c.pokes)
      && ImageOf(ee, base, |data|) == Apply(img, c.pokes)
  {
    hide Sectors, FaultsOf, WriteCopies, ImageOf, Eeprom.Valid;
    if j < SECTOR_NUMBER {
      AttemptsStop(FaultsOf(ee, base, |data|), img, data, j, SECTOR_NUMBER);
    }
  }

  lemma NothingAttempted(ee: Eeprom, base: nat, data: Record)
    requires ee.Valid() && 1 <= |data| <= 255 && Sectors(base, |data|).Fits(ee.cells.Length)
    ensures Attempted(ee, base, data, ImageOf(ee, base, |data|), ee.log, 0, [])
  {
    hide Sectors, ImageOf, Eeprom.Valid;
    NothingToDo(base, |data|, ImageOf(ee, base, |data|));
  }

  lemma FirstCounter(img: Image, size: nat)
    ensures var p := FindNewest(img, size);
      (if p < 0 then 0 else Wrap(img[p][1] as int + 1)) == Wrap(NextCounter(img, size) as int + 0)
  {
  }

  lemma CopiesNext(bad: Faults, img: Image, data: Record, j: nat, c: Copies, i: nat, r: Record)
    requires IsStore(img, |data|) && c == WriteCopies(bad, img, data, j) && |c.written| < 2
    requires i == Target(FindNewest(img, |data|), j)
    requires r == Sector(Wrap(NextCounter(img, |data|) as int + |c.written|), data)
    ensures var next, pokes := WriteCopies(bad, img, data, j + 1), c.pokes + Working(bad, RecordPokes(i, r));
      && next.pokes == pokes
      && (Apply(img, pokes)[i] == r ==> next.written == c.written + [i])
      && (Apply(img, pokes)[i] != r ==> next.written == c.written)
  {
    hide FindNewest, Sector, Working, Apply, RecordPokes;
  }

  lemma CountOn(counter: byte, k: nat, next: byte)
    requires next == Wrap(counter as int + k)
    ensures Wrap(next as int + 1) == Wrap(counter as int + (k + 1))
  {
  }

  /** The second loop of write_data(): the magic byte of every other sector that has one. */
  method InvalidateStale(ee: Eeprom, base: nat, size: nat, written: seq<nat>)
    requires ee.Valid() && 1 <= size <= 255 && Sectors(base, size).Fits(ee.cells.Length) && |written| == 2
    modifies ee`log, ee.cells
    ensures var l, ps := Sectors(base, size),
                         InvalidatePokes(FaultsOf(ee, base, size), old(ImageOf(ee, base, size)), written);
      ee.Valid() && l.Covers(ps) && ee.log == old(ee.log) + l.Flatten(ps)
  {
    hide Sectors, Working, FaultsOf, ClearPokes, Stale, Layout.Flatten, Layout.Covers, Layout.Fits, ImageOf, Apply,
      ImageAt, Eeprom.Valid;
    ghost var img, bad, before := ImageOf(ee, base, size), FaultsOf(ee, base, size), ee.log;
    ImageIsAt(ee, base, size);
    NothingWorking(base, size, bad);
    StaleStart(img, written);
    for i := 0 to SECTOR_NUMBER
      invariant ee.Valid()
      invariant Sectors(base, size).Covers(Working(bad, ClearPokes(Stale(img, written, i))))
      invariant ee.log == before + Sectors(base, size).Flatten(Working(bad, ClearPokes(Stale(img, written, i))))
    {
      ghost var ps := ClearPokes(Stale(img, written, i));
      StaleNext(img, written, i);
      ImageAfter(ee, base, size, before, Working(bad, ps));
      StaleComesBefore(bad, img, written, i);
      var magic := ReadCell(ee, base, size, i, 0);
      if i != written[0] && i != written[1] && magic == MAGIC_BYTE {
        UpdateCell(ee, base, i, size, 0, 0x00, before, ps);
      }
    }
  }

  lemma StaleStart(img: Image, written: seq<nat>)
    ensures ClearPokes(Stale(img, written, 0)) == []
  {
  }

  lemma StaleNext(img: Image, written: seq<nat>, i: nat)
    requires i < |img| && |img[i]| > 0
    ensures ClearPokes(Stale(img, written, i + 1))
         == if i !in written && img[i][0] == MAGIC_BYTE then ClearPokes(Stale(img, written, i)) + [Poke(i, 0, 0x00)]
            else ClearPokes(Stale(img, written, i))
  {
  }

  lemma StaleComesBefore(bad: Faults, img: Image, written: seq<nat>, i: nat)
    requires i < |img|
    ensures Apply(img, Working(bad, ClearPokes(Stale(img, written, i))))[i] == img[i]
  {
    hide Working, Apply;
    var ps := ClearPokes(Stale(img, written, i));
    assert !Touches(ps, i);
    WorkingTouches(bad, ps, i);
    UntouchedRecord(img, Working(bad, ps), i);
  }

  /** write_data(): two copies, and only when both are in place the other sectors are invalidated. */
  method WriteData(ee: Eeprom, base: nat, data: Record)
    requires ee.Valid() && 1 <= |data| <= 255 && Sectors(base, |data|).Fits(ee.cells.Length)
    modifies ee`log, ee.cells
    ensures var l, ps := Sectors(base, |data|),
                         WritePokes(FaultsOf(ee, base, |data|), old(ImageOf(ee, base, |data|)), data);
      && ee.Valid() && l.Covers(ps) && ee.log == old(ee.log) + l.Flatten(ps)
      && ImageOf(ee, base, |data|) == Apply(old(ImageOf(ee, base, |data|)), ps)
  {
    hide Sectors, FaultsOf, WriteCopies, InvalidatePokes, Layout.Flatten, Layout.Covers, Layout.Fits, Apply, ImageOf,
      ImageAt, Eeprom.Valid;
    ghost var l, bad := Sectors(base, |data|), FaultsOf(ee, base, |data|);
    ghost var img, before := ImageOf(ee, base, |data|), ee.log;
    ImageIsAt(ee, base, |data|);
    var written := PlaceCopies(ee, base, data);
    if |written| == 2 {
      ghost var c := WriteCopies(bad, img, data, SECTOR_NUMBER);
      ghost var stale := InvalidatePokes(bad, ImageOf(ee, base, |data|), written);
      InvalidateStale(ee, base, |data|, written);
      l.FlattenConcat(c.pokes, stale);
      ImageAfter(ee, base, |data|, before, c.pokes + stale);
    }
  }

  /** The loop of read_data_and_refresh() over the sectors other than the newest. */
  method FindSecondCopy(ee: Eeprom, base: nat, size: nat, newest: nat, counter: byte) returns (healthy: bool)
    requires 1 <= size <= 255 && Sectors(base, size).Fits(ee.cells.Length) && newest < SECTOR_NUMBER
    requires counter == ImageOf(ee, base, size)[newest][1]
    ensures healthy == SecondCopyFound(ImageOf(ee, base, size), size, newest, SECTOR_NUMBER)
  {
    hide Sectors, Valid, Wrap, Layout.Fits, ImageOf, Data;
    ghost var img := ImageOf(ee, base, size);
    healthy := false;
    for i := 0 to SECTOR_NUMBER
      invariant healthy == SecondCopyFound(img, size, newest, i)
    {
      if i != newest {
        var ok, tmp, data := ReadSector(ee, base, i, size);
        if ok && tmp == Wrap(counter as int - 1) {
          healthy := SameData(ee, base, size, i, newest);
        }
      }
    }
  }

  /** The byte-wise comparison of two sectors. */
  method SameData(ee: Eeprom, base: nat, size: nat, i: nat, j: nat) returns (same: bool)
    requires 1 <= size <= 255 && Sectors(base, size).Fits(ee.cells.Length) && i < SECTOR_NUMBER && j < SECTOR_NUMBER
    ensures same <==> Data(ImageOf(ee, base, size)[i], size) == Data(ImageOf(ee, base, size)[j], size)
  {
    hide Sectors, Layout.Fits, ImageOf;
    ghost var x, y := ImageOf(ee, base, size)[i], ImageOf(ee, base, size)[j];
    same := true;
    for k := 0 to size
      invariant same <==> x[2..2 + k] == y[2..2 + k]
    {
      var a := ReadCell(ee, base, size, i, 2 + k);
      var b := ReadCell(ee, base, size, j, 2 + k);
      assert x[2..2 + k + 1] == x[2..2 + k] + [a] && y[2..2 + k + 1] == y[2..2 + k] + [b];
      LastBytes(x[2..2 + k], y[2..2 + k], a, b);
      if a != b {
        same := false;
      }
    }
  }

  lemma LastBytes(x: Record, y: Record, a: byte, b: byte)
    requires |x| == |y|
    ensures x + [a] == y + [b] <==> x == y && a == b
  {
    assert (x + [a])[..|x|] == x && (y + [b])[..|y|] == y;
    assert (x + [a])[|x|] == a && (y + [b])[|y|] == b;
  }

  /** read_data_and_refresh(): the value, rewritten if it is not in two healthy copies. */
  method ReadDataAndRefresh(ee: Eeprom, base: nat, size: nat) returns (v: Option<Record>)
    requires ee.Valid() && 1 <= size <= 255 && Sectors(base, size).Fits(ee.cells.Length)
    modifies ee`log, ee.cells
    ensures v == old(ReadData(ImageOf(ee, base, size), size))
    ensures var l, ps := Sectors(base, size),
                         RefreshPokes(FaultsOf(ee, base, size), old(ImageOf(ee, base, size)), size);
      && ee.Valid() && l.Covers(ps) && ee.log == old(ee.log) + l.Flatten(ps)
      && ImageOf(ee, base, size) == Apply(old(ImageOf(ee, base, size)), ps)
  {
    hide Sectors, FaultsOf, WritePokes, Layout.Flatten, Layout.Covers, Apply, Valid, FindNewest;
    ghost var img := ImageOf(ee, base, size);
    NothingToDo(base, size, img);
    var newest, counter, valid := FindNewestSector(ee, base, size);
    if newest < 0 {
      return None;
    }
    var ok, c, data := ReadSector(ee, base, newest, size);
    var healthy := false;
    if valid == 2 {
      healthy := FindSecondCopy(ee, base, size, newest, c);
    }
    if !healthy {
      WriteData(ee, base, data);
    }
    return Some(data);
  }

  lemma NothingToDo(base: nat, size: nat, img: Image)
    ensures Sectors(base, size).Covers([]) && Sectors(base, size).Flatten([]) == [] && Apply(img, []) == img
  {
  }
}
