/**
 EEPROM images as numbered records, written one byte at a time. A power failure stops a
 list of byte writes after any prefix, so the image it leaves is `Apply` of that prefix.
 */
module ByteWrites {
  import opened Bytes

  type Record = seq<byte>
  type Image = seq<Record>

  /** One atomic EEPROM byte write. */
  datatype Poke = Poke(entry: nat, offset: nat, value: byte)

  ghost predicate Shaped(img: Image, entries: nat, size: nat) {
    |img| == entries && forall e :: 0 <= e < entries ==> |img[e]| == size
  }

  function ApplyOne(img: Image, p: Poke): (r: Image)
    ensures |r| == |img|
    ensures forall e :: 0 <= e < |img| ==> |r[e]| == |img[e]|
  {
    if p.entry < |img| && p.offset < |img[p.entry]|
    then
      var r: Record := img[p.entry];
      var r': Record := r[p.offset := p.value];
      img[p.entry := r']
    else img
  }

  function Apply(img: Image, ps: seq<Poke>): (r: Image)
    ensures |r| == |img|
    ensures forall e :: 0 <= e < |img| ==> |r[e]| == |img[e]|
  {
    if ps == [] then img else ApplyOne(Apply(img, ps[..|ps| - 1]), ps[|ps| - 1])
  }

  lemma {:induction false} ApplyConcat(img: Image, a: seq<Poke>, b: seq<Poke>)
    ensures Apply(img, a + b) == Apply(Apply(img, a), b)
  {
    if b == [] {
      assert a + b == a;
    } else {
      assert (a + b)[..|a + b| - 1] == a + b[..|b| - 1];
      ApplyConcat(img, a, b[..|b| - 1]);
    }
  }

  /** A prefix of two lists of writes ends in the first list, or contains it. */
  lemma ApplyPrefix(img: Image, a: seq<Poke>, b: seq<Poke>, k: nat)
    requires k <= |a| + |b|
    ensures k <= |a| ==> Apply(img, (a + b)[..k]) == Apply(img, a[..k])
    ensures k > |a| ==> Apply(img, (a + b)[..k]) == Apply(Apply(img, a), b[..k - |a|])
  {
    if k <= |a| {
      assert (a + b)[..k] == a[..k];
    } else {
      assert (a + b)[..k] == a + b[..k - |a|];
      ApplyConcat(img, a, b[..k - |a|]);
    }
  }

  // ---------- Faulty cells ----------

  /** Entry and offset of the cells that cannot be written. */
  type Faults = set<(nat, nat)>

  /** The writes that reach a working cell. */
  function Working(bad: Faults, ps: seq<Poke>): seq<Poke> {
    if ps == [] then []
    else
      var front, last := Working(bad, ps[..|ps| - 1]), ps[|ps| - 1];
      if (last.entry, last.offset) in bad then front else front + [last]
  }

  lemma WorkingNext(bad: Faults, ps: seq<Poke>, p: Poke)
    ensures Working(bad, ps + [p])
         == if (p.entry, p.offset) in bad then Working(bad, ps) else Working(bad, ps) + [p]
  {
    assert (ps + [p])[..|ps + [p]| - 1] == ps;
  }

  lemma {:induction false} WorkingConcat(bad: Faults, a: seq<Poke>, b: seq<Poke>)
    ensures Working(bad, a + b) == Working(bad, a) + Working(bad, b)
  {
    if b == [] {
      assert a + b == a;
    } else {
      assert (a + b)[..|a + b| - 1] == a + b[..|b| - 1];
      WorkingConcat(bad, a, b[..|b| - 1]);
    }
  }

  // ---------- Writing a whole record ----------

  /** All bytes of a record in ascending address order. */
  function RecordPokes(entry: nat, bytes: Record): (ps: seq<Poke>)
    ensures |ps| == |bytes|
  {
    seq(|bytes|, i requires 0 <= i < |bytes| => Poke(entry, i, bytes[i]))
  }

  /** The record after the first `k` bytes of `bytes` have replaced those of `old'`. */
  function Partial(old': Record, bytes: Record, k: nat): (r: Record)
    requires |old'| == |bytes| && k <= |bytes|
    ensures |r| == |bytes|
  {
    bytes[..k] + old'[k..]
  }

  lemma {:induction false} ApplyRecordPokes(img: Image, entry: nat, bytes: Record, k: nat)
    requires entry < |img| && |img[entry]| == |bytes| && k <= |bytes|
    ensures Apply(img, RecordPokes(entry, bytes)[..k]) == img[entry := Partial(img[entry], bytes, k)]
  {
    var ps := RecordPokes(entry, bytes);
    if k == 0 {
      assert Partial(img[entry], bytes, 0) == img[entry];
    } else {
      ApplyRecordPokes(img, entry, bytes, k - 1);
      assert ps[..k][..k - 1] == ps[..k - 1];
      assert Partial(img[entry], bytes, k - 1)[k - 1 := bytes[k - 1]] == Partial(img[entry], bytes, k);
    }
  }

  lemma ApplyWholeRecord(img: Image, entry: nat, bytes: Record)
    requires entry < |img| && |img[entry]| == |bytes|
    ensures Apply(img, RecordPokes(entry, bytes)) == img[entry := bytes]
  {
    ApplyRecordPokes(img, entry, bytes, |bytes|);
    assert RecordPokes(entry, bytes)[..|bytes|] == RecordPokes(entry, bytes);
    assert Partial(img[entry], bytes, |bytes|) == bytes;
  }

  // ---------- Clearing markers ----------

  /** Overwrite the first byte of every listed record with zero. */
  function ClearPokes(entries: seq<nat>): (ps: seq<Poke>)
    ensures |ps| == |entries|
  {
    seq(|entries|, i requires 0 <= i < |entries| => Poke(entries[i], 0, 0))
  }

  lemma {:induction false} ApplyClearPokes(img: Image, entries: seq<nat>, k: nat)
    requires forall i :: 0 <= i < |entries| ==> entries[i] < |img|
    requires forall e :: 0 <= e < |img| ==> |img[e]| > 0
    requires k <= |entries|
    ensures var r := Apply(img, ClearPokes(entries)[..k]);
      forall e :: 0 <= e < |img| ==>
        r[e] == if e in entries[..k] then img[e][0 := 0] else img[e]
  {
    var ps := ClearPokes(entries);
    if k > 0 {
      ApplyClearPokes(img, entries, k - 1);
      assert ps[..k][..k - 1] == ps[..k - 1];
      assert entries[..k] == entries[..k - 1] + [entries[k - 1]];
    }
  }
}

/**
 The record format both stores share: a marker byte, a wrapping write counter, a payload
 and a CRC-16 over everything before it. AVR stores the checksum low byte first and reads
 the node id from the first payload byte; PIC stores it high byte first and the whole
 payload is the value.
 */
module Records {
  import opened Bytes
  import opened ByteWrites
  import opened CyclicCounters
  import Crc16

  datatype Format = Format(marker: byte, lowByteFirst: bool, payload: nat, valueLength: nat) {
    function Size(): nat {
      payload + 4
    }

    ghost predicate Sensible() {
      1 <= valueLength <= payload && marker != 0 && marker != 0xff
    }
  }

  function StoredChecksum(f: Format, message: seq<byte>): (bs: Record)
    ensures |bs| == 2
  {
    var crc := Crc16.Checksum(message);
    if f.lowByteFirst then [Crc16.LowByte(crc), Crc16.HighByte(crc)]
    else [Crc16.HighByte(crc), Crc16.LowByte(crc)]
  }

  /** The last two bytes are the checksum of the others. */
  predicate Sealed(f: Format, r: Record): (closed: bool)
    ensures closed ==> |r| == f.Size()
  {
    |r| == f.Size() && r[f.payload + 2..] == StoredChecksum(f, r[..f.payload + 2])
  }

  predicate Valid(f: Format, r: Record): (valid: bool)
    ensures valid ==> |r| == f.Size()
  {
    Sealed(f, r) && r[0] == f.marker
  }

  function Value(f: Format, r: Record): Record
    requires f.valueLength <= f.payload && |r| == f.Size()
  {
    r[2..2 + f.valueLength]
  }

  /** The record a store writes for `payload` under the counter `counter`. */
  function MakeRecord(f: Format, counter: byte, payload: Record): (r: Record)
    requires |payload| == f.payload
    ensures Valid(f, r) && r[1] == counter && r[2..2 + f.payload] == payload
  {
    var message := [f.marker, counter] + payload;
    var r := message + StoredChecksum(f, message);
    assert r[..f.payload + 2] == message;
    r
  }

  /** The bytes of a record with its checksum high byte first. */
  function HighByteFirst(f: Format, r: Record): (bs: Record)
    requires |r| == f.Size()
  {
    var end := f.payload + 2;
    r[..end] + if f.lowByteFirst then [r[end + 1], r[end]] else [r[end], r[end + 1]]
  }

  /** A record is valid exactly if it starts with the marker and the checksum over all of it is zero. */
  lemma ValidIffResidue(f: Format, r: Record)
    requires |r| == f.Size()
    ensures Valid(f, r) <==> r[0] == f.marker && Crc16.Checksum(HighByteFirst(f, r)) == 0
  {
    hide Crc16.Checksum, Crc16.LowByte, Crc16.HighByte;
    var end := f.payload + 2;
    assert r[end..] == [r[end], r[end + 1]];
    if f.lowByteFirst {
      Crc16.ResidueIff(r[..end], r[end + 1], r[end]);
    } else {
      Crc16.ResidueIff(r[..end], r[end], r[end + 1]);
    }
  }

  // ---------- What a record can be between two complete writes ----------

  /** A valid record of the write with number `m` and the value `v`. */
  ghost predicate Holds(f: Format, r: Record, m: int, v: Record)
    requires f.valueLength <= f.payload
  {
    m >= 0 && Valid(f, r) && r[1] == Wrap(m) && Value(f, r) == v
  }

  /**
   A complete record of the earlier write `m` whose marker may have been cleared, or a
   record never written since the EEPROM was erased (m negative).
   */
  ghost predicate Dormant(f: Format, r: Record, m: int) {
    && |r| == f.Size()
    && (if m < 0 then r[1..] == Erased(f.payload + 3)
        else Sealed(f, r[0 := f.marker]) && r[1] == Wrap(m))
  }

  /** An unfinished record of the write `m`: the marker and the counter are in place already. */
  ghost predicate Torn(f: Format, r: Record, m: int) {
    |r| == f.Size() && r[0] == f.marker && r[1] == Wrap(m) && !Sealed(f, r)
  }

  /** Marker and any counter in front of erased bytes never pass for a complete record. */
  ghost predicate ErasedIsUnsealed(f: Format) {
    forall c: byte :: !Sealed(f, [f.marker, c] + Erased(f.payload + 2))
  }

  lemma HoldsIsDormant(f: Format, r: Record, m: int, v: Record)
    requires f.valueLength <= f.payload && Holds(f, r, m, v)
    ensures Dormant(f, r, m)
  {
    hide Sealed, Wrap;
    assert r[0 := f.marker] == r;
  }

  lemma DormantCleared(f: Format, r: Record, m: int, b: byte)
    requires Dormant(f, r, m)
    ensures Dormant(f, r[0 := b], m)
  {
    hide Sealed, Wrap;
    assert r[0 := b][0 := f.marker] == r[0 := f.marker];
    assert r[0 := b][1..] == r[1..];
  }

  lemma ErasedShape(f: Format, r: Record, c: byte)
    requires |r| == f.Size() && r[1..] == Erased(f.payload + 3)
    ensures r[1] == 0xff
    ensures r[1 := c] == [r[0], c] + Erased(f.payload + 2)
    ensures r == [r[0], 0xff] + Erased(f.payload + 2)
  {
    assert forall i :: 1 <= i < |r| ==> r[i] == r[1..][i - 1];
  }

  lemma TornIsInvalid(f: Format, r: Record, m: int)
    ensures Torn(f, r, m) ==> !Valid(f, r)
  {
  }

  /** A valid record is a dormant one that was woken up, with its old counter. */
  lemma DormantValid(f: Format, r: Record, m: int)
    requires f.Sensible() && ErasedIsUnsealed(f)
    requires Dormant(f, r, m) && Valid(f, r)
    ensures m >= 0 && r[1] == Wrap(m)
  {
    hide Sealed, Wrap;
    if m < 0 {
      ErasedShape(f, r, 0xff);
      assert false;
    }
    assert r[0 := f.marker] == r;
  }

  /** Another checksum in front of the same stored bytes. */
  lemma DifferentChecksumUnseals(f: Format, r: Record, r': Record)
    requires Sealed(f, r) && |r'| == |r| && r'[f.payload + 2..] == r[f.payload + 2..]
    requires Crc16.Checksum(r[..f.payload + 2]) != Crc16.Checksum(r'[..f.payload + 2])
    ensures !Sealed(f, r')
  {
    hide Crc16.Checksum, Crc16.LowByte, Crc16.HighByte;
    var stored, stored' := StoredChecksum(f, r[..f.payload + 2]), StoredChecksum(f, r'[..f.payload + 2]);
    if Sealed(f, r') {
      assert stored[0] == stored'[0] && stored[1] == stored'[1];
      Crc16.StoredBytesInjective(Crc16.Checksum(r[..f.payload + 2]), Crc16.Checksum(r'[..f.payload + 2]));
    }
  }

  /** Changing only the counter of a sealed record breaks the seal. */
  lemma CounterChangeBreaksSeal(f: Format, r: Record, c: byte)
    requires f.Sensible() && Sealed(f, r) && c != r[1]
    ensures !Sealed(f, r[1 := c])
  {
    hide Crc16.Checksum, Crc16.LowByte, Crc16.HighByte;
    var r' := r[1 := c];
    var rest := r[3..f.payload + 2];
    assert r[..f.payload + 2] == [r[0]] + [r[1], r[2]] + rest;
    assert r'[..f.payload + 2] == [r[0]] + [c, r[2]] + rest;
    Crc16.BurstDetected([r[0]], r[1], r[2], c, r[2], rest);
    assert r'[f.payload + 2..] == r[f.payload + 2..];
    DifferentChecksumUnseals(f, r, r');
  }

  // ---------- Overwriting a dormant record byte by byte ----------

  /**
   No mix of new and old bytes that passes the checksum carries a value other than the
   old and the new one. `k` is the number of bytes already written; with one value byte
   only k = 2 is left to look at.
   */
  ghost predicate MixSafe(f: Format, old': Record, bytes: Record, v: Record, w: Record)
    requires f.valueLength <= f.payload && |old'| == |bytes| == f.Size()
  {
    forall k | 2 <= k < 2 + f.valueLength && Sealed(f, Partial(old', bytes, k)) ::
      Value(f, Partial(old', bytes, k)) == v || Value(f, Partial(old', bytes, k)) == w
  }

  /** What can be left of the record that write `m` is replacing when the power fails. */
  ghost predicate InProgress(f: Format, lap: nat, r: Record, m: int, v: Record, w: Record)
    requires f.valueLength <= f.payload
  {
    Dormant(f, r, m - lap) || Torn(f, r, m) || Holds(f, r, m, v) || Holds(f, r, m, w)
  }

  /** After the counter byte but before the value the record is never valid. */
  lemma CounterWritten(f: Format, lap: nat, old': Record, bytes: Record, m: nat, w: Record)
    requires f.Sensible() && ErasedIsUnsealed(f) && 0 < lap < 256
    requires Dormant(f, old', m - lap) || Torn(f, old', m)
    requires Holds(f, bytes, m, w)
    ensures !Sealed(f, Partial(old', bytes, 2))
  {
    hide Sealed, Wrap;
    var r := Partial(old', bytes, 2);
    if Torn(f, old', m) {
      assert r == old';
    } else if m < lap {
      var woken := old'[0 := f.marker];
      assert woken[1..] == old'[1..];
      ErasedShape(f, woken, bytes[1]);
      assert r == woken[1 := bytes[1]];
    } else {
      var woken := old'[0 := f.marker];
      WrapDistinct(m, m - lap);
      CounterChangeBreaksSeal(f, woken, Wrap(m));
      assert r == woken[1 := Wrap(m)];
    }
  }

  /** With a one-byte value every mix is safe. */
  lemma SingleByteMixSafe(f: Format, lap: nat, old': Record, bytes: Record, m: nat, v: Record, w: Record)
    requires f.Sensible() && ErasedIsUnsealed(f) && 0 < lap < 256 && f.valueLength == 1
    requires InProgress(f, lap, old', m, v, w)
    requires Holds(f, bytes, m, w)
    ensures MixSafe(f, old', bytes, v, w)
  {
    hide Sealed, Wrap;
    if Dormant(f, old', m - lap) || Torn(f, old', m) {
      CounterWritten(f, lap, old', bytes, m, w);
    } else {
      assert Partial(old', bytes, 2) == old';
    }
  }

  lemma OverwriteProgress(f: Format, lap: nat, old': Record, bytes: Record, m: nat, v: Record, w: Record, k: nat)
    requires f.Sensible() && k <= f.Size()
    requires InProgress(f, lap, old', m, v, w)
    requires Holds(f, bytes, m, w)
    requires MixSafe(f, old', bytes, v, w)
    ensures InProgress(f, lap, Partial(old', bytes, k), m, v, w)
  {
    hide Sealed, Wrap;
    var r := Partial(old', bytes, k);
    if k <= 1 {
      OverwriteStart(f, lap, old', bytes, m, v, w, k);
    } else {
      assert r[0] == f.marker && r[1] == Wrap(m);
      if k >= 2 + f.valueLength {
        assert Value(f, r) == Value(f, bytes);
      }
    }
  }

  lemma OverwriteStart(f: Format, lap: nat, old': Record, bytes: Record, m: nat, v: Record, w: Record, k: nat)
    requires f.Sensible() && k <= 1
    requires InProgress(f, lap, old', m, v, w)
    requires Holds(f, bytes, m, w)
    ensures InProgress(f, lap, Partial(old', bytes, k), m, v, w)
  {
    hide Sealed, Wrap, Value;
    var r := Partial(old', bytes, k);
    if k == 0 {
      assert r == old';
    } else if Dormant(f, old', m - lap) {
      assert r == old'[0 := f.marker];
      DormantCleared(f, old', m - lap, f.marker);
    } else {
      assert old'[0] == f.marker == bytes[0];
      assert r == old';
    }
  }
}
