/**
 The EEPROM itself: an array of bytes and the history of the byte updates made to it.
 A power failure leaves the array as it was after some prefix of that history. Records
 live at the addresses of a layout, so updates of the array are updates of an image.
 */
module Eeproms {
  import opened Bytes
  import opened ByteWrites

  type Memory = seq<byte>

  datatype CellWrite = CellWrite(address: nat, value: byte)

  /** Memory after a list of byte updates. */
  function Replay(m: Memory, ws: seq<CellWrite>): (r: Memory)
    ensures |r| == |m|
  {
    if ws == [] then m
    else
      var w := ws[|ws| - 1];
      var before: Memory := Replay(m, ws[..|ws| - 1]);
      if w.address < |m| then
        var after: Memory := before[w.address := w.value];
        after
      else before
  }

  lemma {:induction false} ReplayConcat(m: Memory, a: seq<CellWrite>, b: seq<CellWrite>)
    ensures Replay(m, a + b) == Replay(Replay(m, a), b)
  {
    if b == [] {
      assert a + b == a;
    } else {
      assert (a + b)[..|a + b| - 1] == a + b[..|b| - 1];
      ReplayConcat(m, a, b[..|b| - 1]);
    }
  }

  lemma ReplayNothing(m: Memory)
    ensures Replay(m, []) == m
  {
  }

  lemma ReplayNext(m: Memory, ws: seq<CellWrite>, w: CellWrite)
    ensures Replay(m, ws + [w])
         == if w.address < |m| then Replay(m, ws)[w.address := w.value] else Replay(m, ws)
  {
    assert (ws + [w])[..|ws + [w]| - 1] == ws;
  }

  /** Where the records of a store are: entry e occupies `size` bytes from `starts[e]`. */
  datatype Layout = Layout(starts: seq<nat>, size: nat) {

    /** All entries are inside a memory of `length` bytes and do not overlap. */
    ghost predicate Fits(length: nat) {
      && (forall e :: 0 <= e < |starts| ==> starts[e] + size <= length)
      && (forall d, e :: 0 <= d < e < |starts| ==>
            starts[d] + size <= starts[e] || starts[e] + size <= starts[d])
    }

    ghost predicate Owns(address: nat) {
      exists e :: 0 <= e < |starts| && starts[e] <= address < starts[e] + size
    }

    ghost function View(m: Memory): (img: Image)
      requires Fits(|m|)
      ensures Shaped(img, |starts|, size)
      ensures forall e :: 0 <= e < |starts| ==> img[e] == m[starts[e]..starts[e] + size]
    {
      seq(|starts|, e requires 0 <= e < |starts| => m[starts[e]..starts[e] + size])
    }

    /** The faulty cells of the records. */
    ghost function FaultyCells(stuck: set<nat>): (bad: Faults)
      ensures forall e: nat, o: nat :: (e, o) in bad <==> e < |starts| && o < size && starts[e] + o in stuck
    {
      set e: nat, o: nat | 0 <= e < |starts| && 0 <= o < size && starts[e] + o in stuck :: (e, o)
    }

    ghost predicate Covers(ps: seq<Poke>) {
      forall i :: 0 <= i < |ps| ==> ps[i].entry < |starts| && ps[i].offset < size
    }

    /** The byte updates of the array that make the given updates of the image. */
    ghost function Flatten(ps: seq<Poke>): (ws: seq<CellWrite>)
      requires Covers(ps)
      ensures |ws| == |ps|
      ensures forall i :: 0 <= i < |ps| ==>
        ws[i] == CellWrite(starts[ps[i].entry] + ps[i].offset, ps[i].value)
    {
      seq(|ps|, i requires 0 <= i < |ps| => CellWrite(starts[ps[i].entry] + ps[i].offset, ps[i].value))
    }

    lemma FlattenConcat(a: seq<Poke>, b: seq<Poke>)
      requires Covers(a) && Covers(b)
      ensures Covers(a + b) && Flatten(a + b) == Flatten(a) + Flatten(b)
    {
    }

    lemma FlattenPrefix(ps: seq<Poke>, k: nat)
      requires Covers(ps) && k <= |ps|
      ensures Covers(ps[..k]) && Flatten(ps[..k]) == Flatten(ps)[..k]
    {
    }

    lemma EntryOfWrite(m: Memory, p: Poke, e: nat)
      requires Fits(|m|) && p.entry < |starts| && p.offset < size && e < |starts|
      ensures m[starts[p.entry] + p.offset := p.value][starts[e]..starts[e] + size]
           == if e == p.entry then m[starts[e]..starts[e] + size][p.offset := p.value]
              else m[starts[e]..starts[e] + size]
    {
      if e < p.entry {
        assert starts[e] + size <= starts[p.entry] || starts[p.entry] + size <= starts[e];
      } else if e > p.entry {
        assert starts[p.entry] + size <= starts[e] || starts[e] + size <= starts[p.entry];
      }
    }

    lemma ViewOfWrite(m: Memory, p: Poke)
      requires Fits(|m|) && p.entry < |starts| && p.offset < size
      ensures View(m[starts[p.entry] + p.offset := p.value]) == ApplyOne(View(m), p)
    {
      var m': Memory := m[starts[p.entry] + p.offset := p.value];
      forall e | 0 <= e < |starts|
        ensures View(m')[e] == ApplyOne(View(m), p)[e]
      {
        EntryOfWrite(m, p, e);
      }
    }

    lemma ViewOfNextWrite(m: Memory, front: seq<Poke>, last: Poke)
      requires Fits(|m|) && Covers(front) && last.entry < |starts| && last.offset < size
      ensures Covers(front + [last])
      ensures View(Replay(m, Flatten(front + [last]))) == ApplyOne(View(Replay(m, Flatten(front))), last)
    {
      hide View, ApplyOne, Replay, Fits, Flatten, Covers;
      FlattenOne(front, last);
      ReplayOne(m, Flatten(front), last, Flatten(front + [last]));
    }

    lemma ReplayOne(m: Memory, ws: seq<CellWrite>, p: Poke, ws': seq<CellWrite>)
      requires Fits(|m|) && p.entry < |starts| && p.offset < size
      requires ws' == ws + [CellWrite(starts[p.entry] + p.offset, p.value)]
      ensures View(Replay(m, ws')) == ApplyOne(View(Replay(m, ws)), p)
    {
      hide View, ApplyOne, Replay, Fits;
      ReplayNext(m, ws, CellWrite(starts[p.entry] + p.offset, p.value));
      EntryInside(|m|, p.entry, p.offset);
      ViewOfWrite(Replay(m, ws), p);
    }

    lemma FlattenOne(front: seq<Poke>, last: Poke)
      requires Covers(front) && last.entry < |starts| && last.offset < size
      ensures Covers(front + [last])
      ensures Flatten(front + [last])
           == Flatten(front) + [CellWrite(starts[last.entry] + last.offset, last.value)]
    {
    }

    lemma EntryInside(length: nat, e: nat, offset: nat)
      requires Fits(length) && e < |starts| && offset < size
      ensures starts[e] + offset < length
    {
    }

    /** Replaying the flattened updates on the array is applying them to the image. */
    lemma {:induction false} ViewOfReplay(m: Memory, ps: seq<Poke>)
      requires Fits(|m|) && Covers(ps)
      ensures View(Replay(m, Flatten(ps))) == Apply(View(m), ps)
    {
      hide View, ApplyOne, Flatten, Replay, Fits;
      if ps == [] {
        assert Flatten(ps) == [];
        ReplayNothing(m);
      } else {
        var front, last := ps[..|ps| - 1], ps[|ps| - 1];
        ViewOfReplay(m, front);
        ViewOfNextWrite(m, front, last);
        assert front + [last] == ps;
      }
    }

    /** Updates of the records touch no byte outside the layout. */
    lemma {:induction false} ReplayKeepsTheRest(m: Memory, ps: seq<Poke>, address: nat)
      requires Covers(ps) && address < |m| && !Owns(address)
      ensures Replay(m, Flatten(ps))[address] == m[address]
    {
      if ps != [] {
        var front, last := ps[..|ps| - 1], ps[|ps| - 1];
        ReplayKeepsTheRest(m, front, address);
        assert Flatten(ps)[..|ps| - 1] == Flatten(front);
        assert Owns(starts[last.entry] + last.offset);
      }
    }
  }

  /**
   An EEPROM chip with the ghost history of its byte updates since `origin`. Cells whose
   address is in `stuck` are worn out: updating them changes nothing.
   */
  class Eeprom {
    const cells: array<byte>
    const stuck: set<nat>
    ghost const origin: Memory
    ghost var log: seq<CellWrite>

    ghost predicate Valid()
      reads this, cells
    {
      |origin| == cells.Length && cells[..] == Replay(origin, log)
    }

    constructor (length: nat, contents: seq<byte>, stuck: set<nat>)
      requires |contents| == length
      ensures Valid() && fresh(cells) && cells[..] == contents && log == [] && this.stuck == stuck
    {
      this.stuck := stuck;
      cells := new byte[length](i requires 0 <= i < |contents| => contents[i]);
      origin := contents;
      log := [];
      new;
      assert cells[..] == contents;
    }

    /** eeprom_update_byte(): the cell is written only if its value changes. */
    method UpdateByte(address: nat, value: byte)
      requires Valid() && address < cells.Length
      modifies this`log, cells
      ensures Valid()
      ensures log == if address in stuck then old(log) else old(log) + [CellWrite(address, value)]
      ensures cells[..] == if address in stuck then old(cells[..]) else old(cells[..])[address := value]
    {
      hide Replay;
      if address !in stuck {
        if cells[address] != value {
          cells[address] := value;
        }
        assert cells[..] == old(cells[..])[address := value];
        ReplayNext(origin, log, CellWrite(address, value));
        log := log + [CellWrite(address, value)];
      }
    }

    /** eeprom_update_block(): the bytes in ascending address order. */
    method UpdateRecord(ghost layout: Layout, ghost entry: nat, start: nat, bytes: Record)
      requires Valid() && stuck == {} && layout.Fits(cells.Length)
      requires entry < |layout.starts| && layout.starts[entry] == start && |bytes| == layout.size
      modifies this`log, cells
      ensures Valid() && layout.Covers(RecordPokes(entry, bytes))
      ensures log == old(log) + layout.Flatten(RecordPokes(entry, bytes))
    {
      hide Replay, Layout.Fits, Layout.Flatten, Layout.Covers, RecordPokes;
      ghost var ps := RecordPokes(entry, bytes);
      RecordStart(layout, entry, bytes);
      for i := 0 to |bytes|
        invariant Valid() && layout.Covers(ps[..i])
        invariant log == old(log) + layout.Flatten(ps[..i])
      {
        layout.EntryInside(cells.Length, entry, i);
        UpdateByte(start + i, bytes[i]);
        RecordNext(entry, bytes, i);
        layout.FlattenOne(ps[..i], Poke(entry, i, bytes[i]));
      }
      assert ps[..|bytes|] == ps;
    }

    lemma RecordStart(layout: Layout, entry: nat, bytes: Record)
      ensures layout.Covers(RecordPokes(entry, bytes)[..0]) && layout.Flatten(RecordPokes(entry, bytes)[..0]) == []
    {
    }

    lemma RecordNext(entry: nat, bytes: Record, i: nat)
      requires i < |bytes|
      ensures RecordPokes(entry, bytes)[..i + 1] == RecordPokes(entry, bytes)[..i] + [Poke(entry, i, bytes[i])]
    {
    }

    /** eeprom_read_block(). */
    method ReadRecord(start: nat, size: nat) returns (r: Record)
      requires start + size <= cells.Length
      ensures r == cells[start..start + size]
    {
      r := [];
      for i := 0 to size
        invariant r == cells[start..start + i]
      {
        r := r + [cells[start + i]];
      }
    }

    /** The image after the updates of `ps` since the state in which the history was `before`. */
    lemma ImageSince(layout: Layout, before: seq<CellWrite>, ps: seq<Poke>)
      requires Valid() && layout.Fits(cells.Length) && layout.Covers(ps)
      requires log == before + layout.Flatten(ps)
      ensures layout.View(cells[..]) == Apply(layout.View(Replay(origin, before)), ps)
    {
      hide Replay, Layout.Flatten, Layout.View, Layout.Fits, Layout.Covers, Apply;
      ReplayConcat(origin, before, layout.Flatten(ps));
      layout.ViewOfReplay(Replay(origin, before), ps);
    }

    /**
     A power failure after `k` updates of a history that ends with the updates of `ps`
     leaves the image those updates started from, with a prefix of them made.
     */
    lemma CutImage(layout: Layout, before: seq<CellWrite>, ps: seq<Poke>, k: nat)
      requires Valid() && layout.Fits(cells.Length) && layout.Covers(ps)
      requires log == before + layout.Flatten(ps) && |before| <= k <= |log|
      ensures layout.Covers(ps[..k - |before|])
      ensures layout.View(Replay(origin, log[..k]))
           == Apply(layout.View(Replay(origin, before)), ps[..k - |before|])
    {
      hide Replay, Layout.Flatten, Layout.View, Layout.Fits, Layout.Covers, Apply;
      var cut := ps[..k - |before|];
      layout.FlattenPrefix(ps, k - |before|);
      assert log[..k] == before + layout.Flatten(ps)[..k - |before|];
      ReplayConcat(origin, before, layout.Flatten(cut));
      layout.ViewOfReplay(Replay(origin, before), cut);
    }
  }
}
