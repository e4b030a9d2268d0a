/**
 Register values longer than one frame: how CAN_send_reg_value cuts them into frames and how
 a receiver puts them together by the index in each frame.
 */
module MultiFrame {
  import opened Bytes
  import opened Options
  import opened CyclicCounters

  const SINGLE := 0
  const FIRST := 1
  const MIDDLE := 2
  const LAST := 3

  /** A REG_VALUE frame. */
  datatype RegFrame = RegFrame(destination: byte, seqnum: nat, flags: nat, data: seq<byte>)

  function FrameCount(length: nat): (n: nat)
    ensures length >= 8 ==> n >= 2 && 6 * (n - 1) < length <= 6 * n
    ensures n == 0 <==> length == 0
  {
    if length == 0 then 0 else if length < 8 then 1 else (length + 5) / 6
  }

  function Min(a: nat, b: nat): (m: nat)
    ensures m <= a && m <= b && (m == a || m == b)
  {
    if a <= b then a else b
  }

  /** The value bytes of frame k. */
  function Part(value: seq<byte>, k: nat): (p: seq<byte>)
    requires k < FrameCount(|value|)
    ensures |p| <= 7 && (|value| >= 8 ==> |p| <= 6)
  {
    if |value| < 8 then value else value[6 * k..Min(6 * k + 6, |value|)]
  }

  /** Frame k of a value. One byte holds the count or the index, so frame 256 is a first frame again. */
  function Fragment(registry: byte, destination: byte, seqnum: byte, value: seq<byte>, k: nat): (f: RegFrame)
    requires k < FrameCount(|value|)
    ensures |f.data| <= 8
  {
    var n := FrameCount(|value|);
    var flags := if |value| < 8 then SINGLE else if Wrap(k) == 0 then FIRST else if k < n - 1 then MIDDLE else LAST;
    var header := if |value| < 8 then [registry] else [registry, if Wrap(k) == 0 then Wrap(n) else Wrap(k)];
    RegFrame(destination, seqnum % 32, flags, header + Part(value, k))
  }

  function Fragments(registry: byte, destination: byte, seqnum: byte, value: seq<byte>): (fs: seq<RegFrame>)
    ensures |fs| == FrameCount(|value|)
  {
    seq(FrameCount(|value|),
        k requires 0 <= k < FrameCount(|value|) => Fragment(registry, destination, seqnum, value, k))
  }

  // ---------- CAN_send_reg_value ----------

  /** Copy value bytes behind the header until the frame is full or the value ends. */
  method FillData(data: array<byte>, header: nat, value: seq<byte>, start: nat) returns (i: nat, valueIx: nat)
    requires header <= 2 && data.Length == 8 && start <= |value|
    modifies data
    ensures i <= 8 && valueIx == Min(start + 8 - header, |value|)
    ensures data[..i] == old(data[..header]) + value[start..valueIx]
  {
    i, valueIx := header, start;
    while i < 8 && valueIx < |value|
      invariant header <= i <= 8 && valueIx <= |value| && valueIx - start == i - header
      invariant data[..i] == old(data[..header]) + value[start..valueIx]
    {
      data[i] := value[valueIx];
      valueIx := valueIx + 1;
      i := i + 1;
    }
  }

  /** Where frame k starts in the value; behind the last frame, its end. */
  function Offset(length: nat, k: nat): nat
    requires k <= FrameCount(length)
  {
    if k == FrameCount(length) then length else if length < 8 then 0 else 6 * k
  }

  /**
   Frame k of n of a long value: flags 1 and the count, or 2, at the end 3, and the index, both
   in one byte; then the six bytes of the value from 6 k on, or what is left of it.
   */
  ghost predicate LongFrame(f: RegFrame, registry: byte, value: seq<byte>, k: nat, n: nat) {
    && f.flags == (if k % 256 == 0 then 1 else if k < n - 1 then 2 else 3)
    && 2 <= |f.data| == 2 + (if k < n - 1 then 6 else |value| - 6 * k)
    && f.data[0] == registry && f.data[1] as nat == (if k % 256 == 0 then n else k) % 256
    && forall j :: 2 <= j < |f.data| ==> 0 <= 6 * k + j - 2 < |value| && f.data[j] == value[6 * k + j - 2]
  }

  /** The documented frames of a value: a single one with flags 0, or one for every six bytes. */
  ghost predicate Documented(registry: byte, destination: byte, seqnum: byte, value: seq<byte>, sent: seq<RegFrame>) {
    && (forall k :: 0 <= k < |sent| ==> sent[k].destination == destination && sent[k].seqnum == seqnum as nat % 32)
    && (|value| == 0 ==> sent == [])
    && (1 <= |value| < 8 ==> |sent| == 1 && sent[0].flags == 0 && sent[0].data == [registry] + value)
    && (|value| >= 8 ==>
          && 6 * (|sent| - 1) < |value| <= 6 * |sent|
          && forall k :: 0 <= k < |sent| ==> LongFrame(sent[k], registry, value, k, |sent|))
  }

  lemma FragmentBytes(registry: byte, destination: byte, seqnum: byte, value: seq<byte>, k: nat)
    requires 8 <= |value| && k < FrameCount(|value|)
    ensures LongFrame(Fragment(registry, destination, seqnum, value, k), registry, value, k, FrameCount(|value|))
  {
    var f := Fragment(registry, destination, seqnum, value, k);
    assert forall j :: 2 <= j < |f.data| ==> f.data[j] == Part(value, k)[j - 2];
  }

  lemma FragmentsAreDocumented(registry: byte, destination: byte, seqnum: byte, value: seq<byte>)
    ensures Documented(registry, destination, seqnum, value, Fragments(registry, destination, seqnum, value))
  {
    if |value| >= 8 {
      hide Fragment, LongFrame;
      forall k | 0 <= k < FrameCount(|value|)
        ensures var f := Fragment(registry, destination, seqnum, value, k);
          && f.destination == destination && f.seqnum == seqnum as nat % 32
          && LongFrame(f, registry, value, k, FrameCount(|value|))
      {
        FragmentBytes(registry, destination, seqnum, value, k);
        FragmentHeader(registry, destination, seqnum, value, k);
      }
    }
  }

  lemma FragmentHeader(registry: byte, destination: byte, seqnum: byte, value: seq<byte>, k: nat)
    requires k < FrameCount(|value|)
    ensures var f := Fragment(registry, destination, seqnum, value, k);
      f.destination == destination && f.seqnum == seqnum as nat % 32
  {
  }

  /** The frames handed to CAN_put_msg. */
  method SendRegValue(registry: byte, destination: byte, seqnum: byte, value: seq<byte>) returns (sent: seq<RegFrame>)
    ensures sent == Fragments(registry, destination, seqnum, value)
    ensures Documented(registry, destination, seqnum, value, sent)
  {
    hide Wrap, FrameCount, Part, Documented;
    var length := |value|;
    var data := new byte[8];
    sent := [];
    var valueIx := 0;
    var msgNum: byte := 0;
    FirstNumber();
    NothingSent(length);
    while valueIx < length
      invariant |sent| <= FrameCount(length) && msgNum == Wrap(|sent|)
      invariant valueIx == Offset(length, |sent|) && (|sent| < FrameCount(length) <==> valueIx < length)
      invariant forall k :: 0 <= k < |sent| ==> sent[k] == Fragment(registry, destination, seqnum, value, k)
      decreases length - valueIx
    {
      NextOffset(value, |sent|);
      var i, flags := 1, SINGLE;
      data[0] := registry;
      if length < 8 {
        flags := SINGLE;
      } else if msgNum == 0 {
        flags := FIRST;
        data[1] := Wrap((length + 5) / 6);
        i := i + 1;
      } else if valueIx < length - 6 {
        flags := MIDDLE;
        data[1] := msgNum;
        i := i + 1;
      } else {
        flags := LAST;
        data[1] := msgNum;
        i := i + 1;
      }
      ghost var header := data[..i];
      i, valueIx := FillData(data, i, value, valueIx);
      var frame := RegFrame(destination, seqnum % 32, flags, data[..i]);
      assert frame == Fragment(registry, destination, seqnum, value, |sent|);
      sent := sent + [frame];
      msgNum := Wrap(msgNum as int + 1);
    }
    FragmentsAreDocumented(registry, destination, seqnum, value);
  }

  lemma FirstNumber()
    ensures Wrap(0) == 0
  {
  }

  lemma NothingSent(length: nat)
    ensures Offset(length, 0) == 0 && (0 < FrameCount(length) <==> 0 < length)
  {
  }

  /** One frame further. */
  lemma NextOffset(value: seq<byte>, k: nat)
    requires k < FrameCount(|value|)
    ensures var length, start := |value|, Offset(|value|, k);
      var end := Min(start + (if length < 8 then 7 else 6), length);
      && start < length && (length >= 8 ==> start == 6 * k && FrameCount(length) == (length + 5) / 6)
      && (length >= 8 ==> (start < length - 6 <==> k < FrameCount(length) - 1))
      && end == Offset(length, k + 1) && (k + 1 < FrameCount(length) <==> end < length)
      && Part(value, k) == value[start..end]
      && Wrap(Wrap(k) as int + 1) == Wrap(k + 1)
  {
  }

  // ---------- The receiver ----------

  /** The place of a frame in the value: the first frame has index 0, the others carry theirs. */
  function Index(f: RegFrame): Option<nat> {
    if |f.data| < 2 || f.flags == SINGLE then None
    else if f.flags == FIRST then Some(0) else Some(f.data[1] as nat)
  }

  /** The first of the frames with the given index. */
  function Find(frames: seq<RegFrame>, index: nat): (f: Option<RegFrame>)
    ensures f.Some? ==> f.value in frames && Index(f.value) == Some(index)
    ensures f.None? ==> forall g :: g in frames ==> Index(g) != Some(index)
  {
    if frames == [] then None
    else if Index(frames[0]) == Some(index) then Some(frames[0])
    else Find(frames[1..], index)
  }

  /** The bytes of the frames 0, 1, ..., count - 1, if all of them are there. */
  function Collect(frames: seq<RegFrame>, count: nat): (v: Option<seq<byte>>)
    requires forall f :: f in frames ==> |f.data| <= 8
    ensures v.Some? ==> |v.value| <= 6 * count
  {
    if count == 0 then Some([])
    else
      var front, last := Collect(frames, count - 1), Find(frames, count - 1);
      if front.None? || last.None? then None else Some(front.value + last.value.data[2..])
  }

  function FindSingle(frames: seq<RegFrame>): (f: Option<RegFrame>)
    ensures f.Some? ==> f.value in frames && f.value.flags == SINGLE && |f.value.data| >= 1
    ensures f.None? ==> forall g :: g in frames && |g.data| >= 1 ==> g.flags != SINGLE
  {
    if frames == [] then None
    else if frames[0].flags == SINGLE && |frames[0].data| >= 1 then Some(frames[0])
    else FindSingle(frames[1..])
  }

  /** The value made of the frames that arrived, in any order and with repetitions. */
  function Reassemble(frames: seq<RegFrame>): Option<seq<byte>>
    requires forall f :: f in frames ==> |f.data| <= 8
  {
    var single, first := FindSingle(frames), Find(frames, 0);
    if single.Some? then Some(single.value.data[1..])
    else if first.None? || first.value.flags != FIRST then None
    else Collect(frames, first.value.data[1] as nat)
  }

  /** The frames that arrived are those of the value, each at least once, in any order. */
  ghost predicate Delivers(arrived: seq<RegFrame>, sent: seq<RegFrame>) {
    (forall f :: f in arrived ==> f in sent) && (forall f :: f in sent ==> f in arrived)
  }

  lemma ArrivedAreShort(registry: byte, destination: byte, seqnum: byte, value: seq<byte>, arrived: seq<RegFrame>)
    requires Delivers(arrived, Fragments(registry, destination, seqnum, value))
    ensures forall f :: f in arrived ==> |f.data| <= 8
  {
  }

  /** While the index fits in a byte, it tells the frame. */
  lemma IndexTellsFrame(registry: byte, destination: byte, seqnum: byte, value: seq<byte>, k: nat)
    requires |value| >= 8 && k < FrameCount(|value|)
    ensures var f := Fragment(registry, destination, seqnum, value, k);
      && Index(f) == Some(Wrap(k) as nat) && f.flags != SINGLE && f.data[2..] == Part(value, k)
      && (f.flags == FIRST <==> Wrap(k) == 0) && (k == 0 ==> f.data[1] == Wrap(FrameCount(|value|)))
      && (k < 256 ==> Wrap(k) == k)
  {
  }

  lemma FindsFrame(registry: byte, destination: byte, seqnum: byte, value: seq<byte>, arrived: seq<RegFrame>, k: nat)
    requires Delivers(arrived, Fragments(registry, destination, seqnum, value))
    requires 8 <= |value| && FrameCount(|value|) <= 256 && k < FrameCount(|value|)
    ensures Find(arrived, k) == Some(Fragment(registry, destination, seqnum, value, k))
  {
    hide Fragment, Index, Find, Wrap;
    var sent, f := Fragments(registry, destination, seqnum, value), Find(arrived, k);
    IndexTellsFrame(registry, destination, seqnum, value, k);
    assert sent[k] in arrived;
    var j :| 0 <= j < |sent| && sent[j] == f.value;
    IndexTellsFrame(registry, destination, seqnum, value, j);
  }

  lemma {:induction false} CollectsPrefix(registry: byte, destination: byte, seqnum: byte, value: seq<byte>,
                                          arrived: seq<RegFrame>, count: nat)
    requires Delivers(arrived, Fragments(registry, destination, seqnum, value))
    requires forall f :: f in arrived ==> |f.data| <= 8
    requires 8 <= |value| && FrameCount(|value|) <= 256 && count <= FrameCount(|value|)
    ensures Collect(arrived, count) == Some(value[..Min(6 * count, |value|)])
  {
    hide Fragment, Fragments, Find, Delivers;
    if count > 0 {
      var k := count - 1;
      CollectsPrefix(registry, destination, seqnum, value, arrived, k);
      FindsFrame(registry, destination, seqnum, value, arrived, k);
      IndexTellsFrame(registry, destination, seqnum, value, k);
      assert value[..6 * k] + value[6 * k..Min(6 * k + 6, |value|)] == value[..Min(6 * k + 6, |value|)];
    }
  }

  /** The count in the first frame is right exactly up to 1530 bytes, though the library documents only 32. */
  lemma CountIsRightIff(registry: byte, destination: byte, seqnum: byte, value: seq<byte>)
    requires |value| >= 8
    ensures var sent := Fragments(registry, destination, seqnum, value);
      sent[0].data[1] as nat == |sent| <==> |value| <= 1530
  {
  }

  /**
   The receiver recovers the value from its frames, in whatever order and how often they
   arrive, exactly when the value has between 1 and 1530 bytes.
   */
  lemma RoundTripIff(registry: byte, destination: byte, seqnum: byte, value: seq<byte>, arrived: seq<RegFrame>)
    requires Delivers(arrived, Fragments(registry, destination, seqnum, value))
    ensures forall f :: f in arrived ==> |f.data| <= 8
    ensures Reassemble(arrived) == Some(value) <==> 1 <= |value| <= 1530
  {
    hide Fragment, Delivers, Find, FindSingle, Collect;
    ArrivedAreShort(registry, destination, seqnum, value, arrived);
    if |value| == 0 {
      NothingArrives(registry, destination, seqnum, value, arrived);
    } else if |value| < 8 {
      SingleArrives(registry, destination, seqnum, value, arrived);
    } else {
      FirstArrives(registry, destination, seqnum, value, arrived);
      if |value| <= 1530 {
        CollectsPrefix(registry, destination, seqnum, value, arrived, FrameCount(|value|));
        assert value[..|value|] == value;
      } else {
        var count := Wrap(FrameCount(|value|)) as nat;
        assert Collect(arrived, count).Some? ==> |Collect(arrived, count).value| <= 6 * count;
      }
    }
  }

  lemma NothingArrives(registry: byte, destination: byte, seqnum: byte, value: seq<byte>, arrived: seq<RegFrame>)
    requires Delivers(arrived, Fragments(registry, destination, seqnum, value)) && value == []
    ensures arrived == [] && Reassemble(arrived) == None
  {
    assert Fragments(registry, destination, seqnum, value) == [];
    SomeFrame(arrived);
  }

  lemma SomeFrame(frames: seq<RegFrame>)
    ensures frames == [] || exists f :: f in frames
  {
    if frames != [] {
      assert frames[0] in frames;
    }
  }

  lemma SingleArrives(registry: byte, destination: byte, seqnum: byte, value: seq<byte>, arrived: seq<RegFrame>)
    requires Delivers(arrived, Fragments(registry, destination, seqnum, value)) && 1 <= |value| < 8
    ensures FindSingle(arrived).Some? && FindSingle(arrived).value.data[1..] == value
  {
    var sent := Fragments(registry, destination, seqnum, value);
    assert sent[0] in arrived && sent == [sent[0]];
    assert sent[0].data[1..] == value;
  }

  /** Of a long value a first frame is found; its count is that of all frames, cut to a byte. */
  lemma FirstArrives(registry: byte, destination: byte, seqnum: byte, value: seq<byte>, arrived: seq<RegFrame>)
    requires Delivers(arrived, Fragments(registry, destination, seqnum, value)) && 8 <= |value|
    ensures FindSingle(arrived).None? && Find(arrived, 0).Some? && Find(arrived, 0).value.flags == FIRST
    ensures Find(arrived, 0).value.data[1] == Wrap(FrameCount(|value|))
  {
    hide FindSingle, Find, Wrap;
    var sent := Fragments(registry, destination, seqnum, value);
    forall f | f in arrived
      ensures f.flags != SINGLE
      ensures Index(f) == Some(0) ==> f.flags == FIRST && f.data[1] == Wrap(FrameCount(|value|))
    {
      var k :| 0 <= k < |sent| && sent[k] == f;
      IndexTellsFrame(registry, destination, seqnum, value, k);
    }
    FirstNumber();
    IndexTellsFrame(registry, destination, seqnum, value, 0);
    assert sent[0] in arrived;
  }
}
