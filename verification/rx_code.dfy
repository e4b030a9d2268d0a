/**
 CAN_get_msg (on the PIC together with can_hw_rx_overflow and can_hw_rx) and the receive part
 of the CAN interrupt as they are written. Before each access to the shared variables the
 interrupt may run any number of times; the frames it brings are a script.
 */
module RxCode {
  import opened Bytes
  import opened Options
  import opened Rings
  import opened RxRing

  class Receiver {
    const order: seq<nat>
    const slots: array<Slot>
    var top: nat
    var bottom: nat
    var overflow: bool
    var lost: bool
    /** The frames that arrive before the next access, before the one after it, and so on. */
    var arrivals: seq<seq<Slot>>
    /** The state of the interleaving model, its first state and its steps so far. */
    ghost var rx: Rx
    ghost const first: Rx
    ghost var actions: seq<Action>

    ghost predicate Follows()
      reads this`rx, this`actions
    {
      ValidOrder(order) && Init(first) && Run(first, order, actions) == rx && Inv(rx, order)
    }

    ghost predicate Valid()
      reads this, slots
    {
      && Follows()
      && rx.slots == slots[..] && rx.top == top && rx.bottom == bottom
      && rx.overflow == overflow && rx.lost == lost
    }

    lemma FollowsInv()
      requires Follows()
      ensures ValidOrder(order) && Inv(rx, order) && rx.Valid()
    {
    }

    constructor (order: seq<nat>, arrivals: seq<seq<Slot>>)
      requires ValidOrder(order)
      ensures Valid() && fresh(slots) && this.arrivals == arrivals && actions == [] && rx.place == TestOverflow
    {
      this.order, this.arrivals := order, arrivals;
      var buffer := new Slot[SIZE];
      slots := buffer;
      top, bottom, overflow, lost := 0, 0, false, false;
      ghost var empty := Rx(buffer[..], 0, 0, false, false, TestOverflow, [], [], 0, 0);
      InitIsOk(empty, order);
      rx, first, actions := empty, empty, [];
    }

    /** The interrupt: it runs to its end. */
    method Interrupt(frame: Slot)
      requires Valid()
      modifies this`top, this`overflow, this`rx, this`actions, slots
      ensures Valid() && rx == RxRing.Interrupt(old(rx), frame) && actions == old(actions) + [Arrive(frame)]
      ensures old(overflow) ==> overflow
    {
      hide Run, Inv, Taken, Contents;
      InvIsValid(rx, order);
      ArrivalKeepsInv(rx, order, frame);
      RunNext(first, order, actions, Arrive(frame));
      rx, actions := RxRing.Interrupt(rx, frame), actions + [Arrive(frame)];
      var nextTop := (top + 1) % SIZE;
      MaskedIndex(top);
      if nextTop == bottom {
        overflow := true;
      } else {
        slots[top] := frame;
        top := nextTop;
      }
    }

    method Preempt()
      requires Valid()
      modifies this`top, this`overflow, this`rx, this`actions, this`arrivals, slots
      ensures Valid() && Moved(old(rx), rx, old(rx).place) && (old(overflow) ==> overflow)
    {
      hide Run, Inv, Taken, Contents;
      if arrivals != [] {
        var frames := arrivals[0];
        arrivals := arrivals[1..];
        for i := 0 to |frames|
          invariant Valid() && Moved(old(rx), rx, old(rx).place) && (old(overflow) ==> overflow)
        {
          InvIsValid(rx, order);
          Interrupt(frames[i]);
        }
      }
    }

    /** The reader makes an access: the step of the model that the next statement carries out. */
    ghost method Step(controllerOverflow: bool)
      requires Follows()
      modifies this`rx, this`actions
      ensures Follows() && ValidOrder(order) && old(rx).Valid()
      ensures rx == NextAccess(old(rx), order, controllerOverflow)
      ensures actions == old(actions) + [Access(controllerOverflow)]
    {
      hide Run, Inv, NextAccess;
      InvIsValid(rx, order);
      AccessKeepsInv(rx, order, controllerOverflow);
      RunNext(first, order, actions, Access(controllerOverflow));
      rx, actions := NextAccess(rx, order, controllerOverflow), actions + [Access(controllerOverflow)];
    }

    // ---------- The accesses of CAN_get_msg, each after any number of interrupts ----------

    method ReadOverflow(controllerOverflow: bool) returns (overflowed: bool)
      requires Valid() && rx.place == TestOverflow
      modifies this`top, this`overflow, this`rx, this`actions, this`arrivals, slots
      ensures Valid() && Moved(old(rx), rx, if overflowed then ClearOverflow else TestEmpty)
      ensures overflowed == (overflow || controllerOverflow) && (old(overflow) ==> overflow)
      ensures overflow ==> rx.dropped > 0
      ensures !overflowed && rx.dropped > 0 ==> lost
    {
      hide Follows, Run, Inv, Taken, Contents, ValidOrder, NextAccess;
      Preempt();
      FollowsInv();
      LossIsKnown(rx, order);
      OverflowTested(rx, order, controllerOverflow);
      overflowed := overflow || controllerOverflow;
      Step(controllerOverflow);
    }

    method ResetOverflow()
      requires Valid() && rx.place == ClearOverflow
      modifies this`top, this`overflow, this`rx, this`actions, this`arrivals, slots
      ensures Valid() && Moved(old(rx), rx, MarkLoss) && !overflow
    {
      hide Follows, Run, Inv, Taken, Contents, ValidOrder, NextAccess;
      Preempt();
      FollowsInv();
      OverflowTested(rx, order, false);
      Step(false);
      overflow := false;
    }

    method SetLost()
      requires Valid() && rx.place == MarkLoss
      modifies this`top, this`overflow, this`lost, this`rx, this`actions, this`arrivals, slots
      ensures Valid() && lost && rx.reports == old(rx).reports + 1
      ensures Moved(old(rx), rx.(reports := old(rx).reports), TestEmpty)
    {
      hide Follows, Run, Inv, Taken, Contents, ValidOrder, NextAccess;
      Preempt();
      FollowsInv();
      OverflowTested(rx, order, false);
      Step(false);
      lost := true;
    }

    method IsFilled() returns (filled: bool)
      requires Valid() && rx.place == TestEmpty
      modifies this`top, this`overflow, this`rx, this`actions, this`arrivals, slots
      ensures Valid() && Moved(old(rx), rx, if filled then Read([]) else TestOverflow)
      ensures !filled ==> |rx.accepted| == |rx.delivered|
    {
      hide Follows, Run, Inv, Taken, Contents, ValidOrder, NextAccess;
      Preempt();
      FollowsInv();
      PendingAreNext(rx, order);
      EmptyTested(rx, order);
      filled := top != bottom;
      Step(false);
    }

    /** Byte number k of the reading order. */
    method ReadByte(k: nat) returns (b: byte)
      requires Valid() && rx.place.Read? && k == |rx.place.values| < |order|
      modifies this`top, this`overflow, this`rx, this`actions, this`arrivals, slots
      ensures Valid() && Moved(old(rx), rx, Read(old(rx).place.values + [b]))
    {
      hide Follows, Run, Inv, Taken, Contents, ValidOrder, NextAccess;
      Preempt();
      FollowsInv();
      ReadIndex(order, k);
      SlotRead(rx, order);
      b := slots[bottom][order[k]];
      Step(false);
    }

    method Release()
      requires Valid() && rx.place.Read? && |rx.place.values| == |order|
      modifies this`top, this`bottom, this`overflow, this`rx, this`actions, this`arrivals, slots
      ensures Valid() && rx.place == TestOverflow && rx.dropped >= old(rx.dropped) && rx.reports == old(rx.reports)
      ensures old(rx).accepted <= rx.accepted && rx.delivered == old(rx).delivered + [old(rx).place.values]
      ensures |old(rx).delivered| < |rx.accepted| && ValidOrder(order)
      ensures old(rx).place.values == Taken(rx.accepted[|old(rx).delivered|], order, |order|)
    {
      hide Follows, Run, Inv, Taken, Contents, ValidOrder, NextAccess;
      Preempt();
      FollowsInv();
      WholeFrameRead(rx, order);
      SlotRead(rx, order);
      MaskedIndex(bottom);
      Step(false);
      bottom := (bottom + 1) % SIZE;
    }

    /** The start of CAN_get_msg: a loss is reported if the flag of the buffer or of the controller is set. */
    method ReportLoss(controllerOverflow: bool) returns (reported: bool)
      requires Valid() && rx.place == TestOverflow
      modifies this`top, this`overflow, this`lost, this`rx, this`actions, this`arrivals, slots
      ensures Valid() && Moved(old(rx), rx.(reports := old(rx).reports), TestEmpty)
      ensures rx.reports == old(rx).reports + (if reported then 1 else 0) && lost == (old(lost) || reported)
      ensures (old(overflow) || controllerOverflow ==> reported)
      ensures reported ==> controllerOverflow || rx.dropped > 0
      ensures old(rx).dropped > 0 ==> lost
    {
      hide Valid, Follows, Run, Inv, Taken, Contents, ValidOrder, NextAccess;
      ghost var was, before := rx, rx;
      reported := ReadOverflow(controllerOverflow);
      MovedOn(was, before, rx, rx.place);
      if reported {
        before := rx;
        ResetOverflow();
        MovedOn(was, before, rx, MarkLoss);
        before := rx;
        SetLost();
        MovedOn(was, before, rx.(reports := before.reports), TestEmpty);
      }
    }

    /**
     CAN_get_msg up to the decoding of the frame. Whatever the interrupt does meanwhile, the
     call returns the oldest frame that was pending when it began, untorn; it can come back
     empty-handed only if none was; it reports every loss that happened before, and over all
     calls it never reports more losses than there were.
     */
    method GetMsg(controllerOverflow: bool) returns (frame: Option<seq<byte>>, reported: bool)
      requires Valid() && rx.place == TestOverflow
      modifies this`top, this`bottom, this`overflow, this`lost, this`rx, this`actions, this`arrivals, slots
      ensures Valid() && rx.place == TestOverflow && ValidOrder(order) && old(rx).Valid()
      ensures old(rx).Pending() != [] ==> frame == Some(Taken(old(rx).Pending()[0], order, |order|))
      ensures rx.delivered == old(rx).delivered + if frame.Some? then [frame.value] else []
      ensures old(rx).dropped > 0 ==> lost
      ensures rx.reports == old(rx).reports + (if reported then 1 else 0) && lost == (old(lost) || reported)
      ensures (old(overflow) || controllerOverflow ==> reported)
      ensures reported ==> controllerOverflow || rx.dropped > 0
      ensures rx.reports <= rx.dropped + ControllerOverflows(actions)
    {
      hide Valid, Follows, Run, Inv, Taken, Contents, ValidOrder, NextAccess, ControllerOverflows;
      ReaderStarts();
      ghost var was := rx;
      reported := ReportLoss(controllerOverflow);
      ghost var before := rx;
      MovedReported(was, rx);
      var filled := IsFilled();
      MovedOn(was.(reports := before.reports), before, rx, rx.place);
      if !filled {
        ReportsAreLosses();
        return None, reported;
      }
      var values := [];
      var k := 0;
      while k < |order|
        invariant Valid() && k == |values| <= |order| && rx.place == Read(values)
        invariant Moved(was.(reports := before.reports), rx, Read(values)) && before.dropped <= rx.dropped
        invariant lost == (old(lost) || reported) && (was.dropped > 0 ==> lost)
      {
        ghost var last := rx;
        var b := ReadByte(k);
        values := values + [b];
        MovedOn(was.(reports := before.reports), last, rx, Read(values));
        k := k + 1;
      }
      MovedFacts(was.(reports := before.reports), rx, Read(values));
      Release();
      ReportsAreLosses();
      frame := Some(values);
    }

    /** Every report so far stands for a loss. */
    lemma ReportsAreLosses()
      requires Valid()
      ensures rx.reports <= rx.dropped + ControllerOverflows(actions)
    {
      hide Inv, Run, ControllerOverflows;
      EveryReportIsALoss(first, order, actions);
    }

    /** What is known when the reader starts. */
    lemma ReaderStarts()
      requires Valid()
      ensures Follows() && ValidOrder(order) && rx.Valid() && |rx.delivered| <= |rx.accepted|
      ensures rx.Pending() == rx.accepted[|rx.delivered|..] && Moved(rx, rx, rx.place)
    {
      hide Taken, Contents, Run, ValidOrder;
    }
  }

  /** The new state differs from the old one by arrivals and by where the reader is. */
  ghost predicate Moved(before: Rx, after: Rx, place: Place) {
    && after.place == place && after.delivered == before.delivered && after.bottom == before.bottom
    && before.accepted <= after.accepted && before.dropped <= after.dropped && after.reports == before.reports
  }

  /** The reports of the state before do not matter to anything else. */
  lemma MovedReported(before: Rx, after: Rx)
    requires Moved(before, after.(reports := before.reports), TestEmpty)
    ensures Moved(before.(reports := after.reports), after, TestEmpty)
  {
  }

  lemma MovedOn(a: Rx, b: Rx, c: Rx, place: Place)
    requires Moved(a, b, b.place) && Moved(b, c, place)
    ensures Moved(a, c, place) && c.place == place && a.dropped <= b.dropped <= c.dropped
  {
  }

  lemma MovedFacts(a: Rx, b: Rx, place: Place)
    requires Moved(a, b, place)
    ensures b.delivered == a.delivered && a.accepted <= b.accepted && b.reports == a.reports
  {
  }

  lemma LossIsKnown(rx: Rx, order: seq<nat>)
    requires ValidOrder(order) && Inv(rx, order) && rx.place == TestOverflow
    ensures rx.dropped > 0 ==> rx.overflow || rx.lost
    ensures rx.overflow ==> rx.dropped > 0
  {
  }

  lemma PendingAreNext(rx: Rx, order: seq<nat>)
    requires ValidOrder(order) && Inv(rx, order)
    ensures rx.Valid() && |rx.delivered| <= |rx.accepted| && rx.Pending() == rx.accepted[|rx.delivered|..]
    ensures rx.Pending() == [] <==> rx.top == rx.bottom
  {
  }

  lemma ReadIndex(order: seq<nat>, k: nat)
    requires ValidOrder(order) && k < |order|
    ensures order[k] < SLOT_BYTES
  {
  }

  lemma WholeFrameRead(rx: Rx, order: seq<nat>)
    requires ValidOrder(order) && Inv(rx, order) && rx.place.Read? && |rx.place.values| == |order|
    ensures |rx.delivered| < |rx.accepted|
    ensures rx.place.values == Taken(rx.accepted[|rx.delivered|], order, |order|)
  {
  }

  // ---------- The accesses one by one ----------

  lemma OverflowTested(rx: Rx, order: seq<nat>, flag: bool)
    requires ValidOrder(order) && rx.Valid()
    ensures var r := NextAccess(rx, order, flag);
      && (rx.place == TestOverflow ==> r == rx.(place := if rx.overflow || flag then ClearOverflow else TestEmpty))
      && (rx.place == ClearOverflow ==> r == rx.(overflow := false, place := MarkLoss))
      && (rx.place == MarkLoss ==> r == rx.(lost := true, reports := rx.reports + 1, place := TestEmpty))
  {
  }

  lemma EmptyTested(rx: Rx, order: seq<nat>)
    requires ValidOrder(order) && rx.Valid() && rx.place == TestEmpty
    ensures NextAccess(rx, order, false) == rx.(place := if rx.top != rx.bottom then Read([]) else TestOverflow)
  {
  }

  lemma SlotRead(rx: Rx, order: seq<nat>)
    requires ValidOrder(order) && rx.Valid() && rx.place.Read?
    ensures var k := |rx.place.values|;
      NextAccess(rx, order, false)
        == if k < |order| then rx.(place := Read(rx.place.values + [rx.slots[rx.bottom][order[k]]]))
           else rx.(bottom := After(rx.bottom, SIZE), delivered := rx.delivered + [rx.place.values],
                    place := TestOverflow)
  {
  }
}
