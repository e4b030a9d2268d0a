/**
 The receive buffer shared by the CAN interrupt and CAN_get_msg. The interrupt runs to its
 end; CAN_get_msg can be interrupted between any two accesses to the shared variables, and
 reads a slot byte by byte.
 */
module RxRing {
  import opened Bytes
  import opened Rings

  const SIZE := 16

  /** The bytes of a slot: four of the identifier, the length, eight of data. */
  const SLOT_BYTES := 13

  type Slot = s: seq<byte> | |s| == SLOT_BYTES witness seq(SLOT_BYTES, _ => 0)

  /** The bytes of a slot in the order the reader takes them; the AVR takes the first two twice. */
  const AVR_ORDER: seq<nat> := [0, 0, 1, 1, 2, 3, 4, 5, 6, 7, 8, 9, 10, 11, 12]
  const PIC_ORDER: seq<nat> := [0, 1, 2, 3, 4, 5, 6, 7, 8, 9, 10, 11, 12]

  predicate ValidOrder(order: seq<nat>) {
    order == AVR_ORDER || order == PIC_ORDER
  }

  /** Where CAN_get_msg is: the next access to the shared variables. */
  datatype Place =
    | TestOverflow
    | ClearOverflow
    | MarkLoss
    | TestEmpty
    | Read(values: seq<byte>)

  datatype Rx = Rx(slots: seq<Slot>, top: nat, bottom: nat, overflow: bool, lost: bool, place: Place,
                   accepted: seq<Slot>, delivered: seq<seq<byte>>, dropped: nat, reports: nat)
  {
    ghost predicate Valid() {
      |slots| == SIZE && top < SIZE && bottom < SIZE
    }

    function Pending(): (c: seq<Slot>)
      requires Valid()
      ensures |c| < SIZE
    {
      Contents(slots, top, bottom)
    }
  }

  /** A frame arrives, or CAN_get_msg makes its next access; the PIC also tests flags of the controller. */
  datatype Action = Arrive(frame: Slot) | Access(controllerOverflow: bool)

  function Interrupt(rx: Rx, frame: Slot): (r: Rx)
    requires rx.Valid()
    ensures r.Valid()
  {
    if After(rx.top, SIZE) == rx.bottom then rx.(overflow := true, dropped := rx.dropped + 1)
    else rx.(slots := rx.slots[rx.top := frame], top := After(rx.top, SIZE), accepted := rx.accepted + [frame])
  }

  function NextAccess(rx: Rx, order: seq<nat>, controllerOverflow: bool): (r: Rx)
    requires rx.Valid() && ValidOrder(order)
    ensures r.Valid()
  {
    match rx.place
    case TestOverflow => rx.(place := if rx.overflow || controllerOverflow then ClearOverflow else TestEmpty)
    case ClearOverflow => rx.(overflow := false, place := MarkLoss)
    case MarkLoss => rx.(lost := true, reports := rx.reports + 1, place := TestEmpty)
    case TestEmpty => rx.(place := if rx.top != rx.bottom then Read([]) else TestOverflow)
    case Read(values) =>
      if |values| < |order| then rx.(place := Read(values + [rx.slots[rx.bottom][order[|values|]]]))
      else rx.(bottom := After(rx.bottom, SIZE), delivered := rx.delivered + [values], place := TestOverflow)
  }

  function Step(rx: Rx, order: seq<nat>, a: Action): (r: Rx)
    requires rx.Valid() && ValidOrder(order)
    ensures r.Valid()
  {
    match a
    case Arrive(frame) => Interrupt(rx, frame)
    case Access(controllerOverflow) => NextAccess(rx, order, controllerOverflow)
  }

  function Run(rx: Rx, order: seq<nat>, actions: seq<Action>): (r: Rx)
    requires rx.Valid() && ValidOrder(order)
    ensures r.Valid()
  {
    if actions == [] then rx
    else Step(Run(rx, order, actions[..|actions| - 1]), order, actions[|actions| - 1])
  }

  lemma RunNext(rx: Rx, order: seq<nat>, actions: seq<Action>, a: Action)
    requires rx.Valid() && ValidOrder(order)
    ensures Run(rx, order, actions + [a]) == Step(Run(rx, order, actions), order, a)
  {
    assert (actions + [a])[..|actions|] == actions;
  }

  lemma {:induction false} RunConcat(rx: Rx, order: seq<nat>, a: seq<Action>, b: seq<Action>)
    requires rx.Valid() && ValidOrder(order)
    ensures Run(rx, order, a + b) == Run(Run(rx, order, a), order, b)
  {
    hide Step;
    if b == [] {
      assert a + b == a;
    } else {
      assert (a + b)[..|a + b| - 1] == a + b[..|b| - 1];
      RunConcat(rx, order, a, b[..|b| - 1]);
    }
  }

  // ---------- The invariant ----------

  /** What the reader makes of one slot. */
  function Taken(slot: Slot, order: seq<nat>, count: nat): (values: seq<byte>)
    requires ValidOrder(order) && count <= |order|
    ensures |values| == count
  {
    seq(count, i requires 0 <= i < count => slot[order[i]])
  }

  ghost predicate Inv(rx: Rx, order: seq<nat>)
    requires ValidOrder(order)
  {
    && rx.Valid()
    // every accepted frame is delivered or pending: once, in order of arrival, and untorn
    && |rx.delivered| <= |rx.accepted|
    && (forall i :: 0 <= i < |rx.delivered| ==> rx.delivered[i] == Taken(rx.accepted[i], order, |order|))
    && rx.Pending() == rx.accepted[|rx.delivered|..]
    // the bytes read so far are those of the oldest pending frame
    && (rx.place.Read? ==>
          && rx.top != rx.bottom && |rx.place.values| <= |order|
          && rx.place.values == Taken(rx.accepted[|rx.delivered|], order, |rx.place.values|))
    // a loss is never forgotten
    && (rx.dropped > 0 ==> rx.overflow || rx.lost || rx.place == MarkLoss)
    && (rx.overflow ==> rx.dropped > 0)
    && (rx.lost <==> rx.reports > 0)
  }

  ghost predicate Init(rx: Rx) {
    && |rx.slots| == SIZE && rx.top == 0 && rx.bottom == 0 && !rx.overflow && !rx.lost && rx.place == TestOverflow
    && rx.accepted == [] && rx.delivered == [] && rx.dropped == 0 && rx.reports == 0
  }

  /** A frame is dropped exactly when 15 are pending; the slot being read is not touched. */
  lemma ArrivalKeepsInv(rx: Rx, order: seq<nat>, frame: Slot)
    requires ValidOrder(order) && Inv(rx, order)
    ensures var r := Interrupt(rx, frame);
      && Inv(r, order)
      && (r.dropped == rx.dropped + 1 <==> |rx.Pending()| == SIZE - 1)
      && r.Pending() == (if |rx.Pending()| == SIZE - 1 then rx.Pending() else rx.Pending() + [frame])
      && r.bottom == rx.bottom && (rx.top != rx.bottom ==> r.slots[r.bottom] == rx.slots[rx.bottom])
  {
    hide Taken, Contents;
    if After(rx.top, SIZE) != rx.bottom {
      Pushed(rx.slots, rx.top, rx.bottom, frame);
    }
  }

  lemma TakenNext(slot: Slot, order: seq<nat>, count: nat)
    requires ValidOrder(order) && count < |order|
    ensures Taken(slot, order, count + 1) == Taken(slot, order, count) + [slot[order[count]]]
    ensures Taken(slot, order, 0) == []
  {
  }

  lemma ReadKeepsInv(rx: Rx, order: seq<nat>)
    requires ValidOrder(order) && Inv(rx, order) && rx.place.Read?
    ensures Inv(NextAccess(rx, order, false), order)
  {
    hide Taken, Contents, After;
    Popped(rx.slots, rx.top, rx.bottom);
    var k := |rx.place.values|;
    if k < |order| {
      TakenNext(rx.slots[rx.bottom], order, k);
    }
  }

  lemma AccessKeepsInv(rx: Rx, order: seq<nat>, controllerOverflow: bool)
    requires ValidOrder(order) && Inv(rx, order)
    ensures Inv(NextAccess(rx, order, controllerOverflow), order)
  {
    hide Contents;
    if rx.place.Read? {
      ReadKeepsInv(rx, order);
    }
  }

  lemma {:induction false} RunKeepsInv(rx: Rx, order: seq<nat>, actions: seq<Action>)
    requires ValidOrder(order) && Inv(rx, order)
    ensures Inv(Run(rx, order, actions), order)
  {
    hide Inv;
    assert rx.Valid() by { InvIsValid(rx, order); }
    if actions != [] {
      var last := actions[|actions| - 1];
      var before := Run(rx, order, actions[..|actions| - 1]);
      RunKeepsInv(rx, order, actions[..|actions| - 1]);
      match last
      case Arrive(frame) => ArrivalKeepsInv(before, order, frame);
      case Access(flag) => AccessKeepsInv(before, order, flag);
    }
  }

  lemma InvIsValid(rx: Rx, order: seq<nat>)
    requires ValidOrder(order) && Inv(rx, order)
    ensures rx.Valid()
  {
  }

  // ---------- Main results ----------

  /** How many frames arrive in a run. */
  function Arrivals(actions: seq<Action>): nat {
    if actions == [] then 0
    else Arrivals(actions[..|actions| - 1]) + if actions[|actions| - 1].Arrive? then 1 else 0
  }

  lemma AccessAcceptsNothing(rx: Rx, order: seq<nat>, controllerOverflow: bool)
    requires ValidOrder(order) && rx.Valid()
    ensures var r := NextAccess(rx, order, controllerOverflow); r.accepted == rx.accepted && r.dropped == rx.dropped
  {
  }

  lemma {:induction false} EveryArrivalCounts(rx: Rx, order: seq<nat>, actions: seq<Action>)
    requires ValidOrder(order) && rx.Valid()
    ensures var r := Run(rx, order, actions);
      |r.accepted| + r.dropped == |rx.accepted| + rx.dropped + Arrivals(actions)
  {
    hide NextAccess, ValidOrder;
    if actions != [] {
      var last := actions[|actions| - 1];
      EveryArrivalCounts(rx, order, actions[..|actions| - 1]);
      if last.Access? {
        AccessAcceptsNothing(Run(rx, order, actions[..|actions| - 1]), order, last.controllerOverflow);
      }
    }
  }

  /**
   From an empty buffer, under every interleaving of the interrupt and the reader: frames
   come out untorn, once and in order of arrival; those not yet out are the pending ones, at
   most 15; every frame that arrived is accepted or dropped; and after a drop the overflow
   flag or the sticky loss flag is set, except between the two statements that turn the
   one into the other.
   */
  lemma FramesComeOutOnceInOrder(rx: Rx, order: seq<nat>, actions: seq<Action>)
    requires ValidOrder(order) && Init(rx)
    ensures var r := Run(rx, order, actions);
      && |r.delivered| <= |r.accepted| <= |r.delivered| + 15
      && (forall i :: 0 <= i < |r.delivered| ==> r.delivered[i] == Taken(r.accepted[i], order, |order|))
      && r.Pending() == r.accepted[|r.delivered|..]
      && |r.accepted| + r.dropped == Arrivals(actions)
      && (r.dropped > 0 ==> r.overflow || r.lost || r.place == MarkLoss)
  {
    InitIsOk(rx, order);
    RunKeepsInv(rx, order, actions);
    EveryArrivalCounts(rx, order, actions);
  }

  lemma InitIsOk(rx: Rx, order: seq<nat>)
    requires ValidOrder(order) && Init(rx)
    ensures Inv(rx, order) && rx.Pending() == [] && Run(rx, order, []) == rx
  {
  }

  /** How often the reader found the overflow flag of the controller set. */
  function ControllerOverflows(actions: seq<Action>): nat {
    if actions == [] then 0
    else ControllerOverflows(actions[..|actions| - 1]) + if actions[|actions| - 1] == Access(true) then 1 else 0
  }

  /** The reports that are still to be made. */
  function Unreported(rx: Rx): nat {
    (if rx.overflow || rx.place == ClearOverflow then 1 else 0) + if rx.place == MarkLoss then 1 else 0
  }

  /**
   No false alarm: in every run each report of a loss, made or to be made, stands for a frame
   of its own that was dropped, or for an overflow of the controller. The sticky flag is set
   exactly if a loss was reported.
   */
  lemma {:induction false} EveryReportIsALoss(rx: Rx, order: seq<nat>, actions: seq<Action>)
    requires ValidOrder(order) && Init(rx)
    ensures var r := Run(rx, order, actions);
      && r.reports + Unreported(r) <= r.dropped + ControllerOverflows(actions)
      && (r.lost <==> r.reports > 0)
  {
    hide ValidOrder;
    InitIsOk(rx, order);
    if actions != [] {
      EveryReportIsALoss(rx, order, actions[..|actions| - 1]);
    }
  }

  /** So without an overflow of the controller no flag is ever set before a frame is dropped. */
  lemma NoLossNoFlag(rx: Rx, order: seq<nat>, actions: seq<Action>)
    requires ValidOrder(order) && Init(rx) && Access(true) !in actions
    ensures var r := Run(rx, order, actions);
      r.overflow || r.lost || r.place == ClearOverflow || r.place == MarkLoss ==> r.dropped > 0
  {
    EveryReportIsALoss(rx, order, actions);
    NoControllerOverflow(actions);
  }

  lemma {:induction false} NoControllerOverflow(actions: seq<Action>)
    requires Access(true) !in actions
    ensures ControllerOverflows(actions) == 0
  {
    if actions != [] {
      NoControllerOverflow(actions[..|actions| - 1]);
    }
  }

  /** The bytes the reader takes are all bytes of the slot: different frames are read differently. */
  lemma WholeSlotIsTaken(slot: Slot, slot': Slot, order: seq<nat>)
    requires ValidOrder(order) && Taken(slot, order, |order|) == Taken(slot', order, |order|)
    ensures slot == slot'
  {
    forall b | 0 <= b < SLOT_BYTES
      ensures slot[b] == slot'[b]
    {
      var k := if order == PIC_ORDER then b else if b == 0 then 0 else if b == 1 then 2 else b + 2;
      assert order[k] == b;
      assert Taken(slot, order, |order|)[k] == slot[b] && Taken(slot', order, |order|)[k] == slot'[b];
    }
  }

  lemma ArrivalTouchesNoFlag(rx: Rx, frame: Slot)
    requires rx.Valid() && |rx.Pending()| < SIZE - 1
    ensures var r := Interrupt(rx, frame);
      r.place == rx.place && r.lost == rx.lost && r.dropped == rx.dropped && r.overflow == rx.overflow
  {
  }

  /** n arrivals without a reader. */
  function Burst(frame: Slot, n: nat): (actions: seq<Action>)
    ensures |actions| == n
  {
    if n == 0 then [] else Burst(frame, n - 1) + [Arrive(frame)]
  }

  lemma {:induction false} BurstFills(rx: Rx, order: seq<nat>, frame: Slot, n: nat)
    requires ValidOrder(order) && Init(rx) && n < SIZE
    ensures var r := Run(rx, order, Burst(frame, n));
      Inv(r, order) && |r.Pending()| == n && r.place == TestOverflow && !r.lost && r.dropped == 0
  {
    hide Inv, Contents, Interrupt, NextAccess, ValidOrder, Run;
    InitIsOk(rx, order);
    if n > 0 {
      var before := Run(rx, order, Burst(frame, n - 1));
      BurstFills(rx, order, frame, n - 1);
      RunNext(rx, order, Burst(frame, n - 1), Arrive(frame));
      ArrivalKeepsInv(before, order, frame);
      ArrivalTouchesNoFlag(before, frame);
    }
  }

  /** The exception is real: a run after which a frame is lost and neither flag says so. */
  lemma LossUnreportedForAMoment(rx: Rx, order: seq<nat>, frame: Slot)
    requires ValidOrder(order) && Init(rx)
    ensures var r := Run(rx, order, Burst(frame, SIZE) + [Access(false), Access(false)]);
      r.dropped == 1 && !r.overflow && !r.lost
  {
    hide Inv, Contents;
    BurstFills(rx, order, frame, SIZE - 1);
    ArrivalKeepsInv(Run(rx, order, Burst(frame, SIZE - 1)), order, frame);
    var full := Burst(frame, SIZE);
    RunNext(rx, order, Burst(frame, SIZE - 1), Arrive(frame));
    RunNext(rx, order, full, Access(false));
    RunNext(rx, order, full + [Access(false)], Access(false));
    assert full + [Access(false), Access(false)] == full + [Access(false)] + [Access(false)];
  }
}
