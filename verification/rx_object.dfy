/**
 A receiving message object of the AVR controller. The controller can finish a reception at
 any moment while the object is armed; it then disarms it and sets a flag. The interrupt
 hands the frame to the receive buffer, arms the object and clears the flag; its error
 branch only clears the flag.
 */
module RxObject {
  import opened RxRing

  /**
   Where the interrupt is: outside, between arming the object and clearing the flag, or in
   the error branch between the test of the flag and clearing it.
   */
  datatype Phase = Outside | Rearmed | Tested

  /** `missed` is the frame whose flag was cleared unseen, if that has happened; the sequences are history. */
  datatype Object = Object(armed: bool, rxok: bool, phase: Phase, frame: Slot, missed: seq<Slot>,
                           received: seq<Slot>, handed: seq<Slot>)

  datatype Action =
    | Receive(frame: Slot)
    | HandOver
    | ClearHanded
    | ErrorTest
    | ErrorClear

  ghost predicate Enabled(o: Object, a: Action) {
    match a
    case Receive(_) => o.armed
    case HandOver => o.phase.Outside? && o.rxok
    case ClearHanded => o.phase.Rearmed?
    case ErrorTest => o.phase.Outside? && !o.rxok
    case ErrorClear => o.phase.Tested?
  }

  /** The flag is cleared; if a reception has finished meanwhile, its frame is not handed over. */
  function ClearFlag(o: Object): Object {
    o.(rxok := false, phase := Outside, missed := if o.armed then o.missed else Unseen(o))
  }

  /** The frame that is lost when the flag is cleared while the object is not armed. */
  function Unseen(o: Object): seq<Slot> {
    if o.missed == [] then [o.frame] else o.missed
  }

  function Step(o: Object, a: Action): Object {
    match a
    case Receive(frame) => o.(armed := false, rxok := true, frame := frame, received := o.received + [frame])
    case HandOver => o.(armed := true, phase := Rearmed, handed := o.handed + [o.frame])
    case ClearHanded => ClearFlag(o)
    case ErrorTest => o.(phase := Tested)
    case ErrorClear => ClearFlag(o)
  }

  ghost predicate Init(o: Object) {
    o.armed && !o.rxok && o.phase == Outside && o.missed == [] && o.received == [] && o.handed == []
  }

  ghost predicate Behaviour(os: seq<Object>, actions: seq<Action>) {
    && |os| == |actions| + 1 && Init(os[0])
    && forall i :: 0 <= i < |actions| ==> Enabled(os[i], actions[i]) && os[i + 1] == Step(os[i], actions[i])
  }

  /** No reception can finish and no frame can be handed over any more. */
  predicate Stopped(o: Object) {
    o.phase.Outside? && !o.armed && !o.rxok
  }

  /** The frame in the object that the interrupt has still to see. */
  function Waiting(o: Object): seq<Slot> {
    if !o.armed && o.missed == [] then [o.frame] else []
  }

  ghost predicate Inv(o: Object) {
    && |o.missed| <= 1
    && (o.missed == [] ==> (o.phase.Rearmed? ==> o.rxok) && (!o.phase.Rearmed? ==> o.armed == !o.rxok))
    && (o.missed != [] ==> !o.armed && !o.rxok && !o.phase.Rearmed?)
    && o.received == o.handed + Waiting(o) + o.missed
  }

  lemma StepKeepsInv(o: Object, a: Action)
    requires Inv(o) && Enabled(o, a)
    ensures Inv(Step(o, a))
  {
    assert o.handed + [] + [] == o.handed;
    assert o.handed + [o.frame] + [] == o.handed + [] + [o.frame] == o.handed + [o.frame];
  }

  lemma {:induction false} BehaviourKeepsInv(os: seq<Object>, actions: seq<Action>, i: nat)
    requires Behaviour(os, actions) && i <= |actions|
    ensures Inv(os[i])
  {
    if i > 0 {
      BehaviourKeepsInv(os, actions, i - 1);
      StepKeepsInv(os[i - 1], actions[i - 1]);
    }
  }

  /**
   In every reachable state the frames received are those handed to the receive buffer, in
   order and once, then the one in the object, then the one that was missed; and outside the
   interrupt the object has stopped exactly if a frame was missed.
   */
  lemma StoppedIffMissed(os: seq<Object>, actions: seq<Action>, i: nat)
    requires Behaviour(os, actions) && i <= |actions|
    ensures os[i].received == os[i].handed + Waiting(os[i]) + os[i].missed && |os[i].missed| <= 1
    ensures os[i].phase.Outside? ==> (Stopped(os[i]) <==> os[i].missed != [])
  {
    BehaviourKeepsInv(os, actions, i);
  }

  /** Clearing the flag stops the object exactly if a reception finished after it was armed or tested. */
  lemma ClearStopsIff(o: Object, a: Action)
    requires Inv(o) && o.missed == [] && Enabled(o, a) && (a.ClearHanded? || a.ErrorClear?)
    ensures Stopped(Step(o, a)) <==> !o.armed
  {
  }

  /** If no reception finishes inside the interrupt, the object never stops. */
  lemma {:induction false} NeverStops(os: seq<Object>, actions: seq<Action>, i: nat)
    requires Behaviour(os, actions) && i <= |actions|
    requires forall k :: 0 <= k < i && actions[k].Receive? ==> os[k].phase.Outside?
    ensures os[i].missed == [] && !Stopped(os[i]) && (!os[i].phase.Outside? ==> os[i].armed)
  {
    BehaviourKeepsInv(os, actions, i);
    if i > 0 {
      NeverStops(os, actions, i - 1);
      BehaviourKeepsInv(os, actions, i - 1);
      assert os[i] == Step(os[i - 1], actions[i - 1]) && Enabled(os[i - 1], actions[i - 1]);
    }
  }

  /** A stopped object stays stopped: nothing is received or handed over again, whatever happens. */
  lemma {:induction false} StoppedForEver(os: seq<Object>, actions: seq<Action>, i: nat, k: nat)
    requires Behaviour(os, actions) && i <= k <= |actions| && Stopped(os[i])
    ensures !os[k].armed && !os[k].rxok && os[k].received == os[i].received && os[k].handed == os[i].handed
    ensures !os[k].phase.Rearmed?
    decreases k
  {
    if i < k {
      StoppedForEver(os, actions, i, k - 1);
      assert os[k] == Step(os[k - 1], actions[k - 1]) && Enabled(os[k - 1], actions[k - 1]);
    }
  }

  /** It happens: a frame arrives inside the error branch. */
  lemma ReceptionCanStop(o: Object, frame: Slot)
    requires Init(o)
    ensures exists os: seq<Object>, actions: seq<Action> ::
      Behaviour(os, actions) && os[0] == o && Stopped(os[|actions|]) && os[|actions|].missed == [frame]
  {
    var a := Step(o, ErrorTest);
    var b := Step(a, Receive(frame));
    var c := Step(b, ErrorClear);
    var os, actions := [o, a, b, c], [ErrorTest, Receive(frame), ErrorClear];
    assert Behaviour(os, actions);
    assert os[|actions|] == c && Stopped(c);
  }
}
