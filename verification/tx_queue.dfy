/**
 The transmit queue of the AVR library: message object 0 of the controller, a ring of eight
 slots behind it, and the interrupt that moves frames from the ring to the controller.
 CAN_put_msg and the interrupt exclude each other, but the controller can finish a
 transmission at any moment.
 */
module TxQueue {
  import opened Bytes
  import opened Options
  import opened Rings

  const SIZE := 8

  datatype Frame = Frame(id: seq<byte>, data: seq<byte>)

  /** A frame given to message object 0, from the queue or directly. */
  datatype Load = Load(frame: Frame, fromQueue: bool)

  /**
   `mob` is the frame being transmitted; `txok` the flag of a finished transmission.
   `clearing` holds between the two statements of the error branch of the interrupt that
   test the flag and clear it; `missed` says that this cleared the flag of a transmission
   that finished in between. The rest is history.
   */
  datatype Tx = Tx(slots: seq<Frame>, top: nat, bottom: nat, mob: Option<Frame>, txok: bool, clearing: bool,
                   missed: bool, loads: seq<Load>, sent: seq<Frame>, queued: seq<Frame>,
                   accepted: multiset<Frame>, faults: multiset<Frame>, overwritten: multiset<Frame>)
  {
    ghost predicate Valid() {
      |slots| == SIZE && top < SIZE && bottom < SIZE
    }

    function Queue(): (q: seq<Frame>)
      requires Valid()
      ensures |q| < SIZE
    {
      Contents(slots, top, bottom)
    }
  }

  datatype Action =
    | Put(frame: Frame, fault: Frame, busError: bool)
    | TryPut(frame: Frame)
    | Finish
    | TxInterrupt
    | ErrorTest
    | ErrorClear

  /** The interrupt runs to its end, so during its error branch only the controller acts. */
  ghost predicate Enabled(tx: Tx, a: Action) {
    match a
    case Put(_, _, _) => !tx.clearing
    case TryPut(_) => !tx.clearing
    case Finish => tx.mob.Some?
    case TxInterrupt => !tx.clearing && tx.txok
    case ErrorTest => !tx.clearing && !tx.txok
    case ErrorClear => tx.clearing
  }

  /** A frame is written to message object 0, which clears the flag. */
  function LoadMob(tx: Tx, frame: Frame, fromQueue: bool): Tx {
    tx.(mob := Some(frame), txok := false, missed := false, loads := tx.loads + [Load(frame, fromQueue)])
  }

  function TryPutMsg(tx: Tx, frame: Frame): Tx {
    if tx.mob.Some? then tx else LoadMob(tx, frame, false).(accepted := tx.accepted + multiset{frame})
  }

  function PutMsg(tx: Tx, frame: Frame, fault: Frame, busError: bool): (r: Tx)
    requires tx.Valid()
    ensures r.Valid()
  {
    if tx.mob.None? then TryPutMsg(tx, frame)
    else if After(tx.top, SIZE) != tx.bottom then
      tx.(slots := tx.slots[tx.top := frame], top := After(tx.top, SIZE), queued := tx.queued + [frame],
          accepted := tx.accepted + multiset{frame})
    else if busError && tx.queued != [] then
      var newest := Before(tx.top, SIZE);
      tx.(slots := tx.slots[newest := fault], queued := tx.queued[|tx.queued| - 1 := fault],
          faults := tx.faults + multiset{fault}, overwritten := tx.overwritten + multiset{tx.slots[newest]})
    else tx
  }

  /** The transmit branch of the interrupt: the next frame of the queue, if there is one. */
  function NextFromQueue(tx: Tx): (r: Tx)
    requires tx.Valid()
    ensures r.Valid()
  {
    if tx.top == tx.bottom then tx.(txok := false)
    else LoadMob(tx, tx.slots[tx.bottom], true).(bottom := After(tx.bottom, SIZE))
  }

  function Step(tx: Tx, a: Action): (r: Tx)
    requires tx.Valid()
    ensures r.Valid()
  {
    match a
    case Put(frame, fault, busError) => PutMsg(tx, frame, fault, busError)
    case TryPut(frame) => TryPutMsg(tx, frame)
    case Finish => if tx.mob.Some? then tx.(mob := None, txok := true, sent := tx.sent + [tx.mob.value]) else tx
    case TxInterrupt => NextFromQueue(tx)
    case ErrorTest => tx.(clearing := true)
    case ErrorClear => tx.(clearing := false, txok := false, missed := tx.missed || tx.txok)
  }

  ghost predicate Init(tx: Tx) {
    && |tx.slots| == SIZE && tx.top == 0 && tx.bottom == 0 && tx.mob == None && !tx.txok && !tx.clearing && !tx.missed
    && tx.loads == [] && tx.sent == [] && tx.queued == []
    && tx.accepted == multiset{} && tx.faults == multiset{} && tx.overwritten == multiset{}
  }

  ghost predicate Behaviour(txs: seq<Tx>, actions: seq<Action>) {
    && |txs| == |actions| + 1 && Init(txs[0])
    && forall i :: 0 <= i < |actions| ==>
         txs[i].Valid() && Enabled(txs[i], actions[i]) && txs[i + 1] == Step(txs[i], actions[i])
  }

  // ---------- The invariant ----------

  function Frames(loads: seq<Load>): (fs: seq<Frame>)
    ensures |fs| == |loads|
  {
    seq(|loads|, i requires 0 <= i < |loads| => loads[i].frame)
  }

  /** The frames that came out of the queue, in the order in which they did. */
  function FromQueue(loads: seq<Load>): seq<Frame> {
    if loads == [] then []
    else
      var front, last := FromQueue(loads[..|loads| - 1]), loads[|loads| - 1];
      if last.fromQueue then front + [last.frame] else front
  }

  function InMob(tx: Tx): seq<Frame> {
    if tx.mob.Some? then [tx.mob.value] else []
  }

  /** The queue holds frames and nothing is on the way that would make the interrupt send them. */
  predicate Stranded(tx: Tx) {
    tx.top != tx.bottom && tx.mob.None? && !tx.txok
  }

  /** Every load is transmitted once, in order; the queue is first in, first out; no frame appears or disappears. */
  ghost predicate Accounted(tx: Tx)
    requires tx.Valid()
  {
    && Frames(tx.loads) == tx.sent + InMob(tx)
    && tx.queued == FromQueue(tx.loads) + tx.Queue()
    && tx.accepted + tx.faults == multiset(tx.sent) + multiset(InMob(tx)) + multiset(tx.Queue()) + tx.overwritten
  }

  ghost predicate Inv(tx: Tx) {
    && tx.Valid() && Accounted(tx)
    && (tx.txok ==> tx.mob.None?)
    && (Stranded(tx) <==> tx.missed && tx.top != tx.bottom)
    && (tx.missed ==> tx.mob.None? && !tx.txok)
    && |tx.faults| == |tx.overwritten|
  }

  lemma LoadsNext(loads: seq<Load>, l: Load)
    ensures Frames(loads + [l]) == Frames(loads) + [l.frame]
    ensures FromQueue(loads + [l]) == FromQueue(loads) + if l.fromQueue then [l.frame] else []
  {
    assert (loads + [l])[..|loads|] == loads;
  }

  lemma DirectLoadKeepsInv(tx: Tx, frame: Frame)
    requires Inv(tx) && tx.mob.None?
    ensures Inv(TryPutMsg(tx, frame))
  {
    hide Contents, Frames, FromQueue;
    LoadsNext(tx.loads, Load(frame, false));
    assert tx.sent + [] == tx.sent;
    assert FromQueue(tx.loads) + [] == FromQueue(tx.loads);
    OneMore(tx.accepted, tx.faults, multiset(tx.sent), multiset([]), multiset(tx.Queue()), tx.overwritten,
            multiset{frame});
    assert multiset([frame]) == multiset{frame};
  }

  /** Adding the same frames on both sides of an account. */
  lemma OneMore<T>(a: multiset<T>, f: multiset<T>, s: multiset<T>, m: multiset<T>, q: multiset<T>, o: multiset<T>,
                   x: multiset<T>)
    requires a + f == s + m + q + o
    ensures (a + x) + f == s + (m + x) + q + o
    ensures (a + x) + f == s + m + (q + x) + o
  {
    assert (a + x) + f == (a + f) + x;
    assert (s + m + q + o) + x == s + m + (q + x) + o;
  }

  lemma QueuedKeepsInv(tx: Tx, frame: Frame, fault: Frame, busError: bool)
    requires Inv(tx) && tx.mob.Some? && After(tx.top, SIZE) != tx.bottom
    ensures Inv(PutMsg(tx, frame, fault, busError))
  {
    hide Contents, Frames, FromQueue;
    Pushed(tx.slots, tx.top, tx.bottom, frame);
    OneMore(tx.accepted, tx.faults, multiset(tx.sent), multiset(InMob(tx)), multiset(tx.Queue()), tx.overwritten,
            multiset{frame});
    assert FromQueue(tx.loads) + (tx.Queue() + [frame]) == (FromQueue(tx.loads) + tx.Queue()) + [frame];
  }

  lemma {:induction false} ReplacedLast(s: seq<Frame>, x: Frame)
    requires s != []
    ensures multiset(s[|s| - 1 := x]) + multiset{s[|s| - 1]} == multiset(s) + multiset{x}
  {
    assert s == s[..|s| - 1] + [s[|s| - 1]];
    assert s[|s| - 1 := x] == s[..|s| - 1] + [x];
  }

  lemma Exchanged<T>(a: multiset<T>, f: multiset<T>, s: multiset<T>, m: multiset<T>, q: multiset<T>, o: multiset<T>,
                     q': multiset<T>, x: multiset<T>, y: multiset<T>)
    requires a + f == s + m + q + o && q' + y == q + x
    ensures a + (f + x) == s + m + q' + (o + y)
  {
    assert (a + f) + x == s + m + (q + x) + o;
    assert s + m + (q' + y) + o == s + m + q' + (o + y);
  }

  /** The newest frame of a full queue is replaced. */
  lemma NewestOfQueue(tx: Tx, fault: Frame)
    requires tx.Valid() && tx.top != tx.bottom
    ensures var q, newest := tx.Queue(), Before(tx.top, SIZE);
      && q != [] && q[|q| - 1] == tx.slots[newest]
      && Contents(tx.slots[newest := fault], tx.top, tx.bottom) == q[|q| - 1 := fault]
  {
    hide Contents;
    var q, newest := tx.Queue(), Before(tx.top, SIZE);
    NewestReplaced(tx.slots, tx.top, tx.bottom, fault);
    NewestReplaced(tx.slots, tx.top, tx.bottom, tx.slots[newest]);
    assert tx.slots[newest := tx.slots[newest]] == tx.slots;
    assert q[|q| - 1 := tx.slots[newest]] == q;
  }

  lemma FaultKeepsInv(tx: Tx, frame: Frame, fault: Frame)
    requires Inv(tx) && tx.mob.Some? && After(tx.top, SIZE) == tx.bottom
    ensures tx.queued != [] && Inv(PutMsg(tx, frame, fault, true))
  {
    hide Contents, Frames, FromQueue, Before;
    var q := tx.Queue();
    NewestOfQueue(tx, fault);
    ReplacedLast(q, fault);
    Exchanged(tx.accepted, tx.faults, multiset(tx.sent), multiset(InMob(tx)), multiset(q), tx.overwritten,
              multiset(q[|q| - 1 := fault]), multiset{fault}, multiset{q[|q| - 1]});
    var left := FromQueue(tx.loads);
    assert (left + q)[|left + q| - 1 := fault] == left + q[|q| - 1 := fault];
  }

  lemma FinishKeepsInv(tx: Tx)
    requires Inv(tx) && tx.mob.Some?
    ensures Inv(Step(tx, Finish))
  {
    hide Contents, Frames, FromQueue;
    assert tx.sent + [tx.mob.value] + [] == tx.sent + [tx.mob.value];
  }

  lemma InterruptKeepsInv(tx: Tx)
    requires Inv(tx) && tx.txok
    ensures Inv(NextFromQueue(tx))
  {
    hide Contents, Frames, FromQueue;
    if tx.top != tx.bottom {
      Popped(tx.slots, tx.top, tx.bottom);
      var q, left := tx.Queue(), FromQueue(tx.loads);
      LoadsNext(tx.loads, Load(q[0], true));
      assert q == [q[0]] + q[1..];
      assert left + q == (left + [q[0]]) + q[1..];
      assert tx.sent + [] == tx.sent;
    }
  }

  lemma StepKeepsInv(tx: Tx, a: Action)
    requires Inv(tx) && Enabled(tx, a)
    ensures Inv(Step(tx, a))
  {
    hide Contents, Frames, FromQueue;
    match a
    case Put(frame, fault, busError) =>
      if tx.mob.None? {
        DirectLoadKeepsInv(tx, frame);
      } else if After(tx.top, SIZE) != tx.bottom {
        QueuedKeepsInv(tx, frame, fault, busError);
      } else {
        FaultKeepsInv(tx, frame, fault);
      }
    case TryPut(frame) =>
      if tx.mob.None? {
        DirectLoadKeepsInv(tx, frame);
      }
    case Finish => FinishKeepsInv(tx);
    case TxInterrupt => InterruptKeepsInv(tx);
    case ErrorTest =>
    case ErrorClear =>
  }

  lemma {:induction false} BehaviourKeepsInv(txs: seq<Tx>, actions: seq<Action>, i: nat)
    requires Behaviour(txs, actions) && i <= |actions|
    ensures Inv(txs[i])
  {
    hide Inv, Step, Enabled;
    if i == 0 {
      InitIsOk(txs[0]);
    } else {
      BehaviourKeepsInv(txs, actions, i - 1);
      StepKeepsInv(txs[i - 1], actions[i - 1]);
    }
  }

  lemma InitIsOk(tx: Tx)
    requires Init(tx)
    ensures Inv(tx) && tx.Queue() == []
  {
  }

  // ---------- Main results ----------

  /**
   In every reachable state: at most seven frames are queued; the controller transmitted
   every frame given to it once and in that order, and the one in message object 0 comes
   next; the queue is first in, first out, although frames given directly may overtake it;
   accepted frames and fault frames are exactly those transmitted, in message object 0,
   queued, or overwritten by a fault frame; and the queue waits for nothing just when the
   error branch cleared the flag of a transmission that had finished in the meantime.
   */
  lemma EveryFrameIsAccountedFor(txs: seq<Tx>, actions: seq<Action>, i: nat)
    requires Behaviour(txs, actions) && i <= |actions|
    ensures var tx := txs[i];
      && tx.Valid() && |tx.Queue()| <= 7
      && Frames(tx.loads) == tx.sent + InMob(tx)
      && tx.queued == FromQueue(tx.loads) + tx.Queue()
      && tx.accepted + tx.faults == multiset(tx.sent) + multiset(InMob(tx)) + multiset(tx.Queue()) + tx.overwritten
      && |tx.faults| == |tx.overwritten|
      && (Stranded(tx) <==> tx.missed && tx.Queue() != [])
  {
    BehaviourKeepsInv(txs, actions, i);
  }

  /** If no transmission finishes inside the error branch, a queued frame never waits in vain. */
  lemma {:induction false} QueueIsNeverStranded(txs: seq<Tx>, actions: seq<Action>, i: nat)
    requires Behaviour(txs, actions) && i <= |actions|
    requires forall k :: 0 <= k < i ==> actions[k] == Finish ==> !txs[k].clearing
    ensures !txs[i].missed && (txs[i].clearing ==> !txs[i].txok)
    ensures txs[i].Valid() && (txs[i].Queue() != [] ==> txs[i].mob.Some? || txs[i].txok)
  {
    hide Contents, Accounted;
    BehaviourKeepsInv(txs, actions, i);
    if i > 0 {
      QueueIsNeverStranded(txs, actions, i - 1);
      assert Enabled(txs[i - 1], actions[i - 1]) && txs[i] == Step(txs[i - 1], actions[i - 1]);
    }
  }

  /** The error branch strands the queue exactly when a transmission finished after its first statement. */
  lemma ErrorClearStrandsIff(tx: Tx)
    requires Inv(tx) && tx.clearing && !Stranded(tx)
    ensures Stranded(Step(tx, ErrorClear)) <==> tx.txok && tx.Queue() != []
  {
  }

  /** A stranded queue stays as it is until the next frame is put, which is sent first and wakes the queue. */
  lemma StrandedUntilNextPut(tx: Tx, a: Action)
    requires Inv(tx) && Stranded(tx) && Enabled(tx, a)
    ensures var r := Step(tx, a);
      && r.Queue() == tx.Queue()
      && if a.Put? || a.TryPut? then r.mob == Some(a.frame) && !Stranded(r) else Stranded(r)
  {
    hide Contents, Accounted;
  }

  /** It happens: two frames are put, and the first is sent inside the error branch. */
  lemma QueueCanBeStranded(tx: Tx, f: Frame, g: Frame)
    requires Init(tx)
    ensures exists txs: seq<Tx>, actions: seq<Action> ::
      Behaviour(txs, actions) && txs[0] == tx && txs[|actions|].Valid() && Stranded(txs[|actions|])
      && txs[|actions|].Queue() == [g]
  {
    hide Inv, Contents;
    InitIsOk(tx);
    var a := Step(tx, Put(f, f, false));
    var b := Step(a, Put(g, g, false));
    Pushed(a.slots, a.top, a.bottom, g);
    assert b.Queue() == [g];
    var c := Step(b, ErrorTest);
    var d := Step(c, Finish);
    var e := Step(d, ErrorClear);
    var txs, actions := [tx, a, b, c, d, e], [Put(f, f, false), Put(g, g, false), ErrorTest, Finish, ErrorClear];
    assert Behaviour(txs, actions);
    assert txs[|actions|] == e && Stranded(e) && e.Queue() == [g];
  }
}
