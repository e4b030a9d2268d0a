/**
 CAN_try_put_msg, CAN_put_msg and the transmit branches of the CAN interrupt as they are
 written, over the registers of message object 0.
 */
module TxCode {
  import opened Options
  import opened Rings
  import opened TxQueue

  /** The results of CAN_put_msg. */
  const REFUSED := 0
  const SENT_DIRECTLY := 1
  const QUEUED := 2

  class Transmitter {
    const slots: array<Frame>
    var top: nat
    var bottom: nat
    var mobEnabled: bool
    var mobFrame: Frame
    var txok: bool
    /** The sticky transmit loss flag of the node. */
    var lost: bool
    /** The state of the interleaving model. */
    ghost var tx: Tx

    ghost predicate Valid()
      reads this, slots
    {
      && Inv(tx) && tx.slots == slots[..] && tx.top == top && tx.bottom == bottom && tx.txok == txok
      && tx.mob == (if mobEnabled then Some(mobFrame) else None)
      && lost == (tx.faults != multiset{})
    }

    constructor (blank: Frame)
      ensures Valid() && fresh(slots) && Init(tx)
    {
      var ring := new Frame[SIZE](_ => blank);
      slots := ring;
      top, bottom, mobEnabled, mobFrame, txok, lost := 0, 0, false, blank, false, false;
      ghost var empty := Tx(ring[..], 0, 0, None, false, false, false, [], [], [], multiset{}, multiset{}, multiset{});
      InitIsOk(empty);
      tx := empty;
    }

    /** A write of the identifier, the data and the control register of message object 0. */
    method LoadMob(frame: Frame)
      modifies this`mobEnabled, this`mobFrame
      ensures mobEnabled && mobFrame == frame
    {
      mobFrame := frame;
      mobEnabled := true;
    }

    method TryPutMsg(frame: Frame) returns (done: bool)
      requires Valid() && !tx.clearing
      modifies this`mobEnabled, this`mobFrame, this`txok, this`tx
      ensures Valid() && tx == Step(old(tx), TryPut(frame))
      ensures done <==> old(tx).mob.None?
      ensures old(tx).Valid() && tx.Valid() && tx.Queue() == old(tx).Queue()
      ensures if done then mobEnabled && mobFrame == frame && !txok
              else mobEnabled == old(mobEnabled) && mobFrame == old(mobFrame) && txok == old(txok)
    {
      hide Inv;
      if mobEnabled {
        return false;
      }
      ghost var before := tx;
      StepKeepsInv(tx, TryPut(frame));
      tx := Step(tx, TryPut(frame));
      txok := false;
      LoadMob(frame);
      done := true;
    }

    /**
     A frame is sent directly if message object 0 is free, queued if fewer than seven are, and
     otherwise refused; a bus error then costs the newest of the queue, and the flag says so.
     */
    method PutMsg(frame: Frame, fault: Frame, busError: bool) returns (ret: nat)
      requires Valid() && !tx.clearing
      modifies this`top, this`mobEnabled, this`mobFrame, this`txok, this`lost, this`tx, slots
      ensures Valid() && old(tx).Valid() && tx.Valid() && tx == Step(old(tx), Put(frame, fault, busError))
      ensures ret == if old(tx).mob.None? then SENT_DIRECTLY else if |old(tx).Queue()| < 7 then QUEUED else REFUSED
      ensures tx.accepted == old(tx).accepted + if ret == REFUSED then multiset{} else multiset{frame}
      ensures tx.mob == if ret == SENT_DIRECTLY then Some(frame) else old(tx).mob
      ensures tx.Queue() == QueueAfterPut(old(tx).Queue(), frame, fault, busError, ret)
      ensures lost == (old(lost) || (ret == REFUSED && busError))
    {
      hide Inv, Contents;
      InvIsValid(tx);
      var direct := TryPutMsg(frame);
      if direct {
        ret := SENT_DIRECTLY;
      } else {
        ret := Enqueue(frame, fault, busError);
      }
    }

    /** The queue part of CAN_put_msg. */
    method Enqueue(frame: Frame, fault: Frame, busError: bool) returns (ret: nat)
      requires Valid() && !tx.clearing && mobEnabled
      modifies this`top, this`lost, this`tx, slots
      ensures Valid() && old(tx).Valid() && tx.Valid() && tx == Step(old(tx), Put(frame, fault, busError))
      ensures ret == if |old(tx).Queue()| < 7 then QUEUED else REFUSED
      ensures tx.accepted == old(tx).accepted + if ret == REFUSED then multiset{} else multiset{frame}
      ensures tx.mob == old(tx).mob
      ensures tx.Queue() == QueueAfterPut(old(tx).Queue(), frame, fault, busError, ret)
      ensures lost == (old(lost) || (ret == REFUSED && busError))
    {
      hide Inv, Contents, TxQueue.PutMsg, Step;
      InvIsValid(tx);
      PutWhileBusy(tx, frame, fault, busError);
      MaskedIndex(top);
      StepKeepsInv(tx, Put(frame, fault, busError));
      tx := Step(tx, Put(frame, fault, busError));
      var next := (top + 1) % SIZE;
      if bottom != next {
        slots[top] := frame;
        top := next;
        ret := QUEUED;
      } else if busError {
        var newest := (top - 1) % SIZE;
        slots[newest] := fault;
        lost := true;
        ret := REFUSED;
      } else {
        ret := REFUSED;
      }
    }

    /** The controller finishes the transmission: it disables the message object and sets the flag. */
    method FinishTransmission()
      requires Valid() && mobEnabled
      modifies this`mobEnabled, this`txok, this`tx
      ensures Valid() && tx == Step(old(tx), Finish)
    {
      hide Inv;
      StepKeepsInv(tx, Finish);
      tx := Step(tx, Finish);
      mobEnabled, txok := false, true;
    }

    /** The transmit branch of the interrupt. */
    method TransmitInterrupt()
      requires Valid() && !tx.clearing && txok
      modifies this`bottom, this`mobEnabled, this`mobFrame, this`txok, this`tx
      ensures Valid() && old(tx).Valid() && tx.Valid() && tx == Step(old(tx), TxInterrupt) && !txok
      ensures var q := old(tx).Queue();
        if q == [] then !mobEnabled && tx.Queue() == [] else mobEnabled && mobFrame == q[0] && tx.Queue() == q[1..]
    {
      hide Inv, Contents;
      InvIsValid(tx);
      if top != bottom {
        Popped(tx.slots, tx.top, tx.bottom);
      }
      StepKeepsInv(tx, TxInterrupt);
      tx := Step(tx, TxInterrupt);
      mobEnabled := false;
      txok := false;
      if top != bottom {
        LoadMob(slots[bottom]);
        MaskedIndex(bottom);
        bottom := (bottom + 1) % SIZE;
      }
    }

    /** The error branch: between its test of the flag and its clearing the controller may finish a transmission. */
    method ErrorInterrupt(finishes: bool)
      requires Valid() && !tx.clearing && !txok
      modifies this`mobEnabled, this`txok, this`tx
      ensures Valid() && !tx.clearing && !txok && old(tx).Valid() && tx.Valid() && tx.Queue() == old(tx).Queue()
      ensures !Stranded(old(tx)) ==> (Stranded(tx) <==> finishes && old(mobEnabled) && tx.Queue() != [])
    {
      hide Inv, Contents;
      InvIsValid(tx);
      StepKeepsInv(tx, ErrorTest);
      tx := Step(tx, ErrorTest);
      if finishes && mobEnabled {
        FinishTransmission();
      }
      InvIsValid(tx);
      StepKeepsInv(tx, ErrorClear);
      tx := Step(tx, ErrorClear);
      txok := false;
    }
  }

  /** The queue after CAN_put_msg: a frame more, the newest one replaced, or the same. */
  function QueueAfterPut(queue: seq<Frame>, frame: Frame, fault: Frame, busError: bool, ret: nat): seq<Frame> {
    if ret == QUEUED then queue + [frame]
    else if ret == REFUSED && busError && queue != [] then queue[..|queue| - 1] + [fault]
    else queue
  }

  lemma InvIsValid(tx: Tx)
    requires Inv(tx)
    ensures tx.Valid() && (tx.txok ==> tx.mob.None?)
  {
  }

  /** What CAN_put_msg does while a frame is being transmitted. */
  lemma PutWhileBusy(tx: Tx, frame: Frame, fault: Frame, busError: bool)
    requires Inv(tx) && tx.mob.Some? && !tx.clearing
    ensures tx.Valid()
    ensures var r, full := Step(tx, Put(frame, fault, busError)), After(tx.top, SIZE) == tx.bottom;
      && (full <==> |tx.Queue()| == 7) && r.Valid()
      && r.Queue() == QueueAfterPut(tx.Queue(), frame, fault, busError, if full then REFUSED else QUEUED)
      && r.slots == (if !full then tx.slots[tx.top := frame]
                     else if busError then tx.slots[Before(tx.top, SIZE) := fault] else tx.slots)
      && r.top == (if full then tx.top else After(tx.top, SIZE)) && r.bottom == tx.bottom
      && r.mob == tx.mob && r.txok == tx.txok && r.clearing == tx.clearing
      && r.accepted == tx.accepted + (if full then multiset{} else multiset{frame})
      && (r.faults != multiset{} <==> tx.faults != multiset{} || (full && busError))
  {
    hide Contents;
    FullQueueIsQueued(tx);
    if After(tx.top, SIZE) != tx.bottom {
      Pushed(tx.slots, tx.top, tx.bottom, frame);
    } else {
      NewestReplaced(tx.slots, tx.top, tx.bottom, fault);
    }
    assert fault in tx.faults + multiset{fault};
  }

  /** A full queue holds frames that were queued, so there is one to replace. */
  lemma FullQueueIsQueued(tx: Tx)
    requires Inv(tx) && tx.Valid()
    ensures After(tx.top, SIZE) == tx.bottom ==> tx.queued != []
  {
  }
}
