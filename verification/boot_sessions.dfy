/**
 What the bootloader does between pages, whatever frames arrive and whatever times out: when a
 page is started, which host is locked, and when the application is started.
 */
module BootSessions {
  import opened Bytes
  import opened Options
  import opened CyclicCounters
  import opened BootProtocol
  import opened BootPages

  /** PAGE_START of a page below the bootloader; its number has the high byte first. */
  predicate StartsPage(c: Config, f: Frame) {
    f.kind == 1 && |f.data| == 2 && f.data[0] as nat * 256 + f.data[1] as nat < c.appPages
  }

  predicate Quits(f: Frame) {
    f.kind == 2 && |f.data| == 0
  }

  /** Frames of all nodes are heard until a host is locked, then only those of the host. */
  predicate IsHeard(host: Option<byte>, f: Frame) {
    host == None || host == Some(f.source)
  }

  /** The event makes an idle bootloader start a page or leave. */
  predicate IsCommand(c: Config, host: Option<byte>, ev: Event) {
    ev.Receive? && IsHeard(host, ev.frame) && (StartsPage(c, ev.frame) || Quits(ev.frame))
  }

  function CountTimeouts(evs: seq<Event>): nat {
    if evs == [] then 0 else CountTimeouts(evs[..|evs| - 1]) + if evs[|evs| - 1].Timeout? then 1 else 0
  }

  lemma CountNext(evs: seq<Event>, ev: Event)
    ensures CountTimeouts(evs + [ev]) == CountTimeouts(evs) + if ev.Timeout? then 1 else 0
  {
    assert (evs + [ev])[..|evs|] == evs;
  }

  // ---------- One event ----------

  lemma IdleIgnores(c: Config, n: Node, ev: Event)
    requires NodeValid(c, n) && n.mode == Idle && !IsCommand(c, n.host, ev)
    ensures Step(c, n, ev) == Reaction(n, if ev.Timeout? then [Frame(23, c.nodeId, 0, 0, c.version)] else [])
  {
  }

  /** The reaction to a PAGE_START: the host is locked and the first eight bytes are requested. */
  lemma PageIsStarted(c: Config, n: Node, f: Frame)
    requires NodeValid(c, n) && n.mode == Idle && IsHeard(n.host, f) && StartsPage(c, f)
    ensures c.Valid() && |n.flash| == c.appPages
    ensures var page := f.data[0] as nat * 256 + f.data[1] as nat;
      Step(c, n, Receive(f)) == Reaction(
        Node(Filling(page, c.pageSize, 4, []), Wrap(n.seqnum as int + 1), Some(f.source), Unfinished(c, n.flash, page)),
        [RequestFrame(c, f.source, n.seqnum, 0)])
  {
    hide Wrap;
    RequestFrameIs(c, f.source, n.seqnum, 0);
  }

  lemma BootloaderIsLeft(c: Config, n: Node, f: Frame)
    requires NodeValid(c, n) && n.mode == Idle && IsHeard(n.host, f) && Quits(f)
    ensures Step(c, n, Receive(f)) == Reaction(n.(mode := Left), [])
  {
  }

  // ---------- Between pages ----------

  /**
   An idle bootloader only announces itself after every timeout, until the first command it
   hears: then it starts that page for that host (PageIsStarted), or leaves (BootloaderIsLeft).
   */
  lemma {:induction false} FirstCommand(c: Config, n: Node, evs: seq<Event>) returns (k: nat)
    requires NodeValid(c, n) && n.mode == Idle
    ensures k <= |evs| && (forall i :: 0 <= i < k ==> !IsCommand(c, n.host, evs[i]))
    ensures Run(c, n, evs[..k])
         == Reaction(n, Repeat(Frame(23, c.nodeId, 0, 0, c.version), CountTimeouts(evs[..k])))
    ensures k < |evs| ==> IsCommand(c, n.host, evs[k])
    ensures k < |evs| ==>
      (var r := Step(c, n, evs[k]); Run(c, n, evs[..k + 1]) == Reaction(r.node, Run(c, n, evs[..k]).sent + r.sent))
  {
    hide NodeValid, Step, IsCommand;
    k := 0;
    assert evs[..0] == [];
    while k < |evs| && !IsCommand(c, n.host, evs[k])
      invariant k <= |evs| && forall i :: 0 <= i < k ==> !IsCommand(c, n.host, evs[i])
      invariant Run(c, n, evs[..k])
             == Reaction(n, Repeat(Frame(23, c.nodeId, 0, 0, c.version), CountTimeouts(evs[..k])))
    {
      assert evs[..k + 1] == evs[..k] + [evs[k]];
      RunNext(c, n, evs[..k], evs[k]);
      IdleIgnores(c, n, evs[k]);
      CountNext(evs[..k], evs[k]);
      k := k + 1;
    }
    if k < |evs| {
      assert evs[..k + 1] == evs[..k] + [evs[k]];
      RunNext(c, n, evs[..k], evs[k]);
    }
  }

  // ---------- When the application is started ----------

  /** Event i is a QUIT_BOOTLOADER that the node hears while it is idle. */
  ghost predicate QuitsAt(c: Config, n: Node, evs: seq<Event>, i: nat)
    requires NodeValid(c, n) && i < |evs|
  {
    var before := Run(c, n, evs[..i]).node;
    before.mode == Idle && evs[i].Receive? && IsHeard(before.host, evs[i].frame) && Quits(evs[i].frame)
  }

  lemma LeavingStep(c: Config, n: Node, ev: Event)
    requires NodeValid(c, n)
    ensures Step(c, n, ev).node.mode == Left <==>
      n.mode == Left || (n.mode == Idle && ev.Receive? && IsHeard(n.host, ev.frame) && Quits(ev.frame))
  {
  }

  /** The bootloader has left exactly if it heard a QUIT_BOOTLOADER of dlc 0 between pages. */
  lemma {:induction false} LeftIff(c: Config, n: Node, evs: seq<Event>)
    requires NodeValid(c, n) && n.mode == Idle
    ensures Run(c, n, evs).node.mode == Left <==> exists i: nat | i < |evs| :: QuitsAt(c, n, evs, i)
  {
    hide NodeValid, Step, IsHeard, Quits;
    if evs != [] {
      var front, last := evs[..|evs| - 1], evs[|evs| - 1];
      LeftIff(c, n, front);
      LeavingStep(c, Run(c, n, front).node, last);
      forall i: nat | i < |front|
        ensures QuitsAt(c, n, front, i) <==> QuitsAt(c, n, evs, i)
      {
        assert front[..i] == evs[..i];
      }
      assert QuitsAt(c, n, evs, |front|) <==>
        Run(c, n, front).node.mode == Idle && last.Receive? && IsHeard(Run(c, n, front).node.host, last.frame)
        && Quits(last.frame);
      if Run(c, n, front).node.mode == Left {
        var i: nat :| i < |front| && QuitsAt(c, n, front, i);
        assert QuitsAt(c, n, evs, i);
      }
    }
  }

  // ---------- Which host is locked ----------

  /** The sender of the first PAGE_START of a page below the bootloader, if no node made it leave before. */
  function LockedHost(c: Config, evs: seq<Event>): Option<byte> {
    if evs == [] then None
    else if evs[0].Receive? && StartsPage(c, evs[0].frame) then Some(evs[0].frame.source)
    else if evs[0].Receive? && Quits(evs[0].frame) then None
    else LockedHost(c, evs[1..])
  }

  lemma {:induction false} LeftStays(c: Config, n: Node, evs: seq<Event>)
    requires NodeValid(c, n) && n.mode == Left
    ensures Run(c, n, evs) == Reaction(n, [])
  {
    if evs != [] {
      LeftStays(c, n, evs[..|evs| - 1]);
    }
  }

  /** The host is the sender of the first accepted PAGE_START, for ever. */
  lemma {:induction false} HostIsFirst(c: Config, n: Node, evs: seq<Event>)
    requires NodeValid(c, n) && n.mode == Idle && n.host == None
    ensures Run(c, n, evs).node.host == LockedHost(c, evs)
  {
    hide NodeValid, Step, StartsPage, Quits;
    if evs != [] {
      var ev, rest := evs[0], evs[1..];
      assert evs == [ev] + rest;
      RunConcat(c, n, [ev], rest);
      assert [] + [ev] == [ev];
      RunNext(c, n, [], ev);
      if ev.Receive? && StartsPage(c, ev.frame) {
        PageIsStarted(c, n, ev.frame);
        StrangersDoNotInterfere(c, Step(c, n, ev).node, rest);
      } else if ev.Receive? && Quits(ev.frame) {
        BootloaderIsLeft(c, n, ev.frame);
        LeftStays(c, n.(mode := Left), rest);
      } else {
        IdleIgnores(c, n, ev);
        HostIsFirst(c, n, rest);
      }
    }
  }
}
