/**
 Whatever was lost so far, flashing can still be finished: from every reachable world there
 are steps after which the node has left the bootloader with the whole image in flash.
 */
module BootProgress {
  import opened Bytes
  import opened Options
  import opened BootProtocol
  import opened BootFlashing
  import opened BootReaching

  /** Everything on its way is lost. */
  lemma {:induction false} Drained(j: Job, limit: nat, w: World)
    requires j.Valid() && NodeValid(j.c, w.node) && w.node.mode != Left && |Pipeline(w)| <= limit
    ensures Reaches(j, limit, w, World(w.node, w.current, [], []))
    decreases |w.toNode| + |w.toHost|
  {
    hide Reaches, NodeValid;
    ReachesItself(j, limit, w);
    if w.toNode != [] {
      var v := w.(toNode := Without(w.toNode, 0));
      ReachesNext(j, limit, w, w, LostToNode(0), v);
      Drained(j, limit, v);
      ReachesOn(j, limit, w, v, World(w.node, w.current, [], []));
    } else if w.toHost != [] {
      var v := w.(toHost := Without(w.toHost, 0));
      ReachesNext(j, limit, w, w, LostToHost(0), v);
      Drained(j, limit, v);
      ReachesOn(j, limit, w, v, World(w.node, w.current, [], []));
    }
  }

  /** The node asks again, and the host sends it on. */
  lemma AskedAgain(j: Job, limit: nat, w: World, n: Node, current: nat)
    requires j.Valid() && limit >= 1 && Waits(j, n) && Reaches(j, limit, w, World(n, current, [], []))
    ensures Reaches(j, limit, w, World(n, current, [Onward(j, current)], []))
  {
    hide Reaches, Onward;
    var v := World(n, current, [], [TurnedOn(j.c)]);
    assert [] + [TurnedOn(j.c)] == [TurnedOn(j.c)] && [] + [Onward(j, current)] == [Onward(j, current)];
    ReachesNext(j, limit, w, World(n, current, [], []), NodeTimesOut, v);
    ReachesNext(j, limit, w, v, HostTakes, World(n, current, [Onward(j, current)], []));
  }

  /** One page without losses. */
  lemma PageDone(j: Job, limit: nat, w: World, n: Node, current: nat) returns (n': Node)
    requires j.Valid() && limit >= 1 && Waits(j, n) && current < |j.image|
    requires Reaches(j, limit, w, World(n, current, [Onward(j, current)], []))
    ensures Waits(j, n') && Reaches(j, limit, w, World(n', current + 1, [Onward(j, current + 1)], []))
  {
    hide Reaches, NodeValid, FillNext, Chunk;
    var start := PageStart(j, current);
    assert [start] + [] == [start];
    StartFits(j, n, current);
    var request := StartTaken(j, limit, n, current, []);
    var filling := StartedNode(j, n, current);
    ReachesOn(j, limit, w, World(n, current, [start], []), World(filling, current, [], [request]));
    Answered(j, limit, w, filling, current, []);
    var answer := AnswerTo(j, filling, current);
    assert [] + [answer] == [answer];
    n' := PageFinished(j, limit, w, filling, current, answer);
  }

  lemma StartFits(j: Job, n: Node, current: nat)
    requires j.Valid() && Waits(j, n) && current < |j.image|
    ensures NodeValid(j.c, n) && current < j.c.appPages && j.c.pageSize < 65536
  {
  }

  /** All further pages without losses, and QUIT_BOOTLOADER. */
  lemma {:induction false} AllPagesDone(j: Job, limit: nat, w: World, n: Node, current: nat) returns (w': World)
    requires j.Valid() && limit >= 1 && Waits(j, n) && current <= |j.image|
    requires Reaches(j, limit, w, World(n, current, [Onward(j, current)], []))
    ensures Reaches(j, limit, w, w') && w'.node.mode == Left
    decreases |j.image| - current
  {
    hide Reaches, Onward;
    if current < |j.image| {
      var n' := PageDone(j, limit, w, n, current);
      w' := AllPagesDone(j, limit, w, n', current + 1);
    } else {
      w' := QuitTaken(j, limit, w, n);
    }
  }

  lemma QuitTaken(j: Job, limit: nat, w: World, n: Node) returns (w': World)
    requires j.Valid() && limit >= 1 && Waits(j, n)
    requires Reaches(j, limit, w, World(n, |j.image|, [Onward(j, |j.image|)], []))
    ensures Reaches(j, limit, w, w') && w'.node.mode == Left
  {
    hide Reaches;
    w' := World(n.(mode := Left), |j.image|, [], []);
    assert [Quit(j)][1..] == [];
    ReachesNext(j, limit, w, World(n, |j.image|, [Quit(j)], []), NodeTakes, w');
  }

  lemma CanFinish(j: Job, limit: nat, w: World) returns (w': World)
    requires j.Valid() && limit >= 1 && NodeOk(j, w.node, w.current) && w.node.mode != Left && |Pipeline(w)| <= limit
    ensures Reaches(j, limit, w, w') && w'.node.mode == Left
  {
    hide Reaches, NodeValid, Onward;
    var n, empty := w.node, World(w.node, w.current, [], []);
    NodeOkBound(j, n, w.current);
    Drained(j, limit, w);
    if n.mode.Filling? {
      GivenUp(j, limit, n, w.current, []);
      IdleIsValid(j, n);
      n := n.(mode := Idle);
      ReachesOn(j, limit, w, empty, World(n, w.current, [], []));
    }
    AskedAgain(j, limit, w, n, w.current);
    w' := AllPagesDone(j, limit, w, n, w.current);
  }

  lemma IdleIsValid(j: Job, n: Node)
    requires NodeValid(j.c, n)
    ensures NodeValid(j.c, n.(mode := Idle))
  {
  }

  lemma {:induction false} PipelineFits(j: Job, limit: nat, ws: seq<World>, actions: seq<Action>, i: nat)
    requires j.Valid() && limit >= 1 && Behaviour(j, limit, ws, actions) && i <= |actions|
    ensures |Pipeline(ws[i])| <= limit
  {
    if i > 0 {
      assert Next(j, limit, ws[i - 1], actions[i - 1], ws[i]);
    }
  }

  /**
   From every reachable world with the node still in the bootloader the behaviour can go on so
   that the node leaves, with the whole image in flash.
   */
  lemma FlashingCanAlwaysFinish(j: Job, limit: nat, ws: seq<World>, actions: seq<Action>, i: nat)
    returns (ws': seq<World>, actions': seq<Action>)
    requires j.Valid() && 1 <= limit <= SAFE_IN_FLIGHT && Behaviour(j, limit, ws, actions) && i <= |actions|
    requires ws[i].node.mode != Left
    ensures Behaviour(j, limit, ws', actions') && i <= |actions'| && ws'[..i + 1] == ws[..i + 1]
    ensures actions'[..i] == actions[..i]
    ensures var last := ws'[|actions'|].node;
      last.mode == Left && |j.image| <= |last.flash| && last.flash[..|j.image|] == j.image
  {
    hide Next, Init, Reaches, NodeOk, PipeOk, DirectionsOk;
    BehaviourKeepsInv(j, limit, ws, actions, i);
    PipelineFits(j, limit, ws, actions, i);
    var w := CanFinish(j, limit, ws[i]);
    ws', actions' := BehaviourGoesOn(j, limit, ws, actions, i, w);
    FinishedPagesAreSafe(j, limit, ws', actions', |actions'|);
  }
}
