/**
 Building runs of the flashing protocol step by step: one world is reached from another by
 steps that keep within a number of frames in flight.
 */
module BootReaching {
  import opened Bytes
  import opened Options
  import opened CyclicCounters
  import opened BootProtocol
  import opened BootFlashing

  ghost predicate Path(j: Job, limit: nat, ws: seq<World>, actions: seq<Action>)
    requires j.Valid()
  {
    && |ws| == |actions| + 1
    && forall i :: 0 <= i < |actions| ==> Next(j, limit, ws[i], actions[i], ws[i + 1])
  }

  ghost predicate Reaches(j: Job, limit: nat, w: World, w': World)
    requires j.Valid()
  {
    exists ws: seq<World>, actions: seq<Action> :: Path(j, limit, ws, actions) && ws[0] == w && ws[|actions|] == w'
  }

  lemma ReachesItself(j: Job, limit: nat, w: World)
    requires j.Valid()
    ensures Reaches(j, limit, w, w)
  {
    assert Path(j, limit, [w], []);
  }

  lemma ReachesNext(j: Job, limit: nat, w: World, v: World, a: Action, w': World)
    requires j.Valid() && Reaches(j, limit, w, v) && Next(j, limit, v, a, w')
    ensures Reaches(j, limit, w, w')
  {
    hide Next;
    var ws: seq<World>, actions: seq<Action> :| Path(j, limit, ws, actions) && ws[0] == w && ws[|actions|] == v;
    assert Path(j, limit, ws + [w'], actions + [a]);
    assert (ws + [w'])[|actions + [a]|] == w';
  }

  lemma ReachesOn(j: Job, limit: nat, u: World, v: World, w: World)
    requires j.Valid() && Reaches(j, limit, u, v) && Reaches(j, limit, v, w)
    ensures Reaches(j, limit, u, w)
  {
    hide Next;
    var ws: seq<World>, actions: seq<Action> :| Path(j, limit, ws, actions) && ws[0] == v && ws[|actions|] == w;
    PathOn(j, limit, u, ws, actions, |actions|);
  }

  lemma {:induction false} PathOn(j: Job, limit: nat, u: World, ws: seq<World>, actions: seq<Action>, i: nat)
    requires j.Valid() && Path(j, limit, ws, actions) && Reaches(j, limit, u, ws[0]) && i <= |actions|
    ensures Reaches(j, limit, u, ws[i])
  {
    hide Next, Reaches;
    if i > 0 {
      PathOn(j, limit, u, ws, actions, i - 1);
      ReachesNext(j, limit, u, ws[i - 1], actions[i - 1], ws[i]);
    }
  }

  /** What is reached from a world of a behaviour is in a behaviour with the same beginning. */
  lemma BehaviourGoesOn(j: Job, limit: nat, ws: seq<World>, actions: seq<Action>, i: nat, w: World)
    returns (ws': seq<World>, actions': seq<Action>)
    requires j.Valid() && Behaviour(j, limit, ws, actions) && i <= |actions| && Reaches(j, limit, ws[i], w)
    ensures Behaviour(j, limit, ws', actions') && i <= |actions'| && ws'[..i + 1] == ws[..i + 1]
    ensures actions'[..i] == actions[..i] && ws'[|actions'|] == w
  {
    hide Next, Init;
    var vs: seq<World>, more: seq<Action> :| Path(j, limit, vs, more) && vs[0] == ws[i] && vs[|more|] == w;
    ws', actions' := ws[..i] + vs, actions[..i] + more;
    forall k | 0 <= k < |actions'|
      ensures Next(j, limit, ws'[k], actions'[k], ws'[k + 1])
    {
      if k < i {
        assert ws'[k] == ws[k] && ws'[k + 1] == ws[k + 1] && actions'[k] == actions[k];
      } else {
        assert ws'[k] == vs[k - i] && ws'[k + 1] == vs[k - i + 1] && actions'[k] == more[k - i];
      }
    }
    assert ws'[0] == ws[0];
  }

  // ---------- The parts of a run ----------

  /** The node can take a PAGE_START of the host. */
  ghost predicate Waits(j: Job, n: Node) {
    NodeValid(j.c, n) && n.mode == Idle && (n.host == None || n.host == Some(j.host))
  }

  /** The node waits for an answer about the page the host is at. */
  ghost predicate Fills(j: Job, n: Node, current: nat) {
    NodeValid(j.c, n) && n.mode.Filling? && n.mode.page == current && n.host == Some(j.host)
  }

  /** A frame to the host is lost. */
  lemma Dropped(j: Job, limit: nat, w: World, n: Node, current: nat, q: seq<Frame>, f: Frame)
    requires j.Valid() && NodeValid(j.c, n) && n.mode != Left && |q| < limit
    requires Reaches(j, limit, w, World(n, current, q, [f]))
    ensures Reaches(j, limit, w, World(n, current, q, []))
  {
    hide Reaches, NodeValid;
    assert Without([f], 0) == [];
    ReachesNext(j, limit, w, World(n, current, q, [f]), LostToHost(0), World(n, current, q, []));
  }

  /** Timeouts make the node give up the page; all it sends is lost. */
  lemma {:induction false} GivenUp(j: Job, limit: nat, n: Node, current: nat, q: seq<Frame>)
    requires j.Valid() && NodeValid(j.c, n) && n.mode.Filling? && |q| < limit
    ensures Reaches(j, limit, World(n, current, q, []), World(n.(mode := Idle), current, q, []))
    decreases if n.mode.Filling? then n.mode.retries else 0
  {
    hide Reaches, FillNext;
    var w, r := World(n, current, q, []), Step(j.c, n, Timeout);
    ReachesItself(j, limit, w);
    assert |r.sent| == 1 && w.toHost + r.sent == [r.sent[0]];
    ReachesNext(j, limit, w, w, NodeTimesOut, World(r.node, current, q, [r.sent[0]]));
    Dropped(j, limit, w, r.node, current, q, r.sent[0]);
    if n.mode.retries > 1 {
      GivenUp(j, limit, r.node, current, q);
      ReachesOn(j, limit, w, World(r.node, current, q, []), World(n.(mode := Idle), current, q, []));
    }
  }

  /** The node after a PAGE_START of a page. */
  function StartedNode(j: Job, n: Node, page: nat): (n': Node)
    requires NodeValid(j.c, n) && page < j.c.appPages
    ensures NodeValid(j.c, n')
  {
    StartPage(j.c, n, page, j.host).node
  }

  /** The node takes the PAGE_START of the page the host is at. */
  lemma StartTaken(j: Job, limit: nat, n: Node, current: nat, q: seq<Frame>) returns (f: Frame)
    requires j.Valid() && Waits(j, n) && current < |j.image| && |q| < limit
    ensures Fills(j, StartedNode(j, n, current), current)
    ensures var n' := StartedNode(j, n, current);
      && n'.mode == Filling(current, j.c.pageSize, PAGE_FILL_RETRIES, []) && n'.seqnum == Wrap(n.seqnum as int + 1)
      && f == FillNext(j.c, j.host, n'.seqnum, j.c.pageSize)
      && Reaches(j, limit, World(n, current, [PageStart(j, current)] + q, []), World(n', current, q, [f]))
  {
    hide Wrap, FillNext;
    var n', w := StartedNode(j, n, current), World(n, current, [PageStart(j, current)] + q, []);
    f := FillNext(j.c, j.host, n'.seqnum, j.c.pageSize);
    ReachesItself(j, limit, w);
    WordRoundTrip(current);
    assert w.toNode[1..] == q && w.toHost + [f] == [f];
    ReachesNext(j, limit, w, w, NodeTakes, World(n', current, q, [f]));
  }

  /** The host answers a request. */
  function AnswerTo(j: Job, n: Node, current: nat): Frame
    requires current < |j.image| && n.mode.Filling?
  {
    Frame(PAGE_FILL, j.host, j.c.nodeId, n.seqnum % SEQNUM_MODULUS, Chunk(j.image[current], n.mode.remain))
  }

  lemma Answered(j: Job, limit: nat, w: World, n: Node, current: nat, q: seq<Frame>)
    requires j.Valid() && Fills(j, n, current) && current < |j.image| && |q| < limit && n.mode.remain < 65536
    requires Reaches(j, limit, w, World(n, current, q, [FillNext(j.c, j.host, n.seqnum, n.mode.remain)]))
    ensures var f := AnswerTo(j, n, current);
      Answers(n, f) && f.source == j.host && Reaches(j, limit, w, World(n, current, q + [f], []))
  {
    hide Reaches, NodeValid, Chunk;
    WordRoundTrip(n.mode.remain);
    var v := World(n, current, q, [FillNext(j.c, j.host, n.seqnum, n.mode.remain)]);
    ReachesNext(j, limit, w, v, HostTakes, World(n, current, q + [AnswerTo(j, n, current)], []));
  }

  /** The node takes an answer under the current number. */
  lemma Accepted(j: Job, limit: nat, w: World, n: Node, current: nat, f: Frame, q: seq<Frame>)
    requires j.Valid() && Fills(j, n, current) && Answers(n, f) && f.source == j.host && |q| < limit
    requires Reaches(j, limit, w, World(n, current, [f] + q, []))
    ensures var r := AcceptChunk(j.c, n, f.data);
      |r.sent| == 1 && Reaches(j, limit, w, World(r.node, current, q, r.sent))
  {
    hide Reaches, NodeValid, AcceptChunk;
    var r := AcceptChunk(j.c, n, f.data);
    OneFrameSent(j, n, f.data);
    assert ([f] + q)[1..] == q && [] + r.sent == r.sent;
    ReachesNext(j, limit, w, World(n, current, [f] + q, []), NodeTakes, World(r.node, current, q, r.sent));
  }

  lemma OneFrameSent(j: Job, n: Node, data: seq<byte>)
    requires NodeValid(j.c, n) && n.mode.Filling? && |data| == 8
    ensures |AcceptChunk(j.c, n, data).sent| == 1
  {
  }

  /** What is done with an accepted chunk. */
  lemma ChunkStored(j: Job, n: Node, current: nat, data: seq<byte>)
    requires j.Valid() && Fills(j, n, current) && |data| == 8
    ensures current < |n.flash|
    ensures var r := AcceptChunk(j.c, n, data);
      if n.mode.remain == 8 then
        && Waits(j, r.node) && |r.node.flash| == |n.flash| && r.node.flash[current] == n.mode.buffer + data
        && r.sent == [Writed(j.c, j.host, n.seqnum, current)]
      else
        && Fills(j, r.node, current) && r.node.mode.remain == n.mode.remain - 8 && r.node.mode.remain < 65536
        && r.node.mode.buffer == n.mode.buffer + data
        && r.sent == [FillNext(j.c, j.host, r.node.seqnum, r.node.mode.remain)]
  {
    hide Wrap, FillNext, Writed;
  }

  /** Without losses the page is filled, written and reported, and the host goes on. */
  lemma {:induction false} PageFinished(j: Job, limit: nat, w: World, n: Node, current: nat, f: Frame)
    returns (n': Node)
    requires j.Valid() && limit >= 1 && Fills(j, n, current) && current < |j.image|
    requires Answers(n, f) && f.source == j.host && Reaches(j, limit, w, World(n, current, [f], []))
    ensures Waits(j, n') && n'.host == Some(j.host) && current < |n'.flash|
    ensures n.mode.buffer + f.data <= n'.flash[current]
    ensures Reaches(j, limit, w, World(n', current + 1, [Onward(j, current + 1)], []))
    decreases n.mode.remain
  {
    hide Reaches, Chunk, AcceptChunk, NodeValid, FillNext, Writed, Onward;
    var r := AcceptChunk(j.c, n, f.data);
    assert [f] + [] == [f];
    Accepted(j, limit, w, n, current, f, []);
    ChunkStored(j, n, current, f.data);
    if n.mode.remain == 8 {
      n' := r.node;
      HostKept(j, n, f.data);
      Reported(j, limit, w, n', current, n.seqnum);
    } else {
      Answered(j, limit, w, r.node, current, []);
      var answer := AnswerTo(j, r.node, current);
      assert [] + [answer] == [answer];
      RemainIsPositive(j, n, current);
      n' := PageFinished(j, limit, w, r.node, current, answer);
    }
  }

  lemma HostKept(j: Job, n: Node, data: seq<byte>)
    requires NodeValid(j.c, n) && n.mode.Filling? && |data| == 8
    ensures AcceptChunk(j.c, n, data).node.host == n.host
  {
  }

  lemma RemainIsPositive(j: Job, n: Node, current: nat)
    requires Fills(j, n, current) && n.mode.remain != 8
    ensures n.mode.remain >= 8
  {
  }

  /** The host takes the report of a page and goes on. */
  lemma Reported(j: Job, limit: nat, w: World, n: Node, current: nat, seqnum: byte)
    requires j.Valid() && limit >= 1 && NodeValid(j.c, n) && n.mode == Idle && current < |j.image|
    requires Reaches(j, limit, w, World(n, current, [], [Writed(j.c, j.host, seqnum, current)]))
    ensures Reaches(j, limit, w, World(n, current + 1, [Onward(j, current + 1)], []))
  {
    hide Reaches, Onward;
    WordRoundTrip(current);
    var v := World(n, current, [], [Writed(j.c, j.host, seqnum, current)]);
    assert [] + [Onward(j, current + 1)] == [Onward(j, current + 1)];
    ReachesNext(j, limit, w, v, HostTakes, World(n, current + 1, [Onward(j, current + 1)], []));
  }
}
