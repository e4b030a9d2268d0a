/**
 33 frames in flight are safe, 34 are not: a run in which 33 requests are made while two
 answers wait in the queue, so that both are accepted 32 requests too late, the second one
 as the next eight bytes.
 */
module BootCapacity {
  import opened Bytes
  import opened Options
  import opened CyclicCounters
  import opened BootProtocol
  import opened BootFlashing
  import opened BootReaching

  const UNSAFE_IN_FLIGHT := SAFE_IN_FLIGHT + 1

  /** The first page has two chunks that differ. */
  ghost predicate TwoChunks(j: Job) {
    && j.Valid() && |j.image| >= 1 && j.c.pageSize >= 16
    && j.image[0][..8] != j.image[0][8..16]
  }

  function Starts(j: Job, m: nat): (fs: seq<Frame>)
    ensures |fs| == m
  {
    seq(m, _ => PageStart(j, 0))
  }

  /** A timeout of the idle node and the host's answer add a PAGE_START. */
  lemma OneMoreStart(j: Job, n: Node, m: nat)
    requires TwoChunks(j) && Waits(j, n) && m < SAFE_IN_FLIGHT
    ensures Reaches(j, UNSAFE_IN_FLIGHT, World(n, 0, Starts(j, m), []), World(n, 0, Starts(j, m + 1), []))
  {
    var w, v := World(n, 0, Starts(j, m), []), World(n, 0, Starts(j, m), [TurnedOn(j.c)]);
    ReachesItself(j, UNSAFE_IN_FLIGHT, w);
    assert w.toHost + [TurnedOn(j.c)] == [TurnedOn(j.c)];
    ReachesNext(j, UNSAFE_IN_FLIGHT, w, w, NodeTimesOut, v);
    assert Starts(j, m) + [PageStart(j, 0)] == Starts(j, m + 1);
    ReachesNext(j, UNSAFE_IN_FLIGHT, w, v, HostTakes, World(n, 0, Starts(j, m + 1), []));
  }

  lemma {:induction false} ManyStarts(j: Job, n: Node, m: nat)
    requires TwoChunks(j) && Waits(j, n) && 1 <= m <= SAFE_IN_FLIGHT
    ensures Reaches(j, UNSAFE_IN_FLIGHT, World(n, 0, [], [TurnedOn(j.c)]), World(n, 0, Starts(j, m), []))
  {
    hide Reaches, Starts;
    var first := World(n, 0, [], [TurnedOn(j.c)]);
    if m == 1 {
      FirstStart(j, n);
    } else {
      ManyStarts(j, n, m - 1);
      OneMoreStart(j, n, m - 1);
      ReachesOn(j, UNSAFE_IN_FLIGHT, first, World(n, 0, Starts(j, m - 1), []), World(n, 0, Starts(j, m), []));
    }
  }

  lemma FirstStart(j: Job, n: Node)
    requires TwoChunks(j) && Waits(j, n)
    ensures Reaches(j, UNSAFE_IN_FLIGHT, World(n, 0, [], [TurnedOn(j.c)]), World(n, 0, Starts(j, 1), []))
  {
    var w := World(n, 0, [], [TurnedOn(j.c)]);
    ReachesItself(j, UNSAFE_IN_FLIGHT, w);
    assert [] + [PageStart(j, 0)] == Starts(j, 1);
    ReachesNext(j, UNSAFE_IN_FLIGHT, w, w, HostTakes, World(n, 0, Starts(j, 1), []));
  }

  /** A PAGE_START is taken, its request lost, and the page given up: one more number used. */
  lemma NumberUsed(j: Job, n: Node, q: seq<Frame>) returns (n': Node)
    requires TwoChunks(j) && Waits(j, n) && |q| <= SAFE_IN_FLIGHT
    ensures Waits(j, n') && n'.seqnum == Wrap(n.seqnum as int + 1)
    ensures Reaches(j, UNSAFE_IN_FLIGHT, World(n, 0, [PageStart(j, 0)] + q, []), World(n', 0, q, []))
  {
    hide Reaches, FillNext, Wrap, StartedNode;
    var w, started := World(n, 0, [PageStart(j, 0)] + q, []), StartedNode(j, n, 0);
    var f := StartTaken(j, UNSAFE_IN_FLIGHT, n, 0, q);
    Dropped(j, UNSAFE_IN_FLIGHT, w, started, 0, q, f);
    GivenUp(j, UNSAFE_IN_FLIGHT, started, 0, q);
    n' := started.(mode := Idle);
    ReachesOn(j, UNSAFE_IN_FLIGHT, w, World(started, 0, q, []), World(n', 0, q, []));
  }

  lemma {:induction false} NumbersUsed(j: Job, n: Node, m: nat, q: seq<Frame>) returns (n': Node)
    requires TwoChunks(j) && Waits(j, n) && m + |q| <= SAFE_IN_FLIGHT
    ensures Waits(j, n') && n'.seqnum == Wrap(n.seqnum as int + m)
    ensures Reaches(j, UNSAFE_IN_FLIGHT, World(n, 0, Starts(j, m) + q, []), World(n', 0, q, []))
    decreases m
  {
    hide Reaches, Waits, TwoChunks;
    var w := World(n, 0, Starts(j, m) + q, []);
    TwoChunksValid(j);
    if m == 0 {
      n' := n;
      assert Starts(j, 0) + q == q;
      ReachesItself(j, UNSAFE_IN_FLIGHT, w);
      WrapOfByte(n.seqnum);
    } else {
      var rest := Starts(j, m - 1) + q;
      assert Starts(j, m) + q == [PageStart(j, 0)] + rest;
      var next := NumberUsed(j, n, rest);
      n' := NumbersUsed(j, next, m - 1, q);
      ReachesOn(j, UNSAFE_IN_FLIGHT, w, World(next, 0, rest, []), World(n', 0, q, []));
      WrapAgain(n.seqnum as int + 1, m - 1);
    }
  }

  lemma TwoChunksValid(j: Job)
    requires TwoChunks(j)
    ensures j.Valid() && |j.image| >= 1
  {
  }

  // ---------- Stale answers are accepted ----------

  /** The answer to the first request of the first page. */
  predicate IsFirstFill(j: Job, f: Frame, seqnum: nat)
    requires j.image != []
  {
    f == Frame(PAGE_FILL, j.host, j.c.nodeId, seqnum, Chunk(j.image[0], j.c.pageSize))
  }

  /** A PAGE_START is taken, the request answered, and the page given up: one answer stays in the queue. */
  lemma AnswerLeft(j: Job, n: Node, q: seq<Frame>) returns (n': Node, f: Frame)
    requires TwoChunks(j) && Waits(j, n) && |q| < SAFE_IN_FLIGHT
    ensures Waits(j, n') && n'.seqnum == Wrap(n.seqnum as int + 1) && IsFirstFill(j, f, n'.seqnum % SEQNUM_MODULUS)
    ensures Reaches(j, UNSAFE_IN_FLIGHT, World(n, 0, [PageStart(j, 0)] + q, []), World(n', 0, q + [f], []))
  {
    hide Reaches, FillNext, Wrap, StartedNode;
    var w, started := World(n, 0, [PageStart(j, 0)] + q, []), StartedNode(j, n, 0);
    var request := StartTaken(j, UNSAFE_IN_FLIGHT, n, 0, q);
    f := AnswerTo(j, started, 0);
    Answered(j, UNSAFE_IN_FLIGHT, w, started, 0, q);
    GivenUp(j, UNSAFE_IN_FLIGHT, started, 0, q + [f]);
    n' := started.(mode := Idle);
    ReachesOn(j, UNSAFE_IN_FLIGHT, w, World(started, 0, q + [f], []), World(n', 0, q + [f], []));
  }

  /** Two answers are left behind, and then 31 PAGE_STARTs are taken in front of them. */
  lemma TwoStaleAnswers(j: Job, w: World, n: Node) returns (n': Node, f: Frame, g: Frame)
    requires TwoChunks(j) && Waits(j, n) && Reaches(j, UNSAFE_IN_FLIGHT, w, World(n, 0, Starts(j, SAFE_IN_FLIGHT), []))
    ensures Reaches(j, UNSAFE_IN_FLIGHT, w, World(n', 0, [f, g], []))
    ensures Fills(j, n', 0)
    ensures n'.mode == Filling(0, j.c.pageSize, PAGE_FILL_RETRIES, [])
    ensures IsFirstFill(j, f, n'.seqnum % SEQNUM_MODULUS)
    ensures IsFirstFill(j, g, Wrap(n'.seqnum as int + 1) % SEQNUM_MODULUS)
  {
    hide Reaches, FillNext, Waits, TwoChunks, StartedNode, NodeValid, Chunk;
    TwoChunksValid(j);
    var start := PageStart(j, 0);
    assert Starts(j, 33) == [start] + Starts(j, 32);
    var n1, f1 := AnswerLeft(j, n, Starts(j, 32));
    ReachesOn(j, UNSAFE_IN_FLIGHT, w, World(n, 0, Starts(j, 33), []), World(n1, 0, Starts(j, 32) + [f1], []));
    assert Starts(j, 32) + [f1] == [start] + (Starts(j, 31) + [f1]);
    var n2, f2 := AnswerLeft(j, n1, Starts(j, 31) + [f1]);
    ReachesOn(j, UNSAFE_IN_FLIGHT, w, World(n1, 0, Starts(j, 32) + [f1], []),
              World(n2, 0, Starts(j, 31) + [f1] + [f2], []));
    assert Starts(j, 31) + [f1] + [f2] == Starts(j, 30) + [start, f1, f2];
    var n3 := NumbersUsed(j, n2, 30, [start, f1, f2]);
    ReachesOn(j, UNSAFE_IN_FLIGHT, w, World(n2, 0, Starts(j, 30) + [start, f1, f2], []),
              World(n3, 0, [start, f1, f2], []));
    assert [start, f1, f2] == [start] + [f1, f2];
    var request := StartTaken(j, UNSAFE_IN_FLIGHT, n3, 0, [f1, f2]);
    StartedIsValid(j, n3);
    n', f, g := StartedNode(j, n3, 0), f1, f2;
    ReachesOn(j, UNSAFE_IN_FLIGHT, w, World(n3, 0, [start, f1, f2], []), World(n', 0, [f, g], [request]));
    Dropped(j, UNSAFE_IN_FLIGHT, w, n', 0, [f, g], request);
    NumbersRepeat(n1.seqnum);
  }

  lemma StartedIsValid(j: Job, n: Node)
    requires TwoChunks(j) && Waits(j, n)
    ensures NodeValid(j.c, n) && j.c.appPages > 0 && NodeValid(j.c, StartedNode(j, n, 0))
  {
  }

  /** 32 requests later the numbers are the same. */
  lemma NumbersRepeat(s: byte)
    ensures var later := Wrap(Wrap(Wrap(s as int + 1) as int + 30) as int + 1);
      && later % SEQNUM_MODULUS == s % SEQNUM_MODULUS
      && Wrap(later as int + 1) % SEQNUM_MODULUS == Wrap(s as int + 1) % SEQNUM_MODULUS
  {
    hide Wrap;
    var next := Wrap(s as int + 1);
    WrapAgain(s as int + 1, 30);
    WrapAgain(s as int + 31, 1);
    WrapAgain(s as int + 32, 1);
    WrapAgain(s as int + 1, 32);
    ThirtyTwoLater(s);
    ThirtyTwoLater(next);
  }

  lemma ThirtyTwoLater(s: byte)
    ensures Wrap(s as int + 32) % SEQNUM_MODULUS == s % SEQNUM_MODULUS
  {
    assert Wrap(s as int + 32) as int == if s < 224 then s as int + 32 else s as int - 224;
  }

  // ---------- The wrong page is finished ----------

  /** The first eight bytes of the image are at the next eight as well. */
  predicate Repeated(j: Job, page: Page)
    requires TwoChunks(j)
  {
    |page| >= 16 && page[8..16] == j.image[0][..8]
  }

  lemma RepeatedIsWrong(j: Job, page: Page)
    requires TwoChunks(j) && Repeated(j, page)
    ensures page != j.image[0]
  {
  }

  lemma RepeatedStays(j: Job, page: Page, more: Page)
    requires TwoChunks(j) && Repeated(j, page) && page <= more
    ensures Repeated(j, more)
  {
    assert more[8..16] == page[8..16];
  }

  // ---------- The theorem ----------

  /** Both answers are accepted, and the page is finished. */
  lemma WrongRun(j: Job, w: World) returns (n': Node)
    requires TwoChunks(j) && Init(j, w)
    ensures Reaches(j, UNSAFE_IN_FLIGHT, w, World(n', 1, [Onward(j, 1)], []))
    ensures n'.flash != [] && Repeated(j, n'.flash[0])
  {
    hide Reaches, Starts, FillNext, Wrap, Chunk, Repeated, Onward, Next;
    ManyStarts(j, w.node, SAFE_IN_FLIGHT);
    assert w == World(w.node, 0, [], [TurnedOn(j.c)]);
    var n, f, g := TwoStaleAnswers(j, w, w.node);
    assert [f, g] == [f] + [g];
    Accepted(j, UNSAFE_IN_FLIGHT, w, n, 0, f, [g]);
    var r := AcceptChunk(j.c, n, f.data);
    FirstChunk(j);
    Dropped(j, UNSAFE_IN_FLIGHT, w, r.node, 0, [g], r.sent[0]);
    n' := PageFinished(j, UNSAFE_IN_FLIGHT, w, r.node, 0, g);
    RepeatedStays(j, r.node.mode.buffer + g.data, n'.flash[0]);
  }

  lemma FirstChunk(j: Job)
    requires TwoChunks(j)
    ensures var chunk := Chunk(j.image[0], j.c.pageSize);
      Repeated(j, chunk + chunk)
  {
    var chunk := Chunk(j.image[0], j.c.pageSize);
    assert chunk == j.image[0][..8];
  }

  /**
   34 frames in flight are too many. For every image whose first sixteen bytes are not twice
   the same eight there is a run after which the host is done with the first page, and the
   page in flash is not the page of the image.
   */
  lemma ThirtyFourIsTooMany(j: Job, start: World)
    requires TwoChunks(j) && Init(j, start)
    ensures exists ws: seq<World>, actions: seq<Action> ::
      Behaviour(j, UNSAFE_IN_FLIGHT, ws, actions) && ws[0] == start && ws[|actions|].current == 1
      && |ws[|actions|].node.flash| > 0 && ws[|actions|].node.flash[0] != j.image[0]
  {
    hide Next, Init, Repeated;
    var n := WrongRun(j, start);
    RepeatedIsWrong(j, n.flash[0]);
    var w := World(n, 1, [Onward(j, 1)], []);
    var ws: seq<World>, actions: seq<Action> :|
      Path(j, UNSAFE_IN_FLIGHT, ws, actions) && ws[0] == start && ws[|actions|] == w;
    assert Behaviour(j, UNSAFE_IN_FLIGHT, ws, actions);
  }

  /** Such a job and its first world. */
  lemma TooManyIsPossible() returns (j: Job, start: World)
    ensures TwoChunks(j) && Init(j, start)
  {
    var page: Page := seq(16, i requires 0 <= i < 16 => if i < 8 then 0 else 1);
    j := Job(Config(1, 16, 1, [], false), 2, [page]);
    start := World(Node(Idle, 0, None, [Erased(16)]), 0, [], [TurnedOn(j.c)]);
    assert page[..8][0] != page[8..16][0];
  }
}
