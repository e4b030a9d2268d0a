/**
 Flashing a whole image: the bootloader, the host and two lossy queues between them. The
 host only answers the bootloader. Together the two queues hold a limited number of frames;
 up to 33 the five-bit numbers are safe.

 Because the host answers in order, the frames on their way to the node followed by the
 frames still on their way to the host form one queue, the pipeline: the host takes a
 frame at one place of it and puts the answer back at the same place.
 */
module BootFlashing {
  import opened Bytes
  import opened Options
  import opened CyclicCounters
  import opened BootProtocol

  const SAFE_IN_FLIGHT := 33

  /** What the host wants to flash. */
  datatype Job = Job(c: Config, host: byte, image: seq<Page>) {
    ghost predicate Valid() {
      && c.Valid() && |image| <= c.appPages
      && forall p :: 0 <= p < |image| ==> |image[p]| == c.pageSize
    }
  }

  /** The node, the page the host is at, and the frames on their way to the node and to the host. */
  datatype World = World(node: Node, current: nat, toNode: seq<Frame>, toHost: seq<Frame>)

  // ---------- The host ----------

  function PageStart(j: Job, page: nat): Frame
    requires page < 65536
  {
    Frame(PAGE_START, j.host, j.c.nodeId, 0, Word(page))
  }

  function Quit(j: Job): Frame {
    Frame(QUIT_BOOTLOADER, j.host, j.c.nodeId, 0, [])
  }

  /** The eight bytes of a page at page size - remain. */
  function Chunk(page: Page, remain: nat): (data: seq<byte>)
    ensures |data| == 8
  {
    if 8 <= remain <= |page| then page[|page| - remain..|page| - remain + 8] else seq(8, _ => 0)
  }

  /** PAGE_START of the current page, or QUIT_BOOTLOADER after the last one. */
  function Onward(j: Job, current: nat): Frame
    requires j.Valid()
  {
    if current < |j.image| then PageStart(j, current) else Quit(j)
  }

  /** The page the host is at after taking a frame, and its answer: at most one frame. */
  function HostStep(j: Job, current: nat, f: Frame): (r: (nat, seq<Frame>))
    requires j.Valid()
    ensures |r.1| <= 1
  {
    if f.kind == PAGE_FILL_NEXT && |f.data| == 2 && current < |j.image| then
      (current, [Frame(PAGE_FILL, j.host, j.c.nodeId, f.seqnum, Chunk(j.image[current], WordValue(f.data)))])
    else if f.kind == PAGE_FILL_BREAK || f.kind == BOOTLOADER_TURNED_ON then (current, [Onward(j, current)])
    else if f.kind == PAGE_WRITED && |f.data| == 2 && WordValue(f.data) == current && current < |j.image| then
      (current + 1, [Onward(j, current + 1)])
    else (current, [])
  }

  // ---------- Steps of the world ----------

  datatype Action =
    | NodeTakes
    | NodeTimesOut
    | StrangerSends(f: Frame)
    | HostTakes
    | LostToNode(i: nat)
    | LostToHost(i: nat)

  function Without(fs: seq<Frame>, i: nat): seq<Frame>
    requires i < |fs|
  {
    fs[..i] + fs[i + 1..]
  }

  function Pipeline(w: World): seq<Frame> {
    w.toNode + w.toHost
  }

  /** One step; what the node or the host sends is appended to a queue, and the queues have a limit. */
  ghost predicate Next(j: Job, limit: nat, w: World, a: Action, w': World)
    requires j.Valid()
  {
    && NodeValid(j.c, w.node) && w.node.mode != Left
    && |Pipeline(w')| <= limit
    && match a
       case NodeTakes =>
         w.toNode != [] &&
         var r := Step(j.c, w.node, Receive(w.toNode[0]));
         w' == World(r.node, w.current, w.toNode[1..], w.toHost + r.sent)
       case NodeTimesOut =>
         var r := Step(j.c, w.node, Timeout);
         w' == World(r.node, w.current, w.toNode, w.toHost + r.sent)
       case StrangerSends(f) =>
         FromStranger(w.node, f) &&
         var r := Step(j.c, w.node, Receive(f));
         w' == World(r.node, w.current, w.toNode, w.toHost + r.sent)
       case HostTakes =>
         w.toHost != [] &&
         var (current, answer) := HostStep(j, w.current, w.toHost[0]);
         w' == World(w.node, current, w.toNode + answer, w.toHost[1..])
       case LostToNode(i) =>
         i < |w.toNode| && w' == w.(toNode := Without(w.toNode, i))
       case LostToHost(i) =>
         i < |w.toHost| && w' == w.(toHost := Without(w.toHost, i))
  }

  /** The bootloader has just started: its first frame is on its way, any flash, any number. */
  ghost predicate Init(j: Job, w: World)
    requires j.Valid()
  {
    && NodeValid(j.c, w.node) && w.node.mode == Idle && w.node.host == None
    && w.current == 0 && w.toNode == [] && w.toHost == [TurnedOn(j.c)]
  }

  ghost predicate Behaviour(j: Job, limit: nat, ws: seq<World>, actions: seq<Action>)
    requires j.Valid()
  {
    && |ws| == |actions| + 1 && Init(j, ws[0])
    && forall i :: 0 <= i < |actions| ==> Next(j, limit, ws[i], actions[i], ws[i + 1])
  }

  // ---------- The invariant ----------

  /** A request for data or an answer to one. */
  predicate IsFill(f: Frame) {
    f.kind == PAGE_FILL || f.kind == PAGE_FILL_NEXT
  }

  /** How many requests ago the number of a frame was in use, if that was less than 32 ago. */
  function Age(n: Node, f: Frame): (age: nat)
    ensures age < SEQNUM_MODULUS
  {
    (n.seqnum as int - f.seqnum) % SEQNUM_MODULUS
  }

  predicate IsCurrent(n: Node, f: Frame) {
    IsFill(f) && Age(n, f) == 0
  }

  /** A frame under the current number asks for, or carries, what the node waits for. */
  predicate RightContent(j: Job, n: Node, f: Frame)
    requires n.mode.Filling?
  {
    && (f.kind == PAGE_FILL_NEXT ==> |f.data| == 2 && WordValue(f.data) == n.mode.remain)
    && (f.kind == PAGE_FILL ==>
          n.mode.page < |j.image| && f.data == Chunk(j.image[n.mode.page], n.mode.remain))
  }

  /** What a frame of the pipeline may be. */
  ghost predicate FrameOk(j: Job, n: Node, current: nat, f: Frame)
    requires j.Valid() && NodeValid(j.c, n)
  {
    && (IsFill(f) ==> f.seqnum < SEQNUM_MODULUS)
    && (IsCurrent(n, f) && n.mode.Filling? ==> RightContent(j, n, f))
    && (f.kind == PAGE_START ==> |f.data| == 2 && WordValue(f.data) == current < |j.image|)
    && (f.kind == QUIT_BOOTLOADER ==> current == |j.image|)
    && (f.kind == PAGE_WRITED ==>
          && |f.data| == 2 && WordValue(f.data) <= current
          && (WordValue(f.data) == current ==>
                !n.mode.Filling? && current < |j.image| && n.flash[current] == j.image[current]))
  }

  /**
   Every request the node makes moves a frame up by at least one place, so place and age of a
   frame together stay below 32. In a full pipeline they can reach 32, but then the frame in
   front makes the node send no request.
   */
  ghost predicate InTime(n: Node, pipe: seq<Frame>, k: nat)
    requires k < |pipe|
  {
    IsFill(pipe[k]) ==>
      || Age(n, pipe[k]) + k < SEQNUM_MODULUS
      || (Age(n, pipe[k]) + k == SEQNUM_MODULUS && Late(n, pipe, k))
  }

  ghost predicate Late(n: Node, pipe: seq<Frame>, k: nat)
    requires k < |pipe|
  {
    || (Age(n, pipe[k]) == 0 && n.mode.Filling?)
    || (Age(n, pipe[k]) == 1 && forall l :: 0 <= l < k ==> IsFill(pipe[l]) && Age(n, pipe[l]) == 1)
  }

  ghost predicate PipeOk(j: Job, n: Node, current: nat, pipe: seq<Frame>)
    requires j.Valid() && NodeValid(j.c, n)
  {
    && |pipe| <= SAFE_IN_FLIGHT
    && (forall k :: 0 <= k < |pipe| ==> FrameOk(j, n, current, pipe[k]))
    && AllInTime(n, pipe)
    // behind a frame under the current number there are only such frames
    && (n.mode.Filling? ==>
          forall k, l :: 0 <= k < l < |pipe| && IsCurrent(n, pipe[k]) ==> IsCurrent(n, pipe[l]))
    // ahead of the report that the current page is written there are only requests and answers
    && (forall k, l :: 0 <= k < l < |pipe| && Reports(pipe[l], current) ==> IsFill(pipe[k]))
  }

  predicate Reports(f: Frame, current: nat) {
    f.kind == PAGE_WRITED && |f.data| == 2 && WordValue(f.data) == current
  }

  /** The node and the pages finished so far. */
  ghost predicate NodeOk(j: Job, n: Node, current: nat)
    requires j.Valid()
  {
    && NodeValid(j.c, n) && current <= |j.image|
    && (n.host.Some? ==> n.host.value == j.host)
    && (forall p :: 0 <= p < current ==> n.flash[p] == j.image[p])
    && (n.mode.Filling? ==>
          && n.mode.page == current < |j.image|
          && n.mode.buffer == j.image[current][..j.c.pageSize - n.mode.remain])
    && (n.mode == Left ==> current == |j.image|)
  }

  ghost predicate DirectionsOk(j: Job, w: World) {
    && (forall k :: 0 <= k < |w.toNode| ==>
          w.toNode[k].source == j.host && w.toNode[k].kind in {PAGE_START, QUIT_BOOTLOADER, PAGE_FILL})
    && (forall k :: 0 <= k < |w.toHost| ==>
          w.toHost[k].kind in {PAGE_FILL_NEXT, PAGE_WRITED, PAGE_FILL_BREAK, BOOTLOADER_TURNED_ON})
  }

  ghost predicate Inv(j: Job, w: World)
    requires j.Valid()
  {
    NodeOk(j, w.node, w.current) && DirectionsOk(j, w) && PipeOk(j, w.node, w.current, Pipeline(w))
  }

  // ---------- Places and ages ----------

  ghost predicate AllInTime(n: Node, pipe: seq<Frame>) {
    forall k :: 0 <= k < |pipe| ==> InTime(n, pipe, k)
  }

  lemma TimeAfterLoss(n: Node, pipe: seq<Frame>, i: nat)
    requires AllInTime(n, pipe) && i < |pipe|
    ensures AllInTime(n, Without(pipe, i))
  {
    hide Age, IsFill;
    var rest := Without(pipe, i);
    forall k | 0 <= k < |rest|
      ensures InTime(n, rest, k)
    {
      assert InTime(n, pipe, if k < i then k else k + 1);
      assert forall l :: 0 <= l < i ==> rest[l] == pipe[l];
    }
  }

  lemma TimeWhenIdle(n: Node, n': Node, pipe: seq<Frame>)
    requires AllInTime(n, pipe) && |pipe| < SAFE_IN_FLIGHT && n'.seqnum == n.seqnum
    ensures AllInTime(n', pipe)
  {
    hide IsFill;
    forall k | 0 <= k < |pipe|
      ensures InTime(n', pipe, k)
    {
      assert InTime(n, pipe, k);
    }
  }

  lemma TimeOfLast(n: Node, n': Node, pipe: seq<Frame>, f: Frame)
    requires AllInTime(n, pipe) && |pipe| < SAFE_IN_FLIGHT && n'.seqnum == n.seqnum
    requires n.mode.Filling? ==> n'.mode.Filling?
    requires IsFill(f) ==> n'.mode.Filling? && Age(n', f) == 0
    ensures AllInTime(n', pipe + [f])
  {
    hide IsFill;
    var pipe' := pipe + [f];
    forall k | 0 <= k < |pipe'|
      ensures InTime(n', pipe', k)
    {
      if k < |pipe| {
        assert InTime(n, pipe, k);
        assert forall l :: 0 <= l < k ==> pipe'[l] == pipe[l];
      }
    }
  }

  lemma TimeOfReplaced(n: Node, pipe: seq<Frame>, i: nat, g: Frame)
    requires AllInTime(n, pipe) && i < |pipe|
    requires IsFill(g) <==> IsFill(pipe[i])
    requires IsFill(g) ==> g.seqnum == pipe[i].seqnum
    ensures AllInTime(n, pipe[i := g])
  {
    hide IsFill;
    var pipe' := pipe[i := g];
    forall k | 0 <= k < |pipe'|
      ensures InTime(n, pipe', k)
    {
      assert InTime(n, pipe, k);
    }
  }

  /** The frame in front makes the node send a request under the next number. */
  ghost predicate Renews(n: Node, pipe: seq<Frame>)
    requires pipe != []
  {
    if n.mode.Filling? then forall k :: 0 <= k < |pipe| ==> IsCurrent(n, pipe[k]) else !IsFill(pipe[0])
  }

  lemma AgeBeforeRenewal(n: Node, pipe: seq<Frame>, k: nat)
    requires AllInTime(n, pipe) && 1 <= k < |pipe| && Renews(n, pipe) && IsFill(pipe[k])
    ensures Age(n, pipe[k]) < SEQNUM_MODULUS - 1
    ensures Age(n, pipe[k]) + k < SEQNUM_MODULUS || (Age(n, pipe[k]) + k == SEQNUM_MODULUS && n.mode.Filling?)
  {
    assert InTime(n, pipe, k);
  }

  lemma TimeOfRequest(n: Node, n': Node, pipe: seq<Frame>, f: Frame)
    requires AllInTime(n, pipe) && pipe != [] && |pipe| <= SAFE_IN_FLIGHT && Renews(n, pipe)
    requires forall k :: 0 <= k < |pipe| && IsFill(pipe[k]) ==> pipe[k].seqnum < SEQNUM_MODULUS
    requires n'.seqnum == Wrap(n.seqnum as int + 1) && n'.mode.Filling? && IsFill(f) && Age(n', f) == 0
    ensures AllInTime(n', pipe[1..] + [f])
  {
    hide IsFill, Age, Wrap, IsCurrent, Renews;
    var pipe' := pipe[1..] + [f];
    forall k | 0 <= k < |pipe'| - 1 && IsFill(pipe'[k])
      ensures Age(n', pipe'[k]) == Age(n, pipe[k + 1]) + 1
      ensures Age(n', pipe'[k]) + k < SEQNUM_MODULUS || (Age(n', pipe'[k]) + k == SEQNUM_MODULUS && n.mode.Filling?)
    {
      AgeBeforeRenewal(n, pipe, k + 1);
      OneOlder(n, n', pipe[k + 1]);
    }
    forall k | 0 <= k < |pipe'|
      ensures InTime(n', pipe', k)
    {
      if k < |pipe'| - 1 && IsFill(pipe'[k]) && Age(n', pipe'[k]) + k == SEQNUM_MODULUS {
        forall l | 0 <= l <= k
          ensures IsFill(pipe'[l]) && Age(n', pipe'[l]) == 1
        {
          AllWereCurrent(n, pipe, l + 1);
        }
      }
    }
  }

  lemma AllWereCurrent(n: Node, pipe: seq<Frame>, k: nat)
    requires pipe != [] && Renews(n, pipe) && n.mode.Filling? && k < |pipe|
    ensures IsFill(pipe[k]) && Age(n, pipe[k]) == 0
  {
    assert IsCurrent(n, pipe[k]);
  }

  lemma OneOlder(n: Node, n': Node, f: Frame)
    requires n'.seqnum == Wrap(n.seqnum as int + 1) && f.seqnum < SEQNUM_MODULUS && Age(n, f) < SEQNUM_MODULUS - 1
    ensures Age(n', f) == Age(n, f) + 1
  {
    hide Wrap;
    AgeGrows(n.seqnum, f.seqnum);
  }

  // ---------- Changes of the pipeline ----------

  /** A lost frame: the frames behind it move up. */
  lemma FrameLost(j: Job, n: Node, current: nat, pipe: seq<Frame>, i: nat)
    requires j.Valid() && NodeValid(j.c, n) && PipeOk(j, n, current, pipe) && i < |pipe|
    ensures PipeOk(j, n, current, Without(pipe, i))
  {
    hide NodeValid, IsCurrent, Age, RightContent, Reports, AllInTime, FrameOk;
    TimeAfterLoss(n, pipe, i);
    var rest := Without(pipe, i);
    forall k | 0 <= k < |rest|
      ensures FrameOk(j, n, current, rest[k])
    {
      assert FrameOk(j, n, current, pipe[if k < i then k else k + 1]);
    }
    forall k, l | 0 <= k < l < |rest|
      ensures n.mode.Filling? && IsCurrent(n, rest[k]) ==> IsCurrent(n, rest[l])
      ensures Reports(rest[l], current) ==> IsFill(rest[k])
    {
      var k', l' := if k < i then k else k + 1, if l < i then l else l + 1;
      assert rest[k] == pipe[k'] && rest[l] == pipe[l'];
    }
  }

  /** The node leaves the page: nothing depends on the current number any more. */
  lemma FrameOkWhenIdle(j: Job, n: Node, n': Node, current: nat, f: Frame)
    requires j.Valid() && NodeValid(j.c, n) && NodeValid(j.c, n') && FrameOk(j, n, current, f)
    requires !n'.mode.Filling? && n'.seqnum == n.seqnum && n'.flash == n.flash
    ensures FrameOk(j, n', current, f)
  {
  }

  lemma NodeStopsFilling(j: Job, n: Node, n': Node, current: nat, pipe: seq<Frame>)
    requires j.Valid() && NodeValid(j.c, n) && NodeValid(j.c, n') && PipeOk(j, n, current, pipe)
    requires !n'.mode.Filling? && n'.seqnum == n.seqnum && n'.flash == n.flash && |pipe| < SAFE_IN_FLIGHT
    ensures PipeOk(j, n', current, pipe)
  {
    hide NodeValid, FrameOk, IsCurrent, Reports, AllInTime;
    TimeWhenIdle(n, n', pipe);
    forall k | 0 <= k < |pipe|
      ensures FrameOk(j, n', current, pipe[k])
    {
      FrameOkWhenIdle(j, n, n', current, pipe[k]);
    }
  }

  /** A break or a turned-on message joins the pipeline. */
  lemma PlainFrameSent(j: Job, n: Node, current: nat, pipe: seq<Frame>, f: Frame)
    requires j.Valid() && NodeValid(j.c, n) && PipeOk(j, n, current, pipe) && |pipe| < SAFE_IN_FLIGHT
    requires !n.mode.Filling? && f.kind in {PAGE_FILL_BREAK, BOOTLOADER_TURNED_ON}
    ensures PipeOk(j, n, current, pipe + [f])
  {
    hide NodeValid, IsCurrent, AllInTime;
    TimeOfLast(n, n, pipe, f);
    var pipe' := pipe + [f];
    forall k | 0 <= k < |pipe'|
      ensures FrameOk(j, n, current, pipe'[k])
    {
      if k < |pipe| {
        assert FrameOk(j, n, current, pipe[k]);
      }
    }
  }

  lemma SameNumber(j: Job, n: Node, host: byte, remain: nat)
    requires remain < 65536
    ensures var f := FillNext(j.c, host, n.seqnum, remain);
      IsFill(f) && f.seqnum < SEQNUM_MODULUS && Age(n, f) == 0 && IsCurrent(n, f)
      && f.kind == PAGE_FILL_NEXT && |f.data| == 2 && WordValue(f.data) == remain
  {
    WordRoundTrip(remain);
    ModuloOfItself(n.seqnum);
  }

  lemma ModuloOfItself(a: int)
    ensures (a - a % 32) % 32 == 0
  {
  }

  /** The request is repeated after a timeout. */
  lemma RequestRepeated(j: Job, n: Node, current: nat, pipe: seq<Frame>, n': Node)
    requires j.Valid() && NodeValid(j.c, n) && n.mode.Filling? && PipeOk(j, n, current, pipe) && |pipe| < SAFE_IN_FLIGHT
    requires NodeValid(j.c, n') && n' == n.(mode := n.mode.(retries := n.mode.retries - 1))
    ensures PipeOk(j, n', current, pipe + [FillNext(j.c, n.host.value, n.seqnum, n.mode.remain)])
  {
    hide NodeValid, FillNext, Reports, AllInTime;
    RemainIsSmall(j.c, n);
    var f := FillNext(j.c, n.host.value, n.seqnum, n.mode.remain);
    SameNumber(j, n, n.host.value, n.mode.remain);
    TimeOfLast(n, n', pipe, f);
    var pipe' := pipe + [f];
    forall k | 0 <= k < |pipe'|
      ensures FrameOk(j, n', current, pipe'[k])
      ensures IsCurrent(n', pipe'[k]) <==> IsCurrent(n, pipe'[k])
    {
      if k < |pipe| {
        assert FrameOk(j, n, current, pipe[k]);
      }
    }
    RequestReportsNothing(f, current);
  }

  lemma RemainIsSmall(c: Config, n: Node)
    requires NodeValid(c, n) && n.mode.Filling?
    ensures n.mode.remain < 65536 && n.host.Some?
  {
  }

  /** A frame grows one request older: nothing of it depends on the current number any more. */
  lemma OneRequestOlder(j: Job, n: Node, n': Node, current: nat, f: Frame)
    requires j.Valid() && NodeValid(j.c, n) && NodeValid(j.c, n') && FrameOk(j, n, current, f)
    requires n'.seqnum == Wrap(n.seqnum as int + 1) && n'.mode.Filling?
    requires IsFill(f) ==> Age(n, f) < SEQNUM_MODULUS - 1
    requires !Reports(f, current)
    ensures FrameOk(j, n', current, f) && !IsCurrent(n', f)
  {
    hide NodeValid, RightContent, Wrap;
    if IsFill(f) {
      OneOlder(n, n', f);
    }
  }

  lemma AgeGrows(s: byte, q: nat)
    requires q < 32
    ensures (Wrap(s as int + 1) - q) % 32 == if (s - q) % 32 == 31 then 0 else (s - q) % 32 + 1
  {
    WrapModulo(s);
    NextModulo(s - q);
    ShiftModulo(Wrap(s as int + 1), s as int + 1, q);
  }

  lemma WrapModulo(s: byte)
    ensures (Wrap(s as int + 1) - (s as int + 1)) % 32 == 0
  {
  }

  lemma NextModulo(a: int)
    ensures (a + 1) % 32 == if a % 32 == 31 then 0 else a % 32 + 1
  {
  }

  lemma ShiftModulo(a: int, b: int, q: int)
    requires (a - b) % 32 == 0
    ensures (a - q) % 32 == (b - q) % 32
  {
  }

  /** The node takes the first frame and sends a request under the next number. */
  lemma RequestSent(j: Job, n: Node, n': Node, current: nat, pipe: seq<Frame>)
    requires j.Valid() && NodeValid(j.c, n) && NodeValid(j.c, n') && PipeOk(j, n, current, pipe) && pipe != []
    requires n'.mode.Filling? && n'.seqnum == Wrap(n.seqnum as int + 1) && Renews(n, pipe)
    requires forall k :: 1 <= k < |pipe| ==> !Reports(pipe[k], current)
    ensures n'.mode.remain < 65536 && n'.host.Some?
    ensures PipeOk(j, n', current, pipe[1..] + [FillNext(j.c, n'.host.value, n'.seqnum, n'.mode.remain)])
  {
    hide NodeValid, FillNext, Reports, Age, IsCurrent, RightContent, AllInTime, Renews, FrameOk, Wrap;
    RemainIsSmall(j.c, n');
    var f := FillNext(j.c, n'.host.value, n'.seqnum, n'.mode.remain);
    SameNumber(j, n', n'.host.value, n'.mode.remain);
    var pipe' := pipe[1..] + [f];
    forall k | 0 <= k < |pipe'| - 1
      ensures FrameOk(j, n', current, pipe'[k]) && !IsCurrent(n', pipe'[k]) && !Reports(pipe'[k], current)
    {
      assert FrameOk(j, n, current, pipe[k + 1]);
      if IsFill(pipe[k + 1]) {
        AgeBeforeRenewal(n, pipe, k + 1);
      }
      OneRequestOlder(j, n, n', current, pipe[k + 1]);
    }
    forall k | 0 <= k < |pipe| && IsFill(pipe[k])
      ensures pipe[k].seqnum < SEQNUM_MODULUS
    {
      NumberFits(j, n, current, pipe[k]);
    }
    CurrentAge(n', f);
    TimeOfRequest(n, n', pipe, f);
    RequestIsRight(j, n', current, f);
    assert !Reports(f, current) by { RequestReportsNothing(f, current); }
  }

  lemma NumberFits(j: Job, n: Node, current: nat, f: Frame)
    requires j.Valid() && NodeValid(j.c, n) && FrameOk(j, n, current, f) && IsFill(f)
    ensures f.seqnum < SEQNUM_MODULUS
  {
  }

  lemma CurrentAge(n: Node, f: Frame)
    requires IsCurrent(n, f)
    ensures IsFill(f) && Age(n, f) == 0
  {
  }

  lemma RequestIsRight(j: Job, n: Node, current: nat, f: Frame)
    requires j.Valid() && NodeValid(j.c, n) && IsCurrent(n, f) && f.seqnum < SEQNUM_MODULUS
    requires n.mode.Filling? && f.kind == PAGE_FILL_NEXT && |f.data| == 2 && WordValue(f.data) == n.mode.remain
    ensures FrameOk(j, n, current, f)
  {
  }

  lemma RequestReportsNothing(f: Frame, current: nat)
    requires f.kind != PAGE_WRITED
    ensures !Reports(f, current)
  {
  }

  /** The node takes the last chunk and reports the page. */
  lemma PageReported(j: Job, n: Node, n': Node, current: nat, pipe: seq<Frame>, f: Frame)
    requires j.Valid() && NodeValid(j.c, n) && NodeValid(j.c, n') && PipeOk(j, n, current, pipe) && pipe != []
    requires n.mode.Filling? && IsCurrent(n, pipe[0])
    requires n'.mode == Idle && n'.seqnum == n.seqnum
    requires current < |j.image| && n'.flash[current] == j.image[current]
    requires f.kind == PAGE_WRITED && |f.data| == 2 && WordValue(f.data) == current
    ensures PipeOk(j, n', current, pipe[1..] + [f])
  {
    hide NodeValid, AllInTime;
    TimeAfterLoss(n, pipe, 0);
    assert Without(pipe, 0) == pipe[1..];
    TimeWhenIdle(n, n', pipe[1..]);
    TimeOfLast(n', n', pipe[1..], f);
    var pipe' := pipe[1..] + [f];
    forall k | 0 <= k < |pipe'| - 1
      ensures IsFill(pipe'[k]) && FrameOk(j, n', current, pipe'[k])
    {
      assert FrameOk(j, n, current, pipe[k + 1]);
      assert IsCurrent(n, pipe[k + 1]);
    }
  }

  // ---------- The node takes a frame ----------

  lemma FirstIsKnown(j: Job, w: World)
    requires j.Valid() && Inv(j, w) && w.toNode != []
    ensures var f, n := w.toNode[0], w.node;
      && !FromStranger(n, f) && f.kind in {PAGE_START, QUIT_BOOTLOADER, PAGE_FILL}
      && f == Pipeline(w)[0] && FrameOk(j, n, w.current, f)
      && w.toNode[1..] + w.toHost == Pipeline(w)[1..] == Without(Pipeline(w), 0)
      && |Pipeline(w)| <= SAFE_IN_FLIGHT
  {
  }

  /** After the node's reaction the pipeline is the rest and what was sent. */
  lemma TakenPipeline(w: World, sent: seq<Frame>)
    requires w.toNode != []
    ensures w.toNode[1..] + (w.toHost + sent) == Pipeline(w)[1..] + sent
  {
  }

  lemma IdleNodeTakes(j: Job, w: World, w': World)
    requires j.Valid() && Inv(j, w) && Next(j, SAFE_IN_FLIGHT, w, NodeTakes, w') && w.node.mode == Idle
    ensures NodeOk(j, w'.node, w.current) && PipeOk(j, w'.node, w.current, Pipeline(w'))
  {
    hide PipeOk, FrameOk, IsCurrent, StartPage;
    FirstIsKnown(j, w);
    var f, n := w.toNode[0], w.node;
    var r := Step(j.c, n, Receive(f));
    TakenPipeline(w, r.sent);
    FrameLost(j, n, w.current, Pipeline(w), 0);
    if f.kind == PAGE_START {
      StartIsRight(j, n, w.current, f);
      NothingReported(j, n, w.current, Pipeline(w));
      StartedPage(j, n, w.current, f);
      RequestSent(j, n, r.node, w.current, Pipeline(w));
    } else if f.kind == QUIT_BOOTLOADER {
      QuitIsRight(j, n, w.current, f);
      NodeStopsFilling(j, n, r.node, w.current, Pipeline(w)[1..]);
      assert Pipeline(w)[1..] + [] == Pipeline(w)[1..];
    } else {
      assert Pipeline(w)[1..] + [] == Pipeline(w)[1..];
    }
  }

  lemma StartIsRight(j: Job, n: Node, current: nat, f: Frame)
    requires j.Valid() && NodeValid(j.c, n) && FrameOk(j, n, current, f) && f.kind == PAGE_START
    ensures |f.data| == 2 && WordValue(f.data) == current < |j.image|
  {
  }

  lemma QuitIsRight(j: Job, n: Node, current: nat, f: Frame)
    requires j.Valid() && NodeValid(j.c, n) && FrameOk(j, n, current, f) && f.kind == QUIT_BOOTLOADER
    ensures current == |j.image|
  {
  }

  /** Behind a frame that is not about filling no report of the current page can be. */
  lemma NothingReported(j: Job, n: Node, current: nat, pipe: seq<Frame>)
    requires j.Valid() && NodeValid(j.c, n) && PipeOk(j, n, current, pipe) && pipe != [] && !IsFill(pipe[0])
    ensures forall k :: 1 <= k < |pipe| ==> !Reports(pipe[k], current)
  {
    hide FrameOk, Reports, IsFill;
  }

  /** While the node fills the current page no report of it can be anywhere. */
  lemma NothingReportedYet(j: Job, n: Node, current: nat, pipe: seq<Frame>)
    requires j.Valid() && NodeValid(j.c, n) && PipeOk(j, n, current, pipe) && n.mode.Filling?
    ensures forall k :: 0 <= k < |pipe| ==> !Reports(pipe[k], current)
  {
    hide NodeValid, IsCurrent, RightContent, Age;
    forall k | 0 <= k < |pipe|
      ensures !Reports(pipe[k], current)
    {
      assert FrameOk(j, n, current, pipe[k]);
    }
  }

  lemma StartedPage(j: Job, n: Node, current: nat, f: Frame)
    requires j.Valid() && NodeOk(j, n, current) && n.mode == Idle && !FromStranger(n, f)
    requires f.kind == PAGE_START && f.source == j.host && |f.data| == 2 && WordValue(f.data) == current < |j.image|
    ensures var r := Step(j.c, n, Receive(f));
      && NodeOk(j, r.node, current) && r.node.mode.Filling? && r.node.seqnum == Wrap(n.seqnum as int + 1)
      && r.node.host == Some(j.host) && r.node.mode.remain < 65536
      && r.sent == [FillNext(j.c, j.host, r.node.seqnum, r.node.mode.remain)]
  {
    hide Wrap, FillNext;
    assert j.image[current][..0] == [];
  }

  /** Behind a frame under the current number all frames are under it. */
  lemma AllAreCurrent(j: Job, n: Node, current: nat, pipe: seq<Frame>)
    requires j.Valid() && NodeValid(j.c, n) && PipeOk(j, n, current, pipe) && pipe != []
    requires n.mode.Filling? && IsCurrent(n, pipe[0])
    ensures Renews(n, pipe)
  {
    hide IsCurrent, FrameOk, AllInTime;
  }

  lemma FillingNodeTakes(j: Job, w: World, w': World)
    requires j.Valid() && Inv(j, w) && Next(j, SAFE_IN_FLIGHT, w, NodeTakes, w') && w.node.mode.Filling?
    ensures NodeOk(j, w'.node, w.current) && PipeOk(j, w'.node, w.current, Pipeline(w'))
  {
    hide PipeOk, FrameOk, IsCurrent, RightContent, Chunk;
    FirstIsKnown(j, w);
    var f, n, pipe := w.toNode[0], w.node, Pipeline(w);
    var r := Step(j.c, n, Receive(f));
    TakenPipeline(w, r.sent);
    FrameLost(j, n, w.current, pipe, 0);
    assert pipe[1..] + [] == pipe[1..];
    if f.kind != PAGE_FILL {
      NodeStopsFilling(j, n, r.node, w.current, pipe[1..]);
      PlainFrameSent(j, r.node, w.current, pipe[1..], r.sent[0]);
    } else if Answers(n, f) {
      AnswerIsRight(j, n, w.current, f);
      if n.mode.remain == 8 {
        LastChunk(j, n, w.current, f);
        PageReported(j, n, r.node, w.current, pipe, r.sent[0]);
      } else {
        NextChunk(j, n, w.current, f);
        NothingReportedYet(j, n, w.current, pipe);
        AllAreCurrent(j, n, w.current, pipe);
        RequestSent(j, n, r.node, w.current, pipe);
      }
    }
  }

  /** An accepted answer carries exactly the bytes the node waits for. */
  lemma AnswerIsRight(j: Job, n: Node, current: nat, f: Frame)
    requires j.Valid() && NodeValid(j.c, n) && FrameOk(j, n, current, f) && n.mode.Filling? && Answers(n, f)
    ensures IsCurrent(n, f) && n.mode.page < |j.image| && f.data == Chunk(j.image[n.mode.page], n.mode.remain)
  {
    ModuloOfItself(n.seqnum);
  }

  lemma LastChunk(j: Job, n: Node, current: nat, f: Frame)
    requires j.Valid() && NodeOk(j, n, current) && n.mode.Filling? && n.mode.remain == 8
    requires !FromStranger(n, f) && Answers(n, f) && f.data == Chunk(j.image[current], n.mode.remain)
    ensures var r := Step(j.c, n, Receive(f));
      && NodeOk(j, r.node, current) && r.node.mode == Idle && r.node.seqnum == n.seqnum
      && r.node.flash[current] == j.image[current]
      && |r.sent| == 1 && r.sent[0].kind == PAGE_WRITED && |r.sent[0].data| == 2
      && WordValue(r.sent[0].data) == current
  {
    var image := j.image[current];
    assert image == image[..|image| - 8] + image[|image| - 8..];
    WordRoundTrip(current);
  }

  lemma NextChunk(j: Job, n: Node, current: nat, f: Frame)
    requires j.Valid() && NodeOk(j, n, current) && n.mode.Filling? && n.mode.remain != 8
    requires !FromStranger(n, f) && Answers(n, f) && f.data == Chunk(j.image[current], n.mode.remain)
    ensures var r := Step(j.c, n, Receive(f));
      && NodeOk(j, r.node, current) && r.node.mode.Filling? && r.node.seqnum == Wrap(n.seqnum as int + 1)
      && r.node.host.Some? && r.node.mode.remain < 65536
      && r.sent == [FillNext(j.c, r.node.host.value, r.node.seqnum, r.node.mode.remain)]
  {
    hide Wrap, FillNext;
    var image, done := j.image[current], |j.image[current]| - n.mode.remain;
    assert image[..done] + image[done..done + 8] == image[..done + 8];
  }

  // ---------- The node times out ----------

  lemma NodeTimesOutOk(j: Job, w: World, w': World)
    requires j.Valid() && Inv(j, w) && Next(j, SAFE_IN_FLIGHT, w, NodeTimesOut, w')
    ensures NodeOk(j, w'.node, w.current) && PipeOk(j, w'.node, w.current, Pipeline(w'))
  {
    hide PipeOk, FrameOk, IsCurrent, FillNext;
    var n, pipe := w.node, Pipeline(w);
    var r := Step(j.c, n, Timeout);
    assert Pipeline(w') == pipe + r.sent;
    if n.mode == Idle {
      PlainFrameSent(j, n, w.current, pipe, r.sent[0]);
    } else if n.mode.retries == 1 {
      NodeStopsFilling(j, n, r.node, w.current, pipe);
      PlainFrameSent(j, r.node, w.current, pipe, r.sent[0]);
    } else {
      RequestRepeated(j, n, w.current, pipe, r.node);
    }
  }

  // ---------- The host takes a frame ----------

  lemma HostPlace(j: Job, w: World)
    requires j.Valid() && Inv(j, w) && w.toHost != []
    ensures var f, k := w.toHost[0], |w.toNode|;
      && k < |Pipeline(w)| && Pipeline(w)[k] == f && FrameOk(j, w.node, w.current, f)
      && f.kind in {PAGE_FILL_NEXT, PAGE_WRITED, PAGE_FILL_BREAK, BOOTLOADER_TURNED_ON}
      && w.toNode + w.toHost[1..] == Without(Pipeline(w), k)
      && forall g :: (w.toNode + [g]) + w.toHost[1..] == Pipeline(w)[k := g]
  {
    var k := |w.toNode|;
    forall g
      ensures (w.toNode + [g]) + w.toHost[1..] == Pipeline(w)[k := g]
    {
      assert w.toHost == [w.toHost[0]] + w.toHost[1..];
    }
  }

  /** A request is answered with a chunk of the current page. */
  lemma RequestAnswered(j: Job, n: Node, current: nat, pipe: seq<Frame>, k: nat, g: Frame)
    requires j.Valid() && NodeOk(j, n, current) && PipeOk(j, n, current, pipe) && k < |pipe|
    requires pipe[k].kind == PAGE_FILL_NEXT && |pipe[k].data| == 2 && current < |j.image|
    requires g == Frame(PAGE_FILL, j.host, j.c.nodeId, pipe[k].seqnum, Chunk(j.image[current], WordValue(pipe[k].data)))
    ensures PipeOk(j, n, current, pipe[k := g])
  {
    hide NodeValid, Chunk, AllInTime;
    TimeOfReplaced(n, pipe, k, g);
    var pipe' := pipe[k := g];
    assert FrameOk(j, n, current, pipe[k]);
    forall i | 0 <= i < |pipe'|
      ensures FrameOk(j, n, current, pipe'[i])
      ensures IsCurrent(n, pipe'[i]) <==> IsCurrent(n, pipe[i])
      ensures IsFill(pipe'[i]) <==> IsFill(pipe[i])
      ensures Reports(pipe'[i], current) <==> Reports(pipe[i], current)
    {
      if i != k {
        assert FrameOk(j, n, current, pipe[i]);
      }
    }
  }

  /** A break or turned-on message is answered with PAGE_START or QUIT_BOOTLOADER. */
  lemma PlainFrameAnswered(j: Job, n: Node, current: nat, pipe: seq<Frame>, k: nat)
    requires j.Valid() && NodeOk(j, n, current) && PipeOk(j, n, current, pipe) && k < |pipe|
    requires pipe[k].kind in {PAGE_FILL_BREAK, BOOTLOADER_TURNED_ON}
    ensures PipeOk(j, n, current, pipe[k := Onward(j, current)])
  {
    hide NodeValid, AllInTime;
    var pipe' := pipe[k := Onward(j, current)];
    OnwardIsRight(j, n, current);
    TimeOfReplaced(n, pipe, k, Onward(j, current));
    forall i | 0 <= i < |pipe'|
      ensures FrameOk(j, n, current, pipe'[i])
      ensures IsCurrent(n, pipe'[i]) <==> IsCurrent(n, pipe[i])
      ensures IsFill(pipe'[i]) <==> IsFill(pipe[i])
      ensures Reports(pipe'[i], current) <==> Reports(pipe[i], current)
    {
      if i != k {
        assert FrameOk(j, n, current, pipe[i]);
      }
    }
  }

  lemma OnwardIsRight(j: Job, n: Node, current: nat)
    requires j.Valid() && NodeValid(j.c, n) && current <= |j.image|
    ensures FrameOk(j, n, current, Onward(j, current))
    ensures Onward(j, current).kind in {PAGE_START, QUIT_BOOTLOADER} && Onward(j, current).source == j.host
  {
    if current < |j.image| {
      WordRoundTrip(current);
    }
  }

  /** The report of the current page moves the host on to the next page. */
  lemma ReportAnswered(j: Job, w: World)
    requires j.Valid() && Inv(j, w) && w.toHost != [] && w.node.mode != Left
    requires Reports(w.toHost[0], w.current) && w.current < |j.image|
    ensures NodeOk(j, w.node, w.current + 1)
    ensures PipeOk(j, w.node, w.current + 1, Pipeline(w)[|w.toNode| := Onward(j, w.current + 1)])
  {
    hide NodeValid, Onward, RightContent, AllInTime;
    HostPlace(j, w);
    var n, current, pipe, k := w.node, w.current, Pipeline(w), |w.toNode|;
    var g := Onward(j, current + 1);
    OnwardIsRight(j, n, current + 1);
    TimeOfReplaced(n, pipe, k, g);
    var pipe' := pipe[k := g];
    forall i | 0 <= i < |pipe'|
      ensures FrameOk(j, n, current + 1, pipe'[i]) && !Reports(pipe'[i], current + 1)
    {
      if i != k {
        assert FrameOk(j, n, current, pipe[i]);
        assert i < k ==> IsFill(pipe[i]);
        assert i > k ==> pipe[i] == w.toHost[i - k];
      }
    }
  }

  lemma HostTakesOk(j: Job, w: World, w': World)
    requires j.Valid() && Inv(j, w) && Next(j, SAFE_IN_FLIGHT, w, HostTakes, w')
    ensures Inv(j, w')
  {
    hide NodeOk, PipeOk, FrameOk, Chunk, Onward;
    HostPlace(j, w);
    var f, k := w.toHost[0], |w.toNode|;
    var (current, answer) := HostStep(j, w.current, f);
    NodeOkBound(j, w.node, w.current);
    if answer == [] {
      FrameLost(j, w.node, w.current, Pipeline(w), k);
      assert w.toNode + [] == w.toNode;
    } else {
      OnwardIsRight(j, w.node, current);
      assert Pipeline(w') == Pipeline(w)[k := answer[0]];
      if f.kind == PAGE_FILL_NEXT {
        RequestAnswered(j, w.node, w.current, Pipeline(w), k, answer[0]);
      } else if f.kind == PAGE_WRITED {
        ReportAnswered(j, w);
      } else {
        PlainFrameAnswered(j, w.node, w.current, Pipeline(w), k);
      }
    }
  }

  lemma NodeOkBound(j: Job, n: Node, current: nat)
    requires j.Valid() && NodeOk(j, n, current)
    ensures current <= |j.image| && NodeValid(j.c, n)
  {
  }

  // ---------- Every step, every run ----------

  lemma SentToHost(j: Job, n: Node, ev: Event)
    requires NodeValid(j.c, n)
    ensures forall f :: f in Step(j.c, n, ev).sent ==>
      f.kind in {PAGE_FILL_NEXT, PAGE_WRITED, PAGE_FILL_BREAK, BOOTLOADER_TURNED_ON}
  {
  }

  lemma NodeTakesOk(j: Job, w: World, w': World)
    requires j.Valid() && Inv(j, w) && Next(j, SAFE_IN_FLIGHT, w, NodeTakes, w')
    ensures Inv(j, w')
  {
    hide NodeOk, PipeOk, Step;
    SentToHost(j, w.node, Receive(w.toNode[0]));
    if w.node.mode == Idle {
      IdleNodeTakes(j, w, w');
    } else {
      FillingNodeTakes(j, w, w');
    }
  }

  lemma LossKeepsInv(j: Job, w: World, a: Action, w': World)
    requires j.Valid() && Inv(j, w) && Next(j, SAFE_IN_FLIGHT, w, a, w') && (a.LostToNode? || a.LostToHost?)
    ensures Inv(j, w')
  {
    hide NodeOk, PipeOk, Step, HostStep;
    var place := if a.LostToNode? then a.i else |w.toNode| + a.i;
    FrameLost(j, w.node, w.current, Pipeline(w), place);
    assert Pipeline(w') == Without(Pipeline(w), place);
  }

  lemma StepKeepsInv(j: Job, w: World, a: Action, w': World)
    requires j.Valid() && Inv(j, w) && Next(j, SAFE_IN_FLIGHT, w, a, w')
    ensures Inv(j, w')
  {
    hide NodeOk, PipeOk, Step, HostStep;
    match a
    case NodeTakes =>
      NodeTakesOk(j, w, w');
    case NodeTimesOut =>
      SentToHost(j, w.node, Timeout);
      NodeTimesOutOk(j, w, w');
    case StrangerSends(f) =>
      HostStaysLocked(j.c, w.node, Receive(f));
      assert w.toHost + [] == w.toHost;
    case HostTakes =>
      HostTakesOk(j, w, w');
    case LostToNode(_) =>
      LossKeepsInv(j, w, a, w');
    case LostToHost(_) =>
      LossKeepsInv(j, w, a, w');
  }

  /** A step within a smaller limit is one within a larger. */
  lemma LargerLimit(j: Job, limit: nat, larger: nat, w: World, a: Action, w': World)
    requires j.Valid() && Next(j, limit, w, a, w') && limit <= larger
    ensures Next(j, larger, w, a, w')
  {
    hide NodeValid, Step, HostStep;
  }

  lemma InitIsOk(j: Job, w: World)
    requires j.Valid() && Init(j, w)
    ensures Inv(j, w)
  {
    assert Pipeline(w) == [TurnedOn(j.c)];
  }

  lemma {:induction false} BehaviourKeepsInv(j: Job, limit: nat, ws: seq<World>, actions: seq<Action>, i: nat)
    requires j.Valid() && limit <= SAFE_IN_FLIGHT && Behaviour(j, limit, ws, actions) && i <= |actions|
    ensures Inv(j, ws[i])
  {
    hide Inv, Next, Init;
    if i == 0 {
      InitIsOk(j, ws[0]);
    } else {
      BehaviourKeepsInv(j, limit, ws, actions, i - 1);
      LargerLimit(j, limit, SAFE_IN_FLIGHT, ws[i - 1], actions[i - 1], ws[i]);
      StepKeepsInv(j, ws[i - 1], actions[i - 1], ws[i]);
    }
  }

  /** In every reachable world the pages the host is done with are in flash, and the node leaves only after the last. */
  lemma FinishedPagesAreSafe(j: Job, limit: nat, ws: seq<World>, actions: seq<Action>, i: nat)
    requires j.Valid() && limit <= SAFE_IN_FLIGHT && Behaviour(j, limit, ws, actions) && i <= |actions|
    ensures ws[i].current <= |j.image| && |ws[i].node.flash| == j.c.appPages
    ensures forall p :: 0 <= p < ws[i].current ==> ws[i].node.flash[p] == j.image[p]
    ensures ws[i].node.mode == Left ==> ws[i].node.flash[..|j.image|] == j.image
  {
    hide DirectionsOk, PipeOk, Next, Init;
    BehaviourKeepsInv(j, limit, ws, actions, i);
  }

  /** A finished page keeps the bytes of the image in every later world: it is never started again. */
  lemma {:induction false} FinishedPagesStay(j: Job, limit: nat, ws: seq<World>, actions: seq<Action>, i: nat, k: nat)
    requires j.Valid() && limit <= SAFE_IN_FLIGHT && Behaviour(j, limit, ws, actions) && i <= k <= |actions|
    ensures ws[i].current <= ws[k].current <= |j.image| && |ws[k].node.flash| == j.c.appPages
    ensures forall p :: 0 <= p < ws[i].current ==> ws[k].node.flash[p] == j.image[p]
    decreases k
  {
    hide Init, NodeValid, Step;
    FinishedPagesAreSafe(j, limit, ws, actions, k);
    if i < k {
      FinishedPagesStay(j, limit, ws, actions, i, k - 1);
      assert Next(j, limit, ws[k - 1], actions[k - 1], ws[k]);
    }
  }

  /** A PAGE_FILL accepted by its five-bit number always carries the bytes the node waits for. */
  lemma AcceptedDataIsRight(j: Job, limit: nat, ws: seq<World>, actions: seq<Action>, i: nat)
    requires j.Valid() && limit <= SAFE_IN_FLIGHT && Behaviour(j, limit, ws, actions)
    requires i < |actions| && actions[i] == NodeTakes
    requires ws[i].node.mode.Filling? && ws[i].toNode != [] && Answers(ws[i].node, ws[i].toNode[0])
    ensures var done := j.c.pageSize - ws[i].node.mode.remain;
      && ws[i].node.mode.page == ws[i].current < |j.image| && 0 <= done <= done + 8 <= |j.image[ws[i].current]|
      && ws[i].node.mode.buffer == j.image[ws[i].current][..done]
      && ws[i].toNode[0].data == j.image[ws[i].current][done..done + 8]
  {
    hide DirectionsOk, Next, Init, FrameOk;
    BehaviourKeepsInv(j, limit, ws, actions, i);
    assert FrameOk(j, ws[i].node, ws[i].current, Pipeline(ws[i])[0]);
    AnswerIsRight(j, ws[i].node, ws[i].current, ws[i].toNode[0]);
  }
}
