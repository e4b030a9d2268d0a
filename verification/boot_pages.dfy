/**
 What happens between an accepted PAGE_START and the end of the page, whatever frames
 arrive and whatever times out.
 */
module BootPages {
  import opened Bytes
  import opened Options
  import opened CyclicCounters
  import opened BootProtocol

  // ---------- What the events mean, without the state machine ----------

  /** PAGE_FILL of the host with eight bytes, under the number of request i of a page. */
  predicate IsAnswer(host: byte, s: byte, i: nat, f: Frame) {
    f.kind == 3 && f.source == host && |f.data| == 8 && f.seqnum == (s as int + 1 + i) % 32
  }

  /** The data of the answers to requests 0, 1, ..., each the first after the one before. */
  function Chunks(host: byte, s: byte, evs: seq<Event>): (chunks: seq<seq<byte>>)
    ensures forall i :: 0 <= i < |chunks| ==> |chunks[i]| == 8
  {
    if evs == [] then []
    else
      var chunks, last := Chunks(host, s, evs[..|evs| - 1]), evs[|evs| - 1];
      if last.Receive? && IsAnswer(host, s, |chunks|, last.frame) then chunks + [last.frame.data] else chunks
  }

  /** The timeouts since the last answer. */
  function Timeouts(host: byte, s: byte, evs: seq<Event>): nat {
    if evs == [] then 0
    else
      var front, last := evs[..|evs| - 1], evs[|evs| - 1];
      if last.Timeout? then Timeouts(host, s, front) + 1
      else if IsAnswer(host, s, |Chunks(host, s, front)|, last.frame) then 0
      else Timeouts(host, s, front)
  }

  /** A frame of the host that is no PAGE_FILL. */
  predicate Interrupts(host: byte, ev: Event) {
    ev.Receive? && ev.frame.source == host && ev.frame.kind != 3
  }

  /** Nothing in the events ends the page: no last chunk, no fourth timeout, no other frame of the host. */
  ghost predicate Going(pageSize: nat, host: byte, s: byte, evs: seq<Event>) {
    evs == [] ||
    (&& Going(pageSize, host, s, evs[..|evs| - 1]) && !Interrupts(host, evs[|evs| - 1])
     && 8 * |Chunks(host, s, evs)| < pageSize && Timeouts(host, s, evs) < 4)
  }

  // ---------- What the node sends ----------

  function Concat(chunks: seq<seq<byte>>): (p: Page) {
    if chunks == [] then [] else Concat(chunks[..|chunks| - 1]) + chunks[|chunks| - 1]
  }

  lemma {:induction false} ConcatLength(chunks: seq<seq<byte>>)
    requires forall i :: 0 <= i < |chunks| ==> |chunks[i]| == 8
    ensures |Concat(chunks)| == 8 * |chunks|
  {
    if chunks != [] {
      ConcatLength(chunks[..|chunks| - 1]);
    }
  }

  /** PAGE_FILL_NEXT number i of a page: how many bytes are missing, high byte first, under the number s + 1 + i. */
  function RequestFrame(c: Config, host: byte, s: byte, i: nat): Frame
    requires c.Valid()
  {
    var missing := if 8 * i <= c.pageSize then c.pageSize - 8 * i else 0;
    Frame(5, c.nodeId, host, (s as int + 1 + i) % 32, [missing / 256, missing % 256])
  }

  /** PAGE_WRITED with the number of the page, high byte first. */
  function ReportFrame(c: Config, host: byte, s: byte, i: nat, page: nat): Frame
    requires page < 65536
  {
    Frame(6, c.nodeId, host, (s as int + i) % 32, [page / 256, page % 256])
  }

  /** PAGE_FILL_BREAK. */
  function BreakFrame(c: Config, host: byte, s: byte, i: nat): Frame {
    Frame(7, c.nodeId, host, (s as int + i) % 32, [])
  }

  /** The flash while a page is filled and after it was abandoned: erased, except on the PIC18F-Q84. */
  function Unfinished(c: Config, flash: seq<Page>, page: nat): (fl: seq<Page>)
    requires page < |flash|
    ensures |fl| == |flash|
  {
    if c.erasesFirst then flash[page := seq(c.pageSize, _ => 0xff)] else flash
  }

  function Repeat(f: Frame, k: nat): (fs: seq<Frame>)
    ensures |fs| == k
  {
    seq(k, _ => f)
  }

  /** Requests 0, 1, ... of a page, request i sent counts[i] times in a row. */
  function Requests(c: Config, host: byte, s: byte, counts: seq<nat>): seq<Frame>
    requires c.Valid()
  {
    if counts == [] then []
    else
      Requests(c, host, s, counts[..|counts| - 1])
      + Repeat(RequestFrame(c, host, s, |counts| - 1), counts[|counts| - 1])
  }

  ghost predicate SentOneToFourTimes(counts: seq<nat>) {
    forall i :: 0 <= i < |counts| ==> 1 <= counts[i] <= 4
  }

  lemma RepeatOnce(f: Frame)
    ensures Repeat(f, 1) == [f]
  {
  }

  lemma RequestAgain(c: Config, host: byte, s: byte, counts: seq<nat>)
    requires c.Valid() && counts != []
    ensures var last := |counts| - 1;
      Requests(c, host, s, counts[last := counts[last] + 1])
        == Requests(c, host, s, counts) + [RequestFrame(c, host, s, last)]
  {
    var last := |counts| - 1;
    var f := RequestFrame(c, host, s, last);
    assert counts[last := counts[last] + 1][..last] == counts[..last];
    assert Repeat(f, counts[last] + 1) == Repeat(f, counts[last]) + [f];
  }

  lemma RequestNext(c: Config, host: byte, s: byte, counts: seq<nat>)
    requires c.Valid()
    ensures Requests(c, host, s, counts + [1]) == Requests(c, host, s, counts) + [RequestFrame(c, host, s, |counts|)]
  {
    assert (counts + [1])[..|counts|] == counts;
  }

  /** The page is being filled: `counts` says how often each request was sent so far. */
  ghost predicate InPage(c: Config, start: Node, page: nat, host: byte, evs: seq<Event>, counts: seq<nat>)
    requires NodeValid(c, start) && page < c.appPages
  {
    var first, s := StartPage(c, start, page, host), start.seqnum;
    var r, chunks := Run(c, first.node, evs), Chunks(host, s, evs);
    && Going(c.pageSize, host, s, evs) && 8 * |chunks| < c.pageSize
    && |counts| == |chunks| + 1 && SentOneToFourTimes(counts) && counts[|chunks|] == Timeouts(host, s, evs) + 1
    && r.node.mode == Filling(page, c.pageSize - 8 * |chunks|, 4 - Timeouts(host, s, evs), Concat(chunks))
    && r.node.seqnum == Wrap(s as int + 1 + |chunks|) && r.node.host == Some(host)
    && r.node.flash == Unfinished(c, start.flash, page)
    && first.sent + r.sent == Requests(c, host, s, counts)
  }

  /** The last of the events ends the page. */
  ghost predicate PageOver(c: Config, start: Node, page: nat, host: byte, evs: seq<Event>, counts: seq<nat>)
    requires NodeValid(c, start) && page < c.appPages && c.Valid()
  {
    var first, s := StartPage(c, start, page, host), start.seqnum;
    var r, chunks := Run(c, first.node, evs), Chunks(host, s, evs);
    && evs != [] && Going(c.pageSize, host, s, evs[..|evs| - 1]) && SentOneToFourTimes(counts)
    && r.node.mode == Idle && r.node.host == Some(host) && r.node.seqnum == Wrap(s as int + |counts|)
    && (|| (&& 8 * |chunks| == c.pageSize
            && |counts| == |chunks|
            && r.node.flash == start.flash[page := Concat(chunks)]
            && first.sent + r.sent
                 == Requests(c, host, s, counts) + [ReportFrame(c, host, s, |counts|, page)])
        || (&& 8 * |chunks| < c.pageSize
            && (Interrupts(host, evs[|evs| - 1]) || Timeouts(host, s, evs) == 4)
            && |counts| == |chunks| + 1
            && counts[|chunks|] == (if evs[|evs| - 1].Timeout? then 4 else Timeouts(host, s, evs) + 1)
            && r.node.flash == Unfinished(c, start.flash, page)
            && first.sent + r.sent == Requests(c, host, s, counts) + [BreakFrame(c, host, s, |counts|)]))
  }

  lemma PageStarts(c: Config, start: Node, page: nat, host: byte)
    requires NodeValid(c, start) && page < c.appPages
    ensures InPage(c, start, page, host, [], [1])
  {
    hide Wrap;
    var s := start.seqnum;
    var first := StartPage(c, start, page, host);
    RequestFrameIs(c, host, s, 0);
    RepeatOnce(RequestFrame(c, host, s, 0));
    assert [1][..0] == [];
    assert Requests(c, host, s, []) == [];
    assert Requests(c, host, s, [1]) == [] + Repeat(RequestFrame(c, host, s, 0), 1);
    assert first.sent + [] == first.sent;
  }

  /** The five bits of a wrapped number are those of the number. */
  lemma WrapModulo32(a: int)
    ensures Wrap(a) % 32 == a % 32
  {
    var q := a / 256;
    assert a == 32 * (8 * q) + a % 256;
    ModuloShift(a % 256, 8 * q);
  }

  lemma {:induction false} ModuloShift(n: int, laps: int)
    ensures (32 * laps + n) % 32 == n % 32
    decreases if laps < 0 then -laps else laps
  {
    if laps > 0 {
      ModuloShift(n, laps - 1);
    } else if laps < 0 {
      ModuloShift(n, laps + 1);
    }
  }

  /** The frames of the state machine are these. */
  lemma RequestFrameIs(c: Config, host: byte, s: byte, i: nat)
    requires c.Valid() && 8 * i <= c.pageSize
    ensures FillNext(c, host, Wrap(s as int + 1 + i), c.pageSize - 8 * i) == RequestFrame(c, host, s, i)
  {
    WrapModulo32(s as int + 1 + i);
  }

  lemma LastFramesAre(c: Config, host: byte, s: byte, i: nat, page: nat)
    requires page < 65536
    ensures Writed(c, host, Wrap(s as int + i), page) == ReportFrame(c, host, s, i, page)
    ensures FillBreak(c, host, Wrap(s as int + i)) == BreakFrame(c, host, s, i)
  {
    WrapModulo32(s as int + i);
  }

  lemma AnswerIs(n: Node, host: byte, s: byte, i: nat, f: Frame)
    requires n.host == Some(host) && n.seqnum == Wrap(s as int + 1 + i)
    ensures IsAnswer(host, s, i, f) <==> !FromStranger(n, f) && Answers(n, f)
    ensures Interrupts(host, Receive(f)) <==> !FromStranger(n, f) && f.kind != PAGE_FILL
  {
    WrapModulo32(s as int + 1 + i);
  }

  lemma EventNext(pageSize: nat, host: byte, s: byte, evs: seq<Event>, ev: Event)
    ensures var chunks := Chunks(host, s, evs);
      && Chunks(host, s, evs + [ev])
           == (if ev.Receive? && IsAnswer(host, s, |chunks|, ev.frame) then chunks + [ev.frame.data] else chunks)
      && Timeouts(host, s, evs + [ev])
           == (if ev.Timeout? then Timeouts(host, s, evs) + 1
               else if IsAnswer(host, s, |chunks|, ev.frame) then 0 else Timeouts(host, s, evs))
      && (Going(pageSize, host, s, evs + [ev]) <==>
            && Going(pageSize, host, s, evs) && !Interrupts(host, ev)
            && 8 * |Chunks(host, s, evs + [ev])| < pageSize && Timeouts(host, s, evs + [ev]) < 4)
  {
    assert (evs + [ev])[..|evs + [ev]| - 1] == evs;
  }

  lemma NextNumber(s: byte, k: nat)
    ensures Wrap(Wrap(s as int + 1 + k) as int + 1) == Wrap(s as int + 1 + (k + 1))
  {
    WrapAgain(s as int + 1 + k, 1);
  }

  /** The step of a node that waits for an answer, for each kind of event. */
  lemma AcceptingStep(c: Config, n: Node, f: Frame)
    requires NodeValid(c, n) && n.mode.Filling? && !FromStranger(n, f) && Answers(n, f)
    ensures var Filling(page, remain, _, buffer) := n.mode;
      var r, host := Step(c, n, Receive(f)), n.host.value;
      if remain == 8 then
        r == Reaction(n.(mode := Idle, flash := n.flash[page := buffer + f.data]), [Writed(c, host, n.seqnum, page)])
      else
        && remain > 8
        && r.node == n.(mode := Filling(page, remain - 8, PAGE_FILL_RETRIES, buffer + f.data),
                        seqnum := Wrap(n.seqnum as int + 1))
        && r.sent == [FillNext(c, host, Wrap(n.seqnum as int + 1), remain - 8)]
  {
  }

  lemma RepeatingStep(c: Config, n: Node)
    requires NodeValid(c, n) && n.mode.Filling? && n.mode.retries > 1
    ensures Step(c, n, Timeout) == Reaction(n.(mode := n.mode.(retries := n.mode.retries - 1)),
                                            [FillNext(c, n.host.value, n.seqnum, n.mode.remain)])
  {
  }

  lemma BreakingStep(c: Config, n: Node, ev: Event)
    requires NodeValid(c, n) && n.mode.Filling?
    requires if ev.Timeout? then n.mode.retries == 1 else !FromStranger(n, ev.frame) && ev.frame.kind != PAGE_FILL
    ensures Step(c, n, ev) == Reaction(n.(mode := Idle), [FillBreak(c, n.host.value, n.seqnum)])
  {
  }

  lemma IgnoringStep(c: Config, n: Node, f: Frame)
    requires NodeValid(c, n) && n.mode.Filling?
    requires FromStranger(n, f) || (f.kind == PAGE_FILL && !Answers(n, f))
    ensures Step(c, n, Receive(f)) == Reaction(n, [])
  {
  }

  lemma StartIsValid(c: Config, start: Node, page: nat, host: byte)
    requires NodeValid(c, start) && page < c.appPages
    ensures c.Valid() && |start.flash| == c.appPages && NodeValid(c, StartPage(c, start, page, host).node)
  {
  }

  lemma PageContinuesAccepting(
      c: Config, start: Node, page: nat, host: byte, evs: seq<Event>, counts: seq<nat>, f: Frame)
    returns (counts': seq<nat>)
    requires NodeValid(c, start) && page < c.appPages && InPage(c, start, page, host, evs, counts) && c.Valid()
    requires IsAnswer(host, start.seqnum, |Chunks(host, start.seqnum, evs)|, f)
    ensures InPage(c, start, page, host, evs + [Receive(f)], counts')
         || PageOver(c, start, page, host, evs + [Receive(f)], counts')
  {
    hide NodeValid, Run, Chunks, Timeouts, Concat, Wrap, Step, StartPage, Answers, FromStranger, Requests, FillNext,
      Writed, FillBreak, RequestFrame, ReportFrame, Going, IsAnswer, Interrupts;
    StartIsValid(c, start, page, host);
    var first, s := StartPage(c, start, page, host), start.seqnum;
    var waiting, chunks, ev := Run(c, first.node, evs).node, Chunks(host, s, evs), Receive(f);
    RunNext(c, first.node, evs, ev);
    EventNext(c.pageSize, host, s, evs, ev);
    AnswerIs(waiting, host, s, |chunks|, f);
    AnswerIsFill(host, s, |chunks|, f);
    ConcatNext(chunks, f.data);
    AcceptingStep(c, waiting, f);
    PageSizeIsMultiple(c, |chunks|);
    var sent, more := Run(c, first.node, evs).sent, Step(c, waiting, ev).sent;
    assert first.sent + (sent + more) == (first.sent + sent) + more;
    assert (evs + [ev])[..|evs + [ev]| - 1] == evs;
    if waiting.mode.remain == 8 {
      counts' := counts;
      LastFramesAre(c, host, s, |counts|, page);
      var page' := Concat(chunks) + f.data;
      assert Unfinished(c, start.flash, page)[page := page'] == start.flash[page := page'];
    } else {
      counts' := counts + [1];
      NextNumber(s, |chunks|);
      RequestNext(c, host, s, counts);
      RequestFrameIs(c, host, s, |counts|);
    }
  }

  lemma AnswerIsFill(host: byte, s: byte, i: nat, f: Frame)
    requires IsAnswer(host, s, i, f)
    ensures !Interrupts(host, Receive(f)) && |f.data| == 8
  {
  }

  lemma PageSizeIsMultiple(c: Config, k: nat)
    requires c.Valid() && 8 * k < c.pageSize
    ensures 8 * k + 8 <= c.pageSize
  {
  }

  lemma PageContinuesWaiting(
      c: Config, start: Node, page: nat, host: byte, evs: seq<Event>, counts: seq<nat>, ev: Event)
    returns (counts': seq<nat>)
    requires NodeValid(c, start) && page < c.appPages && InPage(c, start, page, host, evs, counts) && c.Valid()
    requires ev.Receive? ==> !IsAnswer(host, start.seqnum, |Chunks(host, start.seqnum, evs)|, ev.frame)
    ensures InPage(c, start, page, host, evs + [ev], counts') || PageOver(c, start, page, host, evs + [ev], counts')
  {
    hide NodeValid, Run, Chunks, Timeouts, Concat, Wrap, Step, StartPage, Answers, FromStranger, Requests, FillNext,
      Writed, FillBreak, RequestFrame, BreakFrame, Going, IsAnswer;
    StartIsValid(c, start, page, host);
    var first, s := StartPage(c, start, page, host), start.seqnum;
    var waiting, chunks := Run(c, first.node, evs).node, Chunks(host, s, evs);
    RunNext(c, first.node, evs, ev);
    EventNext(c.pageSize, host, s, evs, ev);
    var sent, more := Run(c, first.node, evs).sent, Step(c, waiting, ev).sent;
    assert first.sent + (sent + more) == (first.sent + sent) + more;
    assert (evs + [ev])[..|evs + [ev]| - 1] == evs;
    LastFramesAre(c, host, s, |counts|, page);
    counts' := counts;
    if ev.Receive? {
      AnswerIs(waiting, host, s, |chunks|, ev.frame);
      if Interrupts(host, ev) {
        BreakingStep(c, waiting, ev);
      } else {
        NoInterruption(waiting, host, ev.frame);
        IgnoringStep(c, waiting, ev.frame);
      }
    } else if waiting.mode.retries > 1 {
      RepeatingStep(c, waiting);
      RequestFrameIs(c, host, s, |chunks|);
      counts' := counts[|chunks| := counts[|chunks|] + 1];
      RequestAgain(c, host, s, counts);
    } else {
      BreakingStep(c, waiting, ev);
    }
  }

  lemma NoInterruption(n: Node, host: byte, f: Frame)
    requires n.host == Some(host) && !Interrupts(host, Receive(f))
    ensures FromStranger(n, f) || f.kind == PAGE_FILL
  {
  }

  lemma ConcatNext(chunks: seq<seq<byte>>, data: seq<byte>)
    ensures Concat(chunks + [data]) == Concat(chunks) + data
  {
    assert (chunks + [data])[..|chunks|] == chunks;
  }

  /**
   What happens after an accepted PAGE_START, told from the events alone: requests for page
   size, page size - 8, ... remaining bytes under consecutive numbers, each sent once and again
   after every timeout. The page is over exactly with the answer to the last request, a fourth
   timeout without an answer or another frame of the host. In the first case one PAGE_WRITED is sent and
   the page is the concatenation of the answers in order, each stored once; otherwise one
   PAGE_FILL_BREAK is sent and the page is left erased (on the PIC18F-Q84: as it was). No other
   page changes.
   */
  lemma {:induction false} PageTranscript(c: Config, start: Node, page: nat, host: byte, evs: seq<Event>)
    returns (k: nat, counts: seq<nat>)
    requires NodeValid(c, start) && page < c.appPages
    ensures k <= |evs| && c.Valid()
    ensures if Going(c.pageSize, host, start.seqnum, evs) then k == |evs| && InPage(c, start, page, host, evs, counts)
            else PageOver(c, start, page, host, evs[..k], counts)
  {
    hide NodeValid, InPage, PageOver, IsAnswer, Going;
    StartIsValid(c, start, page, host);
    var s := start.seqnum;
    if evs == [] {
      PageStarts(c, start, page, host);
      NothingEnds(c.pageSize, host, s);
      k, counts := 0, [1];
    } else {
      var front, last := evs[..|evs| - 1], evs[|evs| - 1];
      k, counts := PageTranscript(c, start, page, host, front);
      assert front + [last] == evs && evs[..|evs|] == evs;
      EventNext(c.pageSize, host, s, front, last);
      if Going(c.pageSize, host, s, front) {
        if last.Receive? && IsAnswer(host, s, |Chunks(host, s, front)|, last.frame) {
          counts := PageContinuesAccepting(c, start, page, host, front, counts, last.frame);
        } else {
          counts := PageContinuesWaiting(c, start, page, host, front, counts, last);
        }
        k := |evs|;
        OverOrGoing(c, start, page, host, evs, counts);
      } else {
        assert front[..k] == evs[..k];
      }
    }
  }

  lemma NothingEnds(pageSize: nat, host: byte, s: byte)
    ensures Going(pageSize, host, s, [])
  {
  }

  /** A page cannot be over and go on. */
  lemma OverOrGoing(c: Config, start: Node, page: nat, host: byte, evs: seq<Event>, counts: seq<nat>)
    requires NodeValid(c, start) && page < c.appPages && c.Valid()
    ensures InPage(c, start, page, host, evs, counts) ==> Going(c.pageSize, host, start.seqnum, evs)
    ensures PageOver(c, start, page, host, evs, counts) ==> !Going(c.pageSize, host, start.seqnum, evs)
  {
    hide NodeValid, Run, StartPage;
  }

  lemma {:induction false} GoingBefore(pageSize: nat, host: byte, s: byte, evs: seq<Event>, k: nat)
    requires Going(pageSize, host, s, evs) && k <= |evs|
    ensures Going(pageSize, host, s, evs[..k])
    ensures k < |evs| ==> !Interrupts(host, evs[k])
    decreases |evs| - k
  {
    hide Interrupts;
    if k == |evs| {
      assert evs[..k] == evs;
    } else {
      GoingBefore(pageSize, host, s, evs, k + 1);
      assert evs[..k + 1][..k] == evs[..k];
    }
  }

  /** While the page is being filled the host has sent nothing but PAGE_FILL. */
  lemma HostOnlyFills(pageSize: nat, host: byte, s: byte, evs: seq<Event>)
    requires Going(pageSize, host, s, evs)
    ensures forall i :: 0 <= i < |evs| && evs[i].Receive? && evs[i].frame.source == host ==> evs[i].frame.kind == 3
  {
    hide Going;
    forall i | 0 <= i < |evs|
      ensures !Interrupts(host, evs[i])
    {
      GoingBefore(pageSize, host, s, evs, i);
    }
  }

  /** Any other frame of the host abandons the page with PAGE_FILL_BREAK. */
  lemma InterruptionEndsPage(c: Config, start: Node, page: nat, host: byte, evs: seq<Event>, f: Frame)
    returns (counts: seq<nat>)
    requires NodeValid(c, start) && page < c.appPages && c.Valid() && Going(c.pageSize, host, start.seqnum, evs)
    requires f.source == host && f.kind != 3
    ensures var first := StartPage(c, start, page, host);
      var r := Run(c, first.node, evs + [Receive(f)]);
      && r.node.mode == Idle && r.node.flash == Unfinished(c, start.flash, page)
      && first.sent + r.sent
           == Requests(c, host, start.seqnum, counts) + [BreakFrame(c, host, start.seqnum, |counts|)]
  {
    hide NodeValid, Run, StartPage, Going, Requests, Concat;
    var all, s, k := evs + [Receive(f)], start.seqnum, 0;
    EventNext(c.pageSize, host, s, evs, Receive(f));
    assert Interrupts(host, Receive(f));
    k, counts := PageTranscript(c, start, page, host, all);
    if k <= |evs| {
      GoingBefore(c.pageSize, host, s, evs, k);
      assert all[..k] == evs[..k];
      OverOrGoing(c, start, page, host, evs[..k], counts);
      assert false;
    }
    assert all[..k] == all;
    GoingHasRoom(c.pageSize, host, s, evs);
  }

  lemma GoingHasRoom(pageSize: nat, host: byte, s: byte, evs: seq<Event>)
    requires Going(pageSize, host, s, evs) && pageSize > 0
    ensures 8 * |Chunks(host, s, evs)| < pageSize
  {
  }
}
