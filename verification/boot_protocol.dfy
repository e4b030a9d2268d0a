/**
 The bootloader of a node as a state machine over received frames and receive timeouts.
 The AVR and the PIC bootloaders share it; they differ in the page size and in whether a
 page is erased when it is started (AVR and PIC18F46K80) or only when it is complete
 (PIC18F-Q84).
 */
module BootProtocol {
  import opened Bytes
  import opened Options
  import opened CyclicCounters

  const PAGE_START: byte := 1
  const QUIT_BOOTLOADER: byte := 2
  const PAGE_FILL: byte := 3
  const PAGE_FILL_NEXT: byte := 5
  const PAGE_WRITED: byte := 6
  const PAGE_FILL_BREAK: byte := 7
  const BOOTLOADER_TURNED_ON: byte := 23

  /** Receive timeouts in a row before a page is abandoned. */
  const PAGE_FILL_RETRIES := 4

  const SEQNUM_MODULUS := 32

  /** A CAN frame; its dlc is the length of the data. */
  datatype Frame = Frame(kind: byte, source: byte, destination: byte, seqnum: nat, data: seq<byte>)

  type Page = seq<byte>

  datatype Config = Config(nodeId: byte, pageSize: nat, appPages: nat, version: seq<byte>, erasesFirst: bool) {
    ghost predicate Valid() {
      0 < pageSize < 65536 && pageSize % 8 == 0 && appPages < 65536
    }
  }

  datatype Mode =
    | Idle
    | Filling(page: nat, remain: nat, retries: nat, buffer: Page)
    | Left

  datatype Node = Node(mode: Mode, seqnum: byte, host: Option<byte>, flash: seq<Page>)

  datatype Event = Timeout | Receive(frame: Frame)

  datatype Reaction = Reaction(node: Node, sent: seq<Frame>)

  /** Two bytes, high byte first. */
  function Word(n: nat): (bs: seq<byte>)
    requires n < 65536
    ensures |bs| == 2
  {
    [n / 256, n % 256]
  }

  function WordValue(bs: seq<byte>): nat
    requires |bs| == 2
  {
    bs[0] as nat * 256 + bs[1] as nat
  }

  lemma WordRoundTrip(n: nat)
    requires n < 65536
    ensures WordValue(Word(n)) == n
  {
  }

  // ---------- Frames the node sends ----------

  function TurnedOn(c: Config): Frame {
    Frame(BOOTLOADER_TURNED_ON, c.nodeId, 0, 0, c.version)
  }

  /** The request for the next eight bytes; the number is cut to the five bits of the frame field. */
  function FillNext(c: Config, host: byte, seqnum: byte, remain: nat): Frame
    requires remain < 65536
  {
    Frame(PAGE_FILL_NEXT, c.nodeId, host, seqnum % SEQNUM_MODULUS, Word(remain))
  }

  function Writed(c: Config, host: byte, seqnum: byte, page: nat): Frame
    requires page < 65536
  {
    Frame(PAGE_WRITED, c.nodeId, host, seqnum % SEQNUM_MODULUS, Word(page))
  }

  function FillBreak(c: Config, host: byte, seqnum: byte): Frame {
    Frame(PAGE_FILL_BREAK, c.nodeId, host, seqnum % SEQNUM_MODULUS, [])
  }

  // ---------- The state machine ----------

  ghost predicate NodeValid(c: Config, n: Node) {
    && c.Valid() && |n.flash| == c.appPages
    && (forall p :: 0 <= p < c.appPages ==> |n.flash[p]| == c.pageSize)
    && (n.mode.Filling? ==>
          && n.host.Some? && n.mode.page < c.appPages
          && 0 < n.mode.remain <= c.pageSize && n.mode.remain % 8 == 0
          && 0 < n.mode.retries <= PAGE_FILL_RETRIES
          && |n.mode.buffer| == c.pageSize - n.mode.remain)
  }

  /** Ask for the bytes at page size - remain, under the next number. */
  function Request(c: Config, n: Node, page: nat, remain: nat, buffer: Page, host: byte): Reaction
    requires remain < 65536
  {
    var seqnum := Wrap(n.seqnum as int + 1);
    Reaction(n.(mode := Filling(page, remain, PAGE_FILL_RETRIES, buffer), seqnum := seqnum),
             [FillNext(c, host, seqnum, remain)])
  }

  function Break(c: Config, n: Node): Reaction
    requires n.host.Some?
  {
    Reaction(n.(mode := Idle), [FillBreak(c, n.host.value, n.seqnum)])
  }

  predicate FromStranger(n: Node, f: Frame) {
    n.host.Some? && f.source != n.host.value
  }

  /** The flash while a page is filled, and after the page was abandoned. */
  function Started(c: Config, flash: seq<Page>, page: nat): (fl: seq<Page>)
    requires page < |flash|
    ensures |fl| == |flash|
  {
    if c.erasesFirst then flash[page := Erased(c.pageSize)] else flash
  }

  function StartPage(c: Config, n: Node, page: nat, host: byte): (r: Reaction)
    requires NodeValid(c, n) && page < c.appPages
    ensures NodeValid(c, r.node)
  {
    Request(c, n.(flash := Started(c, n.flash, page), host := Some(host)), page, c.pageSize, [], host)
  }

  /** The main loop between pages. */
  function IdleStep(c: Config, n: Node, ev: Event): (r: Reaction)
    requires NodeValid(c, n) && n.mode == Idle
    ensures NodeValid(c, r.node)
  {
    match ev
    case Timeout => Reaction(n, [TurnedOn(c)])
    case Receive(f) =>
      if FromStranger(n, f) then Reaction(n, [])
      else if f.kind == PAGE_START && |f.data| == 2 then
        if WordValue(f.data) < c.appPages then StartPage(c, n, WordValue(f.data), f.source) else Reaction(n, [])
      else if f.kind == QUIT_BOOTLOADER && |f.data| == 0 then Reaction(n.(mode := Left), [])
      else Reaction(n, [])
  }

  /** A PAGE_FILL that is accepted: eight bytes under the number of the last request. */
  predicate Answers(n: Node, f: Frame) {
    f.kind == PAGE_FILL && |f.data| == 8 && f.seqnum == n.seqnum % SEQNUM_MODULUS
  }

  function AcceptChunk(c: Config, n: Node, data: seq<byte>): (r: Reaction)
    requires NodeValid(c, n) && n.mode.Filling? && |data| == 8
    ensures NodeValid(c, r.node)
  {
    var Filling(page, remain, _, buffer) := n.mode;
    if remain == 8 then
      Reaction(n.(mode := Idle, flash := n.flash[page := buffer + data]), [Writed(c, n.host.value, n.seqnum, page)])
    else Request(c, n, page, remain - 8, buffer + data, n.host.value)
  }

  /** Waiting for the answer to a request. */
  function FillingStep(c: Config, n: Node, ev: Event): (r: Reaction)
    requires NodeValid(c, n) && n.mode.Filling?
    ensures NodeValid(c, r.node)
  {
    match ev
    case Timeout =>
      if n.mode.retries == 1 then Break(c, n)
      else Reaction(n.(mode := n.mode.(retries := n.mode.retries - 1)),
                    [FillNext(c, n.host.value, n.seqnum, n.mode.remain)])
    case Receive(f) =>
      if FromStranger(n, f) then Reaction(n, [])
      else if f.kind != PAGE_FILL then Break(c, n)
      else if Answers(n, f) then AcceptChunk(c, n, f.data)
      else Reaction(n, [])
  }

  function Step(c: Config, n: Node, ev: Event): (r: Reaction)
    requires NodeValid(c, n)
    ensures NodeValid(c, r.node)
  {
    match n.mode
    case Idle => IdleStep(c, n, ev)
    case Filling(_, _, _, _) => FillingStep(c, n, ev)
    case Left => Reaction(n, [])
  }

  /** The reaction to a sequence of events: the final state and all frames sent. */
  function Run(c: Config, n: Node, evs: seq<Event>): (r: Reaction)
    requires NodeValid(c, n)
    ensures NodeValid(c, r.node)
  {
    if evs == [] then Reaction(n, [])
    else
      var before := Run(c, n, evs[..|evs| - 1]);
      var last := Step(c, before.node, evs[|evs| - 1]);
      Reaction(last.node, before.sent + last.sent)
  }

  lemma RunNext(c: Config, n: Node, evs: seq<Event>, ev: Event)
    requires NodeValid(c, n)
    ensures var before := Run(c, n, evs);
      var last := Step(c, before.node, ev);
      Run(c, n, evs + [ev]) == Reaction(last.node, before.sent + last.sent)
  {
    assert (evs + [ev])[..|evs + [ev]| - 1] == evs;
  }

  lemma {:induction false} RunConcat(c: Config, n: Node, a: seq<Event>, b: seq<Event>)
    requires NodeValid(c, n)
    ensures var r := Run(c, n, a);
      Run(c, n, a + b) == Reaction(Run(c, r.node, b).node, r.sent + Run(c, r.node, b).sent)
  {
    hide Step, NodeValid;
    if b == [] {
      assert a + b == a;
    } else {
      assert (a + b)[..|a + b| - 1] == a + b[..|b| - 1];
      RunConcat(c, n, a, b[..|b| - 1]);
    }
  }

  // ---------- Host lock ----------

  /** The events left when the frames of every node but `host` are deleted. */
  function WithoutStrangers(evs: seq<Event>, host: byte): seq<Event> {
    if evs == [] then []
    else
      var front, last := WithoutStrangers(evs[..|evs| - 1], host), evs[|evs| - 1];
      if last.Receive? && last.frame.source != host then front else front + [last]
  }

  lemma HostStaysLocked(c: Config, n: Node, ev: Event)
    requires NodeValid(c, n) && n.host.Some?
    ensures Step(c, n, ev).node.host == n.host
    ensures ev.Receive? && ev.frame.source != n.host.value ==> Step(c, n, ev) == Reaction(n, [])
  {
  }

  /**
   Once a host is locked, other nodes cannot interfere: deleting all their frames changes
   neither the frames sent nor the flash nor any other part of the state.
   */
  lemma {:induction false} StrangersDoNotInterfere(c: Config, n: Node, evs: seq<Event>)
    requires NodeValid(c, n) && n.host.Some?
    ensures Run(c, n, WithoutStrangers(evs, n.host.value)) == Run(c, n, evs)
    ensures Run(c, n, evs).node.host == n.host
  {
    hide Step, NodeValid;
    if evs != [] {
      var front, last := evs[..|evs| - 1], evs[|evs| - 1];
      StrangersDoNotInterfere(c, n, front);
      var before := Run(c, n, front);
      HostStaysLocked(c, before.node, last);
      RunNext(c, n, WithoutStrangers(front, n.host.value), last);
    }
  }
}
