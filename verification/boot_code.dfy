/**
 The bootloaders as they are written, over a script of receive results: the wait for an
 answer, write_page and the main loop of the AVR, write_block of the PIC18F-Q84. Where the
 originals block for ever because nothing more happens, the methods return.
 */
module BootCode {
  import opened Bytes
  import opened Options
  import opened CyclicCounters
  import opened BootProtocol
  import B = BlockFlash

  /** How the wait for an answer ends. */
  datatype Answer = Starved | Abandoned | Data(data: seq<byte>)

  /** The CAN side of a bootloader. */
  class Port {
    const c: Config
    /** The static variable seqnum. */
    var seqnum: byte
    /** What the receive calls will return, in order. */
    var events: seq<Event>
    var sent: seq<Frame>
    ghost const start: Node
    ghost var taken: seq<Event>

    ghost predicate Valid() {
      NodeValid(c, start) && start.mode == Idle
    }

    /** The state machine has reacted to the events taken so far; only `r` is still to be carried out. */
    ghost predicate Owes(r: Reaction)
      reads this`taken, this`sent
      requires Valid()
    {
      && NodeValid(c, r.node)
      && Run(c, start, taken).node == r.node
      && [TurnedOn(c)] + Run(c, start, taken).sent == sent + r.sent
    }

    ghost predicate At(n: Node)
      reads this`taken, this`sent, this`seqnum
      requires Valid()
    {
      Owes(Reaction(n, [])) && n.seqnum == seqnum
    }

    constructor (c: Config, start: Node, events: seq<Event>)
      requires NodeValid(c, start) && start.mode == Idle
      ensures Valid() && this.c == c && this.start == start && this.events == events
      ensures seqnum == start.seqnum && sent == [] && taken == []
    {
      this.c, this.start, this.events, seqnum, sent, taken := c, start, events, start.seqnum, [], [];
    }

    /** Send the frame that is still to be sent. */
    method PutMsg(f: Frame, ghost n: Node)
      requires Valid() && Owes(Reaction(n, [f]))
      modifies this`sent
      ensures sent == old(sent) + [f] && Owes(Reaction(n, []))
    {
      hide Run;
      sent := sent + [f];
      assert sent + [] == sent;
    }

    method GetMsg(ghost n: Node) returns (ev: Event)
      requires Valid() && At(n) && events != []
      modifies this`events, this`taken
      ensures [ev] + events == old(events) && taken == old(taken) + [ev]
      ensures Owes(Step(c, n, ev))
    {
      hide NodeValid, Step;
      RunNext(c, start, taken, events[0]);
      ghost var done := Run(c, start, taken);
      assert [TurnedOn(c)] + (done.sent + Step(c, n, events[0]).sent)
          == ([TurnedOn(c)] + done.sent) + Step(c, n, events[0]).sent;
      assert sent + [] == sent;
      ev := events[0];
      taken := taken + [ev];
      events := events[1..];
    }

    /** Wait for the answer to a request; repeat the request after a timeout, at most three times. */
    method AwaitAnswer(request: Frame, host: byte, ghost begun: Node) returns (answer: Answer, ghost n: Node)
      requires Valid() && At(begun) && NodeValid(c, begun) && begun.mode.Filling? && begun.host == Some(host)
      requires begun.mode.retries == PAGE_FILL_RETRIES && begun.mode.remain < 65536
      requires request == FillNext(c, host, seqnum, begun.mode.remain)
      modifies this`events, this`taken, this`sent
      ensures |events| <= |old(events)| && old(taken) + old(events) == taken + events
      ensures NodeValid(c, n) && n.mode.Filling? && n == begun.(mode := begun.mode.(retries := n.mode.retries))
      ensures answer.Starved? ==> events == [] && At(n)
      ensures answer.Abandoned? ==> Owes(Break(c, n))
      ensures answer.Data? ==> |answer.data| == 8 && Owes(AcceptChunk(c, n, answer.data))
    {
      hide NodeValid, Run, FillNext, AcceptChunk;
      var retries := PAGE_FILL_RETRIES;
      n := begun;
      while true
        invariant 0 < retries <= PAGE_FILL_RETRIES && |events| <= |old(events)|
        invariant old(taken) + old(events) == taken + events
        invariant NodeValid(c, n) && n == begun.(mode := begun.mode.(retries := retries)) && At(n)
        decreases |events|
      {
        if events == [] {
          return Starved, n;
        }
        label before:
        var ev := GetMsg(n);
        assert taken + events == old@before(taken) + ([ev] + events);
        RequestNumber(c, host, seqnum, n.mode.remain);
        if ev.Timeout? {
          retries := retries - 1;
          if retries == 0 {
            return Abandoned, n;
          }
          n := n.(mode := n.mode.(retries := retries));
          PutMsg(request, n);
          continue;
        }
        if ev.frame.source != host {
          continue;
        }
        if ev.frame.kind != PAGE_FILL {
          return Abandoned, n;
        }
        if |ev.frame.data| == 8 && ev.frame.seqnum == request.seqnum {
          assert Answers(n, ev.frame);
          return Data(ev.frame.data), n;
        }
        assert !Answers(n, ev.frame);
      }
    }
  }

  lemma RequestNumber(c: Config, host: byte, seqnum: byte, remain: nat)
    requires remain < 65536
    ensures FillNext(c, host, seqnum, remain).seqnum == seqnum % SEQNUM_MODULUS
  {
  }

  // ---------- What the state machine does, case by case ----------

  lemma StartedPage(c: Config, n: Node, page: nat, host: byte)
    requires NodeValid(c, n) && page < c.appPages
    ensures c.Valid() && |n.flash| == c.appPages
    ensures var s := Wrap(n.seqnum as int + 1);
      StartPage(c, n, page, host)
        == Reaction(Node(Filling(page, c.pageSize, PAGE_FILL_RETRIES, []), s, Some(host), Started(c, n.flash, page)),
                    [FillNext(c, host, s, c.pageSize)])
  {
  }

  lemma AcceptedData(c: Config, n: Node, data: seq<byte>)
    requires NodeValid(c, n) && n.mode.Filling? && |data| == 8
    ensures var Filling(page, remain, _, buffer) := n.mode;
      && c.Valid() && 8 <= remain <= c.pageSize && remain % 8 == 0 && |buffer| == c.pageSize - remain
      && page < c.appPages && |n.flash| == c.appPages && n.host.Some?
      && AcceptChunk(c, n, data)
         == if remain == 8 then
              Reaction(n.(mode := Idle, flash := n.flash[page := buffer + data]),
                       [Writed(c, n.host.value, n.seqnum, page)])
            else
              Reaction(n.(mode := Filling(page, remain - 8, PAGE_FILL_RETRIES, buffer + data),
                          seqnum := Wrap(n.seqnum as int + 1)),
                       [FillNext(c, n.host.value, Wrap(n.seqnum as int + 1), remain - 8)])
  {
  }

  lemma IdleReaction(c: Config, n: Node, ev: Event)
    requires NodeValid(c, n) && n.mode == Idle
    ensures Step(c, n, ev) == IdleStep(c, n, ev)
  {
  }

  lemma RunNothing(c: Config, n: Node)
    requires NodeValid(c, n)
    ensures Run(c, n, []) == Reaction(n, [])
  {
  }

  /** After leaving the bootloader nothing is taken or sent any more. */
  lemma {:induction false} LeftForEver(c: Config, n: Node, evs: seq<Event>, rest: seq<Event>)
    requires NodeValid(c, n) && Run(c, n, evs).node.mode == Left
    ensures Run(c, n, evs + rest) == Run(c, n, evs)
  {
    hide NodeValid;
    if rest == [] {
      assert evs + rest == evs;
    } else {
      LeftForEver(c, n, evs, rest[..|rest| - 1]);
      RunNext(c, n, evs + rest[..|rest| - 1], rest[|rest| - 1]);
      assert evs + rest == evs + rest[..|rest| - 1] + [rest[|rest| - 1]];
    }
  }

  lemma ValidConfig(c: Config, n: Node)
    requires NodeValid(c, n)
    ensures c.Valid() && |n.flash| == c.appPages
  {
  }

  // ---------- AVR ----------

  class AvrBootloader {
    const port: Port
    const c: Config
    const buffer: array<byte>
    var flash: seq<Page>

    ghost predicate Valid()
      reads this
    {
      && port.c == c && port.Valid() && c.Valid() && c.erasesFirst
      && buffer.Length == c.pageSize && |flash| == c.appPages
    }

    constructor (port: Port, flash: seq<Page>)
      requires port.Valid() && port.c.erasesFirst && flash == port.start.flash
      ensures Valid() && fresh(buffer) && this.port == port && this.flash == flash
    {
      ValidConfig(port.c, port.start);
      this.port, this.c, this.flash := port, port.c, flash;
      buffer := new byte[port.c.pageSize];
    }

    /** boot_page_erase. */
    method ErasePage(page: nat)
      requires Valid() && page < c.appPages
      modifies this`flash
      ensures Valid() && flash == old(flash)[page := Erased(c.pageSize)]
    {
      flash := flash[page := Erased(c.pageSize)];
    }

    /** boot_page_fill: one word, its low byte at the lower address. */
    method FillWord(offset: nat, word: nat)
      requires Valid() && offset + 1 < c.pageSize && word < 65536
      modifies buffer
      ensures buffer[..] == old(buffer[..])[offset := word % 256][offset + 1 := word / 256]
    {
      buffer[offset] := word % 256;
      buffer[offset + 1] := word / 256;
    }

    /** boot_page_write. */
    method WriteBuffer(page: nat)
      requires Valid() && page < c.appPages
      modifies this`flash
      ensures Valid() && flash == old(flash)[page := buffer[..]]
    {
      flash := flash[page := buffer[..]];
    }

    /** Store eight bytes of the page, word by word. */
    method StoreChunk(data: seq<byte>, remain: nat) returns (remain': nat)
      requires Valid() && |data| == 8 && 8 <= remain <= c.pageSize
      modifies buffer
      ensures remain' == remain - 8
      ensures buffer[..c.pageSize - remain'] == old(buffer[..c.pageSize - remain]) + data
    {
      remain' := remain;
      ghost var done := c.pageSize - remain;
      var i := 0;
      while i < 8
        invariant 0 <= i <= 8 && i % 2 == 0 && remain' == remain - i && Valid()
        invariant buffer[..done] == old(buffer[..done])
        invariant buffer[done..done + i] == data[..i]
      {
        ghost var before := buffer[..];
        var word := data[i + 1] as nat * 256 + data[i] as nat;
        FillWord(c.pageSize - remain', word);
        remain' := remain' - 2;
        TwoMore(before, buffer[..], done, data, i, word);
        i := i + 2;
      }
      assert buffer[..done + 8] == buffer[..done] + buffer[done..done + 8];
      assert data[..8] == data;
    }

    /** The node while it waits for the answer to a request that is sent next or was just sent. */
    ghost function Waiting(page: nat, remain: nat, host: byte, seqnum: byte): Node
      reads this, buffer
      requires Valid() && remain <= c.pageSize
    {
      Node(Filling(page, remain, PAGE_FILL_RETRIES, buffer[..c.pageSize - remain]), seqnum, Some(host), flash)
    }

    /** The data of an accepted answer; the page is written and reported when it is complete. */
    method TakeData(data: seq<byte>, page: nat, remain: nat, host: byte, ghost n: Node)
      returns (remain': nat, ghost owed: Reaction)
      requires Valid() && 0 < remain <= c.pageSize && |data| == 8
      requires NodeValid(c, n) && n.mode.Filling? && port.Owes(AcceptChunk(c, n, data))
      requires n == Waiting(page, remain, host, port.seqnum).(mode := n.mode) && n.mode.page == page
      requires n.mode.remain == remain && n.mode.buffer == buffer[..c.pageSize - remain]
      modifies port`sent, this`flash, buffer
      ensures Valid() && remain == remain' + 8 && remain' % 8 == 0
      ensures remain' == 0 ==>
        port.At(owed.node) && owed.node.flash == flash && owed.node.mode == Idle && owed.node.host == Some(host)
      ensures remain' > 0 ==>
        && remain' < 65536 && port.Owes(owed)
        && owed.sent == [FillNext(c, host, Wrap(port.seqnum as int + 1), remain')]
        && owed.node == Waiting(page, remain', host, Wrap(port.seqnum as int + 1))
    {
      hide NodeValid, Run, FillNext, Writed, AcceptChunk;
      AcceptedData(c, n, data);
      owed := AcceptChunk(c, n, data);
      remain' := StoreChunk(data, remain);
      if remain' == 0 {
        assert buffer[..c.pageSize] == buffer[..];
        WriteBuffer(page);
        port.PutMsg(Writed(c, host, port.seqnum, page), owed.node);
      }
    }

    /**
     write_page. It is called with the reaction to PAGE_START still to be carried out, and ends
     with the page over or, without more events, in the middle of it; either way in the state
     of the state machine after all events taken, with the same frames sent.
     */
    method WritePage(page: nat, host: byte, ghost begun: Node) returns (over: bool, ghost n: Node)
      requires Valid() && page < c.appPages && NodeValid(c, begun)
      requires begun.flash == flash && begun.seqnum == port.seqnum
      requires port.Owes(StartPage(c, begun, page, host))
      modifies port`events, port`taken, port`sent, port`seqnum, this`flash, buffer
      ensures Valid() && |port.events| <= |old(port.events)|
      ensures old(port.taken) + old(port.events) == port.taken + port.events
      ensures port.At(n) && n.flash == flash
      ensures if over then n.mode == Idle && n.host == Some(host) else port.events == [] && n.mode.Filling?
    {
      hide NodeValid, Run, StartPage, FillNext, FillBreak, Writed, AcceptChunk;
      var remain := c.pageSize;
      ErasePage(page);
      ghost var owed := StartPage(c, begun, page, host);
      StartedPage(c, begun, page, host);
      while true
        invariant Valid() && |port.events| <= |old(port.events)|
        invariant old(port.taken) + old(port.events) == port.taken + port.events
        invariant 0 < remain <= c.pageSize && remain < 65536 && remain % 8 == 0 && port.Owes(owed)
        invariant owed.sent == [FillNext(c, host, Wrap(port.seqnum as int + 1), remain)]
        invariant owed.node == Waiting(page, remain, host, Wrap(port.seqnum as int + 1))
        decreases remain
      {
        port.seqnum := Wrap(port.seqnum as int + 1);
        var request := FillNext(c, host, port.seqnum, remain);
        port.PutMsg(request, owed.node);
        var answer;
        answer, n := port.AwaitAnswer(request, host, owed.node);
        match answer
        case Starved =>
          return false, n;
        case Abandoned =>
          n := n.(mode := Idle);
          port.PutMsg(FillBreak(c, host, port.seqnum), n);
          return true, n;
        case Data(data) =>
          remain, owed := TakeData(data, page, remain, host, n);
          if remain == 0 {
            return true, owed.node;
          }
      }
    }

    /**
     The main loop, until the events are used up or the node leaves the bootloader: it sends
     the frames and leaves the flash that the state machine gives for the whole script.
     */
    method Serve() returns (ghost n: Node)
      requires Valid() && port.sent == [] && port.taken == [] && port.start.host == None
      requires port.start.flash == flash && port.start.seqnum == port.seqnum
      modifies port`events, port`taken, port`sent, port`seqnum, this`flash, buffer
      ensures n == Run(c, port.start, old(port.events)).node && n.flash == flash && n.seqnum == port.seqnum
      ensures port.sent == [TurnedOn(c)] + Run(c, port.start, old(port.events)).sent
    {
      hide NodeValid, Run, Step, StartPage;
      n := port.start;
      RunNothing(c, n);
      assert port.Owes(Reaction(n, [TurnedOn(c)]));
      port.PutMsg(TurnedOn(c), n);
      var host := None;
      while true
        invariant Valid() && |port.events| <= |old(port.events)| && port.taken + port.events == old(port.events)
        invariant port.At(n) && n.flash == flash && n.mode == Idle && n.host == host
        decreases |port.events|
      {
        if port.events == [] {
          assert port.taken == old(port.events);
          return;
        }
        label before:
        ghost var idle := n;
        var ev := port.GetMsg(n);
        assert port.taken + port.events == old@before(port.taken) + ([ev] + port.events);
        IdleReaction(c, idle, ev);
        if ev.Timeout? {
          port.PutMsg(TurnedOn(c), n);
          continue;
        }
        if host.Some? && ev.frame.source != host.value {
          continue;
        }
        if ev.frame.kind == PAGE_START && |ev.frame.data| == 2 {
          var page := WordValue(ev.frame.data);
          if page < c.appPages {
            host := Some(ev.frame.source);
            var over;
            over, n := WritePage(page, ev.frame.source, idle);
            if !over {
              assert port.taken == old(port.events);
              return;
            }
          }
        } else if ev.frame.kind == QUIT_BOOTLOADER && |ev.frame.data| == 0 {
          n := n.(mode := Left);
          LeftForEver(c, port.start, port.taken, port.events);
          return;
        }
      }
    }
  }

  lemma TwoMore(before: seq<byte>, after: seq<byte>, done: nat, data: seq<byte>, k: nat, word: nat)
    requires done + k + 1 < |before| && k + 1 < |data|
    requires word == data[k + 1] as nat * 256 + data[k] as nat
    requires after == before[done + k := word % 256][done + k + 1 := word / 256]
    requires before[done..done + k] == data[..k]
    ensures after[..done] == before[..done] && after[done..done + k + 2] == data[..k + 2]
  {
    assert after[done..done + k] == before[done..done + k];
    assert after[done + k] == data[k] && after[done + k + 1] == data[k + 1];
  }

  // ---------- PIC18F-Q84 ----------

  class Q84Bootloader {
    const port: Port
    const device: B.Flash

    ghost predicate Valid()
      reads this, device
    {
      && port.Valid() && device.Valid()
      && port.c.pageSize == B.BLOCK_SIZE && port.c.appPages == B.APP_BLOCKS && !port.c.erasesFirst
      && B.BOOTLOADER_START <= device.cells.Length
    }

    /** The application area of the flash. */
    ghost function Pages(): seq<Page>
      reads this, device, device.cells
      requires Valid()
    {
      B.AppPages(device.cells[..], B.APP_BLOCKS)
    }

    constructor (port: Port, device: B.Flash)
      requires port.Valid() && device.Valid() && B.BOOTLOADER_START <= device.cells.Length
      requires port.c.pageSize == B.BLOCK_SIZE && port.c.appPages == B.APP_BLOCKS && !port.c.erasesFirst
      ensures Valid() && this.port == port && this.device == device
    {
      this.port, this.device := port, device;
    }

    /** The page buffer holds the flash page as it was, with the data received so far in place. */
    ghost predicate Buffered(block: nat, data: seq<byte>)
      reads this, device, device.cells, device.pageBuf
      requires Valid() && block < B.APP_BLOCKS
    {
      var at := block * B.BLOCK_SIZE;
      var offset, flash := at % B.PAGE_SIZE, device.cells[..];
      && |data| <= B.BLOCK_SIZE && offset + B.BLOCK_SIZE <= B.PAGE_SIZE && at - offset + B.PAGE_SIZE <= |flash|
      && device.pageAddr == at - offset && device.pageDst == offset + |data|
      && device.pageBuf[..] == B.Replaced(flash[at - offset..at - offset + B.PAGE_SIZE], offset, data)
    }

    /** flash_block_begin. */
    method BeginBlock(block: nat)
      requires Valid() && block < B.APP_BLOCKS
      modifies device`pageAddr, device`pageDst, device.pageBuf
      ensures Valid() && Buffered(block, []) && Pages() == old(Pages())
    {
      hide B.Replaced;
      B.PageAddress(block * B.BLOCK_SIZE);
      B.BlockInPage(block, device.cells.Length);
      device.Begin(block * B.BLOCK_SIZE);
      B.ReplacedNothing(device.pageBuf[..], device.pageDst);
    }

    /** flash_block_put8. */
    method Put8(block: nat, data: seq<byte>, ghost before: seq<byte>)
      requires Valid() && block < B.APP_BLOCKS && |data| == 8 && |before| + 8 <= B.BLOCK_SIZE && Buffered(block, before)
      modifies device`pageDst, device.pageBuf
      ensures Valid() && Buffered(block, before + data) && Pages() == old(Pages())
    {
      hide B.Replaced;
      ghost var at := block * B.BLOCK_SIZE;
      ghost var offset, flash := at % B.PAGE_SIZE, device.cells[..];
      device.Put8(data);
      B.ReplacedMore(flash[at - offset..at - offset + B.PAGE_SIZE], offset, before, data);
    }

    /** flash_block_commit: the page of the protocol is written, no other changes. */
    method CommitBlock(block: nat, ghost data: seq<byte>)
      requires Valid() && block < B.APP_BLOCKS && |data| == B.BLOCK_SIZE && Buffered(block, data)
      modifies device.cells
      ensures Valid() && Pages() == old(Pages())[block := data]
      ensures device.cells[B.BOOTLOADER_START..] == old(device.cells[B.BOOTLOADER_START..])
    {
      hide B.Replaced, B.AppPages;
      ghost var at := block * B.BLOCK_SIZE;
      ghost var offset, flash := at % B.PAGE_SIZE, device.cells[..];
      B.PageAddress(at);
      device.Commit();
      B.ReplacedInPage(flash, at - offset, offset, data);
      B.ReplacedIsPage(flash, block, data, B.APP_BLOCKS);
      assert device.cells[..] == B.Replaced(flash, at, data);
    }

    /** The node that waits for the answer to a request for `remain` bytes of the block. */
    ghost predicate IsWaiting(n: Node, block: nat, remain: nat, host: byte)
      reads this, device, device.cells, device.pageBuf
      requires Valid() && block < B.APP_BLOCKS
    {
      && n.mode.Filling? && n.mode.page == block && n.mode.remain == remain && n.host == Some(host)
      && Buffered(block, n.mode.buffer) && |n.mode.buffer| + remain == B.BLOCK_SIZE && n.flash == Pages()
    }

    /** The data of an accepted answer; the block is written and reported when it is complete. */
    method TakeData(data: seq<byte>, block: nat, remain: nat, host: byte, ghost n: Node)
      returns (remain': nat, ghost owed: Reaction)
      requires Valid() && block < B.APP_BLOCKS && |data| == 8
      requires NodeValid(port.c, n) && IsWaiting(n, block, remain, host) && n.seqnum == port.seqnum
      requires port.Owes(AcceptChunk(port.c, n, data))
      modifies port`sent, device`pageDst, device.pageBuf, device.cells
      ensures Valid() && remain == remain' + 8 && remain' % 8 == 0
      ensures device.cells[B.BOOTLOADER_START..] == old(device.cells[B.BOOTLOADER_START..])
      ensures remain' == 0 ==>
        port.At(owed.node) && owed.node.flash == Pages() && owed.node.mode == Idle && owed.node.host == Some(host)
      ensures remain' > 0 ==>
        && remain' < 65536 && port.Owes(owed) && IsWaiting(owed.node, block, remain', host)
        && owed.node.mode.retries == PAGE_FILL_RETRIES && owed.node.seqnum == Wrap(port.seqnum as int + 1)
        && owed.sent == [FillNext(port.c, host, Wrap(port.seqnum as int + 1), remain')]
    {
      hide NodeValid, Run, FillNext, Writed, AcceptChunk, Buffered, Pages;
      AcceptedData(port.c, n, data);
      owed := AcceptChunk(port.c, n, data);
      Put8(block, data, n.mode.buffer);
      remain' := remain - 8;
      if remain' == 0 {
        CommitBlock(block, n.mode.buffer + data);
        port.PutMsg(Writed(port.c, host, port.seqnum, block), owed.node);
      }
    }

    /**
     write_block, with the same contract as write_page of the AVR: the state of the state
     machine after all events taken, with the same frames sent, and a bootloader that has
     not changed.
     */
    method WriteBlock(block: nat, host: byte, ghost begun: Node) returns (over: bool, ghost n: Node)
      requires Valid() && block < B.APP_BLOCKS && NodeValid(port.c, begun)
      requires begun.flash == Pages() && begun.seqnum == port.seqnum
      requires port.Owes(StartPage(port.c, begun, block, host))
      modifies port`events, port`taken, port`sent, port`seqnum
      modifies device`pageAddr, device`pageDst, device.pageBuf, device.cells
      ensures Valid() && |port.events| <= |old(port.events)|
      ensures old(port.taken) + old(port.events) == port.taken + port.events
      ensures port.At(n) && n.flash == Pages()
      ensures if over then n.mode == Idle && n.host == Some(host) else port.events == [] && n.mode.Filling?
      ensures device.cells[B.BOOTLOADER_START..] == old(device.cells[B.BOOTLOADER_START..])
    {
      hide NodeValid, Run, StartPage, FillNext, FillBreak, Writed, AcceptChunk, Buffered, Pages;
      var remain := B.BLOCK_SIZE;
      BeginBlock(block);
      ghost var owed := StartPage(port.c, begun, block, host);
      StartedPage(port.c, begun, block, host);
      while true
        invariant Valid() && |port.events| <= |old(port.events)|
        invariant old(port.taken) + old(port.events) == port.taken + port.events
        invariant 0 < remain < 65536 && port.Owes(owed)
        invariant owed.sent == [FillNext(port.c, host, Wrap(port.seqnum as int + 1), remain)]
        invariant IsWaiting(owed.node, block, remain, host)
        invariant owed.node.mode.retries == PAGE_FILL_RETRIES && owed.node.seqnum == Wrap(port.seqnum as int + 1)
        invariant device.cells[B.BOOTLOADER_START..] == old(device.cells[B.BOOTLOADER_START..])
        decreases remain
      {
        port.seqnum := Wrap(port.seqnum as int + 1);
        var request := FillNext(port.c, host, port.seqnum, remain);
        port.PutMsg(request, owed.node);
        var answer;
        answer, n := port.AwaitAnswer(request, host, owed.node);
        match answer
        case Starved =>
          return false, n;
        case Abandoned =>
          device.Abort();
          n := n.(mode := Idle);
          port.PutMsg(FillBreak(port.c, host, port.seqnum), n);
          return true, n;
        case Data(data) =>
          remain, owed := TakeData(data, block, remain, host, n);
          if remain == 0 {
            return true, owed.node;
          }
      }
    }
  }
}
