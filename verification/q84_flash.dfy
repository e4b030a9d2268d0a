/**
 Block writes of the PIC18F-Q84 bootloader. The flash is erased in pages of 256 bytes, the
 protocol writes blocks of 64: a page is copied to memory, the block is put into the copy,
 and the page is erased and written back without the words that are 0xff anyway.
 */
module BlockFlash {
  import opened Bytes
  import opened BootProtocol
  import opened BootPages

  const PAGE_SIZE := 256
  const BLOCK_SIZE := 64
  const CHUNKS := 8
  const BOOTLOADER_START := 0x1E000
  const APP_BLOCKS := BOOTLOADER_START / BLOCK_SIZE

  /** The bytes with `data` in place of those from `at` on. */
  function Replaced(flash: seq<byte>, at: nat, data: seq<byte>): (r: seq<byte>)
    requires at + |data| <= |flash|
    ensures |r| == |flash|
    ensures forall i :: 0 <= i < |r| ==> r[i] == if at <= i < at + |data| then data[i - at] else flash[i]
  {
    flash[..at] + data + flash[at + |data|..]
  }

  /** What a block write does to a plain array of bytes: a complete block below the bootloader is stored. */
  function AfterBlock(flash: seq<byte>, block: nat, chunks: seq<seq<byte>>): (r: seq<byte>)
    requires block * BLOCK_SIZE + BLOCK_SIZE <= |flash|
    requires |chunks| <= CHUNKS && forall i :: 0 <= i < |chunks| ==> |chunks[i]| == 8
    ensures |r| == |flash|
  {
    ConcatLength(chunks);
    if |chunks| == CHUNKS && block * BLOCK_SIZE < BOOTLOADER_START
    then Replaced(flash, block * BLOCK_SIZE, Concat(chunks)) else flash
  }

  lemma PageAddress(at: nat)
    ensures 0 <= at - at % PAGE_SIZE <= at && (at - at % PAGE_SIZE) % PAGE_SIZE == 0
    ensures at - at % PAGE_SIZE >= BOOTLOADER_START <==> at >= BOOTLOADER_START
  {
  }

  lemma BlockInPage(block: nat, size: nat)
    requires size % PAGE_SIZE == 0 && block * BLOCK_SIZE + BLOCK_SIZE <= size
    ensures var at := block * BLOCK_SIZE;
      at % PAGE_SIZE + BLOCK_SIZE <= PAGE_SIZE && at - at % PAGE_SIZE + PAGE_SIZE <= size
  {
    AlignedFits(block * BLOCK_SIZE, size);
  }

  lemma AlignedFits(at: nat, size: nat)
    requires size % PAGE_SIZE == 0 && at < size
    ensures at - at % PAGE_SIZE + PAGE_SIZE <= size
  {
  }

  /** Replacing a part of a page and writing the page back replaces just that part. */
  lemma ReplacedInPage(flash: seq<byte>, page: nat, offset: nat, data: seq<byte>)
    requires offset + |data| <= PAGE_SIZE && page + PAGE_SIZE <= |flash|
    ensures Replaced(flash, page, Replaced(flash[page..page + PAGE_SIZE], offset, data))
         == Replaced(flash, page + offset, data)
  {
    hide Replaced;
  }

  /** The flash controller and the static variables of the original. */
  class Flash {
    const cells: array<byte>
    const pageBuf: array<byte>
    var pageAddr: nat
    var pageDst: nat

    ghost predicate Valid()
      reads this
    {
      && cells != pageBuf && cells.Length % PAGE_SIZE == 0 && pageBuf.Length == PAGE_SIZE
      && pageAddr % PAGE_SIZE == 0 && pageAddr + PAGE_SIZE <= cells.Length && pageDst <= PAGE_SIZE
    }

    constructor (size: nat)
      requires PAGE_SIZE <= size && size % PAGE_SIZE == 0
      ensures Valid() && fresh(cells) && fresh(pageBuf) && cells.Length == size
    {
      cells := new byte[size];
      pageBuf := new byte[PAGE_SIZE];
      pageAddr, pageDst := 0, 0;
    }

    /** The page erase command. */
    method ErasePage(addr: nat)
      requires Valid() && addr % PAGE_SIZE == 0 && addr + PAGE_SIZE <= cells.Length
      modifies cells
      ensures cells[..] == Replaced(old(cells[..]), addr, Erased(PAGE_SIZE))
    {
      hide Replaced;
      for i := 0 to PAGE_SIZE
        invariant forall k :: 0 <= k < cells.Length ==>
          cells[k] == if addr <= k < addr + i then 0xff else old(cells[k])
      {
        cells[addr + i] := 0xff;
      }
    }

    /** The word write command; it may be used only on erased cells. */
    method WriteWord(addr: nat, low: byte, high: byte)
      requires addr + 1 < cells.Length && cells[addr] == 0xff && cells[addr + 1] == 0xff
      modifies cells
      ensures cells[..] == old(cells[..])[addr := low][addr + 1 := high]
    {
      cells[addr] := low;
      cells[addr + 1] := high;
    }

    method Begin(addr: nat)
      requires Valid() && addr < cells.Length
      modifies this`pageAddr, this`pageDst, pageBuf
      ensures Valid() && pageAddr == addr - addr % PAGE_SIZE && pageDst == addr % PAGE_SIZE
      ensures pageBuf[..] == cells[pageAddr..pageAddr + PAGE_SIZE]
    {
      PageAddress(addr);
      AlignedFits(addr, cells.Length);
      pageAddr := addr - addr % PAGE_SIZE;
      pageDst := addr - pageAddr;
      for i := 0 to PAGE_SIZE
        invariant pageAddr == addr - addr % PAGE_SIZE && pageDst == addr % PAGE_SIZE && Valid()
        invariant forall k :: 0 <= k < i ==> pageBuf[k] == cells[pageAddr + k]
      {
        pageBuf[i] := cells[pageAddr + i];
      }
    }

    method Put8(data: seq<byte>)
      requires Valid() && |data| == 8 && pageDst + 8 <= PAGE_SIZE
      modifies this`pageDst, pageBuf
      ensures Valid() && pageDst == old(pageDst) + 8
      ensures pageBuf[..] == Replaced(old(pageBuf[..]), old(pageDst), data)
    {
      for i := 0 to 8
        invariant pageDst == old(pageDst) + i
        invariant forall k :: 0 <= k < PAGE_SIZE ==>
          pageBuf[k] == if old(pageDst) <= k < old(pageDst) + i then data[k - old(pageDst)] else old(pageBuf[k])
      {
        pageBuf[pageDst] := data[i];
        pageDst := pageDst + 1;
      }
    }

    /** The body of the loop of flash_block_commit: a word that is all ones is erased already. */
    method StoreWord(i: nat)
      requires Valid() && i + 1 < PAGE_SIZE && cells[pageAddr + i] == 0xff && cells[pageAddr + i + 1] == 0xff
      modifies cells
      ensures cells[..] == old(cells[..])[pageAddr + i := pageBuf[i]][pageAddr + i + 1 := pageBuf[i + 1]]
    {
      if pageBuf[i] == 0xff && pageBuf[i + 1] == 0xff {
        return;
      }
      WriteWord(pageAddr + i, pageBuf[i], pageBuf[i + 1]);
    }

    /** The page of the block is stored, except on top of the bootloader. */
    method Commit()
      requires Valid()
      modifies cells
      ensures cells[..] == if pageAddr >= BOOTLOADER_START then old(cells[..])
                           else Replaced(old(cells[..]), pageAddr, pageBuf[..])
    {
      hide Replaced;
      if pageAddr >= BOOTLOADER_START {
        return;
      }
      ErasePage(pageAddr);
      ghost var erased := cells[..];
      var i := 0;
      while i < PAGE_SIZE
        invariant 0 <= i <= PAGE_SIZE && i % 2 == 0
        invariant cells[..] == Replaced(erased, pageAddr, pageBuf[..i])
      {
        ghost var before := cells[..];
        StoreWord(i);
        WordStored(erased, pageAddr, pageBuf[..], i, before, cells[..]);
        i := i + 2;
      }
      assert pageBuf[..PAGE_SIZE] == pageBuf[..];
      ReplacedTwice(old(cells[..]), pageAddr, Erased(PAGE_SIZE), pageBuf[..]);
    }

    method Abort()
    {
    }

    /** The flash calls of write_block when the given chunks are accepted for a block. */
    method WriteBlock(block: nat, chunks: seq<seq<byte>>)
      requires Valid() && block * BLOCK_SIZE + BLOCK_SIZE <= cells.Length
      requires |chunks| <= CHUNKS && forall i :: 0 <= i < |chunks| ==> |chunks[i]| == 8
      modifies this`pageAddr, this`pageDst, pageBuf, cells
      ensures Valid()
      ensures cells[..] == AfterBlock(old(cells[..]), block, chunks)
    {
      hide Replaced, Concat;
      ghost var flash, address := cells[..], block * BLOCK_SIZE;
      PageAddress(address);
      BlockInPage(block, cells.Length);
      Begin(block * BLOCK_SIZE);
      ghost var page, at := pageBuf[..], pageDst;
      ReplacedNothing(page, at);
      for i := 0 to |chunks|
        invariant Valid() && cells[..] == old(cells[..])
        invariant |Concat(chunks[..i])| == 8 * i && pageDst == at + 8 * i
        invariant pageAddr == address - address % PAGE_SIZE
        invariant pageBuf[..] == Replaced(page, at, Concat(chunks[..i]))
      {
        Put8(chunks[i]);
        assert chunks[..i + 1] == chunks[..i] + [chunks[i]];
        ConcatNext(chunks[..i], chunks[i]);
        ReplacedMore(page, at, Concat(chunks[..i]), chunks[i]);
      }
      assert chunks[..|chunks|] == chunks;
      if |chunks| == CHUNKS {
        Commit();
        ReplacedInPage(flash, pageAddr, at, Concat(chunks));
      } else {
        Abort();
      }
    }
  }

  lemma ReplacedNothing(page: seq<byte>, at: nat)
    requires at <= |page|
    ensures Concat([]) == [] && Replaced(page, at, Concat([])) == page
  {
  }

  lemma ReplacedMore(page: seq<byte>, at: nat, data: seq<byte>, more: seq<byte>)
    requires at + |data| + |more| <= |page|
    ensures Replaced(Replaced(page, at, data), at + |data|, more) == Replaced(page, at, data + more)
  {
    hide Replaced;
  }

  lemma WordStored(erased: seq<byte>, page: nat, data: seq<byte>, i: nat, before: seq<byte>, after: seq<byte>)
    requires i + 1 < |data| && page + |data| <= |erased| && before == Replaced(erased, page, data[..i])
    requires after == before[page + i := data[i]][page + i + 1 := data[i + 1]]
    ensures after == Replaced(erased, page, data[..i + 2])
  {
    hide Replaced;
  }

  /** Writing what was just erased leaves no trace of the erasure. */
  lemma ReplacedTwice(flash: seq<byte>, at: nat, first: seq<byte>, second: seq<byte>)
    requires |first| == |second| && at + |first| <= |flash|
    ensures Replaced(Replaced(flash, at, first), at, second) == Replaced(flash, at, second)
  {
    hide Replaced;
  }

  // ---------- Any sequence of blocks ----------

  datatype Write = Write(block: nat, chunks: seq<seq<byte>>) {
    ghost predicate Fits(size: nat) {
      && block * BLOCK_SIZE + BLOCK_SIZE <= size
      && |chunks| <= CHUNKS && forall i :: 0 <= i < |chunks| ==> |chunks[i]| == 8
    }

    predicate Commits() {
      |chunks| == 8 && block < 0x1E000 / 64
    }
  }

  ghost function AfterBlocks(flash: seq<byte>, writes: seq<Write>): (r: seq<byte>)
    requires forall w :: w in writes ==> w.Fits(|flash|)
    ensures |r| == |flash|
  {
    if writes == [] then flash
    else
      var before, last := AfterBlocks(flash, writes[..|writes| - 1]), writes[|writes| - 1];
      assert last in writes && last.Fits(|flash|);
      AfterBlock(before, last.block, last.chunks)
  }

  function BlockOf(flash: seq<byte>, block: nat): (b: seq<byte>)
    requires block * BLOCK_SIZE + BLOCK_SIZE <= |flash|
    ensures |b| == BLOCK_SIZE
  {
    flash[block * BLOCK_SIZE..block * BLOCK_SIZE + BLOCK_SIZE]
  }

  /** The bytes of the last complete write of a block, or what it held before. */
  ghost function LastCommitted(flash: seq<byte>, writes: seq<Write>, block: nat): seq<byte>
    requires block * BLOCK_SIZE + BLOCK_SIZE <= |flash|
  {
    if writes == [] then BlockOf(flash, block)
    else
      var last := writes[|writes| - 1];
      if last.block == block && last.Commits() then Concat(last.chunks)
      else LastCommitted(flash, writes[..|writes| - 1], block)
  }

  /** A block write changes its own block and no other. */
  lemma OneBlockChanges(flash: seq<byte>, w: Write, block: nat)
    requires w.Fits(|flash|) && block * BLOCK_SIZE + BLOCK_SIZE <= |flash|
    ensures BlockOf(AfterBlock(flash, w.block, w.chunks), block)
         == if w.block == block && w.Commits() then Concat(w.chunks) else BlockOf(flash, block)
  {
    hide Replaced, Concat;
    ConcatLength(w.chunks);
    if w.Commits() {
      var r, at := AfterBlock(flash, w.block, w.chunks), w.block * BLOCK_SIZE;
      assert r == Replaced(flash, at, Concat(w.chunks));
      if w.block == block {
        assert BlockOf(r, block) == Concat(w.chunks);
      } else {
        assert block < w.block || block >= w.block + 1;
        assert BlockOf(r, block) == BlockOf(flash, block);
      }
    }
  }

  /**
   After any sequence of complete and abandoned blocks, in any order and with repetitions,
   every block of flash holds the bytes of its last complete write, although each write
   erases and rewrites the page of four blocks around it.
   */
  lemma {:induction false} EveryBlockHoldsItsLastCommit(flash: seq<byte>, writes: seq<Write>, block: nat)
    requires forall w :: w in writes ==> w.Fits(|flash|)
    requires block * BLOCK_SIZE + BLOCK_SIZE <= |flash|
    ensures BlockOf(AfterBlocks(flash, writes), block) == LastCommitted(flash, writes, block)
  {
    if writes != [] {
      var front, last := writes[..|writes| - 1], writes[|writes| - 1];
      EveryBlockHoldsItsLastCommit(flash, front, block);
      OneBlockChanges(AfterBlocks(flash, front), last, block);
    }
  }

  /** No byte of the bootloader ever changes, whatever blocks are written. */
  lemma {:induction false} BootloaderIsNeverTouched(flash: seq<byte>, writes: seq<Write>)
    requires forall w :: w in writes ==> w.Fits(|flash|)
    requires 0x1E000 <= |flash|
    ensures AfterBlocks(flash, writes)[0x1E000..] == flash[0x1E000..]
  {
    hide Replaced, Concat;
    if writes != [] {
      var front, last := writes[..|writes| - 1], writes[|writes| - 1];
      assert last in writes;
      BootloaderIsNeverTouched(flash, front);
      ConcatLength(last.chunks);
      var before := AfterBlocks(flash, front);
      var after := AfterBlock(before, last.block, last.chunks);
      assert forall i :: BOOTLOADER_START <= i < |flash| ==> after[i] == before[i];
    }
  }

  // ---------- The pages of the protocol ----------

  /** The first blocks of flash, as the protocol sees them. */
  function AppPages(flash: seq<byte>, blocks: nat): (pages: seq<Page>)
    requires blocks * BLOCK_SIZE <= |flash|
    ensures |pages| == blocks
  {
    seq(blocks, block requires 0 <= block < blocks => BlockOf(flash, block))
  }

  /** Replacing a block replaces the page with its number. */
  lemma ReplacedIsPage(flash: seq<byte>, block: nat, data: seq<byte>, blocks: nat)
    requires |data| == BLOCK_SIZE && block < blocks && blocks * BLOCK_SIZE <= |flash|
    ensures block * BLOCK_SIZE + BLOCK_SIZE <= |flash|
    ensures AppPages(Replaced(flash, block * BLOCK_SIZE, data), blocks) == AppPages(flash, blocks)[block := data]
  {
    hide Replaced;
    var r := Replaced(flash, block * BLOCK_SIZE, data);
    forall b | 0 <= b < blocks
      ensures BlockOf(r, b) == if b == block then data else BlockOf(flash, b)
    {
      if b == block {
        assert BlockOf(r, b) == data;
      } else {
        assert b < block || b >= block + 1;
        assert BlockOf(r, b) == BlockOf(flash, b);
      }
    }
  }

  /** A block write is exactly what the protocol says about a page: stored when complete, otherwise as it was. */
  lemma BlockIsProtocolPage(flash: seq<byte>, w: Write)
    requires BOOTLOADER_START <= |flash| && w.Fits(|flash|) && w.block < APP_BLOCKS
    ensures var pages := AppPages(flash, APP_BLOCKS);
      AppPages(AfterBlock(flash, w.block, w.chunks), APP_BLOCKS)
        == if |w.chunks| == CHUNKS then pages[w.block := Concat(w.chunks)] else pages
  {
    hide Replaced, Concat, AppPages;
    ConcatLength(w.chunks);
    if |w.chunks| == CHUNKS {
      ReplacedIsPage(flash, w.block, Concat(w.chunks), APP_BLOCKS);
    }
  }
}
