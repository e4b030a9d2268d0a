/**
 Block writes of the PIC18F46K80 bootloader: the block is erased when it is started, the data
 go to holding registers addressed by the low bits of the table pointer, and one write
 command programs the block the pointer is in.
 */
module HoldingFlash {
  import opened Bytes
  import opened BootProtocol
  import opened BootPages
  import opened BlockFlash

  /** Where the bootloader starts. */
  const BOOTLOADER := 0xF600

  /** What a block write does to a plain array of bytes: the block is stored, or left erased. */
  function AfterErasedBlock(flash: seq<byte>, block: nat, chunks: seq<seq<byte>>): (r: seq<byte>)
    requires block * BLOCK_SIZE + BLOCK_SIZE <= |flash|
    requires |chunks| <= CHUNKS && forall i :: 0 <= i < |chunks| ==> |chunks[i]| == 8
    ensures |r| == |flash|
  {
    ConcatLength(chunks);
    Replaced(flash, block * BLOCK_SIZE, if |chunks| == CHUNKS then Concat(chunks) else Erased(BLOCK_SIZE))
  }

  class K80Flash {
    const cells: array<byte>
    const holding: array<byte>
    var tblptr: nat

    ghost predicate Valid()
      reads this
    {
      cells != holding && cells.Length % BLOCK_SIZE == 0 && holding.Length == BLOCK_SIZE
    }

    constructor (size: nat)
      requires size % BLOCK_SIZE == 0
      ensures Valid() && fresh(cells) && fresh(holding) && cells.Length == size
    {
      cells := new byte[size];
      holding := new byte[BLOCK_SIZE];
      tblptr := 0;
    }

    /** The erase command for the block of the table pointer. */
    method EraseBlock()
      requires Valid() && tblptr % BLOCK_SIZE == 0 && tblptr + BLOCK_SIZE <= cells.Length
      modifies cells
      ensures cells[..] == Replaced(old(cells[..]), tblptr, Erased(BLOCK_SIZE))
    {
      hide Replaced;
      for i := 0 to BLOCK_SIZE
        invariant forall k :: 0 <= k < cells.Length ==>
          cells[k] == if tblptr <= k < tblptr + i then 0xff else old(cells[k])
      {
        cells[tblptr + i] := 0xff;
      }
    }

    /** The write command: it programs all cells of the block of the table pointer, which have to be erased. */
    method ProgramBlock()
      requires Valid() && tblptr - tblptr % BLOCK_SIZE + BLOCK_SIZE <= cells.Length
      requires forall k :: tblptr - tblptr % BLOCK_SIZE <= k < tblptr - tblptr % BLOCK_SIZE + BLOCK_SIZE ==>
        cells[k] == 0xff
      modifies cells
      ensures cells[..] == Replaced(old(cells[..]), tblptr - tblptr % BLOCK_SIZE, holding[..])
    {
      hide Replaced;
      var start := tblptr - tblptr % BLOCK_SIZE;
      for i := 0 to BLOCK_SIZE
        invariant forall k :: 0 <= k < cells.Length ==>
          cells[k] == if start <= k < start + i then holding[k - start] else old(cells[k])
      {
        cells[start + i] := holding[i];
      }
    }

    method Begin(addr: nat)
      requires Valid() && addr % BLOCK_SIZE == 0 && addr + BLOCK_SIZE <= cells.Length
      modifies this`tblptr, cells
      ensures Valid() && tblptr == addr
      ensures cells[..] == Replaced(old(cells[..]), addr, Erased(BLOCK_SIZE))
    {
      tblptr := addr;
      EraseBlock();
      tblptr := addr;
    }

    /** Table writes; after the last byte of a block the pointer is in the next one. */
    method Put8(data: seq<byte>, ghost at: nat)
      requires Valid() && |data| == 8 && tblptr % BLOCK_SIZE == at && at + 8 <= BLOCK_SIZE
      modifies this`tblptr, holding
      ensures Valid() && tblptr == old(tblptr) + 8
      ensures holding[..at + 8] == old(holding[..at]) + data
    {
      for i := 0 to 8
        invariant Valid() && tblptr == old(tblptr) + i
        invariant holding[..at + i] == old(holding[..at]) + data[..i]
      {
        PointerIn(old(tblptr), at, i);
        holding[tblptr % BLOCK_SIZE] := data[i];
        tblptr := tblptr + 1;
      }
    }

    /** The pointer is moved back into the block, then the block is written. */
    method Commit(ghost addr: nat)
      requires Valid() && addr % BLOCK_SIZE == 0 && addr + BLOCK_SIZE <= cells.Length && tblptr == addr + BLOCK_SIZE
      requires forall k :: addr <= k < addr + BLOCK_SIZE ==> cells[k] == 0xff
      modifies this`tblptr, cells
      ensures Valid() && cells[..] == Replaced(old(cells[..]), addr, holding[..])
    {
      PointerIn(addr, 0, BLOCK_SIZE - 1);
      tblptr := tblptr - 1;
      ProgramBlock();
    }

    method Abort()
    {
    }

    /** The flash calls of write_block when the given chunks are accepted for a block. */
    method WriteBlock(block: nat, chunks: seq<seq<byte>>)
      requires Valid() && block * BLOCK_SIZE + BLOCK_SIZE <= cells.Length
      requires |chunks| <= CHUNKS && forall i :: 0 <= i < |chunks| ==> |chunks[i]| == 8
      modifies this`tblptr, holding, cells
      ensures Valid()
      ensures cells[..] == AfterErasedBlock(old(cells[..]), block, chunks)
    {
      hide Replaced, Concat;
      var addr := block * BLOCK_SIZE;
      ConcatLength(chunks);
      Begin(addr);
      ghost var erased := cells[..];
      ConcatOfNone();
      for i := 0 to |chunks|
        invariant Valid() && cells[..] == erased && tblptr == addr + 8 * i
        invariant holding[..8 * i] == Concat(chunks[..i])
      {
        PointerIn(addr, 0, 8 * i);
        Put8(chunks[i], 8 * i);
        assert chunks[..i + 1] == chunks[..i] + [chunks[i]];
        ConcatNext(chunks[..i], chunks[i]);
      }
      assert chunks[..|chunks|] == chunks;
      if |chunks| == CHUNKS {
        assert forall k :: addr <= k < addr + BLOCK_SIZE ==> cells[..][k] == 0xff;
        Commit(addr);
        assert holding[..] == holding[..8 * CHUNKS];
        ReplacedTwice(old(cells[..]), addr, Erased(BLOCK_SIZE), Concat(chunks));
      } else {
        Abort();
      }
    }
  }

  lemma ConcatOfNone()
    ensures Concat([]) == []
  {
  }

  lemma PointerIn(pointer: nat, at: nat, i: nat)
    requires pointer % BLOCK_SIZE == at && at + i < BLOCK_SIZE
    ensures (pointer + i) % BLOCK_SIZE == at + i
  {
    var block := pointer / BLOCK_SIZE;
    assert pointer + i == BLOCK_SIZE * block + (at + i);
  }

  /** A block write is what the protocol says about a page that is erased when it is started; the bootloader stays. */
  lemma ErasedBlockIsProtocolPage(flash: seq<byte>, block: nat, chunks: seq<seq<byte>>)
    requires 0xF600 <= |flash| && block < 0xF600 / 64
    requires |chunks| <= CHUNKS && forall i :: 0 <= i < |chunks| ==> |chunks[i]| == 8
    ensures var blocks, r := BOOTLOADER / BLOCK_SIZE, AfterErasedBlock(flash, block, chunks);
      && r[0xF600..] == flash[0xF600..]
      && AppPages(r, blocks)
         == AppPages(flash, blocks)[block := if |chunks| == CHUNKS then Concat(chunks) else Erased(BLOCK_SIZE)]
  {
    hide Replaced, Concat;
    ConcatLength(chunks);
    var blocks, r, data := BOOTLOADER / BLOCK_SIZE, AfterErasedBlock(flash, block, chunks),
      if |chunks| == CHUNKS then Concat(chunks) else Erased(BLOCK_SIZE);
    assert block * BLOCK_SIZE + BLOCK_SIZE <= BOOTLOADER;
    assert r == Replaced(flash, block * BLOCK_SIZE, data);
    ReplacedIsPage(flash, block, data, blocks);
    assert forall i :: BOOTLOADER <= i < |flash| ==> r[i] == flash[i];
  }
}
