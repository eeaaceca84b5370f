/**
  What a failing program costs outside a NOR partition: `hcfota_write_mtd_nor` erases the whole last
  window before it restores what lies behind the partition's end.
 */
module NorFaults {
  import opened Cells
  import opened Division
  import opened Errors
  import opened IoBuffer
  import opened NorErase
  import opened NorFlash
  import opened NorWriter

  /** The end of the last erase block that the partition meets. */
  function BlocksEnd(j: Job, e: nat): nat
    requires 0 < e
  {
    RoundUp(j.offset + j.part, e)
  }

  /** With a buffer of one erase block a run reaches exactly the erase blocks that meet the partition. */
  lemma BlockReach(j: Job, e: nat, size: nat)
    requires 0 < e && j.offset + j.part <= size && Multiple(size, e)
    ensures Reach(j, e, e, size) == BlocksEnd(j, e)
  {
    hide RoundDown;
    var f, a, end := RoundDown(j.offset, e), LeadSize(j, e), j.offset + j.part;
    Remainder(j.offset, e);
    RoundUpMultiple(j.offset, e);
    InsideMultiple(end, size, e);
    if a == 0 {
      WindowsOff(f, end, e);
    } else if a == j.part {
      WindowInside(end - f, e);
      WindowsOff(f, end, e);
    } else {
      OneMoreWindow(f, e);
      WindowsOff(f + e, end, e);
    }
  }

  /** No erase block starts between the partition's last one and the end of its last window. */
  lemma ReachIsBlocks(j: Job, e: nat, n: nat, size: nat)
    requires 0 < n && Multiple(n, e) && j.offset + j.part <= size && Multiple(size, e)
    ensures BlocksEnd(j, e) <= Reach(j, e, n, size) <= size
    ensures var x := j.part - LeadSize(j, e);
            Reach(j, e, n, size) == BlocksEnd(j, e) <==> BlocksEnd(j, e) == size || RoundUp(x, n) == RoundUp(x, e)
  {
    hide RoundDown;
    var x := j.part - LeadSize(j, e);
    BlockReach(j, e, size);
    InsideMultiple(j.offset + j.part, size, e);
    RoundUpMultiple(x, n);
    MultipleTrans(RoundUp(x, n), n, e);
    InsideMultiple(x, RoundUp(x, n), e);
  }

  /**
    The last window is rewritten, reaches behind the partition's erase blocks, and holds a programmed
    cell there.
   */
  predicate Endangered(d0: seq<Cell>, j: Job, e: nat, n: nat)
    requires 0 < n && Multiple(n, e) && j.offset + j.part <= |d0| && Multiple(|d0|, e)
  {
    ReachIsBlocks(j, e, n, |d0|);
    LastRewritten(d0, j, e, n) && !IsBlank(d0[BlocksEnd(j, e)..Reach(j, e, n, |d0|)])
  }

  /** Otherwise every programmed cell behind the partition's erase blocks is kept on every outcome. */
  lemma SafeBehind(d0: seq<Cell>, d: seq<Cell>, j: Job, e: nat, n: nat, i: nat)
    requires 0 < n && Multiple(n, e) && j.offset + j.part <= |d0| && Multiple(|d0|, e)
    requires Confined(d0, d, j, e, n) && !Endangered(d0, j, e, n)
    requires BlocksEnd(j, e) <= i < |d0| && d0[i] != ERASED
    ensures |d| == |d0| && d[i] == d0[i]
  {
    var b, hi := BlocksEnd(j, e), Reach(j, e, n, |d0|);
    BlockReach(j, e, |d0|);
    ReachIsBlocks(j, e, n, |d0|);
    hide RoundDown, LastRewritten, LeadSize, Reach;
    if i < hi {
      assert d0[b..hi][i - b] != ERASED;
    }
  }

  lemma EndangeredReach(d0: seq<Cell>, j: Job, e: nat, n: nat)
    requires 0 < n && Multiple(n, e) && j.offset + j.part <= |d0| && Multiple(|d0|, e) && Endangered(d0, j, e, n)
    ensures LeadSize(j, e) < j.part && TouchEnd(d0, j, e, n) == Reach(j, e, n, |d0|)
    ensures j.offset + j.part <= BlocksEnd(j, e) < Reach(j, e, n, |d0|) <= |d0|
    ensures !IsBlank(d0[BlocksEnd(j, e)..Reach(j, e, n, |d0|)])
  {
    BlockReach(j, e, |d0|);
    ReachIsBlocks(j, e, n, |d0|);
    hide RoundDown;
  }

  /** A programmed cell of the stretch has become 0xff. */
  lemma CellLost(d0: seq<Cell>, d: seq<Cell>, lo: nat, b: nat, hi: nat)
    requires lo <= b <= hi <= |d0| == |d| && !IsBlank(d0[b..hi]) && ErasedBetween(d, lo, hi)
    ensures ErasedBetween(d, b, hi) && exists i :: b <= i < hi && d0[i] != ERASED && d[i] == ERASED
  {
    var k :| 0 <= k < |d0[b..hi]| && d0[b..hi][k] != ERASED;
    assert d0[b + k] != ERASED;
  }

  /**
    Whenever a partition is endangered and its image can be had, one cell that cannot be programmed makes
    the writer report an error and leave a programmed cell behind the partition's erase blocks erased.
   */
  method LoseCells(d0: seq<Cell>, e: nat, w: nat, j: Job, lowMemory: bool, scratch: seq<Cell>)
    returns (flash: Device, rc: int)
    requires Multiple(e, w) && Multiple(|d0|, e) && PowerOfTwo(e) && j.offset + j.part <= |d0|
    requires |scratch| == BufferBytes(e, lowMemory) > 0 && Endangered(d0, j, e, |scratch|)
    requires j.from + Min(j.len, j.part) <= |j.image|
    ensures rc == ERR_UPGRADE && |flash.data| == |d0|
    ensures ErasedBetween(flash.data, BlocksEnd(j, e), Reach(j, e, |scratch|, |d0|))
    ensures exists i :: BlocksEnd(j, e) <= i < |d0| && d0[i] != ERASED && flash.data[i] == ERASED
  {
    hide *;
    var n := |scratch|;
    EndangeredReach(d0, j, e, n);
    ghost var b, hi := BlocksEnd(j, e), Reach(j, e, n, |d0|);
    flash := new Device(d0, e, w, Stuck({j.offset + j.part}));
    var iob := new Buffer(Memory, j.image, 0x1000);
    WorksInsideIt(flash, iob, j);
    rc := WriteMtdNor(flash, iob, j.from, j.len, j.offset, j.part, lowMemory, false, scratch);
    ConfinedSize(d0, flash.data, j, e, n);
    CellLost(d0, flash.data, j.offset + j.part, b, hi);
  }

  lemma SmallBlocks()
    ensures PowerOfTwo(0x1000) && BufferBytes(0x1000, false) == CHUNK && Multiple(CHUNK, 0x1000)
    ensures Multiple(0x1000, 256)
  {
    PowerOfChunk();
    assert PowerOfTwo(0x80);
  }

  /** One programmed cell in the first erase block, which is the partition, and one in the second. */
  function TwoCells(): (d: seq<Cell>)
    ensures |d| == CHUNK && d[0] != ERASED && d[0x1000] != ERASED
  {
    [0] + Blank(0xfff) + [0] + Blank(CHUNK - 0x1001)
  }

  lemma NotBlank(d: seq<Cell>, lo: nat, hi: nat, i: nat)
    requires lo <= i < hi <= |d| && d[i] != ERASED
    ensures !IsBlank(d[lo..hi])
  {
    assert d[lo..hi][i - lo] != ERASED;
  }

  /** A programmed cell in the last window on either side of the partition's end is enough. */
  lemma DangerAt(d0: seq<Cell>, j: Job, e: nat, n: nat, size: nat, x: nat, y: nat)
    requires 0 < n && Multiple(n, e) && j.offset + j.part <= |d0| == size && Multiple(size, e)
    requires LastWindow(j, e, n) <= x < j.offset + j.part && d0[x] != ERASED
    requires BlocksEnd(j, e) <= y < Reach(j, e, n, size) <= size && d0[y] != ERASED
    ensures Endangered(d0, j, e, n)
  {
    hide IsBlank, BlocksEnd, Reach, LastWindow, LeadSize, RoundDown;
    NotBlank(d0, LastWindow(j, e, n), j.offset + j.part, x);
    NotBlank(d0, BlocksEnd(j, e), Reach(j, e, n, size), y);
  }

  lemma TwoCellsEndangered(d0: seq<Cell>, j: Job, e: nat, n: nat)
    requires d0 == TwoCells() && j == Job(0, e, [], 0, 0) && e == 0x1000 && n == CHUNK
    ensures Multiple(n, e) && Endangered(d0, j, e, n)
    ensures BlocksEnd(j, e) == e && Reach(j, e, n, n) == n
  {
    assert e < n;
    hide *;
    SmallBlocks();
    DangerAt(d0, j, e, n, n, 0, e);
  }

  /**
    Pages of 256 bytes, erase blocks of 4 KiB, a partition that is the first block and holds one
    programmed cell, no image: after the error the programmed cell of the second block is lost.
   */
  method NeighbourLost(scratch: seq<Cell>) returns (flash: Device, rc: int)
    requires |scratch| == CHUNK
    ensures rc == ERR_UPGRADE && |flash.data| == CHUNK && TwoCells()[0x1000] != ERASED == flash.data[0x1000]
  {
    SmallBlocks();
    var j := Job(0, 0x1000, [], 0, 0);
    TwoCellsEndangered(TwoCells(), j, 0x1000, CHUNK);
    hide TwoCells, IsBlank, BlocksEnd, Reach, LeadSize, BufferBytes, PowerOfTwo, Multiple, Endangered;
    flash, rc := LoseCells(TwoCells(), 0x1000, 256, j, false, scratch);
  }
}
