/**
  The board that is upgraded, and one entry of the upgrade: `hcfota_check_block_space`,
  `hcfota_do_upgrade` and `hcfota_do_backup` of components/hcfota/source/hcfota.c.
 */
module Boards {
  import opened Cells
  import opened Entries
  import opened Errors
  import opened IoBuffer
  import opened NorFlash
  import opened Options
  import opened Persistent
  import opened RunLog
  import Nand
  import NorErase
  import NorWriter

  class Board {
    const nor: Device
    const nand: Nand.Chip
    const memory: PersistentMemory
    /** Whether allocations always succeed. */
    const ample: bool
    ghost var log: seq<Event>

    constructor (nor: Device, nand: Nand.Chip, memory: PersistentMemory, ample: bool)
      ensures this.nor == nor && this.nand == nand && this.memory == memory && this.ample == ample && log == []
    {
      this.nor, this.nand, this.memory, this.ample, log := nor, nand, memory, ample, [];
    }

    method Malloc() returns (ok: bool)
      ensures ample ==> ok
    {
      ok := *;
      ok := ok || ample;
    }

    /** Nothing can go wrong on this board: every good block and cell works, and there is memory. */
    ghost predicate FaultFree()
      reads nand`bad, nand`failing
    {
      && ample && nor.faults == Stuck({}) && nand.faults == Stuck({})
      && forall b :: b in nand.failing && b < |nand.bad| ==> nand.bad[b]
    }

    ghost predicate Valid()
      reads this, nor, nand
    {
      nor.Valid() && NorWriter.PowerOfTwo(nor.eraseSize) && nand.Valid()
    }

    ghost function Contents(): Media
      requires Valid()
      reads this, nor, nand
    {
      Storage(nor.data, nor.eraseSize, nand.blocks, nand.bad, nand.eraseSize)
    }

    method SetDoing(on: bool)
      modifies memory`node, `log
      ensures memory.works && memory.valid ==>
                && log == old(log) + [Doing(on)] && memory.node.Some? && memory.node.value.doing == on
                && (old(memory.node).Some? ==> memory.node.value.version == old(memory.node).value.version)
      ensures !memory.valid ==> log == old(log) && memory.node == old(memory.node)
      ensures log == old(log) || log == old(log) + [Doing(on)]
    {
      var rc := memory.SetDoing(on);
      if rc == 0 {
        log := log + [Doing(on)];
      }
    }

    method SetVersion(v: nat)
      modifies memory`node, `log
      ensures old(memory.Readable()) ==>
                && log == old(log) + [Version(v)] && memory.node.Some? && memory.node.value.version == v
                && memory.node.value.doing == old(memory.node).value.doing
      ensures log == old(log) || log == old(log) + [Version(v)]
    {
      var rc := memory.SetVersion(v);
      if rc == 0 {
        log := log + [Version(v)];
      }
    }

    method MarkInvalid()
      modifies memory`valid, `log
      ensures memory.works ==> !memory.valid
      ensures log == old(log) + [Invalidated]
    {
      memory.MarkInvalid();
      log := log + [Invalidated];
    }
  }

  // ---- the check before an upgrade

  /** `hcfota_good_block_space`; the answer of an eMMC device is not modelled. */
  method GoodBlockSpace(board: Board, dev: DevType, offset: nat, len: nat) returns (space: nat)
    requires board.Valid() && Inside(Range(dev, offset, len), board.Contents())
    ensures !dev.Emmc? ==> space == Room(Range(dev, offset, len), board.Contents())
  {
    hide Nand.GoodBytes;
    match dev
    case SpiNor => space := len;
    case AnyNand => space := Nand.GoodBlockSpace(board.nand, offset, len);
    case Emmc => space := *;
    case Unsupported => space := 0;
  }

  /** `hcfota_check_block_space` lets an entry pass exactly when there is room for it. */
  method CheckBlockSpace(board: Board, e: Entry, ghost image: seq<Cell>) returns (rc: int)
    requires board.Valid() && (e.enabled ==> Admissible(e, board.Contents(), image))
    ensures rc == 0 || rc == ERR_UPGRADE
    ensures !e.enabled ==> rc == 0
    ensures e.enabled && e.OtherType? ==> rc == ERR_UPGRADE
    ensures e.enabled && e.Normal? && !e.dev.Emmc? ==> (rc == 0 <==> e.length <= Room(Target(e), board.Contents()))
    ensures e.enabled && e.Remap? && !e.dev.Emmc? ==>
              (rc == 0 <==> Room(Source(e), board.Contents()) <= Room(Target(e), board.Contents()))
  {
    hide Room, Inside, WholeBlocks;
    rc := ERR_UPGRADE;
    if !e.enabled {
      return 0;
    }
    match e
    case Normal(_, dev, offset, room, _, length) =>
      var space := GoodBlockSpace(board, dev, offset, room);
      rc := if space < length then ERR_UPGRADE else 0;
    case Remap(_, oldDev, oldOffset, oldLength, dev, offset, room) =>
      var oldSpace := GoodBlockSpace(board, oldDev, oldOffset, oldLength);
      var space := GoodBlockSpace(board, dev, offset, room);
      rc := if space < oldSpace then ERR_UPGRADE else 0;
    case OtherType(_, _, _, _) =>
  }

  // ---- one entry

  /** Writing to the range of `e` changes one device and is confined, whatever comes of it. */
  twostate predicate Wrote(board: Board, r: Range)
    reads board, board.nor, board.nand
  {
    && old(board.Valid()) && board.Valid() && board.nor.clean == old(board.nor.clean)
    && OnlyReached(r, old(board.Contents()), board.Contents())
  }

  lemma SameReach(j: NorWriter.Job, k: NorWriter.Job, e: nat, n: nat, size: nat)
    requires j.offset == k.offset && j.part == k.part && 0 < e && 0 < n
    ensures NorWriter.Reach(j, e, n, size) == NorWriter.Reach(k, e, n, size)
  {
  }

  lemma NorReached(r: Range, m0: Media, m: Media, j: NorWriter.Job, lowMemory: bool)
    requires r.dev.SpiNor? && r.offset == j.offset && r.room == j.part && j.offset + j.part <= |m0.nor|
    requires m == m0.(nor := m.nor)
    requires NorWriter.Confined(m0.nor, m.nor, j, m0.norErase, NorWriter.BufferBytes(m0.norErase, lowMemory))
    ensures OnlyReached(r, m0, m)
    ensures KeptOutside(m0.nor, m.nor, j.offset, j.offset + j.part) ==> OnlyIn(r, m0, m)
  {
    hide NorWriter.BufferBytes, NorWriter.Confined;
    NorWriter.FullBufferReach(m0.nor, m.nor, j, m0.norErase, lowMemory);
    SameReach(j, NorWriter.Job(r.offset, r.room, [], 0, 0), m0.norErase, NorWriter.BufferBytes(m0.norErase, false),
              |m0.nor|);
  }

  /** Without faults the writer works as far as it likes. */
  lemma NorWorks(flash: Device, iob: Buffer, j: NorWriter.Job, hi: nat)
    requires 0 < flash.eraseSize && flash.faults == Stuck({}) && NorWriter.Available(iob, j)
    ensures NorWriter.WorksTo(flash, iob, j, hi)
  {
  }

  lemma NorSizes(board: Board)
    requires board.Valid()
    ensures 0 < board.nor.eraseSize && board.nor.Valid() && NorWriter.PowerOfTwo(board.nor.eraseSize)
  {
  }

  /** The NOR writer with the buffers that can be had. */
  method WriteNor(board: Board, iob: Buffer, from: nat, len: nat, offset: nat, room: nat) returns (rc: int)
    requires board.Valid() && iob.Valid() && from <= |iob.image| && offset + room <= |board.nor.data|
    modifies board.nor, iob`len, iob`pos, iob`offset, iob.buf
    ensures iob.Valid() && Wrote(board, Range(SpiNor, offset, room))
    ensures rc == ERR_UPGRADE || rc == Min(len, room)
    ensures rc != ERR_UPGRADE ==>
              && OnlyIn(Range(SpiNor, offset, room), old(board.Contents()), board.Contents())
              && NorWriter.ImageWritten(board.nor.data, NorWriter.Job(offset, room, iob.image, from, len), rc)
    ensures board.ample && board.nor.faults == Stuck({}) && iob.Delivers(Min(len, room), from) ==> rc == Min(len, room)
  {
    hide Multiple, Buffer.Valid, NorErase.ErasedBetween, NorWriter.RestErased, NorWriter.Confined, KeptOutside;
    hide NorWriter.PowerOfTwo, NorWriter.BufferBytes, NorWriter.WorksTo, NorWriter.WorksInside, NorWriter.TouchEnd;
    hide OnlyReached, OnlyIn, NorWriter.ImageWritten;
    ghost var m0 := board.Contents();
    NorSizes(board);
    ghost var j := NorWriter.Job(offset, room, iob.image, from, len);
    var large := board.Malloc();
    var second := board.Malloc();
    var scratch := Unknown(NorWriter.BufferBytes(board.nor.eraseSize, !large));
    if board.nor.faults == Stuck({}) && iob.Delivers(Min(len, room), from) && |scratch| > 0 {
      NorWorks(board.nor, iob, j, NorWriter.TouchEnd(board.nor.data, j, board.nor.eraseSize, |scratch|));
    }
    rc := NorWriter.WriteMtdNor(board.nor, iob, from, len, offset, room, !large, !second, scratch);
    NorReached(Range(SpiNor, offset, room), m0, board.Contents(), j, !large);
  }

  lemma NorStored(e: Entry, m: Media, j: NorWriter.Job)
    requires e.Normal? && e.dev.SpiNor? && j == NorWriter.Job(e.offset, e.room, j.image, From(e), e.length)
    requires e.length <= e.room && NorWriter.ImageWritten(m.nor, j, e.length)
    ensures Stored(e, m, j.image)
  {
    PartAt(e, j.image, e.length);
  }

  /** A normal entry on NOR flash. */
  method UpgradeNor(board: Board, iob: Buffer, e: Entry) returns (rc: int)
    requires board.Valid() && iob.Valid() && e.Normal? && e.dev.SpiNor?
    requires Checked(e, board.Contents(), iob.image)
    modifies board.nor, iob`len, iob`pos, iob`offset, iob.buf
    ensures iob.Valid() && Wrote(board, Target(e))
    ensures rc == 0 ==> OnlyIn(Target(e), old(board.Contents()), board.Contents())
    ensures rc == 0 ==> Stored(e, board.Contents(), iob.image)
    ensures board.ample && board.nor.faults == Stuck({}) && iob.Delivers(e.length, From(e)) ==> rc == 0
  {
    hide Multiple, Buffer.Valid, OnlyReached, OnlyIn, NorWriter.ImageWritten, NorWriter.PowerOfTwo, Stored;
    rc := WriteNor(board, iob, From(e), e.length, e.offset, e.room);
    if rc == e.length {
      NorStored(e, board.Contents(), NorWriter.Job(e.offset, e.room, iob.image, From(e), e.length));
      rc := 0;
    }
  }

  /** All blocks of a range are bad or worn out. */
  ghost predicate NoneLeft(r: Range, m: Media, failing: set<nat>)
    requires HasBlocks(r, m)
  {
    Nand.AllGone(m.bad, failing, r.offset / m.nandErase, r.room / m.nandErase)
  }

  /** Every block of the range that is neither bad nor worn out can be programmed. */
  predicate NandWorks(r: Range, m: Media, faults: Faults, failing: set<nat>)
    requires HasBlocks(r, m)
  {
    Nand.Programs(faults, m.bad, failing, r.offset / m.nandErase, r.room / m.nandErase)
  }

  function NandRoom(r: Range, m: Media, failing: set<nat>): nat
    requires HasBlocks(r, m)
  {
    Nand.Capacity(m.bad, failing, r.offset / m.nandErase, r.room / m.nandErase, m.nandErase)
  }

  /** What is too short cannot hold the image part. */
  lemma ShortHolds(g: seq<Cell>, image: seq<Cell>, from: nat, n: nat)
    ensures |g| < n ==> !Nand.Holds(g, image, from, n)
  {
  }

  /** A normal entry on NAND flash: the 0 of a writer that found no good block is taken for success. */
  method UpgradeNand(board: Board, iob: Buffer, e: Entry) returns (rc: int)
    requires board.Valid() && iob.Valid() && e.Normal? && e.dev.AnyNand?
    requires Checked(e, board.Contents(), iob.image)
    modifies board.nand`blocks, board.nand`bad, iob`len, iob`pos, iob`offset, iob.buf
    ensures iob.Valid() && Wrote(board, Target(e))
    ensures rc == 0 ==> OnlyIn(Target(e), old(board.Contents()), board.Contents())
    ensures rc == 0 ==> (Stored(e, board.Contents(), iob.image) <==> !Lost(e, board.Contents()))
    ensures rc != ERR_UPGRADE ==>
              && HasBlocks(Target(e), old(board.Contents()))
              && (Lost(e, board.Contents()) <==>
                    e.length > 0 && NoneLeft(Target(e), old(board.Contents()), board.nand.failing))
              && (rc == 0 <==> Lost(e, board.Contents()) || Stored(e, board.Contents(), iob.image))
    ensures Nand.OnlyWorn(old(board.nand.bad), board.nand.bad, board.nand.failing)
    ensures HasBlocks(Target(e), old(board.Contents()))
    ensures board.ample && NandWorks(Target(e), old(board.Contents()), board.nand.faults, board.nand.failing) ==>
              var room := NandRoom(Target(e), old(board.Contents()), board.nand.failing);
              iob.Delivers(Min(e.length, room), From(e)) ==>
                rc != ERR_UPGRADE && (rc == 0 <==> e.length <= room || room == 0)
  {
    hide Multiple, Buffer.Valid, Nand.GoodBytes, Nand.Holds, NorWriter.PowerOfTwo, Nand.AllGone, Nand.Capacity;
    hide Nand.Programs;
    Nand.RangeInside(e.offset, e.room, board.nand.eraseSize, |board.nand.blocks|);
    var enough := board.Malloc();
    rc := Nand.WriteMtdNand(board.nand, iob, From(e), e.length, e.offset, e.room, !enough);
    if rc != ERR_UPGRADE {
      HoldsPart(e, Held(Target(e), board.Contents()), iob.image);
      ShortHolds(Held(Target(e), board.Contents()), iob.image, From(e), e.length);
    }
    if rc == e.length {
      rc := 0;
    }
  }

  predicate OnFlash(dev: DevType) {
    dev.SpiNor? || dev.AnyNand?
  }

  lemma LongImage(e: Entry, m: Media, image: seq<Cell>)
    requires e.Normal? && Checked(e, m, image)
    ensures From(e) <= |image| && |image| >= 64 + 1024 && WholeBlocks(Target(e), m)
    ensures e.dev.AnyNand? ==> HasBlocks(Target(e), m)
  {
    if e.dev.AnyNand? {
      Nand.RangeInside(e.offset, e.room, m.nandErase, |m.blocks|);
    }
  }

  /** When only bad blocks are worn out, the room is that of the good blocks, and all of them work. */
  lemma RoomIsAll(r: Range, m: Media, failing: set<nat>)
    requires HasBlocks(r, m) && forall b :: 0 <= b < |m.blocks| ==> |m.blocks[b]| == m.nandErase
    requires forall b :: b in failing && b < |m.bad| ==> m.bad[b]
    ensures NandRoom(r, m, failing) == |Held(r, m)| && NandWorks(r, m, Stuck({}), failing)
  {
    hide Nand.GoodBytes, Nand.Capacity;
    var first, n := r.offset / m.nandErase, r.room / m.nandErase;
    Nand.NothingRetired(m.bad, failing, first, n);
    Nand.CapacityIsHeld(m.blocks, m.bad, m.bad, failing, first, n, n, m.nandErase);
  }

  /**
    `hcfota_do_upgrade`: 0 means that the image part is in its place, unless the NAND range has lost all its
    blocks, which happens exactly when each of them was bad or worn out and there are bytes to store.
   */
  method DoUpgrade(board: Board, iob: Buffer, e: Entry) returns (rc: int)
    requires board.Valid() && iob.Valid() && e.Normal?
    requires e.enabled ==> Checked(e, board.Contents(), iob.image)
    modifies board`log, board.nor, board.nand`blocks, board.nand`bad, iob`len, iob`pos, iob`offset, iob.buf
    ensures iob.Valid() && Wrote(board, Target(e))
    ensures board.log == old(board.log) || board.log == old(board.log) + [Flash]
    ensures board.log == old(board.log) ==> board.Contents() == old(board.Contents())
    ensures rc == 0 ==> OnlyIn(Target(e), old(board.Contents()), board.Contents())
    ensures !e.enabled ==> rc == 0 && board.log == old(board.log)
    ensures e.enabled && rc == 0 ==>
              !e.dev.Unsupported? && (Stored(e, board.Contents(), iob.image) <==> !Lost(e, board.Contents()))
    ensures e.enabled && rc == 0 && e.dev.AnyNand? ==>
              && HasBlocks(Target(e), old(board.Contents()))
              && (Lost(e, board.Contents()) <==>
                    e.length > 0 && NoneLeft(Target(e), old(board.Contents()), board.nand.failing))
    ensures Nand.OnlyWorn(old(board.nand.bad), board.nand.bad, board.nand.failing)
    ensures e.enabled && old(board.FaultFree()) && OnFlash(e.dev) && iob.Delivers(e.length, From(e)) ==>
              e.length <= Room(Target(e), old(board.Contents())) ==> rc == 0
  {
    hide NorWriter.PowerOfTwo, Buffer.Valid, NoneLeft, Admissible, Reaches, NandWorks, NandRoom;
    rc := ERR_UPGRADE;
    if !e.enabled {
      return 0;
    }
    LongImage(e, board.Contents(), iob.image);
    if board.FaultFree() && e.dev.AnyNand? {
      RoomIsAll(Target(e), board.Contents(), board.nand.failing);
    }
    match e.dev
    case SpiNor =>
      board.log := board.log + [Flash];
      rc := UpgradeNor(board, iob, e);
    case AnyNand =>
      board.log := board.log + [Flash];
      rc := UpgradeNand(board, iob, e);
    case Emmc =>
      board.log := board.log + [Flash];
      rc := *;
    case Unsupported =>
  }

  /** One byte of image for a device of one worn-out block. */
  lemma OneWornBlock(e: Entry, m: Media, image: seq<Cell>)
    requires m == Storage([], 1, [[0]], [false], 1) && |image| == From(Normal(true, AnyNand, 0, 1, 0, 1)) + 1
    requires e == Normal(true, AnyNand, 0, 1, 0, 1)
    ensures Checked(e, m, image) && e.length > 0 && HasBlocks(Target(e), m) && NoneLeft(Target(e), m, {0})
    ensures NandWorks(Target(e), m, Stuck({}), {0}) && NandRoom(Target(e), m, {0}) == 0
  {
  }

  /** That entry, with nothing else that fails: 0 is returned and nothing is stored. */
  method LostEntry() returns (board: Board, e: Entry, image: seq<Cell>, rc: int)
    ensures board.Valid() && e.Normal? && e.enabled && e.length == 1
    ensures rc == 0 && !Stored(e, board.Contents(), image)
  {
    hide Checked, Stored, Lost, NoneLeft, OnlyReached, NandWorks, NandRoom;
    var nor := new Device([], 1, 1, Stuck({}));
    var nand := new Nand.Chip([[0]], [false], {0}, 1, Stuck({}));
    var memory := new PersistentMemory(true, None);
    board := new Board(nor, nand, memory, true);
    e, image := Normal(true, AnyNand, 0, 1, 0, 1), Blank(HEADER_SIZE + PAYLOAD_HEADER_SIZE + 1);
    var iob := new Buffer(Memory, image, 0x1000);
    OneWornBlock(e, board.Contents(), image);
    rc := UpgradeNand(board, iob, e);
  }

  // ---- moving data inside a device

  /** What a backup writer has left behind. */
  ghost predicate Copied(r: Range, m: Media, bytes: seq<Cell>) {
    match r.dev
    case SpiNor =>
      |bytes| <= r.room && r.offset + |bytes| <= |m.nor| && m.nor[r.offset..r.offset + |bytes|] == bytes
    case AnyNand => HasBlocks(r, m) && Nand.Holds(Held(r, m), bytes, 0, |bytes|)
    case _ => true
  }

  lemma CopiedNor(r: Range, m: Media, j: NorWriter.Job)
    requires r.dev.SpiNor? && r.offset == j.offset && r.room == j.part && j.from == 0 && j.len == |j.image| <= j.part
    requires NorWriter.ImageWritten(m.nor, j, j.len)
    ensures Copied(r, m, j.image)
  {
  }

  /** The NOR part of a backup. */
  method BackupNor(board: Board, iob: Buffer, e: Entry, len: nat) returns (rc: int)
    requires board.Valid() && iob.Valid() && len == |iob.image|
    requires e.Remap? && e.enabled && e.dev.SpiNor? && Inside(Target(e), board.Contents())
    modifies board.nor, iob`len, iob`pos, iob`offset, iob.buf
    ensures Wrote(board, Target(e))
    ensures rc == len ==>
              && OnlyIn(Target(e), old(board.Contents()), board.Contents())
              && Copied(Target(e), board.Contents(), iob.image)
    ensures board.ample && board.nor.faults == Stuck({}) && iob.kind == Memory ==> rc == Min(len, e.room)
  {
    hide Multiple, Buffer.Valid, OnlyReached, OnlyIn, NorWriter.ImageWritten, NorWriter.PowerOfTwo, Copied;
    rc := WriteNor(board, iob, 0, len, e.offset, e.room);
    if rc == len {
      CopiedNor(Target(e), board.Contents(), NorWriter.Job(e.offset, e.room, iob.image, 0, len));
    }
  }

  method WriteBackup(board: Board, iob: Buffer, e: Entry, len: nat) returns (rc: int)
    requires board.Valid() && iob.Valid() && iob.kind == Memory && len == |iob.image|
    requires e.Remap? && e.enabled && Inside(Target(e), board.Contents()) && WholeBlocks(Target(e), board.Contents())
    modifies board`log, board.nor, board.nand`blocks, board.nand`bad, iob`len, iob`pos, iob`offset, iob.buf
    ensures Wrote(board, Target(e))
    ensures board.log == old(board.log) || board.log == old(board.log) + [Flash]
    ensures board.log == old(board.log) ==> board.Contents() == old(board.Contents())
    ensures rc == 0 ==>
              && OnlyIn(Target(e), old(board.Contents()), board.Contents())
              && Copied(Target(e), board.Contents(), iob.image)
    ensures Nand.OnlyWorn(old(board.nand.bad), board.nand.bad, board.nand.failing)
    ensures old(board.FaultFree()) && OnFlash(e.dev) ==> (rc == 0 <==> len <= Room(Target(e), old(board.Contents())))
  {
    hide Multiple, Buffer.Valid, Nand.GoodBytes, Nand.Holds, NorWriter.PowerOfTwo, Nand.AllGone, Reaches;
    hide Nand.Capacity, Nand.Programs;
    if e.dev.AnyNand? {
      Nand.RangeInside(e.offset, e.room, board.nand.eraseSize, |board.nand.blocks|);
      if board.FaultFree() {
        RoomIsAll(Target(e), board.Contents(), board.nand.failing);
      }
    }
    rc := ERR_UPGRADE;
    match e.dev {
      case SpiNor =>
        board.log := board.log + [Flash];
        rc := BackupNor(board, iob, e, len);
      case AnyNand =>
        board.log := board.log + [Flash];
        var enough := board.Malloc();
        rc := Nand.WriteMtdNand(board.nand, iob, 0, len, e.offset, e.room, !enough);
      case Emmc =>
        board.log := board.log + [Flash];
        rc := *;
      case Unsupported =>
    }
    rc := if rc == len then 0 else ERR_UPGRADE;
  }

  /** What has been read from the old range is what the new one holds. */
  lemma CopiedIsBackup(e: Entry, m0: Media, m: Media, bytes: seq<Cell>)
    requires e.Remap? && e.dev == e.oldDev && Copied(Target(e), m, bytes)
    requires e.dev.SpiNor? ==>
               e.oldOffset + e.oldLength <= |m0.nor| && bytes == m0.nor[e.oldOffset..e.oldOffset + e.oldLength]
    requires e.dev.AnyNand? ==> HasBlocks(Source(e), m0) && bytes == Held(Source(e), m0)
    ensures BackedUp(e, m0, m)
  {
    hide Nand.GoodBytes, Nand.Holds;
  }

  /** Reads the old range; 0 when that fails. */
  method ReadOld(board: Board, e: Entry) returns (len: nat, buf: seq<Cell>)
    requires board.Valid() && e.Remap? && Inside(Source(e), board.Contents())
    requires WholeBlocks(Source(e), board.Contents())
    ensures len != 0 ==> len == |buf|
    ensures len != 0 && e.oldDev.SpiNor? ==>
              e.oldOffset + e.oldLength <= |board.nor.data|
              && buf == board.nor.data[e.oldOffset..e.oldOffset + e.oldLength]
    ensures len != 0 && e.oldDev.AnyNand? ==>
              HasBlocks(Source(e), board.Contents()) && buf == Held(Source(e), board.Contents())
    ensures board.FaultFree() && OnFlash(e.oldDev) ==> len == Room(Source(e), board.Contents())
    ensures e.oldDev.Unsupported? ==> len == 0
  {
    hide Nand.GoodBytes;
    len, buf := 0, [];
    match e.oldDev {
      case SpiNor =>
        var r;
        r, buf := board.nor.Read(e.oldOffset, e.oldLength);
        len := if r == e.oldLength then e.oldLength else 0;
      case AnyNand =>
        len, buf := Nand.ReadMtdNand(board.nand, e.oldOffset, e.oldLength);
      case Emmc =>
        len := *;
        buf := Blank(len);
      case Unsupported =>
    }
  }

  /** `hcfota_do_backup` between two ranges of one device. */
  method DoBackup(board: Board, e: Entry, ghost image: seq<Cell>) returns (rc: int)
    requires board.Valid() && e.Remap? && (e.enabled ==> Admissible(e, board.Contents(), image))
    modifies board`log, board.nor, board.nand`blocks, board.nand`bad
    ensures Wrote(board, Target(e))
    ensures board.log == old(board.log) || board.log == old(board.log) + [Flash]
    ensures board.log == old(board.log) ==> board.Contents() == old(board.Contents())
    ensures rc == 0 ==> OnlyIn(Target(e), old(board.Contents()), board.Contents())
    ensures !e.enabled ==> rc == 0 && board.log == old(board.log)
    ensures e.enabled && rc == 0 ==> BackedUp(e, old(board.Contents()), board.Contents())
    ensures Nand.OnlyWorn(old(board.nand.bad), board.nand.bad, board.nand.failing)
    ensures e.enabled && old(board.FaultFree()) && OnFlash(e.dev) ==>
              (rc == 0 <==> 0 < Room(Source(e), old(board.Contents())) <= Room(Target(e), old(board.Contents())))
    ensures e.enabled && e.dev.Unsupported? ==> rc != 0
  {
    hide Multiple, Nand.GoodBytes, Nand.Holds, NorWriter.PowerOfTwo, Buffer.Valid, Copied, BackedUp, Reaches;
    ghost var m0 := board.Contents();
    if !e.enabled {
      return 0;
    }
    var enough := board.Malloc();
    if !enough {
      return -ENOMEM;
    }
    var len, buf := ReadOld(board, e);
    if len == 0 {
      return ERR_UPGRADE;
    }
    enough := board.Malloc();
    if !enough {
      return ERR_UPGRADE;
    }
    var iob := new Buffer(Memory, buf, 0x1000);
    rc := WriteBackup(board, iob, e, len);
    if rc == 0 {
      CopiedIsBackup(e, m0, board.Contents(), buf);
    }
  }
}
