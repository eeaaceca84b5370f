/**
  The NAND side of components/hcfota/source/hcfota.c: `hcfota_write_mtd_nand`,
  `hcfota_read_mtd_nand` and `hcfota_good_block_space`.  Ranges are whole erase blocks; blocks may be
  bad from the start, and any erase may fail, which retires its block for good.
 */
module Nand {
  import opened Cells
  import opened Division
  import opened Errors
  import opened IoBuffer
  import opened NorFlash

  class Chip {
    const eraseSize: nat
    /** Anything may fail; or only programming certain blocks, and erasing those that are worn out. */
    const faults: Faults
    /** The cells, one sequence for each erase block. */
    var blocks: seq<seq<Cell>>
    var bad: seq<bool>
    /** The worn-out blocks: erasing one of these fails. */
    var failing: set<nat>

    ghost predicate Valid()
      reads this
    {
      && 0 < eraseSize && |blocks| == |bad|
      && forall b :: 0 <= b < |blocks| ==> |blocks[b]| == eraseSize
    }

    constructor (blocks: seq<seq<Cell>>, bad: seq<bool>, failing: set<nat>, eraseSize: nat, faults: Faults)
      requires 0 < eraseSize && |blocks| == |bad| && forall b :: 0 <= b < |blocks| ==> |blocks[b]| == eraseSize
      ensures Valid() && this.blocks == blocks && this.bad == bad
      ensures this.failing == failing && this.eraseSize == eraseSize && this.faults == faults
    {
      this.blocks, this.bad, this.failing, this.eraseSize, this.faults := blocks, bad, failing, eraseSize, faults;
    }

    /** Time passes: any blocks may be worn out now, unless nothing unforeseen can fail. */
    method Age()
      modifies this`failing
      ensures faults.Stuck? ==> failing == old(failing)
    {
      if faults.Anything? {
        failing := *;
      }
    }

    /** MTD_BLOCK_ISBAD; a block beyond the device gets any answer. */
    method IsBad(b: nat) returns (r: bool)
      requires Valid()
      ensures b < |bad| ==> r == bad[b]
    {
      if b < |bad| {
        r := bad[b];
      } else {
        r := *;
      }
    }

    /** MTD_ERASE of one block; a failure leaves anything in it. */
    method Erase(b: nat) returns (rc: int)
      requires Valid() && b < |blocks|
      modifies this`blocks
      ensures Valid() && (rc == 0 <==> b !in failing)
      ensures |blocks| == |old(blocks)| && blocks == old(blocks)[b := blocks[b]]
      ensures rc == 0 ==> blocks[b] == Blank(eraseSize)
    {
      rc := if b in failing then -1 else 0;
      var cells := Blank(eraseSize);
      if rc != 0 {
        cells := Unknown(eraseSize);
      }
      blocks := blocks[b := cells];
    }

    /** MTD_ERASE of the whole device; nothing is promised about the worn-out blocks. */
    method EraseAll() returns (rc: int)
      requires Valid()
      modifies this`blocks
      ensures Valid() && |blocks| == |old(blocks)|
      ensures forall b :: 0 <= b < |blocks| && b !in failing ==> blocks[b] == Blank(eraseSize)
      ensures rc == 0 <==> forall b :: 0 <= b < |blocks| ==> b !in failing
    {
      rc := 0;
      for b := 0 to |blocks|
        invariant Valid() && |blocks| == |old(blocks)|
        invariant forall i :: 0 <= i < b && i !in failing ==> blocks[i] == Blank(eraseSize)
        invariant rc == 0 <==> forall i :: 0 <= i < b ==> i !in failing
      {
        var rc1 := Erase(b);
        rc := if rc1 != 0 then rc1 else rc;
      }
    }

    /** MTD_BLOCK_MARKBAD */
    method MarkBad(b: nat)
      requires Valid() && b < |bad|
      modifies this`bad
      ensures Valid() && bad == old(bad)[b := true]
    {
      bad := bad[b := true];
    }

    /** MTD_BWRITE of all pages of a block: programming clears bits. */
    method WriteBlock(b: nat, bytes: seq<Cell>) returns (ok: bool)
      requires Valid() && b < |blocks| && |bytes| == eraseSize
      modifies this`blocks
      ensures Valid()
      ensures |blocks| == |old(blocks)| && blocks == old(blocks)[b := blocks[b]]
      ensures ok ==> blocks[b] == And(old(blocks)[b], bytes)
      ensures faults.Stuck? ==> (ok <==> b !in faults.cells)
    {
      ok := *;
      if faults.Stuck? {
        ok := b !in faults.cells;
      }
      var cells := And(blocks[b], bytes);
      if !ok {
        cells := Unknown(eraseSize);
      }
      blocks := blocks[b := cells];
    }

    /** MTD_BREAD of all pages of a block. */
    method ReadBlock(b: nat) returns (ok: bool, bytes: seq<Cell>)
      requires Valid() && b < |blocks|
      ensures |bytes| == eraseSize && (ok ==> bytes == blocks[b]) && (faults.Stuck? ==> ok)
    {
      ok := *;
      ok := ok || faults.Stuck?;
      bytes := blocks[b];
      if !ok {
        bytes := Unknown(eraseSize);
      }
    }
  }

  /** What a range of `n` blocks from block `first` on holds: its good blocks, one after the other. */
  function GoodBytes(blocks: seq<seq<Cell>>, bad: seq<bool>, first: nat, n: nat): seq<Cell>
    requires first + n <= |blocks| == |bad|
    decreases n
  {
    if n == 0 then []
    else
      var b := first + n - 1;
      GoodBytes(blocks, bad, first, n - 1) + (if bad[b] then [] else blocks[b])
  }

  lemma GoodNext(blocks: seq<seq<Cell>>, bad: seq<bool>, first: nat, k: nat)
    requires first + k <= |blocks| == |bad|
    ensures GoodBytes(blocks, bad, first, 0) == []
    ensures var g := GoodBytes(blocks, bad, first, k);
            first + k < |bad| ==>
                GoodBytes(blocks, bad, first, k + 1) == if bad[first + k] then g else g + blocks[first + k]
  {
  }

  /** Every block of the range is bad or worn out. */
  ghost predicate AllGone(bad: seq<bool>, failing: set<nat>, first: nat, n: nat)
    requires first + n <= |bad|
  {
    forall b :: first <= b < first + n ==> bad[b] || b in failing
  }

  /** The room for data in `n` blocks of `e` bytes: those that are neither bad nor worn out. */
  function Capacity(bad: seq<bool>, failing: set<nat>, first: nat, n: nat, e: nat): nat
    requires first + n <= |bad|
  {
    if n == 0 then 0
    else
      var b := first + n - 1;
      Capacity(bad, failing, first, n - 1, e) + (if bad[b] || b in failing then 0 else e)
  }

  lemma {:induction false} CapacityGrows(bad: seq<bool>, failing: set<nat>, first: nat, k: nat, n: nat, e: nat)
    requires k <= n && first + n <= |bad|
    ensures Capacity(bad, failing, first, k, e) <= Capacity(bad, failing, first, n, e)
  {
    if k < n {
      CapacityGrows(bad, failing, first, k, n - 1, e);
    }
  }

  /** A block that is neither takes part. */
  lemma CapacityAt(bad: seq<bool>, failing: set<nat>, first: nat, k: nat, n: nat, e: nat)
    requires k < n && first + n <= |bad| && !bad[first + k] && first + k !in failing
    ensures Capacity(bad, failing, first, k, e) + e <= Capacity(bad, failing, first, n, e)
  {
    CapacityGrows(bad, failing, first, k + 1, n, e);
  }

  /** Exactly the worn-out ones of the first `k` blocks of the range have been retired. */
  ghost predicate Retired(bad0: seq<bool>, bad: seq<bool>, failing: set<nat>, first: nat, k: nat) {
    && |bad| == |bad0|
    && forall b :: 0 <= b < |bad| ==> (bad[b] <==> bad0[b] || (first <= b < first + k && b in failing))
  }

  lemma {:induction false} CapacityIsHeld(blocks: seq<seq<Cell>>, bad0: seq<bool>, bad: seq<bool>, failing: set<nat>,
                                          first: nat, k: nat, n: nat, e: nat)
    requires Retired(bad0, bad, failing, first, n) && k <= n && first + n <= |blocks| == |bad|
    requires forall b :: 0 <= b < |blocks| ==> |blocks[b]| == e
    ensures |GoodBytes(blocks, bad, first, k)| == Capacity(bad0, failing, first, k, e)
    decreases k
  {
    if k > 0 {
      CapacityIsHeld(blocks, bad0, bad, failing, first, k - 1, n, e);
    }
  }

  /** Without blocks that wear out, the room is what the good blocks hold. */
  lemma NothingRetired(bad: seq<bool>, failing: set<nat>, first: nat, n: nat)
    requires first + n <= |bad| && forall b :: first <= b < first + n && b in failing ==> bad[b]
    ensures Retired(bad, bad, failing, first, n)
  {
  }

  /** Every block of the range that is neither bad nor worn out can be programmed, and nothing else fails. */
  predicate Programs(faults: Faults, bad: seq<bool>, failing: set<nat>, first: nat, n: nat)
    requires first + n <= |bad|
  {
    faults.Stuck? && forall b :: first <= b < first + n && !bad[b] && b !in failing ==> b !in faults.cells
  }

  lemma RetiredStep(bad0: seq<bool>, bad: seq<bool>, bad': seq<bool>, failing: set<nat>, first: nat, k: nat)
    requires Retired(bad0, bad, failing, first, k) && first + k < |bad| == |bad'|
    requires forall b :: 0 <= b < |bad| && b != first + k ==> bad'[b] == bad[b]
    requires bad'[first + k] <==> bad[first + k] || first + k in failing
    ensures Retired(bad0, bad', failing, first, k + 1)
  {
  }

  /** A range holds nothing exactly when all its blocks are bad. */
  lemma {:induction false} NothingHeld(blocks: seq<seq<Cell>>, bad: seq<bool>, first: nat, n: nat)
    requires first + n <= |blocks| == |bad| && forall b :: 0 <= b < |blocks| ==> blocks[b] != []
    ensures GoodBytes(blocks, bad, first, n) == [] <==> forall b :: first <= b < first + n ==> bad[b]
    decreases n
  {
    if n > 0 {
      NothingHeld(blocks, bad, first, n - 1);
    }
  }

  lemma RetiredGone(blocks: seq<seq<Cell>>, bad0: seq<bool>, bad: seq<bool>, failing: set<nat>, first: nat, n: nat)
    requires Retired(bad0, bad, failing, first, n) && first + n <= |blocks| == |bad|
    requires forall b :: 0 <= b < |blocks| ==> blocks[b] != []
    ensures GoodBytes(blocks, bad, first, n) == [] <==> AllGone(bad0, failing, first, n)
  {
    hide GoodBytes;
    NothingHeld(blocks, bad, first, n);
  }

  /** Only the blocks of the range matter. */
  lemma {:induction false} GoodBytesSame(blocks: seq<seq<Cell>>, bad: seq<bool>, blocks': seq<seq<Cell>>,
                                         bad': seq<bool>, first: nat, n: nat)
    requires first + n <= |blocks| == |bad| && |blocks'| == |blocks| && |bad'| == |bad|
    requires forall b :: first <= b < first + n ==> bad'[b] == bad[b] && (!bad[b] ==> blocks'[b] == blocks[b])
    ensures GoodBytes(blocks', bad', first, n) == GoodBytes(blocks, bad, first, n)
    decreases n
  {
    if n > 0 {
      GoodBytesSame(blocks, bad, blocks', bad', first, n - 1);
    }
  }

  /** `g` starts with `n` bytes of the image and is erased from there on. */
  ghost predicate Holds(g: seq<Cell>, image: seq<Cell>, from: nat, n: nat) {
    n <= |g| && from + n <= |image| && g[..n] == image[from..from + n] && IsBlank(g[n..])
  }

  /** The counters of the NAND writer. */
  datatype Counters = Counters(offset: nat, part: nat, len: nat, iobOff: nat, written: nat)

  /** `len` bytes of the image from `from` on go to `count` blocks from block `first` on. */
  datatype Job = Job(image: seq<Cell>, from: nat, len: nat, first: nat, count: nat)

  /** `offset` is the address of block `first + k`, and `left` the size of what is left of `count` blocks. */
  ghost predicate At(offset: nat, left: nat, e: nat, first: nat, count: nat, k: nat) {
    k <= count && offset == (first + k) * e && left == (count - k) * e
  }

  /** `k` blocks of the range are done: they hold what has been written, and are full while more is to come. */
  ghost predicate Writing(blocks: seq<seq<Cell>>, bad: seq<bool>, e: nat, j: Job, k: nat, c: Counters) {
    && At(c.offset, c.part, e, j.first, j.count, k) && j.first + j.count <= |blocks| == |bad|
    && c.written + c.len == j.len && c.iobOff == j.from + c.written
    && Holds(GoodBytes(blocks, bad, j.first, k), j.image, j.from, c.written)
    && (c.len > 0 ==> c.written == |GoodBytes(blocks, bad, j.first, k)|)
  }

  ghost predicate OthersKept(blocks0: seq<seq<Cell>>, bad0: seq<bool>, blocks: seq<seq<Cell>>, bad: seq<bool>,
                             first: nat, count: nat) {
    && |blocks| == |blocks0| == |bad0| == |bad|
    && (forall b :: 0 <= b < |blocks| && (b < first || first + count <= b) ==>
          blocks[b] == blocks0[b] && bad[b] == bad0[b])
    && (forall b :: 0 <= b < |bad| && bad0[b] ==> bad[b])
  }

  /** Only worn-out blocks have been retired. */
  ghost predicate OnlyWorn(bad0: seq<bool>, bad: seq<bool>, failing: set<nat>) {
    && |bad| == |bad0| && (forall b :: 0 <= b < |bad| && bad0[b] ==> bad[b])
    && forall b :: 0 <= b < |bad| && bad[b] ==> bad0[b] || b in failing
  }

  lemma NoneWorn(bad0: seq<bool>, bad: seq<bool>, failing: set<nat>)
    requires OnlyWorn(bad0, bad, failing) && forall b :: b in failing && b < |bad0| ==> bad0[b]
    ensures bad == bad0
  {
    forall b | 0 <= b < |bad| ensures bad[b] == bad0[b] {
    }
  }

  lemma Addressed(offset: nat, left: nat, e: nat, first: nat, count: nat, k: nat)
    requires 0 < e && At(offset, left, e, first, count, k)
    ensures k <= count && (left > 0 <==> k < count)
    ensures k < count ==> offset / e == first + k && left >= e && At(offset + e, left - e, e, first, count, k + 1)
  {
    if k < count {
      DivisionUnique(offset, e, first + k, 0);
      SmallestMultiple(count - k, e);
      assert (count - k) * e == (count - (k + 1)) * e + e;
      assert (first + k) * e + e == (first + (k + 1)) * e;
    }
  }

  /** A bad block is skipped. */
  lemma SkipStep(blocks: seq<seq<Cell>>, bad: seq<bool>, blocks': seq<seq<Cell>>, bad': seq<bool>, e: nat, j: Job,
                 k: nat, c: Counters)
    requires Writing(blocks, bad, e, j, k, c) && k < j.count && 0 < e
    requires |blocks'| == |blocks| && |bad'| == |bad| && bad'[j.first + k]
    requires forall b :: 0 <= b < |blocks| && b != j.first + k ==> blocks'[b] == blocks[b] && bad'[b] == bad[b]
    requires c.part >= e
    ensures Writing(blocks', bad', e, j, k + 1, c.(offset := c.offset + e, part := c.part - e))
  {
    Addressed(c.offset, c.part, e, j.first, j.count, k);
    GoodBytesSame(blocks, bad, blocks', bad', j.first, k);
    assert GoodBytes(blocks', bad', j.first, k + 1) == GoodBytes(blocks, bad, j.first, k) + [];
  }

  lemma HoldsStep(g: seq<Cell>, j: Job, c: Counters, bytes: seq<Cell>, e: nat)
    requires Holds(g, j.image, j.from, c.written) && (c.len > 0 ==> c.written == |g|)
    requires |bytes| == Min(c.len, e) && j.from + c.written + |bytes| <= |j.image|
    requires bytes == j.image[j.from + c.written..j.from + c.written + |bytes|]
    ensures Holds(g + (bytes + Blank(e - |bytes|)), j.image, j.from, c.written + |bytes|)
    ensures c.len > |bytes| ==> c.written + |bytes| == |g + (bytes + Blank(e - |bytes|))|
  {
    var g', n := g + (bytes + Blank(e - |bytes|)), c.written + |bytes|;
    if c.len > 0 {
      assert g[..|g|] == g && g'[..n] == g + bytes;
      assert j.image[j.from..j.from + n] == j.image[j.from..j.from + c.written] + bytes;
      assert g'[n..] == Blank(e - |bytes|);
    } else {
      assert bytes == [] && g'[..n] == g[..n];
      assert g'[n..] == g[n..] + Blank(e);
    }
  }

  /** A good block takes the next bytes of the image, or stays erased when the image is used up. */
  lemma StoreStep(blocks: seq<seq<Cell>>, bad: seq<bool>, blocks': seq<seq<Cell>>, e: nat, j: Job,
                  k: nat, c: Counters, bytes: seq<Cell>, c': Counters)
    requires Writing(blocks, bad, e, j, k, c) && k < j.count && 0 < e && c.part >= e
    requires |blocks'| == |blocks| && !bad[j.first + k]
    requires forall b :: 0 <= b < |blocks| && b != j.first + k ==> blocks'[b] == blocks[b]
    requires |bytes| == Min(c.len, e) && c.iobOff + |bytes| <= |j.image|
    requires bytes == j.image[c.iobOff..c.iobOff + |bytes|]
    requires blocks'[j.first + k] == bytes + Blank(e - |bytes|)
    requires c' == Counters(c.offset + e, c.part - e, c.len - |bytes|, c.iobOff + |bytes|, c.written + |bytes|)
    ensures Writing(blocks', bad, e, j, k + 1, c')
  {
    hide At, Holds, Min;
    Addressed(c.offset, c.part, e, j.first, j.count, k);
    GoodBytesSame(blocks, bad, blocks', bad, j.first, k);
    var g := GoodBytes(blocks, bad, j.first, k);
    assert GoodBytes(blocks', bad, j.first, k + 1) == g + blocks'[j.first + k];
    HoldsStep(g, j, c, bytes, e);
  }

  lemma AndBlank(b: seq<Cell>)
    ensures And(Blank(|b|), b) == b
  {
  }

  /** Erases a good block and stores the next bytes; a failing erase retires the block. */
  method WriteGoodBlock(nand: Chip, iob: Buffer, ghost j: Job, ghost k: nat, c: Counters)
    returns (ok: bool, c': Counters)
    requires nand.Valid() && iob.Valid() && k < j.count && j.image == iob.image
    requires Writing(nand.blocks, nand.bad, nand.eraseSize, j, k, c) && !nand.bad[j.first + k]
    modifies nand`blocks, nand`bad, iob`len, iob`pos, iob`offset, iob.buf
    ensures nand.Valid() && iob.Valid()
    ensures |nand.blocks| == |old(nand.blocks)|
    ensures forall b :: 0 <= b < |nand.blocks| && b != j.first + k ==>
              nand.blocks[b] == old(nand.blocks)[b] && nand.bad[b] == old(nand.bad)[b]
    ensures nand.bad[j.first + k] <==> j.first + k in nand.failing
    ensures ok ==> Writing(nand.blocks, nand.bad, nand.eraseSize, j, k + 1, c')
    ensures j.first + k in nand.failing ==> ok
    ensures nand.faults.Stuck? && j.first + k !in nand.faults.cells ==>
              iob.Delivers(Min(c.len, nand.eraseSize), c.iobOff) ==> ok
  {
    hide At, GoodBytes, Buffer.Valid, And;
    ghost var blocks0, bad0 := nand.blocks, nand.bad;
    var e := nand.eraseSize;
    Addressed(c.offset, c.part, e, j.first, j.count, k);
    var startblock := c.offset / e;
    var rc := nand.Erase(startblock);
    if rc != 0 {
      nand.MarkBad(startblock);
      SkipStep(blocks0, bad0, nand.blocks, nand.bad, e, j, k, c);
      return true, c.(offset := c.offset + e, part := c.part - e);
    }
    var copied := Min(c.len, e);
    var bytes := [];
    if c.len > 0 {
      bytes := iob.Read(copied, c.iobOff);
      if |bytes| != copied {
        return false, c;
      }
      var buf := bytes + Blank(e - copied);
      ok := nand.WriteBlock(startblock, buf);
      if !ok {
        return false, c;
      }
      AndBlank(buf);
    } else {
      assert bytes + Blank(e) == Blank(e);
    }
    c' := Counters(c.offset + e, c.part - e, c.len - copied, c.iobOff + copied, c.written + copied);
    StoreStep(blocks0, bad0, nand.blocks, e, j, k, c, bytes, c');
    ok := true;
  }

  lemma RangeInside(offset: nat, part: nat, e: nat, blocks: nat)
    requires Multiple(offset, e) && Multiple(part, e) && offset + part <= blocks * e
    ensures offset / e + part / e <= blocks
    ensures At(offset, part, e, offset / e, part / e, 0)
  {
  }

  /** A round that skips the block at `offset`. */
  method SkipBad(nand: Chip, ghost j: Job, ghost k: nat, c: Counters) returns (bad: bool, c': Counters)
    requires nand.Valid() && k < j.count && Writing(nand.blocks, nand.bad, nand.eraseSize, j, k, c)
    ensures bad == nand.bad[j.first + k]
    ensures bad ==> Writing(nand.blocks, nand.bad, nand.eraseSize, j, k + 1, c')
  {
    hide At, GoodBytes, Holds;
    var e := nand.eraseSize;
    Addressed(c.offset, c.part, e, j.first, j.count, k);
    bad := nand.IsBad(c.offset / e);
    c' := c;
    if bad {
      SkipStep(nand.blocks, nand.bad, nand.blocks, nand.bad, e, j, k, c);
      c' := c.(offset := c.offset + e, part := c.part - e);
    }
  }

  /** The first loop: bad blocks at the start of the range. */
  method SkipLeading(nand: Chip, ghost j: Job, c0: Counters) returns (c: Counters, ghost k: nat)
    requires nand.Valid() && Writing(nand.blocks, nand.bad, nand.eraseSize, j, 0, c0)
    ensures k <= j.count && j.first + j.count <= |nand.blocks|
    ensures Writing(nand.blocks, nand.bad, nand.eraseSize, j, k, c)
    ensures forall b :: j.first <= b < j.first + k ==> nand.bad[b]
  {
    hide At, GoodBytes, Holds;
    var e := nand.eraseSize;
    c, k := c0, 0;
    Addressed(c.offset, c.part, e, j.first, j.count, k);
    var bad := nand.IsBad(c.offset / e);
    while bad && c.part > 0
      invariant Writing(nand.blocks, nand.bad, e, j, k, c)
      invariant k <= j.count && (k < j.count ==> bad == nand.bad[j.first + k])
      invariant forall b :: j.first <= b < j.first + k ==> nand.bad[b]
      decreases c.part
    {
      Addressed(c.offset, c.part, e, j.first, j.count, k);
      SkipStep(nand.blocks, nand.bad, nand.blocks, nand.bad, e, j, k, c);
      c := c.(offset := c.offset + e, part := c.part - e);
      k := k + 1;
      Addressed(c.offset, c.part, e, j.first, j.count, k);
      bad := nand.IsBad(c.offset / e);
    }
  }

  /** One round of the main loop. */
  method WriteBlockOrSkip(nand: Chip, iob: Buffer, ghost j: Job, ghost k: nat, c: Counters)
    returns (ok: bool, c': Counters)
    requires nand.Valid() && iob.Valid() && k < j.count && j.image == iob.image
    requires Writing(nand.blocks, nand.bad, nand.eraseSize, j, k, c)
    modifies nand`blocks, nand`bad, iob`len, iob`pos, iob`offset, iob.buf
    ensures nand.Valid() && iob.Valid()
    ensures |nand.blocks| == |old(nand.blocks)|
    ensures forall b :: 0 <= b < |nand.blocks| && b != j.first + k ==>
              nand.blocks[b] == old(nand.blocks)[b] && nand.bad[b] == old(nand.bad)[b]
    ensures nand.bad[j.first + k] <==> old(nand.bad)[j.first + k] || j.first + k in nand.failing
    ensures ok ==> Writing(nand.blocks, nand.bad, nand.eraseSize, j, k + 1, c')
    ensures old(nand.bad)[j.first + k] || j.first + k in nand.failing ==> ok
    ensures nand.faults.Stuck? && j.first + k !in nand.faults.cells ==>
              iob.Delivers(Min(c.len, nand.eraseSize), c.iobOff) ==> ok
  {
    hide GoodBytes, Holds;
    var bad;
    bad, c' := SkipBad(nand, j, k, c);
    if bad {
      ok := true;
    } else {
      ok, c' := WriteGoodBlock(nand, iob, j, k, c);
    }
  }

  lemma InRange(blocks: seq<seq<Cell>>, bad: seq<bool>, e: nat, j: Job, k: nat, c: Counters)
    requires Writing(blocks, bad, e, j, k, c)
    ensures At(c.offset, c.part, e, j.first, j.count, k) && k <= j.count && j.first + j.count <= |blocks| == |bad|
  {
  }

  /** While not all room is used, the bytes for the next block can be had. */
  lemma NextDelivered(iob: Buffer, blocks: seq<seq<Cell>>, bad0: seq<bool>, bad: seq<bool>, failing: set<nat>, e: nat,
                      j: Job, k: nat, c: Counters)
    requires Writing(blocks, bad, e, j, k, c) && k < j.count && Retired(bad0, bad, failing, j.first, k)
    requires forall b :: 0 <= b < |blocks| ==> |blocks[b]| == e
    requires !bad0[j.first + k] && j.first + k !in failing
    requires j.image == iob.image
    requires iob.Delivers(Min(j.len, Capacity(bad0, failing, j.first, j.count, e)), j.from)
    ensures iob.Delivers(Min(c.len, e), c.iobOff)
  {
    hide GoodBytes, At, Capacity;
    CapacityIsHeld(blocks, bad0, bad, failing, j.first, k, k, e);
    CapacityAt(bad0, failing, j.first, k, j.count, e);
  }

  /** The main loop. */
  method WriteBlocks(nand: Chip, iob: Buffer, ghost j: Job, ghost k0: nat, c0: Counters) returns (ok: bool, c: Counters)
    requires nand.Valid() && iob.Valid() && j.image == iob.image
    requires Writing(nand.blocks, nand.bad, nand.eraseSize, j, k0, c0)
    requires j.first + j.count <= |nand.bad| && forall b :: j.first <= b < j.first + k0 ==> nand.bad[b]
    modifies nand`blocks, nand`bad, iob`len, iob`pos, iob`offset, iob.buf
    ensures nand.Valid() && iob.Valid()
    ensures OthersKept(old(nand.blocks), old(nand.bad), nand.blocks, nand.bad, j.first, j.count)
    ensures OnlyWorn(old(nand.bad), nand.bad, nand.failing)
    ensures ok ==> Writing(nand.blocks, nand.bad, nand.eraseSize, j, j.count, c)
    ensures ok ==> Retired(old(nand.bad), nand.bad, nand.failing, j.first, j.count)
    ensures Programs(nand.faults, old(nand.bad), nand.failing, j.first, j.count) ==>
              var room := Capacity(old(nand.bad), nand.failing, j.first, j.count, nand.eraseSize);
              iob.Delivers(Min(j.len, room), j.from) ==> ok
  {
    hide At, GoodBytes, Holds, Buffer.Valid, Buffer.Delivers, Capacity, Writing;
    ghost var k := k0;
    c, ok := c0, true;
    InRange(nand.blocks, nand.bad, nand.eraseSize, j, k, c);
    Addressed(c.offset, c.part, nand.eraseSize, j.first, j.count, k);
    ghost var room := Min(j.len, Capacity(nand.bad, nand.failing, j.first, j.count, nand.eraseSize));
    while c.part > 0
      invariant nand.Valid() && iob.Valid()
      invariant Writing(nand.blocks, nand.bad, nand.eraseSize, j, k, c)
      invariant k <= j.count && (c.part > 0 <==> k < j.count)
      invariant OthersKept(old(nand.blocks), old(nand.bad), nand.blocks, nand.bad, j.first, j.count)
      invariant Retired(old(nand.bad), nand.bad, nand.failing, j.first, k)
      decreases j.count - k
    {
      ghost var bad := nand.bad;
      if !old(nand.bad)[j.first + k] && j.first + k !in nand.failing && iob.Delivers(room, j.from) {
        NextDelivered(iob, nand.blocks, old(nand.bad), bad, nand.failing, nand.eraseSize, j, k, c);
      }
      ok, c := WriteBlockOrSkip(nand, iob, j, k, c);
      if !ok {
        return;
      }
      RetiredStep(old(nand.bad), bad, nand.bad, nand.failing, j.first, k);
      k := k + 1;
      InRange(nand.blocks, nand.bad, nand.eraseSize, j, k, c);
      Addressed(c.offset, c.part, nand.eraseSize, j.first, j.count, k);
    }
    ok := true;
  }

  lemma NothingWritten(blocks: seq<seq<Cell>>, bad: seq<bool>, j: Job)
    requires j.first <= |blocks| == |bad| && j.from <= |j.image|
    ensures GoodBytes(blocks, bad, j.first, 0) == [] && Holds([], j.image, j.from, 0)
  {
  }

  lemma HoldsLength(g: seq<Cell>, image: seq<Cell>, from: nat, n: nat)
    requires Holds(g, image, from, n)
    ensures n <= |g|
  {
  }

  /**
    `hcfota_write_mtd_nand`.  Unless an error is returned, the good blocks of the range, taken one
    after the other, hold as much of the image as they have room for and are erased behind it,
    whichever blocks were bad and whichever erases failed; exactly the blocks whose erase failed have
    been retired.  So nothing is stored, without an error, exactly when every block of the range was bad
    or worn out.  Blocks outside the range are untouched on every outcome.  No error is returned when there is
    memory, the bytes that have room can be had, and every block that is neither bad nor worn out can be
    programmed, whatever other blocks are retired on the way.
   */
  method WriteMtdNand(nand: Chip, iob: Buffer, iobOff: nat, len: nat, offset: nat, part: nat, outOfMemory: bool)
    returns (rc: int)
    requires nand.Valid() && iob.Valid() && iobOff <= |iob.image|
    requires Multiple(offset, nand.eraseSize) && Multiple(part, nand.eraseSize)
    requires offset + part <= |nand.blocks| * nand.eraseSize
    modifies nand`blocks, nand`bad, iob`len, iob`pos, iob`offset, iob.buf
    ensures nand.Valid() && iob.Valid()
    ensures OthersKept(old(nand.blocks), old(nand.bad), nand.blocks, nand.bad, offset / nand.eraseSize,
                       part / nand.eraseSize)
    ensures OnlyWorn(old(nand.bad), nand.bad, nand.failing)
    ensures var first, count := offset / nand.eraseSize, part / nand.eraseSize;
            rc != ERR_UPGRADE ==>
              && first + count <= |nand.blocks| && Retired(old(nand.bad), nand.bad, nand.failing, first, count)
              && var g := GoodBytes(nand.blocks, nand.bad, first, count);
                 && rc == Min(len, |g|) && Holds(g, iob.image, iobOff, rc)
                 && |g| == Capacity(old(nand.bad), nand.failing, first, count, nand.eraseSize)
                 && (g == [] <==> AllGone(old(nand.bad), nand.failing, first, count))
    ensures outOfMemory ==> rc == ERR_UPGRADE
    ensures var first, count := offset / nand.eraseSize, part / nand.eraseSize;
            && first + count <= |old(nand.bad)|
            && var room := Capacity(old(nand.bad), nand.failing, first, count, nand.eraseSize);
               !outOfMemory && Programs(nand.faults, old(nand.bad), nand.failing, first, count) &&
               iob.Delivers(Min(len, room), iobOff) ==>
                 rc == Min(len, room)
  {
    hide Multiple, GoodBytes, Holds, Capacity, Programs;
    RangeInside(offset, part, nand.eraseSize, |nand.blocks|);
    if outOfMemory {
      return ERR_UPGRADE;
    }
    ghost var j := Job(iob.image, iobOff, len, offset / nand.eraseSize, part / nand.eraseSize);
    NothingWritten(nand.blocks, nand.bad, j);
    var c, k := SkipLeading(nand, j, Counters(offset, part, len, iobOff, 0));
    var ok;
    ok, c := WriteBlocks(nand, iob, j, k, c);
    if !ok {
      return ERR_UPGRADE;
    }
    HoldsLength(GoodBytes(nand.blocks, nand.bad, j.first, j.count), j.image, iobOff, c.written);
    RetiredGone(nand.blocks, old(nand.bad), nand.bad, nand.failing, j.first, j.count);
    CapacityIsHeld(nand.blocks, old(nand.bad), nand.bad, nand.failing, j.first, j.count, j.count, nand.eraseSize);
    rc := c.written;
  }

  lemma ChipSizes(nand: Chip)
    requires nand.Valid()
    ensures 0 < nand.eraseSize && |nand.blocks| == |nand.bad|
  {
  }

  /** The two loops of the reader over `count` blocks from block `first` on. */
  method ReadBlocks(nand: Chip, offset: nat, len: nat, ghost first: nat, ghost count: nat)
    returns (rc: nat, out: seq<Cell>)
    requires nand.Valid() && first + count <= |nand.blocks| && At(offset, len, nand.eraseSize, first, count, 0)
    ensures rc == 0 || (rc == |out| && out == GoodBytes(nand.blocks, nand.bad, first, count))
    ensures nand.faults.Stuck? ==> rc == |out| && out == GoodBytes(nand.blocks, nand.bad, first, count)
  {
    hide At, GoodBytes, Chip.Valid;
    var e := nand.eraseSize;
    ghost var k := 0;
    var off, remaining := offset, len;
    ChipSizes(nand);
    Addressed(off, remaining, e, first, count, k);
    GoodNext(nand.blocks, nand.bad, first, k);
    out := [];
    var bad := nand.IsBad(off / e);
    while bad && remaining > 0
      invariant k <= count && At(off, remaining, e, first, count, k)
      invariant out == GoodBytes(nand.blocks, nand.bad, first, k)
      invariant k < count ==> bad == nand.bad[first + k]
      decreases remaining
    {
      Addressed(off, remaining, e, first, count, k);
      GoodNext(nand.blocks, nand.bad, first, k);
      off, remaining, k := off + e, remaining - e, k + 1;
      Addressed(off, remaining, e, first, count, k);
      bad := nand.IsBad(off / e);
    }
    while remaining > 0
      invariant k <= count && At(off, remaining, e, first, count, k)
      invariant out == GoodBytes(nand.blocks, nand.bad, first, k)
      decreases remaining
    {
      Addressed(off, remaining, e, first, count, k);
      GoodNext(nand.blocks, nand.bad, first, k);
      bad := nand.IsBad(off / e);
      if !bad {
        var ok, bytes := nand.ReadBlock(off / e);
        if !ok {
          return 0, [];
        }
        out := out + bytes;
      }
      off, remaining, k := off + e, remaining - e, k + 1;
    }
    Addressed(off, remaining, e, first, count, k);
    rc := |out|;
  }

  /** `hcfota_read_mtd_nand`: the good blocks of the range; 0 when a read fails. */
  method ReadMtdNand(nand: Chip, offset: nat, len: nat) returns (rc: nat, out: seq<Cell>)
    requires nand.Valid()
    requires Multiple(offset, nand.eraseSize) && Multiple(len, nand.eraseSize)
    requires offset + len <= |nand.blocks| * nand.eraseSize
    ensures offset / nand.eraseSize + len / nand.eraseSize <= |nand.blocks|
    ensures rc == 0 ||
            (rc == |out| && out == GoodBytes(nand.blocks, nand.bad, offset / nand.eraseSize, len / nand.eraseSize))
    ensures nand.faults.Stuck? ==>
              rc == |GoodBytes(nand.blocks, nand.bad, offset / nand.eraseSize, len / nand.eraseSize)|
  {
    hide Multiple, At, GoodBytes;
    RangeInside(offset, len, nand.eraseSize, |nand.blocks|);
    rc, out := ReadBlocks(nand, offset, len, offset / nand.eraseSize, len / nand.eraseSize);
  }

  /**
    What has been written can be read back: if all of the image was stored, reading the same range
    gives the image followed by erased bytes only, whatever was bad before and whatever went bad.  All of it
    is stored and read back when it fits and nothing but worn-out blocks fails.
   */
  method WriteThenRead(nand: Chip, iob: Buffer, iobOff: nat, len: nat, offset: nat, part: nat, outOfMemory: bool)
    returns (written: int, read: nat, out: seq<Cell>)
    requires nand.Valid() && iob.Valid() && iobOff <= |iob.image|
    requires Multiple(offset, nand.eraseSize) && Multiple(part, nand.eraseSize)
    requires offset + part <= |nand.blocks| * nand.eraseSize
    modifies nand`blocks, nand`bad, iob`len, iob`pos, iob`offset, iob.buf
    ensures written == len && read > 0 ==>
              && iobOff + len <= |iob.image| && read == |out| >= len
              && out[..len] == iob.image[iobOff..iobOff + len] && IsBlank(out[len..])
    ensures var first, count := offset / nand.eraseSize, part / nand.eraseSize;
            && first + count <= |old(nand.bad)|
            && var room := Capacity(old(nand.bad), nand.failing, first, count, nand.eraseSize);
               !outOfMemory && Programs(nand.faults, old(nand.bad), nand.failing, first, count) &&
               len <= room && iob.Delivers(len, iobOff) ==>
                 written == len && read == room
  {
    hide Multiple, GoodBytes, Capacity;
    written := WriteMtdNand(nand, iob, iobOff, len, offset, part, outOfMemory);
    read, out := ReadMtdNand(nand, offset, part);
  }

  method CountBad(nand: Chip, offset: nat, len: nat, ghost first: nat, ghost count: nat) returns (badLen: nat)
    requires nand.Valid() && first + count <= |nand.blocks| && At(offset, len, nand.eraseSize, first, count, 0)
    ensures badLen + |GoodBytes(nand.blocks, nand.bad, first, count)| == len
  {
    hide At, GoodBytes;
    var e := nand.eraseSize;
    ghost var k := 0;
    var off, remaining := offset, len;
    badLen := 0;
    Addressed(off, remaining, e, first, count, k);
    GoodNext(nand.blocks, nand.bad, first, k);
    while remaining > 0
      invariant k <= count && At(off, remaining, e, first, count, k)
      invariant badLen + |GoodBytes(nand.blocks, nand.bad, first, k)| == len - remaining
      decreases remaining
    {
      Addressed(off, remaining, e, first, count, k);
      GoodNext(nand.blocks, nand.bad, first, k);
      var bad := nand.IsBad(off / e);
      if bad {
        badLen := badLen + e;
      }
      off, remaining, k := off + e, remaining - e, k + 1;
    }
    Addressed(off, remaining, e, first, count, k);
  }

  /**
    `hcfota_good_block_space` for a NAND device: nothing for a range that is not whole blocks,
    otherwise the size of its good blocks.
   */
  method GoodBlockSpace(nand: Chip, offset: nat, len: nat) returns (space: nat)
    requires nand.Valid() && offset + len <= |nand.blocks| * nand.eraseSize
    ensures !Multiple(offset, nand.eraseSize) || !Multiple(len, nand.eraseSize) ==> space == 0
    ensures Multiple(offset, nand.eraseSize) && Multiple(len, nand.eraseSize) ==>
              && offset / nand.eraseSize + len / nand.eraseSize <= |nand.blocks|
              && space == |GoodBytes(nand.blocks, nand.bad, offset / nand.eraseSize, len / nand.eraseSize)|
  {
    var e := nand.eraseSize;
    if offset % e != 0 || len % e != 0 {
      return 0;
    }
    RangeInside(offset, len, e, |nand.blocks|);
    var badLen := CountBad(nand, offset, len, offset / e, len / e);
    space := if len > badLen then len - badLen else 0;
  }

  /** The room found by `GoodBlockSpace` is there while no block of the range goes bad. */
  lemma {:induction false} RoomKept(blocks: seq<seq<Cell>>, bad: seq<bool>, blocks': seq<seq<Cell>>, bad': seq<bool>,
                                    first: nat, n: nat, e: nat)
    requires first + n <= |blocks| == |bad| && |blocks'| == |blocks| && |bad'| == |bad|
    requires forall b :: 0 <= b < |blocks| ==> |blocks[b]| == |blocks'[b]| == e
    requires forall b :: first <= b < first + n ==> bad'[b] == bad[b]
    ensures |GoodBytes(blocks', bad', first, n)| == |GoodBytes(blocks, bad, first, n)|
    decreases n
  {
    if n > 0 {
      RoomKept(blocks, bad, blocks', bad', first, n - 1, e);
    }
  }

  /**
    The check before an upgrade is enough: when the image fits into the good blocks and none of them is
    worn out, all of it is stored unless an error is reported, and none is when nothing else fails.
   */
  method CheckThenWrite(nand: Chip, iob: Buffer, iobOff: nat, len: nat, offset: nat, part: nat, outOfMemory: bool)
    returns (space: nat, rc: int)
    requires nand.Valid() && iob.Valid() && iobOff <= |iob.image|
    requires Multiple(offset, nand.eraseSize) && Multiple(part, nand.eraseSize)
    requires offset + part <= |nand.blocks| * nand.eraseSize
    modifies nand`blocks, nand`bad, iob`len, iob`pos, iob`offset, iob.buf
    ensures var first, count := offset / nand.eraseSize, part / nand.eraseSize;
            && first + count <= |old(nand.bad)|
            && (len <= space && (forall b :: first <= b < first + count && b in nand.failing ==> old(nand.bad)[b]) ==>
                  && (rc == len || rc == ERR_UPGRADE)
                  && (!outOfMemory && Programs(nand.faults, old(nand.bad), nand.failing, first, count) ==>
                        iob.Delivers(len, iobOff) ==> rc == len))
  {
    hide Multiple, GoodBytes, Holds, Capacity, Programs;
    ghost var blocks0, bad0 := nand.blocks, nand.bad;
    ghost var first, count := offset / nand.eraseSize, part / nand.eraseSize;
    RangeInside(offset, part, nand.eraseSize, |nand.blocks|);
    space := GoodBlockSpace(nand, offset, part);
    if forall b :: first <= b < first + count && b in nand.failing ==> bad0[b] {
      NothingRetired(bad0, nand.failing, first, count);
      CapacityIsHeld(blocks0, bad0, bad0, nand.failing, first, count, count, nand.eraseSize);
    }
    rc := WriteMtdNand(nand, iob, iobOff, len, offset, part, outOfMemory);
  }
}
