/**
  Writing an image into a NOR partition of any alignment: `hcfota_write_mtd_nor` of
  components/hcfota/source/hcfota.c and `hcfota_program_nor` of
  components/applications/apps-spinandwr/source/main.c, which shares its code.
 */
module NorWriter {
  import opened Cells
  import opened Division
  import opened Errors
  import opened IoBuffer
  import opened NorErase
  import opened NorFlash
  import opened Slices

  const CHUNK := 0x10000

  /** The counters of the writer. */
  datatype Counters = Counters(src: nat, dst: nat, toff: nat, iobOff: nat, eraseOff: nat, written: nat)

  /** A partition `[offset, offset + part)` and the `len` bytes of the image that go to its start. */
  datatype Job = Job(offset: nat, part: nat, image: seq<Cell>, from: nat, len: nat)

  // ---- how far each step gets, in terms of the sizes alone

  /** The counters after `used` cells have been rewritten, `copied` of them with bytes of the image. */
  function Moved(c: Counters, copied: nat, used: nat): Counters
    requires copied <= c.src && used <= c.dst
  {
    Counters(c.src - copied, c.dst - used, c.toff + copied, c.iobOff + copied, c.eraseOff + used, c.written + copied)
  }

  function Start(j: Job): Counters {
    Counters(j.len, j.part, j.offset, j.from, j.offset, 0)
  }

  /** How much of the partition lies in the erase block that it starts inside of. */
  function LeadSize(j: Job, e: nat): (n: nat)
    requires 0 < e
    ensures n <= j.part && n < e
  {
    if j.offset % e == 0 then 0 else Min(j.part, e - j.offset % e)
  }

  function AfterLead(j: Job, e: nat): Counters
    requires 0 < e
  {
    Moved(Start(j), Min(j.len, LeadSize(j, e)), LeadSize(j, e))
  }

  /** The image bytes behind the leading fragment. */
  function ImageLeft(j: Job, e: nat): (m: nat)
    requires 0 < e
    ensures m == Min(AfterLead(j, e).src, AfterLead(j, e).dst)
  {
    Min(j.len, j.part) - Min(j.len, LeadSize(j, e))
  }

  function AfterChunks(j: Job, e: nat, n: nat): Counters
    requires 0 < e && 0 < n
  {
    var x := RoundDown(ImageLeft(j, e), n);
    Moved(AfterLead(j, e), x, x)
  }

  /** Where the erase loop starts: behind the last window with image bytes, or at the partition's end. */
  function LoopStart(j: Job, e: nat, n: nat): (at: nat)
    requires 0 < e && 0 < n
    ensures j.offset + Min(j.len, j.part) <= at <= j.offset + j.part
  {
    Min(j.offset + j.part, j.offset + LeadSize(j, e) + RoundUp(ImageLeft(j, e), n))
  }

  /** The partition ends inside the erase block that it starts inside of. */
  predicate InsideOneBlock(j: Job, e: nat)
    requires 0 < e
  {
    j.offset % e != 0 && LeadSize(j, e) == j.part
  }

  /**
    The end of what a run may touch: the erase block of a partition that lies inside one, else the end
    of the last window of `n` cells that meets the partition, which may lie behind it.
   */
  function Reach(j: Job, e: nat, n: nat, size: nat): nat
    requires 0 < e && 0 < n
  {
    if InsideOneBlock(j, e) then RoundDown(j.offset, e) + e
    else Min(size, j.offset + LeadSize(j, e) + RoundUp(j.part - LeadSize(j, e), n))
  }

  /** Where the partition's last, partial window of `n` cells starts, or its end when it has none. */
  function LastWindow(j: Job, e: nat, n: nat): (r: nat)
    requires 0 < e && 0 < n
    ensures j.offset + LeadSize(j, e) <= r <= j.offset + j.part < r + n + LeadSize(j, e)
  {
    j.offset + LeadSize(j, e) + RoundDown(j.part - LeadSize(j, e), n)
  }

  /** Bytes of the image go to the last window. */
  predicate ImageInLast(j: Job, e: nat, n: nat)
    requires 0 < e && 0 < n
  {
    LastWindow(j, e, n) < j.offset + Min(j.len, j.part)
  }

  /** The last window is erased and programmed: for bytes of the image, or for cells that are not blank. */
  predicate LastRewritten(d0: seq<Cell>, j: Job, e: nat, n: nat)
    requires 0 < e && 0 < n && j.offset + j.part <= |d0|
  {
    var r, end := LastWindow(j, e, n), j.offset + j.part;
    ImageInLast(j, e, n) || (r < end && !IsBlank(d0[r..end]))
  }

  /** How far the steps that write the image may go. */
  function ImageReach(j: Job, e: nat, n: nat, size: nat): (hi: nat)
    requires 0 < e && 0 < n
  {
    if InsideOneBlock(j, e) || ImageInLast(j, e, n) then Reach(j, e, n, size) else j.offset + j.part
  }

  /** How far the whole run may go on a device that held `d0`. */
  function TouchEnd(d0: seq<Cell>, j: Job, e: nat, n: nat): (hi: nat)
    requires 0 < e && 0 < n && j.offset + j.part <= |d0|
  {
    if InsideOneBlock(j, e) || LastRewritten(d0, j, e, n) then Reach(j, e, n, |d0|) else j.offset + j.part
  }

  lemma WindowInside(x: nat, e: nat)
    requires 0 < x <= e
    ensures RoundUp(x, e) == e
  {
    DivisionUnique(e, e, 1, 0);
    Whole(e, e);
    hide RoundDown;
  }

  lemma InsideMultiple(x: nat, size: nat, e: nat)
    requires Multiple(size, e) && x <= size
    ensures RoundUp(x, e) <= size
  {
    hide RoundDown;
    Whole(size, e);
    if x < size && RoundDown(x, e) < x {
      RoundUpMultiple(x, e);
      NextMultiple(RoundDown(x, e), size, e);
    }
  }

  lemma OneMoreWindow(x: nat, n: nat)
    requires Multiple(x, n)
    ensures Multiple(x + n, n)
  {
    DivisionUnique(n, n, 1, 0);
    MultipleSum(x, n, n);
  }

  // ---- what the cells are

  ghost predicate ImageWritten(d: seq<Cell>, j: Job, n: nat) {
    j.from + n <= |j.image| && Shows(d, j.offset, j.image[j.from..j.from + n])
  }

  /**
    Between two steps: so much of the image is written, from there up to `eraseOff` all is erased, and
    nothing else has changed.
   */
  ghost predicate Progress(d0: seq<Cell>, d: seq<Cell>, j: Job, c: Counters) {
    && KeptOutside(d0, d, j.offset, c.eraseOff) && j.offset + j.part <= |d|
    && ImageWritten(d, j, c.written) && ErasedBetween(d, c.toff, c.eraseOff)
    && c.written + c.src == j.len
    && c.toff == j.offset + c.written && c.iobOff == j.from + c.written
    && c.toff <= c.eraseOff && c.eraseOff + c.dst == j.offset + j.part
    && (c.src > 0 ==> c.toff == c.eraseOff)
  }

  ghost predicate Ready(flash: Device, iob: Buffer, j: Job)
    reads flash, iob, iob.buf
  {
    && flash.Valid() && iob.Valid() && iob.image == j.image
    && j.offset + j.part <= |flash.data|
  }

  /** Every byte that is to be written can be had. */
  predicate Available(iob: Buffer, j: Job) {
    iob.Delivers(Min(j.len, j.part), j.from)
  }

  /** Nothing fails from the partition's first erase block up to `hi`. */
  predicate WorksTo(flash: Device, iob: Buffer, j: Job, hi: nat) {
    && 0 < flash.eraseSize && Available(iob, j)
    && Sound(flash.faults, RoundDown(j.offset, flash.eraseSize), hi)
  }

  /** Nothing fails inside the partition, which reaches behind its first erase block. */
  predicate WorksInside(flash: Device, iob: Buffer, j: Job) {
    WorksTo(flash, iob, j, j.offset + j.part) && LeadSize(j, flash.eraseSize) < j.part
  }

  lemma NothingElseFails(f: Faults, lo: nat, hi: nat)
    requires Sound(f, lo, hi)
    ensures f.Stuck?
  {
  }

  lemma SoundPart(f: Faults, lo: nat, hi: nat, lo': nat, hi': nat)
    requires Sound(f, lo, hi) && lo <= lo' && hi' <= hi
    ensures Sound(f, lo', hi')
  {
  }

  lemma WorksPart(flash: Device, iob: Buffer, j: Job, hi: nat, hi': nat)
    requires WorksTo(flash, iob, j, hi) && hi' <= hi
    ensures WorksTo(flash, iob, j, hi')
  {
    SoundPart(flash.faults, RoundDown(j.offset, flash.eraseSize), hi, RoundDown(j.offset, flash.eraseSize), hi');
  }

  lemma WorksBehind(flash: Device, iob: Buffer, j: Job, hi: nat)
    requires WorksTo(flash, iob, j, hi)
    ensures Sound(flash.faults, j.offset + j.part, hi)
  {
    if 0 < flash.eraseSize {
      SoundPart(flash.faults, RoundDown(j.offset, flash.eraseSize), hi, j.offset + j.part, hi);
    }
  }

  /** While nothing fails up to `hi`, the next step is delivered its bytes and may work so far. */
  lemma StepWorks(flash: Device, iob: Buffer, d0: seq<Cell>, d: seq<Cell>, j: Job, c: Counters, n: nat, stop: nat)
    requires WorksTo(flash, iob, j, stop) && Progress(d0, d, j, c) && n <= c.src && n <= c.dst
    ensures iob.Delivers(n, c.iobOff) && Sound(flash.faults, c.toff, stop)
  {
    hide ImageWritten, KeptOutside, ErasedBetween, LeadSize;
    SoundPart(flash.faults, RoundDown(j.offset, flash.eraseSize), stop, c.toff, stop);
  }

  /** A step that rewrites `[toff, stop)` with the next bytes of the image makes progress. */
  lemma Advance(d0: seq<Cell>, d: seq<Cell>, d': seq<Cell>, j: Job, c: Counters, bytes: seq<Cell>, stop: nat)
    requires Progress(d0, d, j, c) && Rewritten(d, d', c.toff, bytes, stop)
    requires c.toff == c.eraseOff && c.iobOff + |bytes| <= |j.image|
    requires bytes == j.image[c.iobOff..c.iobOff + |bytes|] && |bytes| <= c.src && stop <= c.eraseOff + c.dst
    requires |bytes| < c.src ==> stop == c.toff + |bytes|
    ensures Progress(d0, d', j, Moved(c, |bytes|, stop - c.toff))
  {
  }

  /**
    The device steps of the leading and the tail fragment: `buf` holds the `n` cells at `off`; they are
    erased, the first `rem` of them and the new bytes are programmed, and so is what lies behind the
    partition's end when that is inside.
   */
  method RewriteBlock(flash: Device, off: nat, n: nat, rem: nat, buf: seq<Cell>, bytes: seq<Cell>,
                      dst: nat) returns (ok: bool)
    requires flash.Valid() && Multiple(off, flash.eraseSize) && Multiple(n, flash.eraseSize) && off + n <= |flash.data|
    requires |buf| == n && Shows(flash.data, off, buf)
    requires rem + |bytes| <= n && |bytes| <= dst
    modifies flash
    ensures flash.Valid() && flash.clean == old(flash.clean) && KeptOutside(old(flash.data), flash.data, off, off + n)
    ensures ok ==> Rewritten(old(flash.data), flash.data, off + rem, bytes,
                             if dst < n - rem then off + rem + dst else off + n)
    ensures Sound(flash.faults, off, off + n) ==> ok
    ensures dst < n - rem && flash.faults == Stuck({off + rem + dst}) ==>
              !ok && ErasedBetween(flash.data, off + rem + dst, off + n)
  {
    hide Multiple;
    ghost var d0 := flash.data;
    var copied := |bytes|;
    var block := Splice(buf, rem, bytes);
    SpliceElements(buf, rem, bytes);
    ok := flash.EraseAt(off, n);
    if !ok {
      return;
    }
    ok := flash.WriteErased(off, block[..rem + copied]);
    if !ok {
      return;
    }
    if dst < n - rem {
      var rem2 := rem + dst;
      ok := flash.WriteErased(off + rem2, block[rem2..]);
    }
  }

  lemma PageAligned(off: nat, n: nat, e: nat, w: nat)
    requires Multiple(off, e) && Multiple(n, e) && Multiple(e, w)
    ensures Multiple(off, w) && Multiple(n, w) && Multiple(off + n, e)
  {
    MultipleTrans(off, e, w);
    MultipleTrans(n, e, w);
    MultipleSum(off, n, e);
  }

  lemma KeptSize(d0: seq<Cell>, d: seq<Cell>, lo: nat, hi: nat)
    requires KeptOutside(d0, d, lo, hi)
    ensures |d| == |d0|
  {
  }

  /** The counter updates after `room` cells have been rewritten with `copied` bytes of image. */
  method CountRewritten(c: Counters, copied: nat, room: nat) returns (c': Counters)
    requires copied <= c.src && copied <= c.dst && copied <= room
    ensures c' == Moved(c, copied, Min(c.dst, room))
  {
    var dst, eraseOff := c.dst, c.eraseOff;
    if dst < room {
      var rem2 := dst - copied;
      dst := dst - rem2;
      eraseOff := eraseOff + rem2;
    } else {
      dst := dst - (room - copied);
      eraseOff := eraseOff + (room - copied);
    }
    c' := Counters(c.src - copied, dst - copied, c.toff + copied, c.iobOff + copied, eraseOff + copied,
                   c.written + copied);
  }

  lemma ImageInRange(d: seq<Cell>, j: Job, c: Counters)
    requires ImageWritten(d, j, c.written) && c.iobOff == j.from + c.written
    ensures c.iobOff <= |j.image|
  {
  }

  lemma StepInRange(d0: seq<Cell>, d: seq<Cell>, j: Job, c: Counters)
    requires Progress(d0, d, j, c)
    ensures c.iobOff <= |j.image| && c.iobOff == j.from + c.written && c.toff <= c.eraseOff
    ensures c.eraseOff + c.dst == j.offset + j.part
  {
    ImageInRange(d, j, c);
  }

  lemma CopiedFits(c: Counters, n: nat, rem: nat, copied: nat)
    requires rem < n && copied == Min(Min(c.src, c.dst), n - rem)
    ensures copied <= c.src && copied <= c.dst && copied <= n - rem && Min(c.dst, n - rem) <= c.dst
  {
  }

  lemma StepCounts(c: Counters, n: nat, rem: nat, copied: nat, c': Counters)
    requires rem < n && copied == Min(Min(c.src, c.dst), n - rem) && copied <= c.src && Min(c.dst, n - rem) <= c.dst
    requires c' == Moved(c, copied, Min(c.dst, n - rem))
    ensures c'.eraseOff == c.eraseOff + (if c.dst < n - rem then c.dst else n - rem) && c'.written == c.written + copied
    ensures c'.eraseOff - c.eraseOff == Min(c.dst, n - rem) && (c'.dst > 0 ==> c'.eraseOff == c.eraseOff + (n - rem))
    ensures copied < c.src ==> c'.eraseOff == c.eraseOff + copied
  {
  }

  /** The two reads of a step. */
  method Gather(flash: Device, iob: Buffer, off: nat, n: nat, copied: nat, from: nat)
    returns (ok: bool, buf: seq<Cell>, bytes: seq<Cell>)
    requires flash.Valid() && iob.Valid() && off + n <= |flash.data| && from <= |iob.image|
    requires Multiple(off, flash.writeSize) && Multiple(n, flash.writeSize)
    modifies iob`len, iob`pos, iob`offset, iob.buf
    ensures iob.Valid()
    ensures ok ==>
              && |buf| == n && Shows(flash.data, off, buf) && |bytes| == copied
              && from + copied <= |iob.image| && bytes == iob.image[from..from + copied]
    ensures flash.faults.Stuck? && iob.Delivers(copied, from) ==> ok
  {
    hide Multiple, Shows, Buffer.Valid, Buffer.Delivers;
    ok, buf := flash.ReadAt(off, n);
    if !ok {
      return false, [], [];
    }
    bytes := iob.Read(copied, from);
    ok := |bytes| == copied;
  }

  lemma Sizes(flash: Device, iob: Buffer, j: Job)
    requires Ready(flash, iob, j)
    ensures flash.Valid() && iob.Valid() && iob.image == j.image && j.offset + j.part <= |flash.data|
    ensures Multiple(flash.eraseSize, flash.writeSize)
    ensures 0 < flash.eraseSize && Multiple(|flash.data|, flash.eraseSize)
  {
  }

  lemma StillReady(flash: Device, iob: Buffer, j: Job)
    requires flash.Valid() && iob.Valid() && iob.image == j.image && j.offset + j.part <= |flash.data|
    ensures Ready(flash, iob, j)
  {
  }

  /** Reads the `n` cells at `off`, takes the next bytes of the image into them, and rewrites them. */
  method RewriteStep(flash: Device, iob: Buffer, ghost d0: seq<Cell>, ghost j: Job, c: Counters, off: nat, n: nat,
                     rem: nat)
    returns (ok: bool, c': Counters, bytes: seq<Cell>)
    requires Ready(flash, iob, j) && Progress(d0, flash.data, j, c) && c.eraseOff == c.toff
    requires c.toff == off + rem && rem < n && off + n <= |flash.data|
    requires Multiple(off, flash.eraseSize) && Multiple(n, flash.eraseSize)
    modifies flash, iob`len, iob`pos, iob`offset, iob.buf
    ensures Ready(flash, iob, j) && flash.clean == old(flash.clean)
    ensures KeptOutside(old(flash.data), flash.data, off, off + n)
    ensures var copied := Min(Min(c.src, c.dst), n - rem);
            ok ==>
              && c' == Moved(c, copied, Min(c.dst, n - rem)) && Progress(d0, flash.data, j, c')
              && (c'.dst > 0 ==> Multiple(c'.eraseOff, flash.eraseSize))
              && j.from + c'.written <= |j.image| && bytes == j.image[c.iobOff..c.iobOff + copied]
    ensures iob.Delivers(Min(Min(c.src, c.dst), n - rem), c.iobOff) ==>
              && (Sound(flash.faults, off, off + n) ==> ok)
              && (c.dst < n - rem && flash.faults == Stuck({off + rem + c.dst}) ==>
                    !ok && ErasedBetween(flash.data, off + rem + c.dst, off + n))
  {
    hide *;
    Sizes(flash, iob, j);
    PageAligned(off, n, flash.eraseSize, flash.writeSize);
    StepInRange(d0, flash.data, j, c);
    NothingChanged(flash.data, off, off + n);
    ghost var d := flash.data;
    if Sound(flash.faults, off, off + n) {
      NothingElseFails(flash.faults, off, off + n);
    }
    var copied := Min(Min(c.src, c.dst), n - rem);
    CopiedFits(c, n, rem, copied);
    var buf;
    ok, buf, bytes := Gather(flash, iob, off, n, copied, c.iobOff);
    if ok {
      ok := RewriteBlock(flash, off, n, rem, buf, bytes, c.dst);
    }
    KeptSize(d, flash.data, off, off + n);
    StillReady(flash, iob, j);
    c' := c;
    if ok {
      c' := CountRewritten(c, copied, n - rem);
      StepCounts(c, n, rem, copied, c');
      Advance(d0, d, flash.data, j, c, bytes, c'.eraseOff);
      StepInRange(d0, flash.data, j, c');
    }
  }

  lemma LeadWorks(flash: Device, iob: Buffer, j: Job)
    requires 0 < flash.eraseSize && j.offset % flash.eraseSize != 0
    requires WorksTo(flash, iob, j, RoundDown(j.offset, flash.eraseSize) + flash.eraseSize)
    ensures iob.Delivers(Min(Min(j.len, j.part), flash.eraseSize - j.offset % flash.eraseSize), j.from)
    ensures var f := RoundDown(j.offset, flash.eraseSize); Sound(flash.faults, f, f + flash.eraseSize)
  {
  }

  /**
    The leading fragment, when the partition does not start on an erase block; its bytes come through
    the second buffer.
   */
  method LeadingFragment(flash: Device, iob: Buffer, buf0: seq<Cell>, ghost d0: seq<Cell>, ghost j: Job,
                         c: Counters) returns (ok: bool, c': Counters, buf2: seq<Cell>)
    requires Ready(flash, iob, j) && Progress(d0, flash.data, j, c) && c == Start(j) && flash.eraseSize <= |buf0|
    requires j.offset < |flash.data| && j.offset % flash.eraseSize != 0
    modifies flash, iob`len, iob`pos, iob`offset, iob.buf
    ensures Ready(flash, iob, j) && flash.clean == old(flash.clean)
    ensures var f := RoundDown(j.offset, flash.eraseSize);
            KeptOutside(old(flash.data), flash.data, f, f + flash.eraseSize)
    ensures WorksTo(flash, iob, j, RoundDown(j.offset, flash.eraseSize) + flash.eraseSize) ==> ok
    ensures ok ==>
              && c' == AfterLead(j, flash.eraseSize) && Progress(d0, flash.data, j, c')
              && (c'.dst > 0 ==> Multiple(c'.eraseOff, flash.eraseSize))
              && var copied := Min(j.len, LeadSize(j, flash.eraseSize));
                 j.from + copied <= |j.image| && buf2 == Splice(buf0, 0, j.image[j.from..j.from + copied])
  {
    hide Progress, KeptOutside, Splice, WorksTo, Sound, ErasedBetween, Buffer.Valid, Buffer.Delivers, ImageWritten;
    var erasesize := flash.eraseSize;
    var rem := c.toff % erasesize;
    var off := c.toff - rem;
    Remainder(c.toff, erasesize);
    BlockOf(c.toff, erasesize, |flash.data|);
    assert off + erasesize == c.toff + (erasesize - rem) && 0 < erasesize - rem;
    if WorksTo(flash, iob, j, off + erasesize) {
      LeadWorks(flash, iob, j);
    }
    var bytes;
    ok, c', bytes := RewriteStep(flash, iob, d0, j, c, off, erasesize, rem);
    buf2 := if ok then Splice(buf0, 0, bytes) else buf0;
  }

  /** One full chunk: nothing is done when the flash already holds it. */
  method WriteChunk(flash: Device, toff: nat, n: nat, old2: seq<Cell>, bytes: seq<Cell>) returns (ok: bool)
    requires flash.Valid() && Multiple(toff, flash.eraseSize)
    requires Multiple(n, flash.eraseSize) && toff + n <= |flash.data|
    requires Multiple(toff, flash.writeSize) && Multiple(n, flash.writeSize)
    requires |old2| == n == |bytes| && Shows(flash.data, toff, old2)
    modifies flash
    ensures flash.Valid() && flash.clean == old(flash.clean) && KeptOutside(old(flash.data), flash.data, toff, toff + n)
    ensures ok ==> Rewritten(old(flash.data), flash.data, toff, bytes, toff + n)
    ensures Sound(flash.faults, toff, toff + n) ==> ok
    ensures bytes == old2 ==> ok && flash.data == old(flash.data)
  {
    hide Multiple;
    ok := true;
    if bytes != old2 {
      ok := flash.EraseAt(toff, n);
      if !ok {
        return;
      }
      ok := flash.WritePagesErased(toff, bytes);
    }
  }

  /** What is read behind `eraseOff` is what stood there at the start. */
  lemma StillUntouched(d0: seq<Cell>, d: seq<Cell>, j: Job, c: Counters, n: nat, bytes: seq<Cell>)
    requires Progress(d0, d, j, c) && c.toff == c.eraseOff && n <= c.dst && |bytes| == n && Shows(d, c.toff, bytes)
    ensures c.toff + n <= |d0| && bytes == d0[c.toff..c.toff + n]
  {
  }

  lemma ProgressSizes(d0: seq<Cell>, d: seq<Cell>, j: Job, c: Counters)
    requires Progress(d0, d, j, c)
    ensures |d| == |d0| && j.offset + j.part <= |d| && c.toff <= c.eraseOff && c.eraseOff + c.dst == j.offset + j.part
    ensures c.src > 0 ==> c.toff == c.eraseOff
  {
  }

  lemma ChunkAligned(d0: seq<Cell>, d: seq<Cell>, j: Job, c: Counters, n: nat, e: nat, w: nat)
    requires Progress(d0, d, j, c) && 0 < n <= c.src && n <= c.dst
    requires Multiple(e, w) && Multiple(n, e) && Multiple(c.toff, e)
    ensures Multiple(n, w) && Multiple(c.toff, w) && Multiple(c.toff + n, e)
    ensures c.toff == c.eraseOff && c.toff + n <= j.offset + j.part <= |d| && c.iobOff <= |j.image|
  {
    MultipleTrans(n, e, w);
    MultipleTrans(c.toff, e, w);
    MultipleSum(c.toff, n, e);
  }

  /** One round of the loop over full chunks; the second buffer then holds what the chunk held before. */
  method ChunkStep(flash: Device, iob: Buffer, n: nat, ghost d0: seq<Cell>, ghost j: Job, c: Counters)
    returns (ok: bool, buf2: seq<Cell>)
    requires Ready(flash, iob, j) && Progress(d0, flash.data, j, c) && 0 < n && Multiple(n, flash.eraseSize)
    requires c.src >= n && c.dst >= n && Multiple(c.toff, flash.eraseSize)
    modifies flash, iob`len, iob`pos, iob`offset, iob.buf
    ensures Ready(flash, iob, j) && flash.clean == old(flash.clean)
    ensures KeptOutside(old(flash.data), flash.data, c.toff, c.toff + n)
    ensures ok ==>
              && Progress(d0, flash.data, j, Moved(c, n, n)) && Multiple(c.eraseOff + n, flash.eraseSize)
              && c.toff + n <= |d0| && buf2 == d0[c.toff..c.toff + n]
    ensures Sound(flash.faults, c.toff, c.toff + n) && iob.Delivers(n, c.iobOff) ==> ok
  {
    hide *;
    ghost var d := flash.data;
    if Sound(flash.faults, c.toff, c.toff + n) {
      NothingElseFails(flash.faults, c.toff, c.toff + n);
    }
    Sizes(flash, iob, j);
    ChunkAligned(d0, d, j, c, n, flash.eraseSize, flash.writeSize);
    NothingChanged(d, c.toff, c.toff + n);
    ok, buf2 := flash.ReadAt(c.toff, n);
    if !ok {
      return;
    }
    StillUntouched(d0, d, j, c, n, buf2);
    var buf := iob.Read(n, c.iobOff);
    StillReady(flash, iob, j);
    if |buf| != n {
      ok := false;
      return;
    }
    ok := WriteChunk(flash, c.toff, n, buf2, buf);
    KeptSize(d, flash.data, c.toff, c.toff + n);
    StillReady(flash, iob, j);
    if ok {
      Advance(d0, d, flash.data, j, c, buf, c.toff + n);
    }
  }

  /** What the second buffer holds after `x` bytes in full chunks of `n`. */
  function LastChunk(d0: seq<Cell>, at: nat, x: nat, n: nat, buf0: seq<Cell>): seq<Cell>
    requires at + x <= |d0| && (x > 0 ==> n <= x)
  {
    if x == 0 then buf0 else d0[at + x - n..at + x]
  }

  lemma Zero(n: nat)
    requires 0 < n
    ensures Multiple(0, n)
  {
  }

  /** So many whole windows that less than one is left. */
  lemma WholeWindows(x: nat, m: nat, n: nat)
    requires Multiple(x, n) && x <= m < x + n
    ensures x == RoundDown(m, n)
  {
    WindowsOff(x, m, n);
  }

  /** The loop over full chunks of `n` bytes. */
  method FullChunks(flash: Device, iob: Buffer, n: nat, buf0: seq<Cell>, ghost d0: seq<Cell>, ghost j: Job,
                    start: Counters)
    returns (ok: bool, c: Counters, buf2: seq<Cell>)
    requires Ready(flash, iob, j) && Progress(d0, flash.data, j, start) && 0 < n && Multiple(n, flash.eraseSize)
    requires start.dst > 0 ==> Multiple(start.eraseOff, flash.eraseSize)
    modifies flash, iob`len, iob`pos, iob`offset, iob.buf
    ensures Ready(flash, iob, j) && flash.clean == old(flash.clean)
    ensures KeptOutside(old(flash.data), flash.data, start.eraseOff, start.eraseOff + start.dst)
    ensures WorksTo(flash, iob, j, j.offset + j.part) ==> ok
    ensures var m := Min(start.src, start.dst);
            var x := RoundDown(m, n);
            ok ==>
              && c == Moved(start, x, x) && Progress(d0, flash.data, j, c)
              && (c.dst > 0 ==> Multiple(c.eraseOff, flash.eraseSize))
              && start.toff + x <= |d0| && buf2 == LastChunk(d0, start.toff, x, n, buf0)
  {
    hide Multiple, Progress, KeptOutside, Ready, RoundDown, WorksTo, Sound, Device.Valid;
    hide Buffer.Valid, Buffer.Delivers;
    c, buf2 := start, buf0;
    ghost var x, m, data0 := 0, Min(start.src, start.dst), flash.data;
    Zero(n);
    ProgressSizes(d0, data0, j, start);
    NothingChanged(data0, start.eraseOff, start.eraseOff + start.dst);
    while c.src >= n && c.dst >= n
      invariant Ready(flash, iob, j) && flash.clean == old(flash.clean) && |flash.data| == |data0| == |d0|
      invariant KeptOutside(data0, flash.data, start.eraseOff, start.eraseOff + start.dst)
      invariant Multiple(x, n) && x <= m && c == Moved(start, x, x) && (x > 0 ==> n <= x)
      invariant Progress(d0, flash.data, j, c) && (c.dst > 0 ==> Multiple(c.eraseOff, flash.eraseSize))
      invariant start.toff + x <= |d0| && buf2 == LastChunk(d0, start.toff, x, n, buf0)
      decreases c.src
    {
      ghost var d := flash.data;
      ProgressSizes(d0, d, j, c);
      if WorksTo(flash, iob, j, j.offset + j.part) {
        WorksPart(flash, iob, j, j.offset + j.part, c.toff + n);
        StepWorks(flash, iob, d0, d, j, c, n, c.toff + n);
      }
      ok, buf2 := ChunkStep(flash, iob, n, d0, j, c);
      KeptSize(d, flash.data, c.toff, c.toff + n);
      KeptJoin(data0, d, flash.data, start.eraseOff, start.eraseOff + start.dst, start.eraseOff,
               start.eraseOff + start.dst, c.toff, c.toff + n);
      if !ok {
        return;
      }
      c := Counters(c.src - n, c.dst - n, c.toff + n, c.iobOff + n, c.eraseOff + n, c.written + n);
      OneMoreWindow(x, n);
      x := x + n;
    }
    WholeWindows(x, m, n);
    ok := true;
  }

  lemma TailCounts(c: Counters, j: Job, size: nat, n0: nat, n: nat, copied: nat, used: nat, e: nat)
    requires c.eraseOff == c.toff && c.eraseOff + c.dst == j.offset + j.part <= size && 0 < c.src && 0 < c.dst && 0 < n0
    requires n == Min(size - c.toff, n0) && (c.src < n0 || c.dst < n0)
    requires copied == Min(Min(c.src, c.dst), n) && used == Min(c.dst, n)
    ensures 0 < n && (Multiple(size - c.toff, e) && Multiple(n0, e) ==> Multiple(n, e))
    ensures c.toff + n == Min(size, c.toff + n0) && (n == n0 || c.toff + n == size)
    ensures copied == Min(c.src, c.dst) && used == Min(c.dst, n0) && (used < c.dst ==> n == n0)
    ensures copied <= c.src && copied <= c.dst && Min(c.toff + n, j.offset + j.part) <= j.offset + j.part
    ensures c.dst >= n ==> Min(c.toff + n, j.offset + j.part) == c.toff + n
    ensures c.dst < n <==> j.offset + j.part < c.toff + n
  {
  }

  lemma MovedBy(c: Counters, copied: nat, used: nat, c': Counters)
    requires copied <= c.src && used <= c.dst && c' == Moved(c, copied, used)
    ensures c'.written == c.written + copied && c'.eraseOff == c.eraseOff + used && c'.dst == c.dst - used
  {
  }

  /** The tail: less than a chunk of image, rewritten inside the last chunk of the device or partition. */
  method TailFragment(flash: Device, iob: Buffer, n0: nat, ghost d0: seq<Cell>, ghost j: Job, c: Counters)
    returns (ok: bool, c': Counters, n: nat)
    requires Ready(flash, iob, j) && Progress(d0, flash.data, j, c) && 0 < n0 && Multiple(n0, flash.eraseSize)
    requires 0 < c.src && 0 < c.dst && (c.src < n0 || c.dst < n0) && Multiple(c.eraseOff, flash.eraseSize)
    modifies flash, iob`len, iob`pos, iob`offset, iob.buf
    ensures Ready(flash, iob, j) && flash.clean == old(flash.clean)
    ensures KeptOutside(old(flash.data), flash.data, c.toff, Min(|old(flash.data)|, c.toff + n0))
    ensures ok ==>
              && Progress(d0, flash.data, j, c')
              && c'.written == c.written + Min(c.src, c.dst) && c'.eraseOff == c.eraseOff + Min(c.dst, n0)
              && (c'.dst > 0 ==> n == n0 && Multiple(c'.eraseOff, flash.eraseSize))
    ensures WorksTo(flash, iob, j, Min(|old(flash.data)|, c.toff + n0)) ==> ok
    ensures WorksTo(flash, iob, j, j.offset + j.part) ==>
              var stop := Min(|old(flash.data)|, c.toff + n0);
              && (stop <= j.offset + j.part ==> ok)
              && (j.offset + j.part < stop && flash.faults == Stuck({j.offset + j.part}) ==>
                    !ok && ErasedBetween(flash.data, j.offset + j.part, stop))
  {
    ghost var d := flash.data;
    Sizes(flash, iob, j);
    ProgressSizes(d0, d, j, c);
    MultipleSum(|d|, c.toff, flash.eraseSize);
    n := Min(|flash.data| - c.toff, n0);
    ghost var copied, used := Min(Min(c.src, c.dst), n), Min(c.dst, n);
    TailCounts(c, j, |d|, n0, n, copied, used, flash.eraseSize);
    assert Min(Min(c.src, c.dst), n - 0) == copied && Min(c.dst, n - 0) == used;
    hide *;
    if WorksTo(flash, iob, j, c.toff + n) {
      StepWorks(flash, iob, d0, d, j, c, copied, c.toff + n);
    }
    if WorksTo(flash, iob, j, j.offset + j.part) {
      StepWorks(flash, iob, d0, d, j, c, copied, j.offset + j.part);
      if c.toff + n <= j.offset + j.part {
        SoundPart(flash.faults, c.toff, j.offset + j.part, c.toff, c.toff + n);
      }
    }
    var bytes;
    ok, c', bytes := RewriteStep(flash, iob, d0, j, c, c.toff, n, 0);
    KeptSize(d, flash.data, c.toff, c.toff + n);
    if ok {
      MovedBy(c, copied, used, c');
    }
  }

  // ---- the steps one after the other

  /** What the second buffer holds when the image has been written. */
  function Stale(d0: seq<Cell>, j: Job, e: nat, n: nat, scratch: seq<Cell>): (r: seq<Cell>)
    requires 0 < e && 0 < n && LeadSize(j, e) <= |scratch|
    requires j.offset + j.part <= |d0| && j.from + Min(j.len, LeadSize(j, e)) <= |j.image|
    ensures |scratch| == n ==> |r| == n
  {
    var a, m := LeadSize(j, e), ImageLeft(j, e);
    var x := RoundDown(m, n);
    if x > 0 then d0[j.offset + a + x - n..j.offset + a + x]
    else Splice(scratch, 0, j.image[j.from..j.from + Min(j.len, a)])
  }

  lemma NothingDone(d: seq<Cell>, j: Job)
    requires j.offset + j.part <= |d| && j.from <= |j.image|
    ensures Progress(d, d, j, Start(j))
  {
  }

  /** The leading block and the partition lie within reach. */
  lemma ReachCovers(j: Job, e: nat, n: nat, size: nat)
    requires 0 < n && j.offset + j.part <= size && Multiple(size, e)
    ensures j.offset % e != 0 ==> j.offset < size && RoundDown(j.offset, e) + e <= ImageReach(j, e, n, size)
    ensures j.offset + j.part <= ImageReach(j, e, n, size) <= Reach(j, e, n, size)
  {
    Remainder(j.offset, e);
    hide RoundDown;
    if j.offset % e != 0 {
      assert j.offset != size;
      BlockOf(j.offset, e, size);
    }
  }

  /** With nothing in front of the first erase block the second buffer is untouched. */
  lemma NoLead(j: Job, e: nat, n: nat, scratch: seq<Cell>)
    requires 0 < e && 0 < n && j.offset % e == 0 && j.from <= |j.image|
    ensures AfterLead(j, e) == Start(j) && LeadSize(j, e) == 0
    ensures Splice(scratch, 0, j.image[j.from..j.from]) == scratch
  {
  }

  lemma LeadEnds(j: Job, e: nat)
    requires 0 < e
    ensures var c, a := AfterLead(j, e), LeadSize(j, e);
            && c.eraseOff == j.offset + a && c.eraseOff + c.dst == j.offset + j.part
            && c.toff + Min(c.src, c.dst) <= j.offset + j.part && Min(c.src, c.dst) == ImageLeft(j, e)
            && (ImageLeft(j, e) > 0 ==> c.toff == j.offset + a)
  {
  }

  lemma StaleIsLast(d0: seq<Cell>, j: Job, e: nat, n: nat, scratch: seq<Cell>, x: nat, at: nat)
    requires 0 < e && 0 < n && LeadSize(j, e) <= |scratch|
    requires j.offset + j.part <= |d0| && j.from + Min(j.len, LeadSize(j, e)) <= |j.image|
    requires x == RoundDown(ImageLeft(j, e), n) && (x > 0 ==> at == j.offset + LeadSize(j, e))
    requires at + x <= |d0|
    ensures Stale(d0, j, e, n, scratch)
            == LastChunk(d0, at, x, n, Splice(scratch, 0, j.image[j.from..j.from + Min(j.len, LeadSize(j, e))]))
  {
    hide Splice, ImageLeft, LeadSize, RoundDown;
  }

  /** What the full chunks make of the counters and of the second buffer. */
  lemma ChunksEnd(d0: seq<Cell>, j: Job, e: nat, n: nat, scratch: seq<Cell>)
    requires 0 < e && 0 < n && LeadSize(j, e) <= |scratch|
    requires j.offset + j.part <= |d0| && j.from + Min(j.len, LeadSize(j, e)) <= |j.image|
    ensures var c := AfterLead(j, e);
            var m := Min(c.src, c.dst);
            var x := RoundDown(m, n);
            && AfterChunks(j, e, n) == Moved(c, x, x)
            && c.toff + x <= |d0|
            && c.eraseOff == j.offset + LeadSize(j, e) && c.eraseOff + c.dst == j.offset + j.part
            && Stale(d0, j, e, n, scratch)
               == LastChunk(d0, c.toff, x, n, Splice(scratch, 0, j.image[j.from..j.from + Min(j.len, LeadSize(j, e))]))
  {
    hide Splice, Moved, LastChunk, RoundDown;
    var m := ImageLeft(j, e);
    var x := RoundDown(m, n);
    var c := AfterLead(j, e);
    LeadEnds(j, e);
    StaleIsLast(d0, j, e, n, scratch, x, c.toff);
  }

  lemma AlignedStart(j: Job, e: nat)
    requires 0 < e && j.offset % e == 0
    ensures Multiple(j.offset, e)
  {
  }

  /** The first erase block lies in front of the partition's end. */
  lemma LeadInside(flash: Device, iob: Buffer, j: Job)
    requires WorksInside(flash, iob, j)
    ensures 0 < flash.eraseSize && WorksTo(flash, iob, j, j.offset + j.part)
    ensures LeadSize(j, flash.eraseSize) < j.part
    ensures j.offset % flash.eraseSize != 0 ==>
              RoundDown(j.offset, flash.eraseSize) + flash.eraseSize <= j.offset + j.part
  {
    Remainder(j.offset, flash.eraseSize);
  }

  /** The leading fragment, if there is one. */
  method LeadPart(flash: Device, iob: Buffer, ghost n: nat, scratch: seq<Cell>, ghost d0: seq<Cell>, ghost j: Job,
                  start: Counters)
    returns (ok: bool, c: Counters, buf2: seq<Cell>)
    requires Ready(flash, iob, j) && d0 == flash.data && start == Start(j) && j.from <= |j.image|
    requires 0 < n && flash.eraseSize <= n == |scratch|
    modifies flash, iob`len, iob`pos, iob`offset, iob.buf
    ensures Ready(flash, iob, j) && flash.clean == old(flash.clean)
    ensures KeptOutside(d0, flash.data, RoundDown(j.offset, flash.eraseSize), ImageReach(j, flash.eraseSize, n, |d0|))
    ensures WorksInside(flash, iob, j) || WorksTo(flash, iob, j, ImageReach(j, flash.eraseSize, n, |d0|)) ==> ok
    ensures ok ==>
              && c == AfterLead(j, flash.eraseSize) && Progress(d0, flash.data, j, c)
              && (c.dst > 0 ==> Multiple(c.eraseOff, flash.eraseSize))
              && var copied := Min(j.len, LeadSize(j, flash.eraseSize));
                 j.from + copied <= |j.image| && buf2 == Splice(scratch, 0, j.image[j.from..j.from + copied])
  {
    var e := flash.eraseSize;
    ghost var lo, hi := RoundDown(j.offset, e), ImageReach(j, e, n, |d0|);
    ReachCovers(j, e, n, |d0|);
    NothingDone(d0, j);
    hide Progress, KeptOutside, Splice, ImageReach, Buffer.Valid, RoundDown, WorksTo, WorksInside;
    NothingChanged(d0, lo, hi);
    c, buf2, ok := start, scratch, true;
    if c.toff % e != 0 {
      if WorksTo(flash, iob, j, hi) {
        WorksPart(flash, iob, j, hi, lo + e);
      }
      if WorksInside(flash, iob, j) {
        LeadInside(flash, iob, j);
        WorksPart(flash, iob, j, j.offset + j.part, lo + e);
      }
      ok, c, buf2 := LeadingFragment(flash, iob, buf2, d0, j, c);
      KeptJoin(d0, d0, flash.data, lo, hi, lo, hi, lo, lo + e);
    } else {
      NoLead(j, e, n, scratch);
      AlignedStart(j, e);
    }
  }

  /** The leading fragment and the full chunks. */
  method LeadAndChunks(flash: Device, iob: Buffer, n: nat, scratch: seq<Cell>, ghost d0: seq<Cell>, ghost j: Job,
                       start: Counters)
    returns (ok: bool, c: Counters, buf2: seq<Cell>)
    requires Ready(flash, iob, j) && d0 == flash.data && start == Start(j) && j.from <= |j.image|
    requires 0 < n && Multiple(n, flash.eraseSize) && flash.eraseSize <= n == |scratch|
    modifies flash, iob`len, iob`pos, iob`offset, iob.buf
    ensures Ready(flash, iob, j) && flash.clean == old(flash.clean)
    ensures KeptOutside(d0, flash.data, RoundDown(j.offset, flash.eraseSize), ImageReach(j, flash.eraseSize, n, |d0|))
    ensures WorksInside(flash, iob, j) || WorksTo(flash, iob, j, ImageReach(j, flash.eraseSize, n, |d0|)) ==> ok
    ensures ok ==>
              && c == AfterChunks(j, flash.eraseSize, n) && Progress(d0, flash.data, j, c)
              && (c.dst > 0 ==> Multiple(c.eraseOff, flash.eraseSize))
              && j.from + Min(j.len, LeadSize(j, flash.eraseSize)) <= |j.image|
              && buf2 == Stale(d0, j, flash.eraseSize, n, scratch)
  {
    hide *;
    Sizes(flash, iob, j);
    var e := flash.eraseSize;
    ghost var lo, hi := RoundDown(j.offset, e), ImageReach(j, e, n, |d0|);
    ReachCovers(j, e, n, |d0|);
    ok, c, buf2 := LeadPart(flash, iob, n, scratch, d0, j, start);
    if !ok {
      return;
    }
    Sizes(flash, iob, j);
    if WorksInside(flash, iob, j) {
      LeadInside(flash, iob, j);
    } else if WorksTo(flash, iob, j, hi) {
      WorksPart(flash, iob, j, hi, j.offset + j.part);
    }
    ghost var d1, a := flash.data, LeadSize(j, e);
    ChunksEnd(d0, j, e, n, scratch);
    ok, c, buf2 := FullChunks(flash, iob, n, buf2, d0, j, c);
    KeptJoin(d0, d1, flash.data, lo, hi, lo, hi, j.offset + a, j.offset + j.part);
  }

  /** The tail, if any, brings the counters to the start of the erase loop. */
  lemma TailEnds(j: Job, e: nat, n: nat, size: nat)
    requires 0 < e && 0 < n && j.offset + j.part <= size
    ensures var c := AfterChunks(j, e, n);
            var tail := c.src > 0 && c.dst > 0;
            && Min(j.len, j.part) == c.written + (if tail then Min(c.src, c.dst) else 0)
            && LoopStart(j, e, n) == c.eraseOff + (if tail then Min(c.dst, n) else 0)
            && (tail ==> c.src < n || c.dst < n)
            && (tail ==> RoundDown(j.offset, e) <= c.toff == c.eraseOff)
  {
    hide RoundDown;
    var a, m := LeadSize(j, e), ImageLeft(j, e);
    RoundUpMultiple(m, n);
  }

  /** The tail fills the partition's last window or ends inside the partition. */
  lemma TailReach(j: Job, e: nat, n: nat, size: nat)
    requires 0 < e && 0 < n && j.offset + j.part <= size
    ensures var c := AfterChunks(j, e, n);
            var tail, stop := c.src > 0 && c.dst > 0, Min(size, c.eraseOff + n);
            && (tail ==> stop <= ImageReach(j, e, n, size))
            && (ImageInLast(j, e, n) ==> tail && stop == Reach(j, e, n, size))
            && (tail && !ImageInLast(j, e, n) ==> stop <= j.offset + j.part)
  {
    hide RoundDown;
    var a, m := LeadSize(j, e), ImageLeft(j, e);
    var x := RoundDown(m, n);
    RoundUpMultiple(m, n);
    if a < j.part {
      WindowsOff(x, j.part - a, n);
    }
  }

  /** Everything that puts image bytes on the device. */
  method ImagePart(flash: Device, iob: Buffer, n0: nat, scratch: seq<Cell>, ghost d0: seq<Cell>, ghost j: Job,
                   start: Counters)
    returns (ok: bool, c: Counters, n: nat, buf2: seq<Cell>)
    requires Ready(flash, iob, j) && d0 == flash.data && start == Start(j) && j.from <= |j.image|
    requires 0 < n0 && Multiple(n0, flash.eraseSize) && flash.eraseSize <= n0 == |scratch|
    modifies flash, iob`len, iob`pos, iob`offset, iob.buf
    ensures Ready(flash, iob, j) && flash.clean == old(flash.clean)
    ensures KeptOutside(d0, flash.data, RoundDown(j.offset, flash.eraseSize), ImageReach(j, flash.eraseSize, n0, |d0|))
    ensures WorksTo(flash, iob, j, ImageReach(j, flash.eraseSize, n0, |d0|)) ==> ok
    ensures var end, hi := j.offset + j.part, Reach(j, flash.eraseSize, n0, |d0|);
            WorksInside(flash, iob, j) ==>
              && (!ImageInLast(j, flash.eraseSize, n0) || hi == end ==> ok)
              && (ImageInLast(j, flash.eraseSize, n0) && end < hi && flash.faults == Stuck({end}) ==>
                    !ok && ErasedBetween(flash.data, end, hi))
    ensures ok ==>
              && Progress(d0, flash.data, j, c) && c.written == Min(j.len, j.part)
              && c.eraseOff == LoopStart(j, flash.eraseSize, n0)
              && (c.dst > 0 ==> n == n0 && Multiple(c.eraseOff, flash.eraseSize))
              && j.from + Min(j.len, LeadSize(j, flash.eraseSize)) <= |j.image|
              && buf2 == Stale(d0, j, flash.eraseSize, n0, scratch)
  {
    hide *;
    Sizes(flash, iob, j);
    var e := flash.eraseSize;
    ghost var lo, hi := RoundDown(j.offset, e), ImageReach(j, e, n0, |d0|);
    n := n0;
    ok, c, buf2 := LeadAndChunks(flash, iob, n, scratch, d0, j, start);
    if !ok {
      return;
    }
    TailEnds(j, e, n0, |d0|);
    TailReach(j, e, n0, |d0|);
    ghost var d1 := flash.data;
    KeptSize(d0, d1, lo, hi);
    if c.src > 0 && c.dst > 0 {
      ghost var c1 := c;
      if WorksInside(flash, iob, j) {
        LeadInside(flash, iob, j);
      }
      if WorksTo(flash, iob, j, hi) {
        WorksPart(flash, iob, j, hi, Min(|d0|, c1.toff + n0));
      }
      ok, c, n := TailFragment(flash, iob, n, d0, j, c);
      KeptJoin(d0, d1, flash.data, lo, hi, lo, hi, c1.toff, Min(|d0|, c1.toff + n0));
    }
  }

  /** The cells when the erase loop starts at `at`. */
  function BeforeLoop(d0: seq<Cell>, j: Job, at: nat): (d: seq<Cell>)
    requires j.offset + Min(j.len, j.part) <= |d0| && j.from + Min(j.len, j.part) <= |j.image|
    ensures |d| == |d0|
  {
    var image := Min(j.len, j.part);
    seq(|d0|, i requires 0 <= i < |d0| =>
      if j.offset <= i < j.offset + image then j.image[j.from + (i - j.offset)]
      else if j.offset + image <= i < at then ERASED
      else d0[i])
  }

  lemma ProgressIsBeforeLoop(d0: seq<Cell>, d: seq<Cell>, j: Job, c: Counters)
    requires Progress(d0, d, j, c) && c.written == Min(j.len, j.part)
    ensures j.from + c.written <= |j.image| && d == BeforeLoop(d0, j, c.eraseOff)
  {
  }

  lemma LeadAligned(j: Job, e: nat)
    requires 0 < e && LeadSize(j, e) < j.part
    ensures Multiple(j.offset + LeadSize(j, e), e)
  {
    Remainder(j.offset, e);
    RoundUpMultiple(j.offset, e);
    hide RoundDown;
    if LeadSize(j, e) > 0 {
      OneMoreWindow(RoundDown(j.offset, e), e);
    }
  }

  /** The erase loop starts on an erase block. */
  lemma LoopStartAligned(j: Job, e: nat, n: nat)
    requires 0 < n && Multiple(n, e) && LoopStart(j, e, n) < j.offset + j.part
    ensures Multiple(LoopStart(j, e, n), e)
  {
    hide RoundDown;
    var a, m := LeadSize(j, e), ImageLeft(j, e);
    RoundUpMultiple(m, n);
    MultipleTrans(RoundUp(m, n), n, e);
    LeadAligned(j, e);
    MultipleSum(j.offset + a, RoundUp(m, n), e);
  }

  lemma RestWindows(d0: seq<Cell>, j: Job, w: nat, e: nat, n: nat)
    requires Multiple(e, w) && 0 < n && Multiple(n, e) && LoopStart(j, e, n) < j.offset + j.part <= |d0|
    requires j.from + Min(j.len, j.part) <= |j.image|
    ensures var at := LoopStart(j, e, n); Windows(BeforeLoop(d0, j, at), w, e, n, at, j.offset + j.part - at)
  {
    hide Multiple, LoopStart;
    LoopStartAligned(j, e, n);
  }

  /**
    The rest of the partition gets erased: there is none, or the second buffer holds a programmed cell
    behind the probed pages, or every whole window of the rest is blank or has one in its probe.
   */
  ghost predicate RestErased(d0: seq<Cell>, j: Job, w: nat, e: nat, n: nat, scratch: seq<Cell>)
    requires Multiple(e, w) && 0 < n && Multiple(n, e) && e <= n == |scratch|
    requires j.offset + j.part <= |d0| && j.from + Min(j.len, j.part) <= |j.image|
  {
    var at := LoopStart(j, e, n);
    BlocksAsPagesBound(n, e, w);
    || at == j.offset + j.part
    || !IsBlank(Stale(d0, j, e, n, scratch)[BlocksAsPages(n, e, w)..])
    || EveryWindowSeen(BeforeLoop(d0, j, at), w, e, n, at, j.offset + j.part - at)
  }

  /** That is when the erase loop skips nothing. */
  lemma RestExactly(d0: seq<Cell>, j: Job, w: nat, e: nat, n: nat, scratch: seq<Cell>, at: nat, d: seq<Cell>,
                    stale: seq<Cell>)
    requires Multiple(e, w) && 0 < n && Multiple(n, e) && e <= n == |scratch|
    requires j.offset + j.part <= |d0| && j.from + Min(j.len, j.part) <= |j.image|
    requires at == LoopStart(j, e, n) < j.offset + j.part
    requires d == BeforeLoop(d0, j, at) && stale == Stale(d0, j, e, n, scratch)
    ensures Windows(d, w, e, n, at, j.offset + j.part - at)
    ensures RestErased(d0, j, w, e, n, scratch) <==> NoWindowSkipped(d, stale, w, e, n, at, j.offset + j.part - at)
  {
    RestWindows(d0, j, w, e, n);
    BlocksAsPagesBound(n, e, w);
    hide NoWindowSkipped, Stale, BeforeLoop, LoopStart, BlocksAsPages, EveryWindowSeen, IsBlank, Multiple;
    NoneSkippedExactly(d, stale, w, e, n, at, j.offset + j.part - at);
  }

  /** Where a stretch of `dst` cells and its last window, when that is rewritten, end. */
  function RestEnd(d: seq<Cell>, at: nat, dst: nat, n: nat): (hi: nat)
    requires 0 < n && at + dst <= |d|
    ensures at + dst <= hi <= |d|
  {
    var r := WindowsEnd(n, at, dst);
    if r < at + dst && !IsBlank(d[r..at + dst]) then Min(|d|, r + n) else at + dst
  }

  /** What the erase loop and the remainder may touch, in terms of the cells at the start of the run. */
  lemma RestTouch(d0: seq<Cell>, d: seq<Cell>, j: Job, c: Counters, e: nat, n: nat)
    requires 0 < e && 0 < n && Progress(d0, d, j, c) && c.eraseOff == LoopStart(j, e, n) && 0 < c.dst
    ensures RestEnd(d, c.eraseOff, c.dst, n) == TouchEnd(d0, j, e, n) && !ImageInLast(j, e, n)
    ensures TouchEnd(d0, j, e, n) == if LastRewritten(d0, j, e, n) then Reach(j, e, n, |d0|) else j.offset + j.part
  {
    hide RoundDown, ImageWritten, ErasedBetween;
    var a, m := LeadSize(j, e), ImageLeft(j, e);
    RoundUpMultiple(m, n);
    WindowsOff(RoundUp(m, n), j.part - a, n);
    var r, end := LastWindow(j, e, n), j.offset + j.part;
    assert r == WindowsEnd(n, c.eraseOff, c.dst);
    assert d[r..end] == d0[r..end];
  }

  /** The cells in front of the erase loop keep what they hold. */
  lemma RestKeeps(d0: seq<Cell>, d: seq<Cell>, d': seq<Cell>, j: Job, c: Counters)
    requires Progress(d0, d, j, c) && KeptOutside(d, d', c.eraseOff, j.offset + j.part)
    ensures KeptOutside(d0, d', j.offset, j.offset + j.part) && ImageWritten(d', j, c.written)
    ensures ErasedBetween(d', c.toff, j.offset + j.part) <==> ErasedBetween(d', c.eraseOff, j.offset + j.part)
  {
  }

  lemma RemainderErased(d1: seq<Cell>, d': seq<Cell>, from: nat, at: nat, stop: nat)
    requires from <= at <= stop <= |d1| && Rewritten(d1, d', at, [], stop)
    ensures KeptOutside(d1, d', at, stop) && (ErasedBetween(d', from, stop) <==> ErasedBetween(d1, from, at))
  {
  }

  /** The cells of the last window are those from before the erase loop. */
  lemma LastKept(d: seq<Cell>, d1: seq<Cell>, at: nat, r: nat, end: nat)
    requires KeptOutside(d, d1, at, r) && r <= end <= |d|
    ensures d1[r..end] == d[r..end]
  {
  }

  /** The last window after the erase loop. */
  method LastPart(flash: Device, n: nat, ghost d: seq<Cell>, ghost at0: nat, ghost dst0: nat, at: nat, dst: nat)
    returns (ok: bool)
    requires flash.Valid() && 0 < n && Multiple(n, flash.eraseSize) && Multiple(at, flash.eraseSize)
    requires at == WindowsEnd(n, at0, dst0) && at + dst == at0 + dst0 <= |d| && KeptOutside(d, flash.data, at0, at)
    modifies flash
    ensures flash.Valid() && flash.clean == old(flash.clean)
    ensures KeptOutside(d, flash.data, at0, RestEnd(d, at0, dst0, n))
    ensures Sound(flash.faults, at0 + dst0, RestEnd(d, at0, dst0, n)) ==> ok
    ensures flash.faults == Stuck({at0 + dst0}) ==>
              var hi := RestEnd(d, at0, dst0, n);
              && (ok <==> hi == at0 + dst0) && (!ok ==> ErasedBetween(flash.data, at0 + dst0, hi))
    ensures ok ==>
              && KeptOutside(d, flash.data, at0, at0 + dst0)
              && (ErasedBetween(flash.data, at0, at0 + dst0) <==> ErasedBetween(old(flash.data), at0, at))
  {
    hide Multiple, Rewritten, KeptOutside, ErasedBetween, RoundDown, IsBlank;
    ghost var d1, end, hi := flash.data, at0 + dst0, RestEnd(d, at0, dst0, n);
    KeptSize(d, d1, at0, at);
    LastKept(d, d1, at0, at, end);
    NothingChanged(d1, at, end);
    KeptJoin(d, d1, d1, at0, end, at0, at, at, end);
    ok := true;
    if dst > 0 {
      ok := EraseRemainder(flash, n, at, dst);
      if IsBlank(d[at..end]) {
        NothingChanged(d1, at, hi);
      }
      KeptJoin(d, d1, flash.data, at0, hi, at0, at, at, hi);
      if ok {
        RemainderErased(d1, flash.data, at0, at, end);
        KeptJoin(d, d1, flash.data, at0, end, at0, at, at, end);
      }
    }
  }

  /** The erase loop and the remainder: the image and everything outside the partition stay. */
  method EraseRest(flash: Device, n: nat, buf2: seq<Cell>, ghost d0: seq<Cell>, ghost j: Job, c: Counters)
    returns (ok: bool)
    requires flash.Valid() && Progress(d0, flash.data, j, c) && |buf2| == n
    requires 0 < n && Multiple(n, flash.eraseSize) && 0 < c.dst && Multiple(c.eraseOff, flash.eraseSize)
    modifies flash
    ensures flash.Valid() && flash.clean == old(flash.clean)
    ensures var hi := RestEnd(old(flash.data), c.eraseOff, c.dst, n);
            && KeptOutside(old(flash.data), flash.data, c.eraseOff, hi)
            && (Sound(flash.faults, j.offset + j.part, hi) ==> ok)
            && (flash.faults == Stuck({j.offset + j.part}) ==>
                  && (ok <==> hi == j.offset + j.part)
                  && (!ok ==> ErasedBetween(flash.data, j.offset + j.part, hi)))
    ensures ok ==> KeptOutside(d0, flash.data, j.offset, j.offset + j.part) && ImageWritten(flash.data, j, c.written)
    ensures ok ==> (ErasedBetween(flash.data, c.toff, j.offset + j.part) <==>
                    NoWindowSkipped(old(flash.data), buf2, flash.writeSize, flash.eraseSize, n, c.eraseOff, c.dst))
  {
    hide Multiple, EraseWindows, NoWindowSkipped, Rewritten, KeptOutside, ErasedBetween, ImageWritten, RoundDown;
    hide WindowsEnd;
    ghost var d, end := flash.data, j.offset + j.part;
    KeptSize(d0, d, j.offset, c.eraseOff);
    ghost var hi := RestEnd(d, c.eraseOff, c.dst, n);
    hide RestEnd;
    var at, dst;
    ok, at, dst := EraseGap(flash, n, buf2, c.eraseOff, c.dst);
    ghost var d1 := flash.data;
    NothingChanged(d1, c.eraseOff, hi);
    KeptJoin(d, d1, d1, c.eraseOff, hi, c.eraseOff, end, c.eraseOff, hi);
    if !ok {
      return;
    }
    GapErasedExactly(d, buf2, flash.writeSize, flash.eraseSize, n, c.eraseOff, c.dst);
    ok := LastPart(flash, n, d, c.eraseOff, c.dst, at, dst);
    if ok {
      RestKeeps(d0, d, flash.data, j, c);
    }
  }

  // ---- the whole writer

  /** Erase sizes are powers of two, as the masks in the code assume. */
  predicate PowerOfTwo(e: nat) {
    e == 1 || (e > 0 && e % 2 == 0 && PowerOfTwo(e / 2))
  }

  lemma {:induction false} PowersDivide(a: nat, b: nat)
    requires PowerOfTwo(a) && PowerOfTwo(b) && a <= b
    ensures Multiple(b, a)
  {
    if a == 1 {
      DivisionUnique(b, 1, b, 0);
    } else {
      PowersDivide(a / 2, b / 2);
      var q := b / 2 / (a / 2);
      assert b / 2 == q * (a / 2);
      assert b == q * a;
      DivisionUnique(b, a, q, 0);
    }
  }

  lemma PowerOfChunk()
    ensures PowerOfTwo(CHUNK) && PowerOfTwo(CHUNK / 2)
  {
    assert PowerOfTwo(0x80);
    assert PowerOfTwo(0x8000);
  }

  /** The buffer size: a chunk or an erase block, halved once when memory is short; 0 when that is too small. */
  function BufferBytes(erasesize: nat, lowMemory: bool): (n: nat)
    requires PowerOfTwo(erasesize)
    ensures n > 0 ==> Multiple(n, erasesize) && erasesize <= n
    ensures n <= erasesize + CHUNK
    ensures !lowMemory ==> n > 0
  {
    PowerOfChunk();
    var n := if erasesize > CHUNK then erasesize else CHUNK;
    var n' := if lowMemory then n / 2 else n;
    if n' < erasesize then 0
    else
      PowersDivide(erasesize, n');
      n'
  }

  method BufferSize(erasesize: nat, lowMemory: bool) returns (n: nat)
    requires PowerOfTwo(erasesize)
    ensures n == BufferBytes(erasesize, lowMemory)
  {
    if erasesize > 0x10000 {
      n := erasesize;
    } else {
      n := 0x10000;
    }
    if lowMemory {
      n := n / 2;
      if n < erasesize {
        return 0;
      }
    }
  }

  /** Only the partition's own first block and its last window, if that is rewritten, may be touched outside it. */
  ghost predicate Confined(d0: seq<Cell>, d: seq<Cell>, j: Job, e: nat, n: nat)
    requires 0 < e && j.offset + j.part <= |d0|
  {
    if n == 0 then d == d0 else KeptOutside(d0, d, RoundDown(j.offset, e), TouchEnd(d0, j, e, n))
  }

  lemma BufferHalved(e: nat)
    requires PowerOfTwo(e) && BufferBytes(e, true) > 0
    ensures Multiple(BufferBytes(e, false), BufferBytes(e, true))
  {
    var n := BufferBytes(e, true);
    assert BufferBytes(e, false) == 2 * n;
    DivisionUnique(2 * n, n, 2, 0);
  }

  /** A smaller buffer reaches no further. */
  lemma FullBufferReach(d0: seq<Cell>, d: seq<Cell>, j: Job, e: nat, lowMemory: bool)
    requires PowerOfTwo(e) && j.offset + j.part <= |d0| && Confined(d0, d, j, e, BufferBytes(e, lowMemory))
    ensures KeptOutside(d0, d, RoundDown(j.offset, e), Reach(j, e, BufferBytes(e, false), |d0|))
  {
    var n, full, x := BufferBytes(e, lowMemory), BufferBytes(e, false), j.part - LeadSize(j, e);
    hide BufferBytes, RoundDown;
    if 0 < n < full {
      BufferHalved(e);
      RoundUpMultiple(x, full);
      MultipleTrans(RoundUp(x, full), full, n);
      InsideMultiple(x, RoundUp(x, full), n);
    }
  }

  /** The image steps and the erase steps stay within what the whole run may touch. */
  lemma TouchCases(d0: seq<Cell>, j: Job, e: nat, n: nat)
    requires Multiple(|d0|, e) && 0 < n && j.offset + j.part <= |d0|
    ensures j.offset + j.part <= ImageReach(j, e, n, |d0|) <= TouchEnd(d0, j, e, n)
    ensures ImageInLast(j, e, n) ==> TouchEnd(d0, j, e, n) == Reach(j, e, n, |d0|)
    ensures LoopStart(j, e, n) == j.offset + j.part && LeadSize(j, e) < j.part && !ImageInLast(j, e, n) ==>
              TouchEnd(d0, j, e, n) == j.offset + j.part
  {
    ReachCovers(j, e, n, |d0|);
    hide RoundDown, Reach;
    var a, m, end := LeadSize(j, e), ImageLeft(j, e), j.offset + j.part;
    RoundUpMultiple(j.part - a, n);
    if !ImageInLast(j, e, n) && a < j.part && LastWindow(j, e, n) < end {
      InsideMultiple(m, RoundDown(j.part - a, n), n);
    }
  }

  lemma ProgressEnds(d0: seq<Cell>, d: seq<Cell>, j: Job, c: Counters)
    requires Progress(d0, d, j, c)
    ensures ImageWritten(d, j, c.written) && c.eraseOff + c.dst == j.offset + j.part
    ensures c.toff == j.offset + c.written && c.toff <= c.eraseOff
    ensures c.dst == 0 ==>
              KeptOutside(d0, d, j.offset, j.offset + j.part) && ErasedBetween(d, c.toff, j.offset + j.part)
  {
  }

  lemma IsConfined(d0: seq<Cell>, d: seq<Cell>, j: Job, e: nat, n: nat)
    requires 0 < e && j.offset + j.part <= |d0|
    ensures Confined(d0, d, j, e, n) <==>
            if n == 0 then d == d0 else KeptOutside(d0, d, RoundDown(j.offset, e), TouchEnd(d0, j, e, n))
  {
  }

  lemma Untouched(d: seq<Cell>, j: Job, e: nat, n: nat)
    requires 0 < e && j.offset + j.part <= |d|
    ensures Confined(d, d, j, e, n)
  {
  }

  lemma IsStart(c: Counters, j: Job)
    requires c == Counters(j.len, j.part, j.offset, j.from, j.offset, 0)
    ensures c == Start(j)
  {
  }

  lemma NoRest(d0: seq<Cell>, j: Job, w: nat, e: nat, n: nat, scratch: seq<Cell>)
    requires Multiple(e, w) && 0 < n && Multiple(n, e) && e <= n == |scratch|
    requires j.offset + j.part <= |d0| && j.from + Min(j.len, j.part) <= |j.image|
    requires LoopStart(j, e, n) == j.offset + j.part
    ensures RestErased(d0, j, w, e, n, scratch)
  {
  }

  /** What is left to do when the image has been written: erase the rest of the partition, if any. */
  method AfterImage(flash: Device, n: nat, ghost n0: nat, buf2: seq<Cell>, ghost scratch: seq<Cell>,
                    ghost d0: seq<Cell>, ghost j: Job, c: Counters)
    returns (ok: bool)
    requires flash.Valid() && Multiple(flash.eraseSize, flash.writeSize) && Multiple(|d0|, flash.eraseSize)
    requires 0 < n0 && Multiple(n0, flash.eraseSize) && flash.eraseSize <= n0 == |scratch| && j.offset + j.part <= |d0|
    requires Progress(d0, flash.data, j, c) && c.written == Min(j.len, j.part)
    requires c.eraseOff == LoopStart(j, flash.eraseSize, n0)
    requires j.from + Min(j.len, LeadSize(j, flash.eraseSize)) <= |j.image|
    requires buf2 == Stale(d0, j, flash.eraseSize, n0, scratch)
    requires c.dst > 0 ==> n == n0 && Multiple(c.eraseOff, flash.eraseSize)
    requires Confined(d0, flash.data, j, flash.eraseSize, n0)
    modifies flash
    ensures flash.Valid() && flash.clean == old(flash.clean) && Confined(d0, flash.data, j, flash.eraseSize, n0)
    ensures j.from + Min(j.len, j.part) <= |j.image|
    ensures ok ==>
              && KeptOutside(d0, flash.data, j.offset, j.offset + j.part) && ImageWritten(flash.data, j, c.written)
              && (ErasedBetween(flash.data, j.offset + c.written, j.offset + j.part) <==>
                  RestErased(d0, j, flash.writeSize, flash.eraseSize, n0, scratch))
    ensures Sound(flash.faults, j.offset + j.part, TouchEnd(d0, j, flash.eraseSize, n0)) ==> ok
    ensures flash.faults == Stuck({j.offset + j.part}) && c.dst > 0 ==>
              var hi := TouchEnd(d0, j, flash.eraseSize, n0);
              && (ok <==> j.offset + j.part == hi) && (!ok ==> ErasedBetween(flash.data, j.offset + j.part, hi))
    ensures c.dst > 0 ==> !ImageInLast(j, flash.eraseSize, n0)
    ensures c.dst == 0 ==> ok && LoopStart(j, flash.eraseSize, n0) == j.offset + j.part && flash.data == old(flash.data)
  {
    hide *;
    ghost var e, d := flash.eraseSize, flash.data;
    ghost var lo, hi := RoundDown(j.offset, e), TouchEnd(d0, j, e, n0);
    IsConfined(d0, d, j, e, n0);
    ProgressIsBeforeLoop(d0, d, j, c);
    ProgressEnds(d0, d, j, c);
    ok := true;
    if c.dst > 0 {
      RestTouch(d0, d, j, c, e, n0);
      RestExactly(d0, j, flash.writeSize, e, n0, scratch, c.eraseOff, d, buf2);
      KeptSize(d0, d, lo, hi);
      ok := EraseRest(flash, n, buf2, d0, j, c);
      KeptJoin(d0, d, flash.data, lo, hi, lo, hi, c.eraseOff, hi);
      IsConfined(d0, flash.data, j, e, n0);
    } else {
      NoRest(d0, j, flash.writeSize, e, n0, scratch);
    }
  }

  lemma ConfinedSize(d0: seq<Cell>, d: seq<Cell>, j: Job, e: nat, n: nat)
    requires 0 < e && j.offset + j.part <= |d0| && Confined(d0, d, j, e, n)
    ensures |d| == |d0|
  {
  }

  /** The whole writer once it has its buffers. */
  method WriteJob(flash: Device, iob: Buffer, n: nat, scratch: seq<Cell>, ghost d0: seq<Cell>, ghost j: Job,
                  start: Counters)
    returns (ok: bool, written: nat)
    requires Ready(flash, iob, j) && d0 == flash.data && start == Start(j) && j.from <= |j.image|
    requires 0 < n && Multiple(n, flash.eraseSize) && flash.eraseSize <= n == |scratch|
    modifies flash, iob`len, iob`pos, iob`offset, iob.buf
    ensures Ready(flash, iob, j) && flash.clean == old(flash.clean)
    ensures Multiple(flash.eraseSize, flash.writeSize) && j.offset + j.part <= |d0|
    ensures Confined(d0, flash.data, j, flash.eraseSize, n)
    ensures ok ==>
              && written == Min(j.len, j.part) && j.from + Min(j.len, j.part) <= |j.image|
              && KeptOutside(d0, flash.data, j.offset, j.offset + j.part) && ImageWritten(flash.data, j, written)
              && (ErasedBetween(flash.data, j.offset + written, j.offset + j.part) <==>
                  RestErased(d0, j, flash.writeSize, flash.eraseSize, n, scratch))
    ensures WorksTo(flash, iob, j, TouchEnd(d0, j, flash.eraseSize, n)) ==> ok
    ensures WorksInside(flash, iob, j) && flash.faults == Stuck({j.offset + j.part}) ==>
              var hi := TouchEnd(d0, j, flash.eraseSize, n);
              && j.offset + j.part <= hi && (ok <==> j.offset + j.part == hi)
              && (!ok ==> ErasedBetween(flash.data, j.offset + j.part, hi))
  {
    hide *;
    Sizes(flash, iob, j);
    ghost var e := flash.eraseSize;
    ghost var lo, hi := RoundDown(j.offset, e), TouchEnd(d0, j, e, n);
    TouchCases(d0, j, e, n);
    if WorksInside(flash, iob, j) {
      LeadInside(flash, iob, j);
    }
    if WorksTo(flash, iob, j, hi) {
      WorksPart(flash, iob, j, hi, ImageReach(j, e, n, |d0|));
      WorksBehind(flash, iob, j, hi);
    }
    var c, n', buf2;
    ok, c, n', buf2 := ImagePart(flash, iob, n, scratch, d0, j, start);
    Sizes(flash, iob, j);
    NothingChanged(d0, lo, lo);
    KeptJoin(d0, d0, flash.data, lo, hi, lo, lo, lo, ImageReach(j, e, n, |d0|));
    IsConfined(d0, flash.data, j, e, n);
    written := c.written;
    if ok {
      ok := AfterImage(flash, n', n, buf2, scratch, d0, j, c);
      ConfinedSize(d0, flash.data, j, e, n);
      StillReady(flash, iob, j);
    }
  }

  /** The writer with a buffer of `n` bytes, or none. */
  method WriteBuffered(flash: Device, iob: Buffer, n: nat, outOfMemory: bool, scratch: seq<Cell>,
                       ghost d0: seq<Cell>, ghost j: Job, start: Counters)
    returns (rc: int)
    requires Ready(flash, iob, j) && d0 == flash.data && start == Start(j) && j.from <= |j.image|
    requires |scratch| == n && (n > 0 ==> Multiple(n, flash.eraseSize) && flash.eraseSize <= n)
    modifies flash, iob`len, iob`pos, iob`offset, iob.buf
    ensures Ready(flash, iob, j) && flash.clean == old(flash.clean)
    ensures 0 < flash.eraseSize && Multiple(flash.eraseSize, flash.writeSize) && j.offset + j.part <= |d0|
    ensures rc == ERR_UPGRADE || rc == Min(j.len, j.part)
    ensures Confined(d0, flash.data, j, flash.eraseSize, n)
    ensures rc != ERR_UPGRADE ==>
              && n > 0 && j.from + Min(j.len, j.part) <= |j.image|
              && KeptOutside(d0, flash.data, j.offset, j.offset + j.part) && ImageWritten(flash.data, j, rc)
              && (ErasedBetween(flash.data, j.offset + rc, j.offset + j.part) <==>
                  RestErased(d0, j, flash.writeSize, flash.eraseSize, n, scratch))
    ensures n == 0 || outOfMemory ==> rc == ERR_UPGRADE
    ensures n > 0 && !outOfMemory && WorksTo(flash, iob, j, TouchEnd(d0, j, flash.eraseSize, n)) ==>
              rc == Min(j.len, j.part)
    ensures n > 0 && !outOfMemory && WorksInside(flash, iob, j) && flash.faults == Stuck({j.offset + j.part}) ==>
              var hi := TouchEnd(d0, j, flash.eraseSize, n);
              && (rc == ERR_UPGRADE <==> j.offset + j.part < hi)
              && (rc == ERR_UPGRADE ==> ErasedBetween(flash.data, j.offset + j.part, hi))
  {
    assert ERR_UPGRADE < 0;
    hide *;
    Sizes(flash, iob, j);
    Untouched(d0, j, flash.eraseSize, n);
    if n == 0 || outOfMemory {
      return ERR_UPGRADE;
    }
    var ok, written := WriteJob(flash, iob, n, scratch, d0, j, start);
    Sizes(flash, iob, j);
    if !ok {
      return ERR_UPGRADE;
    }
    rc := written;
  }

  /**
    `hcfota_write_mtd_nor`, for any alignment of the partition; `scratch` is what the second buffer
    holds when it is allocated.  Unless an error is returned, the result is how much of the image fits,
    that much of the image stands at the start of the partition, every byte outside the partition is
    unchanged, and the rest of the partition is erased exactly when `RestErased` says so of the old
    contents.  On every outcome nothing has changed out of reach, and no cell is ever programmed unless
    it is erased.  The run succeeds when there is memory, every image byte can be had and nothing fails
    within what it may touch.  When the only fault is the first cell behind the partition, the run fails exactly when
    it touches that cell, and the cells behind the partition within reach are left erased.
   */
  method WriteMtdNor(flash: Device, iob: Buffer, iobOff: nat, len: nat, offset: nat, part: nat, lowMemory: bool,
                     outOfMemory: bool, scratch: seq<Cell>)
    returns (rc: int)
    requires flash.Valid() && iob.Valid() && PowerOfTwo(flash.eraseSize)
    requires offset + part <= |flash.data| && iobOff <= |iob.image|
    requires |scratch| == BufferBytes(flash.eraseSize, lowMemory)
    modifies flash, iob`len, iob`pos, iob`offset, iob.buf
    ensures flash.Valid() && iob.Valid() && flash.clean == old(flash.clean)
    ensures rc == ERR_UPGRADE || rc == Min(len, part)
    ensures var j := Job(offset, part, iob.image, iobOff, len);
            && Confined(old(flash.data), flash.data, j, flash.eraseSize, |scratch|)
            && (rc != ERR_UPGRADE ==>
                  && KeptOutside(old(flash.data), flash.data, offset, offset + part) && ImageWritten(flash.data, j, rc)
                  && |scratch| > 0
                  && (ErasedBetween(flash.data, offset + rc, offset + part) <==>
                      RestErased(old(flash.data), j, flash.writeSize, flash.eraseSize, |scratch|, scratch)))
    ensures |scratch| == 0 || outOfMemory ==> rc == ERR_UPGRADE
    ensures var j := Job(offset, part, iob.image, iobOff, len);
            |scratch| > 0 && !outOfMemory
            && WorksTo(flash, iob, j, TouchEnd(old(flash.data), j, flash.eraseSize, |scratch|)) ==>
              rc == Min(len, part)
    ensures var j := Job(offset, part, iob.image, iobOff, len);
            |scratch| > 0 && !outOfMemory && WorksInside(flash, iob, j) && flash.faults == Stuck({offset + part}) ==>
              var hi := TouchEnd(old(flash.data), j, flash.eraseSize, |scratch|);
              && (rc == ERR_UPGRADE <==> offset + part < hi)
              && (rc == ERR_UPGRADE ==> ErasedBetween(flash.data, offset + part, hi))
  {
    hide *;
    ghost var j := Job(offset, part, iob.image, iobOff, len);
    StillReady(flash, iob, j);
    var n := BufferSize(flash.eraseSize, lowMemory);
    var start := Counters(len, part, offset, iobOff, offset, 0);
    IsStart(start, j);
    rc := WriteBuffered(flash, iob, n, outOfMemory, scratch, flash.data, j, start);
    Sizes(flash, iob, j);
  }

  /** With pages as large as erase blocks the rest of the partition is always erased. */
  lemma EqualUnitsErase(d0: seq<Cell>, j: Job, e: nat, n: nat, scratch: seq<Cell>)
    requires Multiple(e, e) && 0 < n && Multiple(n, e) && e <= n == |scratch|
    requires j.offset + j.part <= |d0| && j.from + Min(j.len, j.part) <= |j.image|
    ensures RestErased(d0, j, e, e, n, scratch)
  {
    hide NoWindowSkipped, Stale, BeforeLoop, LoopStart, RestErased;
    var at := LoopStart(j, e, n);
    if at < j.offset + j.part {
      RestExactly(d0, j, e, e, n, scratch, at, BeforeLoop(d0, j, at), Stale(d0, j, e, n, scratch));
      EqualUnitsSkipNothing(BeforeLoop(d0, j, at), Stale(d0, j, e, n, scratch), e, n, at, j.offset + j.part - at);
    } else {
      NoRest(d0, j, e, e, n, scratch);
    }
  }

  lemma ChunkSizes()
    ensures Multiple(CHUNK, 256) && Multiple(CHUNK, CHUNK) && BlocksAsPages(CHUNK, CHUNK, 256) == 256
  {
  }

  /**
    With smaller pages a cell can stay behind: 64 KiB erase blocks, 256-byte pages, a blank 64 KiB image
    for the first of two blocks, which is blank already, and one zero at the start of the second.
   */
  lemma SmallPagesMaySkip(scratch: seq<Cell>, d0: seq<Cell>, j: Job)
    requires |scratch| == CHUNK && d0 == Blank(CHUNK) + [0] + Blank(CHUNK - 1)
    requires j == Job(0, 2 * CHUNK, Blank(CHUNK), 0, CHUNK)
    ensures |d0| == 2 * CHUNK && Multiple(2 * CHUNK, CHUNK) && Multiple(CHUNK, 256) && Multiple(CHUNK, CHUNK)
    ensures !RestErased(d0, j, 256, CHUNK, CHUNK, scratch)
  {
    ChunkSizes();
    Whole(CHUNK, CHUNK);
    assert LeadSize(j, CHUNK) == 0 && ImageLeft(j, CHUNK) == CHUNK && LoopStart(j, CHUNK, CHUNK) == CHUNK;
    var stale := Stale(d0, j, CHUNK, CHUNK, scratch);
    assert stale == d0[0..CHUNK] == Blank(CHUNK);
    var d := BeforeLoop(d0, j, CHUNK);
    assert d == d0;
    RestExactly(d0, j, 256, CHUNK, CHUNK, scratch, CHUNK, d, stale);
    ProbeInside(d, 256, CHUNK, CHUNK, CHUNK, CHUNK);
    assert d[CHUNK..CHUNK + CHUNK][0] == 0;
    hide NoWindowSkipped, RestErased;
    SkippedWindow(d, stale, 256, CHUNK, CHUNK, CHUNK, CHUNK);
  }

  lemma ChunkCopies()
    ensures ERR_UPGRADE < 0 < CHUNK && Min(CHUNK, 2 * CHUNK) == CHUNK
  {
  }

  lemma ChunkBuffer()
    ensures PowerOfTwo(CHUNK) && BufferBytes(CHUNK, false) == CHUNK
  {
    PowerOfChunk();
  }

  lemma WorksInsideIt(flash: Device, iob: Buffer, j: Job)
    requires 0 < flash.eraseSize && LeadSize(j, flash.eraseSize) < j.part && iob.image == j.image
    requires iob.kind == Memory && j.from + Min(j.len, j.part) <= |j.image|
    requires flash.faults == Stuck({j.offset + j.part})
    ensures WorksInside(flash, iob, j)
  {
  }

  lemma NoLastWindow(d0: seq<Cell>, j: Job)
    requires |d0| == 2 * CHUNK && j == Job(0, 2 * CHUNK, Blank(CHUNK), 0, CHUNK)
    ensures TouchEnd(d0, j, CHUNK, CHUNK) == 2 * CHUNK && LeadSize(j, CHUNK) < j.part
  {
    assert Multiple(2 * CHUNK, CHUNK);
    Whole(2 * CHUNK, CHUNK);
    hide RoundDown;
  }

  /** The writer itself at that input: it reports success, and the second block is not all erased. */
  method SmallPagesSkip(scratch: seq<Cell>) returns (flash: Device, rc: int)
    requires |scratch| == CHUNK
    ensures flash.eraseSize == CHUNK && flash.writeSize == 256 && |flash.data| == 2 * CHUNK
    ensures rc == CHUNK && !ErasedBetween(flash.data, CHUNK, 2 * CHUNK)
  {
    ChunkCopies();
    hide *;
    PowerOfChunk();
    ChunkBuffer();
    var image := Blank(CHUNK);
    var d0 := image + [0] + Blank(CHUNK - 1);
    ghost var j := Job(0, 2 * CHUNK, image, 0, CHUNK);
    SmallPagesMaySkip(scratch, d0, j);
    NoLastWindow(d0, j);
    flash := new Device(d0, CHUNK, 256, Stuck({2 * CHUNK}));
    var iob := new Buffer(Memory, image, 0x1000);
    WorksInsideIt(flash, iob, j);
    rc := WriteMtdNor(flash, iob, 0, CHUNK, 0, 2 * CHUNK, false, false, scratch);
    ConfinedSize(d0, flash.data, j, CHUNK, CHUNK);
  }

  /** With a partition as long as the image nothing is left for the erase loops. */
  lemma NothingToErase(d0: seq<Cell>, d: seq<Cell>, j: Job, c: Counters)
    requires Progress(d0, d, j, c) && j.part == j.len && c.written == j.len
    ensures c.dst == 0 && j.from + j.len <= |j.image|
    ensures j.offset + j.len <= |d0| && d == Splice(d0, j.offset, j.image[j.from..j.from + j.len])
  {
  }

  /**
    `hcfota_program_nor`: the same steps with the partition cut to the image.  A result of 0 means
    that exactly `[offset, offset + len)` has been replaced; the erase loops at the end of the code
    are never entered.
   */
  method ProgramNor(flash: Device, iob: Buffer, len: nat, offset: nat, lowMemory: bool, outOfMemory: bool,
                    scratch: seq<Cell>)
    returns (rc: int)
    requires flash.Valid() && iob.Valid() && PowerOfTwo(flash.eraseSize)
    requires offset + len <= |flash.data|
    requires |scratch| == BufferBytes(flash.eraseSize, lowMemory)
    modifies flash, iob`len, iob`pos, iob`offset, iob.buf
    ensures flash.Valid() && iob.Valid() && flash.clean == old(flash.clean)
    ensures rc == 0 || rc == ERR_UPGRADE || rc == -ENOMEM
    ensures rc == -ENOMEM <==> |scratch| == 0 || outOfMemory
    ensures Confined(old(flash.data), flash.data, Job(offset, len, iob.image, 0, len), flash.eraseSize, |scratch|)
    ensures rc == 0 ==> len <= |iob.image| && flash.data == Splice(old(flash.data), offset, iob.image[..len])
    ensures var j := Job(offset, len, iob.image, 0, len);
            |scratch| > 0 && !outOfMemory
            && WorksTo(flash, iob, j, TouchEnd(old(flash.data), j, flash.eraseSize, |scratch|)) ==>
              rc == 0
  {
    hide Multiple, Buffer.Valid, ImageWritten, KeptOutside, ErasedBetween, Splice, BufferBytes, Reach;
    hide TouchEnd, ImageReach, WorksTo;
    ghost var d0, j := flash.data, Job(offset, len, iob.image, 0, len);
    var n := BufferSize(flash.eraseSize, lowMemory);
    if n == 0 {
      return -ENOMEM;
    }
    ghost var e := flash.eraseSize;
    ghost var lo, hi := RoundDown(offset, e), TouchEnd(d0, j, e, n);
    NothingChanged(d0, lo, hi);
    if outOfMemory {
      return -ENOMEM;
    }
    TouchCases(d0, j, e, n);
    if WorksTo(flash, iob, j, hi) {
      WorksPart(flash, iob, j, hi, ImageReach(j, e, n, |d0|));
    }
    var ok, c, n', buf2 := ImagePart(flash, iob, n, scratch, d0, j, Counters(len, len, offset, 0, offset, 0));
    KeptJoin(d0, d0, flash.data, lo, hi, lo, lo, lo, ImageReach(j, e, n, |d0|));
    if !ok {
      return ERR_UPGRADE;
    }
    NothingToErase(d0, flash.data, j, c);
    assert c.dst == 0;
    rc := 0;
  }
}
