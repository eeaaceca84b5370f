/**
  Erasing what an image leaves of a NOR partition: the loop over whole windows of
  `hcfota_write_mtd_nor`, whose probe takes block numbers for page numbers, and the window at the end.
 */
module NorErase {
  import opened Cells
  import opened Division
  import opened IoBuffer
  import opened NorFlash
  import opened Slices

  ghost predicate ErasedBetween(d: seq<Cell>, lo: nat, hi: nat) {
    hi <= |d| && forall i :: lo <= i < hi ==> d[i] == ERASED
  }

  /** `d` is `d0` with `bytes` at `at`, erased cells from there up to `stop`, and no other change. */
  ghost predicate Rewritten(d0: seq<Cell>, d: seq<Cell>, at: nat, bytes: seq<Cell>, stop: nat) {
    && |d| == |d0| && at + |bytes| <= stop <= |d|
    && forall i :: 0 <= i < |d| ==>
         d[i] == if at <= i < at + |bytes| then bytes[i - at] else if at <= i < stop then ERASED else d0[i]
  }

  // ---- sizes in whole windows

  /** The whole windows of `n` cells in `x`. */
  function RoundDown(x: nat, n: nat): (r: nat)
    requires 0 < n
    ensures r <= x < r + n && (r > 0 ==> n <= r)
  {
    assert x / n > 0 ==> n <= x / n * n by {
      if x / n > 0 {
        SmallestMultiple(x / n, n);
      }
    }
    x / n * n
  }

  function RoundUp(x: nat, n: nat): (r: nat)
    requires 0 < n
    ensures x <= r < x + n
  {
    if RoundDown(x, n) == x then x else RoundDown(x, n) + n
  }

  lemma Remainder(x: nat, n: nat)
    requires 0 < n
    ensures RoundDown(x, n) == x - x % n && (RoundDown(x, n) == x <==> x % n == 0)
  {
    assert x == x / n * n + x % n;
  }

  lemma RoundUpMultiple(x: nat, n: nat)
    requires 0 < n
    ensures Multiple(RoundUp(x, n), n) && Multiple(RoundDown(x, n), n)
  {
    var q := x / n;
    DivisionUnique(q * n, n, q, 0);
    assert q * n + n == (q + 1) * n;
    DivisionUnique(q * n + n, n, q + 1, 0);
  }

  /** A whole number of windows needs no rounding. */
  lemma Whole(x: nat, n: nat)
    requires Multiple(x, n)
    ensures RoundDown(x, n) == x == RoundUp(x, n)
  {
  }

  lemma DownOff(x: nat, y: nat, n: nat)
    requires Multiple(x, n) && x <= y
    ensures RoundDown(y - x, n) == RoundDown(y, n) - x
  {
    var p, q := x / n, y / n;
    assert x == p * n && y == q * n + y % n;
    if q < p {
      LessTimes(q, p, n);
    }
    assert (q - p) * n == q * n - p * n;
    DivisionUnique(y - x, n, q - p, y % n);
  }

  lemma NextMultiple(x: nat, y: nat, n: nat)
    requires Multiple(x, n) && x < RoundDown(y, n)
    ensures x + n <= RoundDown(y, n)
  {
    var p, q := x / n, y / n;
    assert x == p * n && (p + 1) * n == p * n + n;
    if q <= p {
      LessTimes(q, p + 1, n);
    } else {
      LessTimes(p, q, n);
    }
  }

  /** Taking whole windows off. */
  lemma WindowsOff(x: nat, y: nat, n: nat)
    requires Multiple(x, n) && x <= y
    ensures RoundDown(y - x, n) == RoundDown(y, n) - x
    ensures RoundUp(y - x, n) == RoundUp(y, n) - x
    ensures x < y ==> x + n <= RoundUp(y, n)
  {
    hide RoundDown;
    DownOff(x, y, n);
    if RoundDown(y, n) > x {
      Whole(x, n);
      NextMultiple(x, y, n);
    }
  }

  function EraseRange(d: seq<Cell>, at: nat, n: nat): (r: seq<Cell>)
    requires at + n <= |d|
    ensures |r| == |d|
    ensures forall i :: 0 <= i < |d| ==> r[i] == if at <= i < at + n then ERASED else d[i]
  {
    SpliceElements(d, at, Blank(n));
    Splice(d, at, Blank(n))
  }

  /** Whole windows of `n` cells from `at` on, in a device of pages `w` and erase blocks `e`. */
  ghost predicate Windows(d: seq<Cell>, w: nat, e: nat, n: nat, at: nat, dst: nat) {
    Multiple(e, w) && 0 < n && Multiple(n, e) && Multiple(at, e) && at + dst <= |d|
  }

  /** `x / erasesize` erase blocks taken for pages. */
  function BlocksAsPages(x: nat, e: nat, w: nat): nat {
    if e == 0 then 0 else x / e * w
  }

  lemma PageFits(e: nat, w: nat)
    requires Multiple(e, w) && 0 < e
    ensures w <= e
  {
  }

  lemma BlocksAsPagesBound(x: nat, e: nat, w: nat)
    requires Multiple(e, w) && Multiple(x, e)
    ensures BlocksAsPages(x, e, w) <= x
    ensures w == e ==> BlocksAsPages(x, e, w) == x
  {
    var q := x / e;
    assert x == q * e;
    PageFits(e, w);
    assert q * (e - w) >= 0;
    assert q * e - q * w == q * (e - w);
  }

  lemma ProbeInside(d: seq<Cell>, w: nat, e: nat, n: nat, at: nat, dst: nat)
    requires Windows(d, w, e, n, at, dst) && n <= dst
    ensures BlocksAsPages(at, e, w) + BlocksAsPages(n, e, w) <= |d| && BlocksAsPages(n, e, w) <= n
    ensures w == e ==> BlocksAsPages(at, e, w) == at && BlocksAsPages(n, e, w) == n
    ensures Windows(d, w, e, n, at + n, dst - n)
  {
    hide BlocksAsPages;
    BlocksAsPagesBound(at, e, w);
    BlocksAsPagesBound(n, e, w);
    MultipleSum(at, n, e);
  }

  /**
    The page read of the erase loop, whose start and count are block numbers: what it leaves in a buffer
    that held `stale`.
   */
  function Probe(d: seq<Cell>, from: nat, k: nat, stale: seq<Cell>): (r: seq<Cell>)
    requires from + k <= |d| && k <= |stale|
    ensures |r| == |stale|
  {
    d[from..from + k] + stale[k..]
  }

  /** The erase loop as a function: a window is erased only when its probe shows a cell that is not. */
  ghost function EraseWindows(d: seq<Cell>, stale: seq<Cell>, w: nat, e: nat, n: nat, at: nat, dst: nat): (r: seq<Cell>)
    requires Windows(d, w, e, n, at, dst) && |stale| == n
    ensures |r| == |d|
    decreases dst
  {
    if dst < n then d
    else
      ProbeInside(d, w, e, n, at, dst);
      var b := Probe(d, BlocksAsPages(at, e, w), BlocksAsPages(n, e, w), stale);
      EraseWindows(if IsBlank(b) then d else EraseRange(d, at, n), b, w, e, n, at + n, dst - n)
  }

  /** Every window is blank already, or its probe is not. */
  ghost predicate NoWindowSkipped(d: seq<Cell>, stale: seq<Cell>, w: nat, e: nat, n: nat, at: nat, dst: nat)
    requires Windows(d, w, e, n, at, dst) && |stale| == n
    decreases dst
  {
    dst < n ||
    (ProbeInside(d, w, e, n, at, dst);
     var b := Probe(d, BlocksAsPages(at, e, w), BlocksAsPages(n, e, w), stale);
     (IsBlank(d[at..at + n]) || !IsBlank(b)) &&
     NoWindowSkipped(if IsBlank(b) then d else EraseRange(d, at, n), b, w, e, n, at + n, dst - n))
  }

  /** Where the whole windows end. */
  function WindowsEnd(n: nat, at: nat, dst: nat): (r: nat)
    requires 0 < n
    ensures at <= r <= at + dst && at + dst < r + n
  {
    at + RoundDown(dst, n)
  }

  lemma OneWindowLess(n: nat, at: nat, dst: nat)
    requires 0 < n <= dst
    ensures WindowsEnd(n, at + n, dst - n) == WindowsEnd(n, at, dst)
  {
    DivisionUnique(n, n, 1, 0);
    WindowsOff(n, dst, n);
  }

  lemma NothingBetween(d: seq<Cell>, at: nat)
    requires at <= |d|
    ensures ErasedBetween(d, at, at) && KeptOutside(d, d, at, at)
  {
  }

  lemma NoWindow(n: nat, at: nat, dst: nat)
    requires dst < n
    ensures WindowsEnd(n, at, dst) == at
  {
  }

  /** What the first window and the others do to the cells adds up. */
  lemma WindowsJoin(d: seq<Cell>, d': seq<Cell>, r: seq<Cell>, at: nat, mid: nat, stop: nat)
    requires |r| == |d'| == |d| && at <= mid <= stop <= |d|
    requires KeptOutside(d, d', at, mid) && KeptOutside(d', r, mid, stop)
    ensures KeptOutside(d, r, at, stop)
    ensures ErasedBetween(r, at, stop) <==> ErasedBetween(d', at, mid) && ErasedBetween(r, mid, stop)
  {
  }

  lemma WindowErased(d: seq<Cell>, d': seq<Cell>, b: seq<Cell>, at: nat, n: nat)
    requires at + n <= |d| && d' == if IsBlank(b) then d else EraseRange(d, at, n)
    ensures KeptOutside(d, d', at, at + n)
    ensures ErasedBetween(d', at, at + n) <==> IsBlank(d[at..at + n]) || !IsBlank(b)
  {
    var window := d[at..at + n];
    if IsBlank(window) {
      forall i | at <= i < at + n ensures d[i] == ERASED {
        assert d[i] == window[i - at];
      }
    } else {
      var i :| 0 <= i < n && window[i] != ERASED;
      assert d[at + i] != ERASED;
    }
  }

  /** The loop erases all whole windows if and only if none of them is skipped by a misleading probe. */
  lemma {:induction false} GapErasedExactly(d: seq<Cell>, stale: seq<Cell>, w: nat, e: nat, n: nat, at: nat, dst: nat)
    requires Windows(d, w, e, n, at, dst) && |stale| == n
    ensures var r := EraseWindows(d, stale, w, e, n, at, dst);
            && KeptOutside(d, r, at, WindowsEnd(n, at, dst))
            && (ErasedBetween(r, at, WindowsEnd(n, at, dst)) <==> NoWindowSkipped(d, stale, w, e, n, at, dst))
    decreases dst
  {
    hide Multiple, BlocksAsPages, Probe, IsBlank, EraseRange, ErasedBetween, KeptOutside, WindowsEnd;
    if dst >= n {
      ProbeInside(d, w, e, n, at, dst);
      OneWindowLess(n, at, dst);
      var b := Probe(d, BlocksAsPages(at, e, w), BlocksAsPages(n, e, w), stale);
      var d' := if IsBlank(b) then d else EraseRange(d, at, n);
      GapErasedExactly(d', b, w, e, n, at + n, dst - n);
      WindowErased(d, d', b, at, n);
      WindowsJoin(d, d', EraseWindows(d', b, w, e, n, at + n, dst - n), at, at + n, WindowsEnd(n, at + n, dst - n));
    } else {
      NothingBetween(d, at);
      NoWindow(n, at, dst);
    }
  }

  /** With pages as large as erase blocks the probe is the window itself, so nothing is skipped. */
  lemma {:induction false} EqualUnitsSkipNothing(d: seq<Cell>, stale: seq<Cell>, e: nat, n: nat, at: nat, dst: nat)
    requires Windows(d, e, e, n, at, dst) && |stale| == n
    ensures NoWindowSkipped(d, stale, e, e, n, at, dst)
    decreases dst
  {
    hide Multiple, BlocksAsPages;
    if dst >= n {
      ProbeInside(d, e, e, n, at, dst);
      var b := Probe(d, at, n, stale);
      assert b == d[at..at + n];
      EqualUnitsSkipNothing(if IsBlank(b) then d else EraseRange(d, at, n), b, e, n, at + n, dst - n);
    }
  }

  /** A window that is not blank stays when its probe is. */
  lemma SkippedWindow(d: seq<Cell>, stale: seq<Cell>, w: nat, e: nat, n: nat, at: nat, dst: nat)
    requires Windows(d, w, e, n, at, dst) && |stale| == n <= dst && !IsBlank(d[at..at + n])
    requires BlocksAsPages(at, e, w) + BlocksAsPages(n, e, w) <= |d| && BlocksAsPages(n, e, w) <= n
    requires IsBlank(Probe(d, BlocksAsPages(at, e, w), BlocksAsPages(n, e, w), stale))
    ensures !NoWindowSkipped(d, stale, w, e, n, at, dst)
  {
    hide Multiple, BlocksAsPages, Probe;
  }

  lemma TailStays(d: seq<Cell>, from: nat, k: nat, stale: seq<Cell>)
    requires from + k <= |d| && k <= |stale| && !IsBlank(stale[k..])
    ensures var b := Probe(d, from, k, stale); b[k..] == stale[k..] && !IsBlank(b)
  {
    var b := Probe(d, from, k, stale);
    assert b[k..] == stale[k..];
    var i :| 0 <= i < |b[k..]| && b[k..][i] != ERASED;
    assert b[k + i] != ERASED;
  }

  /** A cell behind the probed pages that is not blank stays in the buffer, and then every window is erased. */
  lemma {:induction false} StaleTailErases(d: seq<Cell>, stale: seq<Cell>, w: nat, e: nat, n: nat, at: nat, dst: nat)
    requires Windows(d, w, e, n, at, dst) && |stale| == n && BlocksAsPages(n, e, w) <= n
    requires !IsBlank(stale[BlocksAsPages(n, e, w)..])
    ensures NoWindowSkipped(d, stale, w, e, n, at, dst)
    decreases dst
  {
    hide Multiple, BlocksAsPages, Probe, IsBlank, EraseRange;
    if dst >= n {
      ProbeInside(d, w, e, n, at, dst);
      var from, k := BlocksAsPages(at, e, w), BlocksAsPages(n, e, w);
      TailStays(d, from, k, stale);
      StaleTailErases(EraseRange(d, at, n), Probe(d, from, k, stale), w, e, n, at + n, dst - n);
    }
  }

  /** `a` is the start of a whole window of the stretch `[at, at + dst)`. */
  predicate WindowOf(n: nat, at: nat, dst: nat, a: nat) {
    at <= a && Multiple(a - at, n) && a + n <= at + dst
  }

  predicate InProbe(w: nat, e: nat, n: nat, a: nat, i: nat) {
    BlocksAsPages(a, e, w) <= i < BlocksAsPages(a, e, w) + BlocksAsPages(n, e, w)
  }

  /** The pages probed for the window at `a` hold a cell that no erasing from `at` to `a` has blanked. */
  ghost predicate Seen(d: seq<Cell>, w: nat, e: nat, n: nat, at: nat, a: nat) {
    exists i: nat :: InProbe(w, e, n, a, i) && i < |d| && !(at <= i < a) && d[i] != ERASED
  }

  ghost predicate EveryWindowSeen(d: seq<Cell>, w: nat, e: nat, n: nat, at: nat, dst: nat) {
    at + dst <= |d| && forall a: nat :: WindowOf(n, at, dst, a) ==> IsBlank(d[a..a + n]) || Seen(d, w, e, n, at, a)
  }

  lemma ProbeShows(d: seq<Cell>, stale: seq<Cell>, w: nat, e: nat, n: nat, at: nat)
    requires BlocksAsPages(at, e, w) + BlocksAsPages(n, e, w) <= |d| && BlocksAsPages(n, e, w) <= n == |stale|
    requires IsBlank(stale[BlocksAsPages(n, e, w)..])
    ensures var b := Probe(d, BlocksAsPages(at, e, w), BlocksAsPages(n, e, w), stale);
            && b[BlocksAsPages(n, e, w)..] == stale[BlocksAsPages(n, e, w)..]
            && (IsBlank(b) <==> !Seen(d, w, e, n, at, at))
  {
    hide BlocksAsPages;
    var from, k := BlocksAsPages(at, e, w), BlocksAsPages(n, e, w);
    var b := Probe(d, from, k, stale);
    if Seen(d, w, e, n, at, at) {
      var i: nat :| InProbe(w, e, n, at, i) && i < |d| && d[i] != ERASED;
      assert b[i - from] != ERASED;
    } else {
      forall i | 0 <= i < |b| ensures b[i] == ERASED {
        if i < k {
          assert InProbe(w, e, n, at, from + i);
        } else {
          assert b[i] == stale[k..][i - k];
        }
      }
    }
  }

  lemma WindowBehind(n: nat, at: nat, dst: nat, a: nat)
    requires 0 < n <= dst
    ensures WindowOf(n, at, dst, at) && (WindowOf(n, at, dst, a) <==> a == at || WindowOf(n, at + n, dst - n, a))
  {
    DivisionUnique(n, n, 1, 0);
    DivisionUnique(0, n, 0, 0);
    if WindowOf(n, at, dst, a) && a != at {
      WindowsOff(0, a - at, n);
      MultipleSum(a - at, n, n);
    } else if WindowOf(n, at + n, dst - n, a) {
      MultipleSum(a - at - n, n, n);
    }
  }

  /** Blanking the first window does not change what is seen at a later one. */
  lemma SeenBehind(d: seq<Cell>, d': seq<Cell>, w: nat, e: nat, n: nat, at: nat, a: nat)
    requires at + n <= |d| && at + n <= a && a + n <= |d| && d' == EraseRange(d, at, n)
    ensures Seen(d', w, e, n, at + n, a) <==> Seen(d, w, e, n, at, a)
    ensures d'[a..a + n] == d[a..a + n]
  {
    hide InProbe;
  }

  /** The first window, and then the others as they are after the first is blank. */
  lemma FirstWindowSeen(d: seq<Cell>, d': seq<Cell>, w: nat, e: nat, n: nat, at: nat, dst: nat)
    requires 0 < n <= dst && at + dst <= |d| && d' == EraseRange(d, at, n)
    ensures EveryWindowSeen(d, w, e, n, at, dst) <==>
            (IsBlank(d[at..at + n]) || Seen(d, w, e, n, at, at)) && EveryWindowSeen(d', w, e, n, at + n, dst - n)
  {
    hide Multiple, Seen, IsBlank, EraseRange;
    WindowBehind(n, at, dst, at);
    if EveryWindowSeen(d, w, e, n, at, dst) {
      var next, rest := at + n, dst - n;
      forall a: nat | WindowOf(n, next, rest, a) ensures IsBlank(d'[a..a + n]) || Seen(d', w, e, n, next, a) {
        WindowBehind(n, at, dst, a);
        SeenBehind(d, d', w, e, n, at, a);
      }
    }
    if (IsBlank(d[at..at + n]) || Seen(d, w, e, n, at, at)) && EveryWindowSeen(d', w, e, n, at + n, dst - n) {
      forall a: nat | WindowOf(n, at, dst, a) ensures IsBlank(d[a..a + n]) || Seen(d, w, e, n, at, a) {
        WindowBehind(n, at, dst, a);
        if a != at {
          SeenBehind(d, d', w, e, n, at, a);
        }
      }
    }
  }

  lemma BlankErased(d: seq<Cell>, at: nat, n: nat)
    requires at + n <= |d| && IsBlank(d[at..at + n])
    ensures EraseRange(d, at, n) == d
  {
    var window := d[at..at + n];
    forall i | at <= i < at + n ensures d[i] == ERASED {
      assert d[i] == window[i - at];
    }
  }

  lemma NoWindowSeen(d: seq<Cell>, w: nat, e: nat, n: nat, at: nat, dst: nat)
    requires dst < n && at + dst <= |d|
    ensures EveryWindowSeen(d, w, e, n, at, dst)
  {
  }

  lemma {:induction false} SeenExactly(d: seq<Cell>, stale: seq<Cell>, w: nat, e: nat, n: nat, at: nat, dst: nat)
    requires Windows(d, w, e, n, at, dst) && |stale| == n && BlocksAsPages(n, e, w) <= n
    requires IsBlank(stale[BlocksAsPages(n, e, w)..])
    ensures NoWindowSkipped(d, stale, w, e, n, at, dst) <==> EveryWindowSeen(d, w, e, n, at, dst)
    decreases dst
  {
    hide Multiple, BlocksAsPages, Probe, IsBlank, EraseRange, EveryWindowSeen, Seen;
    if dst >= n {
      ProbeInside(d, w, e, n, at, dst);
      var b := Probe(d, BlocksAsPages(at, e, w), BlocksAsPages(n, e, w), stale);
      ProbeShows(d, stale, w, e, n, at);
      FirstWindowSeen(d, EraseRange(d, at, n), w, e, n, at, dst);
      if IsBlank(d[at..at + n]) {
        BlankErased(d, at, n);
      }
      if IsBlank(d[at..at + n]) || !IsBlank(b) {
        SeenExactly(EraseRange(d, at, n), b, w, e, n, at + n, dst - n);
      }
    } else {
      NoWindowSeen(d, w, e, n, at, dst);
    }
  }

  /**
    When no window is skipped, in terms of the cells at the start of the loop: the buffer holds a
    programmed cell behind the probed pages, or every whole window is blank or its probe sees a cell.
   */
  lemma NoneSkippedExactly(d: seq<Cell>, stale: seq<Cell>, w: nat, e: nat, n: nat, at: nat, dst: nat)
    requires Windows(d, w, e, n, at, dst) && |stale| == n && BlocksAsPages(n, e, w) <= n
    ensures NoWindowSkipped(d, stale, w, e, n, at, dst) <==>
            !IsBlank(stale[BlocksAsPages(n, e, w)..]) || EveryWindowSeen(d, w, e, n, at, dst)
  {
    if IsBlank(stale[BlocksAsPages(n, e, w)..]) {
      SeenExactly(d, stale, w, e, n, at, dst);
    } else {
      StaleTailErases(d, stale, w, e, n, at, dst);
    }
  }

  lemma WindowsDone(d: seq<Cell>, stale: seq<Cell>, w: nat, e: nat, n: nat, at: nat, dst: nat)
    requires Windows(d, w, e, n, at, dst) && |stale| == n && dst < n
    ensures EraseWindows(d, stale, w, e, n, at, dst) == d
  {
  }

  lemma CellsRead(d: seq<Cell>, from: nat, k: nat, bytes: seq<Cell>)
    requires from + k <= |d| && |bytes| == k && forall i :: from <= i < from + k ==> d[i] == bytes[i - from]
    ensures bytes == d[from..from + k]
  {
  }

  /** MTD_BREAD with block numbers for page numbers. */
  method ReadProbe(flash: Device, n: nat, stale: seq<Cell>, at: nat) returns (ok: bool, buf2: seq<Cell>)
    requires flash.Valid() && flash.eraseSize > 0 && |stale| == n
    requires BlocksAsPages(at, flash.eraseSize, flash.writeSize) + BlocksAsPages(n, flash.eraseSize, flash.writeSize)
             <= |flash.data|
    requires BlocksAsPages(n, flash.eraseSize, flash.writeSize) <= n
    ensures |buf2| == n && (flash.faults.Stuck? ==> ok)
    ensures ok ==> buf2 == Probe(flash.data, BlocksAsPages(at, flash.eraseSize, flash.writeSize),
                                 BlocksAsPages(n, flash.eraseSize, flash.writeSize), stale)
  {
    hide Multiple;
    var startblock, nblocks := at / flash.eraseSize, n / flash.eraseSize;
    ghost var from, k := startblock * flash.writeSize, nblocks * flash.writeSize;
    var rc, bytes := flash.Bread(startblock, nblocks);
    ok := rc == nblocks;
    buf2 := bytes + stale[|bytes|..];
    if ok {
      CellsRead(flash.data, from, k, bytes);
    }
  }

  lemma FirstWindow(d: seq<Cell>, stale: seq<Cell>, w: nat, e: nat, n: nat, at: nat, dst: nat, b: seq<Cell>)
    requires Windows(d, w, e, n, at, dst) && |stale| == n <= dst
    requires BlocksAsPages(at, e, w) + BlocksAsPages(n, e, w) <= |d| && BlocksAsPages(n, e, w) <= n
    requires b == Probe(d, BlocksAsPages(at, e, w), BlocksAsPages(n, e, w), stale)
    ensures var d' := if IsBlank(b) then d else EraseRange(d, at, n);
            && Windows(d', w, e, n, at + n, dst - n)
            && EraseWindows(d, stale, w, e, n, at, dst) == EraseWindows(d', b, w, e, n, at + n, dst - n)
  {
    hide BlocksAsPages, Probe, IsBlank, EraseRange, Multiple;
    ProbeInside(d, w, e, n, at, dst);
  }

  lemma ErasedRange(d: seq<Cell>, d': seq<Cell>, at: nat, n: nat)
    requires at + n <= |d| == |d'|
    requires forall i :: 0 <= i < |d| ==> d'[i] == if at <= i < at + n then ERASED else d[i]
    ensures d' == EraseRange(d, at, n)
  {
  }

  method EraseWindow(flash: Device, n: nat, stale: seq<Cell>, at: nat, ghost dst: nat)
    returns (ok: bool, buf2: seq<Cell>)
    requires flash.Valid() && Windows(flash.data, flash.writeSize, flash.eraseSize, n, at, dst)
    requires |stale| == n && n <= dst
    modifies flash
    ensures flash.Valid() && flash.clean == old(flash.clean) && |buf2| == n && (flash.faults.Stuck? ==> ok)
    ensures KeptOutside(old(flash.data), flash.data, at, at + n)
    ensures Windows(flash.data, flash.writeSize, flash.eraseSize, n, at + n, dst - n)
    ensures ok ==> EraseWindows(old(flash.data), stale, flash.writeSize, flash.eraseSize, n, at, dst)
                   == EraseWindows(flash.data, buf2, flash.writeSize, flash.eraseSize, n, at + n, dst - n)
  {
    ghost var d := flash.data;
    ProbeInside(d, flash.writeSize, flash.eraseSize, n, at, dst);
    hide Multiple, BlocksAsPages, Probe, EraseWindows, EraseRange, IsBlank;
    ok, buf2 := ReadProbe(flash, n, stale, at);
    if !ok {
      return;
    }
    FirstWindow(d, stale, flash.writeSize, flash.eraseSize, n, at, dst, buf2);
    var allFf := IsBlank(buf2);
    if !allFf {
      ok := flash.EraseAt(at, n);
      if ok {
        ErasedRange(d, flash.data, at, n);
      }
    }
  }

  /** The erase loop on the device. */
  method EraseGap(flash: Device, n: nat, scratch: seq<Cell>, at: nat, dst: nat) returns (ok: bool, at': nat, dst': nat)
    requires flash.Valid() && Windows(flash.data, flash.writeSize, flash.eraseSize, n, at, dst) && |scratch| == n
    modifies flash
    ensures flash.Valid() && flash.clean == old(flash.clean) && KeptOutside(old(flash.data), flash.data, at, at + dst)
    ensures flash.faults.Stuck? ==> ok
    ensures ok ==>
              && flash.data == EraseWindows(old(flash.data), scratch, flash.writeSize, flash.eraseSize, n, at, dst)
              && at' == WindowsEnd(n, at, dst) && at' + dst' == at + dst && dst' < n && Multiple(at', flash.eraseSize)
  {
    hide Multiple, BlocksAsPages, WindowsEnd, KeptOutside, EraseWindows;
    at', dst' := at, dst;
    var buf2 := scratch;
    NothingChanged(flash.data, at, at + dst);
    while dst' >= n
      invariant flash.Valid() && flash.clean == old(flash.clean) && |flash.data| == |old(flash.data)|
      invariant KeptOutside(old(flash.data), flash.data, at, at + dst) && at <= at'
      invariant at' + dst' == at + dst && |buf2| == n
      invariant Windows(flash.data, flash.writeSize, flash.eraseSize, n, at', dst')
      invariant WindowsEnd(n, at', dst') == WindowsEnd(n, at, dst)
      invariant EraseWindows(flash.data, buf2, flash.writeSize, flash.eraseSize, n, at', dst')
                == EraseWindows(old(flash.data), scratch, flash.writeSize, flash.eraseSize, n, at, dst)
      decreases dst'
    {
      ghost var d := flash.data;
      OneWindowLess(n, at', dst');
      ok, buf2 := EraseWindow(flash, n, buf2, at', dst');
      KeptJoin(old(flash.data), d, flash.data, at, at + dst, at, at + dst, at', at' + n);
      if !ok {
        return;
      }
      dst' := dst' - n;
      at' := at' + n;
    }
    NoWindow(n, at', dst');
    WindowsDone(flash.data, buf2, flash.writeSize, flash.eraseSize, n, at', dst');
    ok := true;
  }

  /** The last, partial window: checked at the right place, erased, and what lies behind it programmed back. */
  method EraseRemainder(flash: Device, n0: nat, at: nat, dst: nat) returns (ok: bool)
    requires flash.Valid() && Multiple(at, flash.eraseSize) && Multiple(n0, flash.eraseSize)
    requires 0 < dst < n0 && at + dst <= |flash.data|
    modifies flash
    ensures flash.Valid() && flash.clean == old(flash.clean)
    ensures KeptOutside(old(flash.data), flash.data, at, Min(|old(flash.data)|, at + n0))
    ensures ok ==> Rewritten(old(flash.data), flash.data, at, [], at + dst)
    ensures IsBlank(old(flash.data)[at..at + dst]) ==> flash.data == old(flash.data)
    ensures Sound(flash.faults, at + dst, Min(|old(flash.data)|, at + n0)) ==> ok
    ensures IsBlank(old(flash.data)[at..at + dst]) && flash.faults.Stuck? ==> ok
    ensures flash.faults == Stuck({at + dst}) ==>
              var stop := Min(|old(flash.data)|, at + n0);
              && (ok <==> IsBlank(old(flash.data)[at..at + dst]) || stop == at + dst)
              && (!ok ==> ErasedBetween(flash.data, at + dst, stop))
  {
    MultipleSum(|flash.data|, at, flash.eraseSize);
    var n := Min(|flash.data| - at, n0);
    MultipleTrans(at, flash.eraseSize, flash.writeSize);
    MultipleTrans(n, flash.eraseSize, flash.writeSize);
    hide Multiple;
    ghost var d := flash.data;
    var buf2;
    ok, buf2 := flash.ReadAt(at, n);
    if !ok {
      return;
    }
    assert buf2[..dst] == d[at..at + dst];
    if !IsBlank(buf2[..dst]) {
      ok := flash.EraseAt(at, n);
      if !ok {
        return;
      }
      ok := flash.WriteErased(at + dst, buf2[dst..]);
    } else {
      forall i | at <= i < at + dst ensures flash.data[i] == ERASED {
        assert flash.data[i] == buf2[i - at] == buf2[..dst][i - at];
      }
    }
  }
}
