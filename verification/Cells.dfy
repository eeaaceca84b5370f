/** Bytes of flash memory and of firmware images, with the bitwise AND that programming performs. */
module Cells {
  import opened Slices

  type Cell = bv8

  const ERASED: Cell := 0xff

  predicate IsBlank(s: seq<Cell>) {
    forall i :: 0 <= i < |s| ==> s[i] == ERASED
  }

  function Blank(n: nat): (s: seq<Cell>)
    ensures |s| == n && IsBlank(s)
  {
    seq(n, _ => ERASED)
  }

  /** Between `d0` and `d` nothing has changed outside `[lo, hi)`. */
  ghost predicate KeptOutside(d0: seq<Cell>, d: seq<Cell>, lo: nat, hi: nat) {
    |d| == |d0| && forall i :: 0 <= i < |d| && (i < lo || hi <= i) ==> d[i] == d0[i]
  }

  lemma NothingChanged(d: seq<Cell>, lo: nat, hi: nat)
    ensures KeptOutside(d, d, lo, hi)
  {
  }

  lemma KeptJoin(d0: seq<Cell>, d1: seq<Cell>, d2: seq<Cell>, lo: nat, hi: nat, lo1: nat, hi1: nat, lo2: nat, hi2: nat)
    requires KeptOutside(d0, d1, lo1, hi1) && KeptOutside(d1, d2, lo2, hi2)
    requires lo <= lo1 && hi1 <= hi && lo <= lo2 && hi2 <= hi
    ensures KeptOutside(d0, d2, lo, hi)
  {
  }

  /** `bytes` stand in `d` from `at` on. */
  ghost predicate Shows(d: seq<Cell>, at: nat, bytes: seq<Cell>) {
    at + |bytes| <= |d| && forall i :: at <= i < at + |bytes| ==> d[i] == bytes[i - at]
  }

  lemma SpliceKept(d: seq<Cell>, at: nat, cells: seq<Cell>)
    requires at + |cells| <= |d|
    ensures KeptOutside(d, Splice(d, at, cells), at, at + |cells|)
  {
    SpliceElements(d, at, cells);
  }

  /** Some cells, of which only the number is known. */
  method Unknown(n: nat) returns (s: seq<Cell>)
    ensures |s| == n
  {
    assert |Blank(n)| == n;
    s :| |s| == n;
  }

  function And(a: seq<Cell>, b: seq<Cell>): (s: seq<Cell>)
    requires |a| == |b|
    ensures |s| == |a|
  {
    seq(|a|, i requires 0 <= i < |a| => a[i] & b[i])
  }

  /** Programming a stretch clears bits there and nowhere else. */
  lemma Programmed(d: seq<Cell>, at: nat, bytes: seq<Cell>)
    requires at + |bytes| <= |d|
    ensures var r := Splice(d, at, And(d[at..at + |bytes|], bytes));
            forall i :: 0 <= i < |d| ==> r[i] == if at <= i < at + |bytes| then d[i] & bytes[i - at] else d[i]
  {
    SpliceElements(d, at, And(d[at..at + |bytes|], bytes));
  }
}
