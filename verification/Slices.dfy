/**
  Overwriting a stretch of a sequence, and what stays where it was.
 */
module Slices {

  /** `s` with the elements from `at` on replaced by `b`. */
  function Splice<T>(s: seq<T>, at: nat, b: seq<T>): (r: seq<T>)
    requires at + |b| <= |s|
    ensures |r| == |s|
    ensures r[..at] == s[..at] && r[at..at + |b|] == b && r[at + |b|..] == s[at + |b|..]
  {
    s[..at] + b + s[at + |b|..]
  }

  lemma SpliceElements<T>(s: seq<T>, at: nat, b: seq<T>)
    requires at + |b| <= |s|
    ensures forall i :: 0 <= i < |s| ==> Splice(s, at, b)[i] == if at <= i < at + |b| then b[i - at] else s[i]
  {
  }

  lemma SpliceBefore<T>(s: seq<T>, at: nat, b: seq<T>, lo: nat, hi: nat)
    requires at + |b| <= |s| && lo <= hi <= at
    ensures Splice(s, at, b)[lo..hi] == s[lo..hi]
  {
  }

  lemma SpliceAfter<T>(s: seq<T>, at: nat, b: seq<T>, lo: nat, hi: nat)
    requires at + |b| <= lo <= hi <= |s|
    ensures Splice(s, at, b)[lo..hi] == s[lo..hi]
  {
  }

  lemma SpliceFirst<T>(s: seq<T>, at: nat, v: T, b: seq<T>)
    requires at + 1 + |b| <= |s|
    ensures Splice(s[at := v], at + 1, b) == Splice(s, at, [v] + b)
  {
  }

  lemma SuffixAgrees<T>(a: seq<T>, b: seq<T>, from: nat, to: nat)
    requires |a| == |b| && from <= to <= |a| && a[from..] == b[from..]
    ensures a[to..] == b[to..]
  {
    assert a[to..] == a[from..][to - from..];
    assert b[to..] == b[from..][to - from..];
  }
}
