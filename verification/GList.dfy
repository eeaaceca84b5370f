/**
  In-place merge sort of a doubly linked list: `glist_sort` and `glist_sort_merge` of
  components/hc-examples/source/glist.c.
 */
module GList {

  class Node<T> {
    const data: T
    var next: Node?<T>
    var prev: Node?<T>

    constructor (data: T)
      ensures this.data == data && next == null && prev == null
    {
      this.data, next, prev := data, null, null;
    }
  }

  ghost predicate Distinct<T>(ns: seq<Node<T>>) {
    forall i, k :: 0 <= i < k < |ns| ==> ns[i] != ns[k]
  }

  function NodeAt<T>(ns: seq<Node<T>>, i: int): Node?<T> {
    if 0 <= i < |ns| then ns[i] else null
  }

  /** From `first` on, the `next` fields go through `ns` to the end. */
  ghost predicate Chain<T>(first: Node?<T>, ns: seq<Node<T>>)
    reads ns
  {
    && Distinct(ns)
    && first == NodeAt(ns, 0)
    && forall i :: 0 <= i < |ns| ==> ns[i].next == NodeAt(ns, i + 1)
  }

  /** The `prev` fields go back through `ns`; that of the first node may be anything. */
  ghost predicate BackLinked<T>(ns: seq<Node<T>>)
    reads ns
  {
    forall i :: 1 <= i < |ns| ==> ns[i].prev == NodeAt(ns, i - 1)
  }

  /** A well-formed list. */
  ghost predicate IsList<T>(first: Node?<T>, ns: seq<Node<T>>)
    reads ns
  {
    Chain(first, ns) && BackLinked(ns) && (ns != [] ==> ns[0].prev == null)
  }

  // ---- what sorting means

  /** A comparison with a sign, as the callers supply it. */
  type Compare<!T> = (T, T) -> int

  predicate Leq<T>(cmp: Compare<T>, x: Node<T>, y: Node<T>) {
    cmp(x.data, y.data) <= 0
  }

  function Merge<T>(a: seq<Node<T>>, b: seq<Node<T>>, cmp: Compare<T>): (r: seq<Node<T>>)
    ensures |r| == |a| + |b|
  {
    if a == [] then b
    else if b == [] then a
    else if Leq(cmp, a[0], b[0]) then [a[0]] + Merge(a[1..], b, cmp)
    else [b[0]] + Merge(a, b[1..], cmp)
  }

  function MergeSort<T>(ns: seq<Node<T>>, cmp: Compare<T>): (r: seq<Node<T>>)
    ensures |r| == |ns|
  {
    if |ns| <= 1 then ns
    else Merge(MergeSort(ns[..|ns| / 2], cmp), MergeSort(ns[|ns| / 2..], cmp), cmp)
  }

  ghost predicate TotalPreorder<T(!new)>(cmp: Compare<T>) {
    && (forall x, y :: cmp(x, y) <= 0 || cmp(y, x) <= 0)
    && (forall x, y, z :: cmp(x, y) <= 0 && cmp(y, z) <= 0 ==> cmp(x, z) <= 0)
  }

  ghost predicate Sorted<T>(ns: seq<Node<T>>, cmp: Compare<T>) {
    forall i, k :: 0 <= i < k < |ns| ==> Leq(cmp, ns[i], ns[k])
  }

  /** The nodes that compare equal to `d`, in their order. */
  ghost function Ties<T>(ns: seq<Node<T>>, d: T, cmp: Compare<T>): seq<Node<T>> {
    if ns == [] then []
    else (if cmp(ns[0].data, d) <= 0 && cmp(d, ns[0].data) <= 0 then [ns[0]] else []) + Ties(ns[1..], d, cmp)
  }

  lemma {:induction false} MergeElements<T>(a: seq<Node<T>>, b: seq<Node<T>>, cmp: Compare<T>)
    ensures multiset(Merge(a, b, cmp)) == multiset(a) + multiset(b)
  {
    if a == [] || b == [] {
    } else if Leq(cmp, a[0], b[0]) {
      assert a == [a[0]] + a[1..];
      MergeElements(a[1..], b, cmp);
    } else {
      assert b == [b[0]] + b[1..];
      MergeElements(a, b[1..], cmp);
    }
  }

  lemma Transitive<T(!new)>(cmp: Compare<T>, x: T, y: T, z: T)
    requires TotalPreorder(cmp) && cmp(x, y) <= 0 && cmp(y, z) <= 0
    ensures cmp(x, z) <= 0
  {
  }

  /** A least element in front of a sorted merge. */
  lemma SortedCons<T(!new)>(x: Node<T>, a: seq<Node<T>>, b: seq<Node<T>>, cmp: Compare<T>)
    requires TotalPreorder(cmp) && Sorted(a, cmp) && Sorted(b, cmp) && Sorted(Merge(a, b, cmp), cmp)
    requires a != [] ==> Leq(cmp, x, a[0])
    requires b != [] ==> Leq(cmp, x, b[0])
    ensures Sorted([x] + Merge(a, b, cmp), cmp)
  {
    hide TotalPreorder;
    var m := Merge(a, b, cmp);
    if m != [] {
      assert m[0] == (if a == [] then b[0] else if b == [] then a[0] else if Leq(cmp, a[0], b[0]) then a[0] else b[0]);
      var r := [x] + m;
      forall i, k | 0 <= i < k < |r| ensures Leq(cmp, r[i], r[k]) {
        if i > 0 {
          assert r[i] == m[i - 1] && r[k] == m[k - 1];
        } else if k > 1 {
          assert Leq(cmp, m[0], m[k - 1]);
          Transitive(cmp, x.data, m[0].data, m[k - 1].data);
        }
      }
    }
  }

  lemma {:induction false} MergeSorted<T(!new)>(a: seq<Node<T>>, b: seq<Node<T>>, cmp: Compare<T>)
    requires TotalPreorder(cmp) && Sorted(a, cmp) && Sorted(b, cmp)
    ensures Sorted(Merge(a, b, cmp), cmp)
  {
    if a == [] || b == [] {
    } else if Leq(cmp, a[0], b[0]) {
      MergeSorted(a[1..], b, cmp);
      SortedCons(a[0], a[1..], b, cmp);
    } else {
      MergeSorted(a, b[1..], cmp);
      SortedCons(b[0], a, b[1..], cmp);
    }
  }

  lemma {:induction false} TiesConcat<T>(a: seq<Node<T>>, b: seq<Node<T>>, d: T, cmp: Compare<T>)
    ensures Ties(a + b, d, cmp) == Ties(a, d, cmp) + Ties(b, d, cmp)
  {
    if a == [] {
      assert a + b == b;
    } else {
      assert (a + b)[1..] == a[1..] + b;
      TiesConcat(a[1..], b, d, cmp);
    }
  }

  lemma TiesCons<T>(x: Node<T>, ns: seq<Node<T>>, d: T, cmp: Compare<T>)
    ensures Ties([x] + ns, d, cmp)
            == if cmp(x.data, d) <= 0 && cmp(d, x.data) <= 0 then [x] + Ties(ns, d, cmp) else Ties(ns, d, cmp)
  {
  }

  /** Nodes that compare greater than `d` are no ties of `d`. */
  lemma {:induction false} NoTies<T(!new)>(ns: seq<Node<T>>, d: T, cmp: Compare<T>)
    requires forall i :: 0 <= i < |ns| ==> cmp(ns[i].data, d) > 0 || cmp(d, ns[i].data) > 0
    ensures Ties(ns, d, cmp) == []
  {
    if ns != [] {
      NoTies(ns[1..], d, cmp);
    }
  }

  /** In front of `x`, which is smaller than all of a sorted list, there is no tie of `x`. */
  lemma NoTiesBefore<T(!new)>(a: seq<Node<T>>, x: Node<T>, d: T, cmp: Compare<T>)
    requires TotalPreorder(cmp) && Sorted(a, cmp) && a != [] && !Leq(cmp, a[0], x)
    requires cmp(x.data, d) <= 0 && cmp(d, x.data) <= 0
    ensures Ties(a, d, cmp) == []
  {
    hide TotalPreorder, Ties;
    forall i | 0 <= i < |a| ensures cmp(a[i].data, d) > 0 || cmp(d, a[i].data) > 0 {
      if cmp(a[i].data, d) <= 0 {
        assert i == 0 || Leq(cmp, a[0], a[i]);
        if i > 0 {
          Transitive(cmp, a[0].data, a[i].data, d);
        }
        Transitive(cmp, a[0].data, d, x.data);
      }
    }
    NoTies(a, d, cmp);
  }

  /** Merging keeps ties in order, those of the first list in front. */
  lemma {:induction false} MergeStable<T(!new)>(a: seq<Node<T>>, b: seq<Node<T>>, d: T, cmp: Compare<T>)
    requires TotalPreorder(cmp) && Sorted(a, cmp) && Sorted(b, cmp)
    ensures Ties(Merge(a, b, cmp), d, cmp) == Ties(a, d, cmp) + Ties(b, d, cmp)
  {
    hide TotalPreorder, Ties;
    if a == [] || b == [] {
      NoTies([], d, cmp);
    } else if Leq(cmp, a[0], b[0]) {
      MergeStable(a[1..], b, d, cmp);
      TiesCons(a[0], Merge(a[1..], b, cmp), d, cmp);
      TiesCons(a[0], a[1..], d, cmp);
      assert a == [a[0]] + a[1..];
    } else {
      MergeStable(a, b[1..], d, cmp);
      TiesCons(b[0], Merge(a, b[1..], cmp), d, cmp);
      TiesCons(b[0], b[1..], d, cmp);
      assert b == [b[0]] + b[1..];
      if cmp(b[0].data, d) <= 0 && cmp(d, b[0].data) <= 0 {
        NoTiesBefore(a, b[0], d, cmp);
      }
    }
  }

  /** For every total preorder the result is a sorted permutation that keeps ties in their order. */
  lemma {:induction false} MergeSortCorrect<T(!new)>(ns: seq<Node<T>>, cmp: Compare<T>)
    requires TotalPreorder(cmp)
    ensures Sorted(MergeSort(ns, cmp), cmp)
    ensures multiset(MergeSort(ns, cmp)) == multiset(ns)
    ensures forall d :: Ties(MergeSort(ns, cmp), d, cmp) == Ties(ns, d, cmp)
  {
    if |ns| > 1 {
      var a, b := ns[..|ns| / 2], ns[|ns| / 2..];
      assert ns == a + b;
      MergeSortCorrect(a, cmp);
      MergeSortCorrect(b, cmp);
      MergeSorted(MergeSort(a, cmp), MergeSort(b, cmp), cmp);
      MergeElements(MergeSort(a, cmp), MergeSort(b, cmp), cmp);
      forall d ensures Ties(MergeSort(ns, cmp), d, cmp) == Ties(ns, d, cmp) {
        MergeStable(MergeSort(a, cmp), MergeSort(b, cmp), d, cmp);
        TiesConcat(a, b, d, cmp);
      }
    }
  }

  lemma {:induction false} TiesInside<T(!new)>(ns: seq<Node<T>>, d: T, cmp: Compare<T>, x: Node<T>)
    requires x in Ties(ns, d, cmp)
    ensures x in ns
  {
    if x !in [ns[0]] {
      TiesInside(ns[1..], d, cmp, x);
    }
  }

  lemma FirstIsLeast<T(!new)>(s: seq<Node<T>>, t: seq<Node<T>>, cmp: Compare<T>)
    requires TotalPreorder(cmp) && Sorted(s, cmp) && t != []
    requires forall d :: Ties(s, d, cmp) == Ties(t, d, cmp)
    ensures s != [] && Leq(cmp, s[0], t[0])
  {
    var x := t[0];
    assert cmp(x.data, x.data) <= 0;
    assert x in Ties(t, x.data, cmp);
    TiesInside(s, x.data, cmp, x);
    var i :| 0 <= i < |s| && s[i] == x;
    assert i == 0 || Leq(cmp, s[0], s[i]);
  }

  /** Sorted and stable describes the result completely. */
  lemma {:induction false} StableSortUnique<T(!new)>(s: seq<Node<T>>, t: seq<Node<T>>, cmp: Compare<T>)
    requires TotalPreorder(cmp) && Sorted(s, cmp) && Sorted(t, cmp)
    requires forall d :: Ties(s, d, cmp) == Ties(t, d, cmp)
    ensures s == t
  {
    if s != [] || t != [] {
      if t != [] {
        FirstIsLeast(s, t, cmp);
      }
      FirstIsLeast(t, s, cmp);
      assert Ties(s, s[0].data, cmp)[0] == s[0] && Ties(t, s[0].data, cmp)[0] == t[0];
      forall d ensures Ties(s[1..], d, cmp) == Ties(t[1..], d, cmp) {
        var x := if cmp(s[0].data, d) <= 0 && cmp(d, s[0].data) <= 0 then [s[0]] else [];
        assert Ties(s, d, cmp) == x + Ties(s[1..], d, cmp) && Ties(t, d, cmp) == x + Ties(t[1..], d, cmp);
        assert Ties(s[1..], d, cmp) == Ties(s, d, cmp)[|x|..] && Ties(t[1..], d, cmp) == Ties(t, d, cmp)[|x|..];
      }
      StableSortUnique(s[1..], t[1..], cmp);
    }
  }

  // ---- the code

  ghost predicate Disjoint<T>(a: seq<Node<T>>, b: seq<Node<T>>) {
    forall i, k :: 0 <= i < |a| && 0 <= k < |b| ==> a[i] != b[k]
  }

  ghost predicate Apart<T>(path: seq<Node<T>>, ra: seq<Node<T>>, rb: seq<Node<T>>) {
    Disjoint(path, ra) && Disjoint(path, rb) && Disjoint(ra, rb)
  }

  /** A list whose first node may have any `prev`. */
  ghost predicate Sublist<T>(first: Node?<T>, ns: seq<Node<T>>)
    reads ns
  {
    Chain(first, ns) && BackLinked(ns)
  }

  /** The local node of the code and the merged nodes behind it; `l` is the last, its `next` is not yet set. */
  ghost predicate Merged<T>(path: seq<Node<T>>, l: Node<T>, lprev: Node?<T>)
    reads path
  {
    && path != [] && Distinct(path) && l == path[|path| - 1] && lprev == (if |path| == 1 then null else l)
    && (forall k :: 0 <= k < |path| - 1 ==> path[k].next == NodeAt(path, k + 1))
    && (forall k :: 1 <= k < |path| ==> path[k].prev == if k == 1 then null else NodeAt(path, k - 1))
  }

  /** Changing the last merged node and the first node of `ra` changes no other node. */
  lemma Untouched<T>(path: seq<Node<T>>, l: Node<T>, lprev: Node?<T>, ra: seq<Node<T>>, rb: seq<Node<T>>)
    requires Merged(path, l, lprev) && ra != [] && Distinct(ra) && Apart(path, ra, rb)
    ensures forall k :: 0 <= k < |ra[1..]| ==> ra[1..][k] != ra[0] && ra[1..][k] != l
    ensures forall k :: 0 <= k < |rb| ==> rb[k] != ra[0] && rb[k] != l
    ensures forall k :: 0 <= k < |path| ==> path[k] != ra[0] && (k < |path| - 1 ==> path[k] != l)
    ensures Distinct(path + [ra[0]]) && Apart(path + [ra[0]], ra[1..], rb)
  {
  }

  lemma SublistTail<T>(p: Node<T>, ra: seq<Node<T>>)
    requires Sublist(p, ra)
    ensures ra != [] && p == ra[0] && Sublist(p.next, ra[1..]) && Distinct(ra)
  {
  }

  /** Moves the first node `p` of one list behind `l`; `q` is the other list. */
  method TakeFirst<T>(l: Node<T>, lprev: Node?<T>, p: Node<T>, ghost q: Node?<T>,
                      ghost path: seq<Node<T>>, ghost ra: seq<Node<T>>, ghost rb: seq<Node<T>>)
    returns (l': Node<T>, rest: Node?<T>)
    requires Merged(path, l, lprev) && Sublist(p, ra) && Sublist(q, rb) && Apart(path, ra, rb)
    modifies l, p
    ensures l' == p && Merged(path + [p], p, p) && Sublist(rest, ra[1..])
    ensures Sublist(q, rb) && Apart(path + [p], ra[1..], rb)
  {
    hide Sublist, Apart, Distinct, Disjoint, Chain, BackLinked;
    SublistTail(p, ra);
    Untouched(path, l, lprev, ra, rb);
    l.next := p;
    rest := p.next;
    l' := l.next;
    l'.prev := lprev;
  }

  /** The end of the merge: what is left of one list goes behind the merged nodes. */
  method LinkRest<T>(l: Node<T>, lprev: Node?<T>, p: Node<T>, ghost path: seq<Node<T>>, ghost ra: seq<Node<T>>)
    requires Merged(path, l, lprev) && |path| > 1 && Sublist(p, ra) && Disjoint(path, ra)
    modifies l, p
    ensures path[0].next == path[1] && IsList(path[1], path[1..] + ra)
  {
    l.next := p;
    l.next.prev := l;
    ghost var out := path[1..] + ra;
    forall k | 0 <= k < |out|
      ensures out[k].next == NodeAt(out, k + 1) && out[k].prev == (if k == 0 then null else NodeAt(out, k - 1))
    {
      if k < |path| - 1 {
        assert out[k] == path[k + 1] && path[k + 1] != ra[0];
        assert k + 2 < |path| ==> path[k + 1] != path[|path| - 1];
      } else {
        var n := k - (|path| - 1);
        assert out[k] == ra[n] && ra[n] != path[|path| - 1];
        assert n > 0 ==> ra[n] != ra[0];
      }
    }
  }

  lemma ApartSym<T>(path: seq<Node<T>>, ra: seq<Node<T>>, rb: seq<Node<T>>)
    requires Apart(path, ra, rb)
    ensures Apart(path, rb, ra)
  {
  }

  /** The state of the merge loop: `path` is linked up, `ra` and `rb` are what is left of the two lists. */
  ghost predicate Merging<T>(list: Node<T>, a: seq<Node<T>>, b: seq<Node<T>>, cmp: Compare<T>, path: seq<Node<T>>,
                             l: Node<T>, lprev: Node?<T>, p1: Node?<T>, ra: seq<Node<T>>, p2: Node?<T>,
                             rb: seq<Node<T>>)
    reads path, ra, rb
  {
    && Merged(path, l, lprev) && Sublist(p1, ra) && Sublist(p2, rb) && Apart(path, ra, rb)
    && path[0] == list && Merge(a, b, cmp) == path[1..] + Merge(ra, rb, cmp)
    && (forall k :: 1 <= k < |path| ==> path[k] in a || path[k] in b)
    && (forall x :: x in ra ==> x in a) && (forall x :: x in rb ==> x in b)
    && ((ra == a && rb == b) || |path| > 1) && (ra != [] || rb != [])
  }

  lemma MergeNext<T>(path: seq<Node<T>>, ra: seq<Node<T>>, rb: seq<Node<T>>, cmp: Compare<T>)
    requires path != [] && ra != [] && rb != []
    ensures Leq(cmp, ra[0], rb[0]) ==> path[1..] + Merge(ra, rb, cmp) == (path + [ra[0]])[1..] + Merge(ra[1..], rb, cmp)
    ensures !Leq(cmp, ra[0], rb[0]) ==>
              path[1..] + Merge(ra, rb, cmp) == (path + [rb[0]])[1..] + Merge(ra, rb[1..], cmp)
  {
  }

  lemma EndsOf<T>(path: seq<Node<T>>, l: Node<T>, lprev: Node?<T>, p1: Node?<T>, p2: Node?<T>, ra: seq<Node<T>>,
                  rb: seq<Node<T>>)
    requires Merged(path, l, lprev) && Sublist(p1, ra) && Sublist(p2, rb) && Apart(path, ra, rb)
    ensures path != [] && l == path[|path| - 1] && p1 == NodeAt(ra, 0) && p2 == NodeAt(rb, 0)
    ensures Disjoint(path, ra) && Disjoint(path, rb)
  {
  }

  /** One round of the loop. */
  method MergeStep<T>(ghost list: Node<T>, ghost a: seq<Node<T>>, ghost b: seq<Node<T>>, cmp: Compare<T>,
                      ghost path: seq<Node<T>>,
                      l: Node<T>, lprev: Node?<T>, p1: Node<T>, ghost ra: seq<Node<T>>, p2: Node<T>,
                      ghost rb: seq<Node<T>>)
    returns (l': Node<T>, p1': Node?<T>, p2': Node?<T>, ghost ra': seq<Node<T>>, ghost rb': seq<Node<T>>)
    requires Merging(list, a, b, cmp, path, l, lprev, p1, ra, p2, rb)
    modifies list, a, b
    ensures Merging(list, a, b, cmp, path + [l'], l', l', p1', ra', p2', rb') && |ra'| + |rb'| < |ra| + |rb|
  {
    hide Merged, Apart, Sublist, Disjoint, Merge;
    EndsOf(path, l, lprev, p1, p2, ra, rb);
    assert p1 in ra && p2 in rb;
    assert l == list || l in a || l in b;
    MergeNext(path, ra, rb, cmp);
    var c := cmp(p1.data, p2.data);
    p1', p2', ra', rb' := p1, p2, ra, rb;
    if c <= 0 {
      l', p1' := TakeFirst(l, lprev, p1, p2, path, ra, rb);
      ra' := ra[1..];
    } else {
      ApartSym(path, ra, rb);
      l', p2' := TakeFirst(l, lprev, p2, p1, path, rb, ra);
      rb' := rb[1..];
      ApartSym(path + [l'], rb', ra);
    }
  }

  /** After the loop one list is used up. */
  method MergeEnd<T>(list: Node<T>, ghost a: seq<Node<T>>, ghost b: seq<Node<T>>, cmp: Compare<T>,
                     ghost path: seq<Node<T>>,
                     l: Node<T>, lprev: Node?<T>, p1: Node?<T>, ghost ra: seq<Node<T>>, p2: Node?<T>,
                     ghost rb: seq<Node<T>>)
    returns (r: Node<T>, ghost out: seq<Node<T>>)
    requires Merging(list, a, b, cmp, path, l, lprev, p1, ra, p2, rb)
    requires (p1 == null || p2 == null) && a != [] && b != []
    modifies list, a, b
    ensures out == Merge(a, b, cmp) && IsList(r, out)
  {
    hide Merged, Apart, Chain, BackLinked, IsList, Disjoint;
    EndsOf(path, l, lprev, p1, p2, ra, rb);
    assert l == list || l in a || l in b;
    if p1 != null {
      assert p1 in ra && rb == [];
      LinkRest(l, lprev, p1, path, ra);
      out := path[1..] + ra;
    } else {
      assert p2 in rb && ra == [];
      LinkRest(l, lprev, p2, path, rb);
      out := path[1..] + rb;
    }
    r := list.next;
  }

  lemma StartMerge<T>(list: Node<T>, l1: Node<T>, l2: Node<T>, a: seq<Node<T>>, b: seq<Node<T>>, cmp: Compare<T>)
    requires Sublist(l1, a) && Sublist(l2, b) && Disjoint(a, b) && list !in a && list !in b
    ensures Merging(list, a, b, cmp, [list], list, null, l1, a, l2, b) && a != [] && b != []
  {
  }

  /**
    `glist_sort_merge`.  The heads of the two lists may carry any `prev`; the result is linked both
    ways, and its first node has none before it.
   */
  method SortMerge<T>(l1: Node<T>, l2: Node<T>, cmp: Compare<T>, ghost a: seq<Node<T>>, ghost b: seq<Node<T>>)
    returns (r: Node<T>, ghost out: seq<Node<T>>)
    requires Sublist(l1, a) && Sublist(l2, b) && Disjoint(a, b)
    modifies a, b
    ensures out == Merge(a, b, cmp) && IsList(r, out)
  {
    var list := new Node(l1.data);
    var l: Node<T>, lprev: Node?<T> := list, null;
    var p1: Node?<T>, p2: Node?<T> := l1, l2;
    ghost var path, ra, rb := [list], a, b;
    StartMerge(list, l1, l2, a, b, cmp);
    hide Merging, IsList, Sublist, Disjoint;
    while p1 != null && p2 != null
      invariant Merging(list, a, b, cmp, path, l, lprev, p1, ra, p2, rb)
      decreases |ra| + |rb|
    {
      l, p1, p2, ra, rb := MergeStep(list, a, b, cmp, path, l, lprev, p1, ra, p2, rb);
      lprev, path := l, path + [l];
    }
    r, out := MergeEnd(list, a, b, cmp, path, l, lprev, p1, ra, p2, rb);
  }

  /** The loop that finds the last node of the first half: `ns[|ns| / 2 - 1]`. */
  method Middle<T>(list: Node<T>, ghost ns: seq<Node<T>>) returns (l1: Node<T>)
    requires Chain(list, ns) && |ns| >= 2
    ensures l1 == ns[|ns| / 2 - 1]
  {
    l1 := list;
    var l2: Node?<T> := list.next;
    ghost var i := 0;
    while true
      invariant 2 * i + 1 < |ns| && l1 == ns[i] && l2 == ns[2 * i + 1]
      decreases |ns| - i
    {
      l2 := l2.next;
      if l2 == null {
        break;
      }
      l2 := l2.next;
      if l2 == null {
        break;
      }
      l1 := l1.next;
      i := i + 1;
    }
  }

  lemma CutChain<T>(ns: seq<Node<T>>, h: nat)
    requires 0 < h < |ns| && Distinct(ns)
    requires forall k :: 0 <= k < |ns| ==> ns[k].next == if k == h - 1 then null else NodeAt(ns, k + 1)
    ensures Chain(ns[0], ns[..h]) && Chain(ns[h], ns[h..]) && Disjoint(ns[..h], ns[h..])
  {
  }

  /** Cuts the list after its first half. */
  method Halve<T>(list: Node<T>, ghost ns: seq<Node<T>>) returns (l2: Node<T>)
    requires Chain(list, ns) && |ns| >= 2
    modifies ns
    ensures Chain(list, ns[..|ns| / 2]) && Chain(l2, ns[|ns| / 2..]) && Disjoint(ns[..|ns| / 2], ns[|ns| / 2..])
  {
    var l1 := Middle(list, ns);
    l2 := l1.next;
    l1.next := null;
    CutChain(ns, |ns| / 2);
  }

  lemma {:induction false} MergeSortElements<T>(ns: seq<Node<T>>, cmp: Compare<T>)
    ensures multiset(MergeSort(ns, cmp)) == multiset(ns)
  {
    if |ns| > 1 {
      var a, b := ns[..|ns| / 2], ns[|ns| / 2..];
      assert ns == a + b;
      MergeSortElements(a, cmp);
      MergeSortElements(b, cmp);
      MergeElements(MergeSort(a, cmp), MergeSort(b, cmp), cmp);
    }
  }

  lemma SortedNodes<T>(ns: seq<Node<T>>, cmp: Compare<T>)
    ensures forall x :: x in MergeSort(ns, cmp) ==> x in ns
  {
    hide MergeSort;
    MergeSortElements(ns, cmp);
    forall x | x in MergeSort(ns, cmp) ensures x in ns {
      assert x in multiset(MergeSort(ns, cmp));
    }
  }

  lemma DisjointParts<T>(a: seq<Node<T>>, b: seq<Node<T>>, a': seq<Node<T>>, b': seq<Node<T>>)
    requires Disjoint(a, b) && (forall x :: x in a' ==> x in a) && (forall x :: x in b' ==> x in b)
    ensures Disjoint(a', b')
  {
    forall i, k | 0 <= i < |a'| && 0 <= k < |b'| ensures a'[i] != b'[k] {
      assert a'[i] in a && b'[k] in b;
    }
  }

  lemma MergeSortHalves<T>(ns: seq<Node<T>>, cmp: Compare<T>)
    requires |ns| >= 2
    ensures MergeSort(ns, cmp) == Merge(MergeSort(ns[..|ns| / 2], cmp), MergeSort(ns[|ns| / 2..], cmp), cmp)
  {
  }

  method SortBoth<T>(list: Node<T>, l2: Node<T>, cmp: Compare<T>, ghost a: seq<Node<T>>, ghost b: seq<Node<T>>)
    returns (r1: Node<T>, r2: Node<T>)
    requires Chain(list, a) && Chain(l2, b) && Disjoint(a, b)
    modifies a, b
    ensures Sublist(r1, MergeSort(a, cmp)) && Sublist(r2, MergeSort(b, cmp))
    decreases |a| + |b|, 0
  {
    hide MergeSort, BackLinked, Distinct, IsList, Sublist;
    SortedNodes(a, cmp);
    ghost var a' := MergeSort(a, cmp);
    DisjointParts(a, b, a', b);
    assert forall i :: 0 <= i < |a'| ==> a'[i] !in b;
    assert forall i :: 0 <= i < |b| ==> b[i] !in a;
    r1 := Sort(list, cmp, a);
    assert Sublist(r1, a');
    label Before:
    r2 := Sort(l2, cmp, b);
    assert forall i :: 0 <= i < |a'| ==> unchanged@Before(a'[i]);
  }

  /** Sorts both halves and merges them. */
  method SortHalves<T>(list: Node<T>, l2: Node<T>, cmp: Compare<T>, ghost a: seq<Node<T>>,
                       ghost b: seq<Node<T>>) returns (r: Node<T>)
    requires Chain(list, a) && Chain(l2, b) && Disjoint(a, b)
    modifies a, b
    ensures IsList(r, Merge(MergeSort(a, cmp), MergeSort(b, cmp), cmp))
    decreases |a| + |b|, 1
  {
    hide MergeSort, Merge, BackLinked, Distinct, IsList;
    ghost var a', b' := MergeSort(a, cmp), MergeSort(b, cmp);
    SortedNodes(a, cmp);
    SortedNodes(b, cmp);
    DisjointParts(a, b, a', b');
    var r1, r2 := SortBoth(list, l2, cmp, a, b);
    assert forall i :: 0 <= i < |a'| ==> a'[i] in a;
    assert forall i :: 0 <= i < |b'| ==> b'[i] in b;
    hide Disjoint, Sublist;
    ghost var out;
    r, out := SortMerge(r1, r2, cmp, a', b');
  }

  /**
    `glist_sort`.  The result runs through the nodes in the order of `MergeSort`, linked both ways;
    no `prev` field of the input is relied on.  A single node is returned as it is.
   */
  method Sort<T>(list: Node?<T>, cmp: Compare<T>, ghost ns: seq<Node<T>>) returns (r: Node?<T>)
    requires Chain(list, ns)
    modifies ns
    ensures Sublist(r, MergeSort(ns, cmp)) && (r == null <==> list == null)
    ensures |ns| > 1 ==> IsList(r, MergeSort(ns, cmp))
    ensures |ns| == 1 ==> r == list && r.prev == old(list.prev)
    decreases |ns|, 2
  {
    if list == null {
      return null;
    }
    if list.next == null {
      return list;
    }
    var l2 := Halve(list, ns);
    MergeSortHalves(ns, cmp);
    hide MergeSort, Merge, Chain, BackLinked, Disjoint;
    r := SortHalves(list, l2, cmp, ns[..|ns| / 2], ns[|ns| / 2..]);
  }

  lemma ShortSort<T>(ns: seq<Node<T>>, cmp: Compare<T>)
    ensures |ns| <= 1 ==> MergeSort(ns, cmp) == ns
  {
  }

  /** What the callers of `glist_sort` rely on: a well-formed list, sorted, of the same nodes, ties in their order. */
  method SortList<T(!new)>(list: Node?<T>, cmp: Compare<T>, ghost ns: seq<Node<T>>)
    returns (r: Node?<T>, ghost out: seq<Node<T>>)
    requires IsList(list, ns) && TotalPreorder(cmp)
    modifies ns
    ensures IsList(r, out) && Sorted(out, cmp) && multiset(out) == multiset(ns)
    ensures forall d :: Ties(out, d, cmp) == Ties(ns, d, cmp)
  {
    hide MergeSort, Ties, Sorted, TotalPreorder;
    MergeSortCorrect(ns, cmp);
    out := MergeSort(ns, cmp);
    ShortSort(ns, cmp);
    r := Sort(list, cmp, ns);
  }
}
