/**
  The level 1 decompressor: `qlz_decompress_core`, with the QLZ_MEMORY_SAFE guards, over a hash table
  whose offsets may hold anything on entry.  Positions are relative to the destination.
 */
module QlzDecompress {
  import opened Division
  import opened Slices
  import opened Words
  import opened QlzFormat
  import opened QlzParse

  // ---- header fields

  /** Bit 1 of the first byte says whether the two sizes take four bytes or one. */
  function FieldWidth(source: seq<Byte>): (n: nat)
    requires source != []
  {
    if source[0] / 2 % 2 == 1 then 4 else 1
  }

  predicate HeaderReadable(source: seq<Byte>) {
    source != [] && 1 + 2 * FieldWidth(source) <= |source|
  }

  function SizeHeader(source: seq<Byte>): nat
    requires source != []
  {
    2 * FieldWidth(source) + 1
  }

  function SizeCompressed(source: seq<Byte>): nat
    requires HeaderReadable(source)
  {
    FastRead(source, 1, FieldWidth(source))
  }

  function SizeDecompressed(source: seq<Byte>): nat
    requires HeaderReadable(source)
  {
    FastRead(source, 1 + FieldWidth(source), FieldWidth(source))
  }

  class DecompressState {
    const offset: array<int>

    constructor (leftover: seq<int>)
      requires |leftover| == HASH_VALUES
      ensures fresh(offset) && offset.Length == HASH_VALUES
    {
      offset := new int[HASH_VALUES](i requires 0 <= i < HASH_VALUES => leftover[i]);
    }
  }

  // ---- the stream, seen from the reading end

  /**
    At `src`: the tokens `open` left in the open group, whose flags are in `cword` under a sentinel
    at bit `p`, and then the groups of `later` up to `end`.
   */
  ghost predicate StreamAt(source: seq<Byte>, src: nat, end: nat, cword: nat, open: seq<Token>, later: seq<Token>,
                           p: nat) {
    && src <= end <= |source|
    && |open| <= p <= GROUP
    && (later != [] ==> p == |open|)
    && cword == Flags(open) + Pow2(p)
    && source[src..end] == Payload(open) + Layout(later)
  }

  lemma DropBytes(source: seq<Byte>, src: nat, end: nat, a: seq<Byte>, b: seq<Byte>)
    requires src <= end <= |source| && source[src..end] == a + b
    ensures src + |a| <= end && source[src..src + |a|] == a && source[src + |a|..end] == b
  {
    assert source[src..end][..|a|] == source[src..src + |a|];
    assert source[src..end][|a|..] == source[src + |a|..end];
  }

  lemma LayoutFront(later: seq<Token>)
    requires later != []
    ensures var k := GroupSize(later);
            Payload([]) + Layout(later)
            == LittleEndian(Flags(later[..k]) + TOP, CWORD_LEN) + (Payload(later[..k]) + Layout(later[k..]))
  {
  }

  lemma ControlValue(ts: seq<Token>)
    requires |ts| <= GROUP
    ensures Value(LittleEndian(Flags(ts) + TOP, CWORD_LEN)) == Flags(ts) + TOP
  {
    hide Flags;
    FlagsBound(ts);
    Pow2Monotone(|ts|, GROUP);
    Pow2Is31();
    assert Pow256(4) == TWO32;
    ReadWritten(Flags(ts) + TOP, CWORD_LEN);
  }

  /** Reading the next control word. */
  lemma Refill(source: seq<Byte>, src: nat, end: nat, cword: nat, later: seq<Token>)
    requires StreamAt(source, src, end, cword, [], later, 0) && later != []
    ensures var k := GroupSize(later);
            && src + CWORD_LEN <= end
            && FastRead(source, src, CWORD_LEN) == Flags(later[..k]) + TOP
            && StreamAt(source, src + CWORD_LEN, end, Flags(later[..k]) + TOP, later[..k], later[k..], GROUP)
  {
    hide LittleEndian, Flags, Pow2, Layout, Payload;
    var k := GroupSize(later);
    var w := LittleEndian(Flags(later[..k]) + TOP, CWORD_LEN);
    var q := Payload(later[..k]) + Layout(later[k..]);
    assert source[src..end] == w + q by {
      LayoutFront(later);
    }
    DropBytes(source, src, end, w, q);
    ControlValue(later[..k]);
    Pow2Is31();
  }

  /** Taking one token out of the open group. */
  lemma TakeToken(source: seq<Byte>, src: nat, end: nat, cword: nat, open: seq<Token>, later: seq<Token>, p: nat,
                  src': nat)
    requires StreamAt(source, src, end, cword, open, later, p) && open != []
    requires src' == src + |TokenBytes(open[0])|
    ensures cword % 2 == FlagBit(open[0]) && p > 0
    ensures src' <= end && source[src..src'] == TokenBytes(open[0])
    ensures StreamAt(source, src', end, cword / 2, open[1..], later, p - 1)
  {
    hide Layout, TokenBytes;
    var b, c, d := TokenBytes(open[0]), Payload(open[1..]), Layout(later);
    assert (b + c) + d == b + (c + d);
    DropBytes(source, src, end, b, c + d);
    assert Pow2(p) == 2 * Pow2(p - 1);
  }

  // ---- the decompressor's ghost view of an encoder's stream

  /** What is still to be read, and the part of the hash table written in this call. */
  datatype View = View(open: seq<Token>, later: seq<Token>, p: nat, D: Table, lits: nat)

  ghost predicate Synced(s: seq<Byte>, source: seq<Byte>, end: nat, src: nat, dst: nat, cword: nat, v: View) {
    && v.lits <= dst <= |s|
    && Decodes(s, dst, v.D, v.lits, v.open + v.later)
    && StreamAt(source, src, end, cword, v.open, v.later, v.p)
  }

  function ViewAfter(s: seq<Byte>, dst: nat, v: View): View
    requires v.open != [] && v.p > 0 && v.lits <= dst && dst + Covers(v.open[0]) <= |s|
  {
    View(v.open[1..], v.later, v.p - 1, DecoderTableAfter(s, dst, v.D, v.lits, v.open[0]), LitsAfter(v.open[0], v.lits))
  }

  lemma MoreToRead(s: seq<Byte>, source: seq<Byte>, end: nat, src: nat, dst: nat, cword: nat, v: View)
    requires Synced(s, source, end, src, dst, cword, v) && dst < |s|
    ensures v.open + v.later != []
    ensures cword == 1 <==> v.open == []
    ensures v.open == [] ==> v.p == 0
  {
  }

  lemma InRange(s: seq<Byte>, source: seq<Byte>, end: nat, src: nat, dst: nat, cword: nat, v: View)
    requires Synced(s, source, end, src, dst, cword, v)
    ensures src <= end <= |source| && dst <= |s|
  {
  }

  lemma RefillSynced(s: seq<Byte>, source: seq<Byte>, end: nat, src: nat, dst: nat, cword: nat, v: View)
    requires Synced(s, source, end, src, dst, cword, v) && dst < |s| && cword == 1
    ensures src + CWORD_LEN <= end
    ensures var k := GroupSize(v.later);
            && 0 < k && FastRead(source, src, CWORD_LEN) == Flags(v.later[..k]) + TOP
            && Synced(s, source, end, src + CWORD_LEN, dst, Flags(v.later[..k]) + TOP,
                      View(v.later[..k], v.later[k..], GROUP, v.D, v.lits))
  {
    hide Flags, Payload, Layout, Decodes;
    MoreToRead(s, source, end, src, dst, cword, v);
    var k := GroupSize(v.later);
    assert v.open + v.later == v.later == v.later[..k] + v.later[k..];
    Refill(source, src, end, cword, v.later);
  }

  /** Reading one token, up to `src'` and `dst'`, keeps the decompressor synchronised with the encoder. */
  lemma TokenSynced(s: seq<Byte>, source: seq<Byte>, end: nat, src: nat, dst: nat, cword: nat, v: View, src': nat,
                    dst': nat)
    returns (v': View)
    requires Synced(s, source, end, src, dst, cword, v) && v.open != []
    requires src' == src + |TokenBytes(v.open[0])| && dst' == dst + Covers(v.open[0])
    ensures Fits(s, dst, v.D, v.open[0]) && v.p > 0 && v' == ViewAfter(s, dst, v)
    ensures src' <= end && source[src..src'] == TokenBytes(v.open[0])
    ensures Synced(s, source, end, src', dst', cword / 2, v')
  {
    hide Decodes, StreamAt, HashUpto, TokenBytes;
    DecodesLess(s, dst, v.D, v.lits, v.open, v.later, dst');
    TakeToken(source, src, end, cword, v.open, v.later, v.p, src');
    v' := ViewAfter(s, dst, v);
  }

  /** The lowest control bit tells a match from a literal. */
  lemma ControlBit(source: seq<Byte>, src: nat, end: nat, cword: nat, open: seq<Token>, later: seq<Token>, p: nat)
    requires StreamAt(source, src, end, cword, open, later, p) && open != []
    ensures cword % 2 == FlagBit(open[0])
  {
  }

  /** A decodable list has at least four payload bytes left, unless fewer plain bytes are left. */
  lemma {:induction false} PayloadRoom(s: seq<Byte>, i: nat, D: Table, lits: nat, ts: seq<Token>)
    requires lits <= i <= |s| && Decodes(s, i, D, lits, ts)
    ensures |Payload(ts)| >= (if |s| - i < 4 then |s| - i else 4)
    decreases |ts|
  {
    hide HashUpto, TokenBytes;
    if ts != [] {
      PayloadRoom(s, i + Covers(ts[0]), DecoderTableAfter(s, i, D, lits, ts[0]), LitsAfter(ts[0], lits), ts[1..]);
    }
  }

  lemma SourceRoom(s: seq<Byte>, source: seq<Byte>, end: nat, src: nat, dst: nat, cword: nat, v: View)
    requires Synced(s, source, end, src, dst, cword, v)
    ensures end - src >= (if |s| - dst < 4 then |s| - dst else 4)
  {
    PayloadRoom(s, dst, v.D, v.lits, v.open + v.later);
    PayloadAppend(v.open, v.later);
    LayoutLength(v.later);
    assert |source[src..end]| == |Payload(v.open)| + |Layout(v.later)|;
  }

  lemma ShortFields(l: nat, slot: nat, x: nat, fetch: nat)
    requires l < 16 && slot < HASH_VALUES && fetch == l + 16 * slot + 65536 * x
    ensures fetch % 16 == l && fetch / 16 % HASH_VALUES == slot
  {
  }

  lemma LittleEndianBytes(f: nat)
    requires f < 0x100_0000
    ensures LittleEndian(f, 2) == [f % 256, f / 256 % 256]
    ensures LittleEndian(f, 3) == [f % 256, f / 256 % 256, f / 65536]
  {
    var a, b := f / 256, f / 256 / 256;
    assert b == f / 65536 < 256;
    assert LittleEndian(f, 2) == [f % 256] + LittleEndian(a, 1);
    assert LittleEndian(a, 1) == [a % 256] + LittleEndian(b, 0);
    assert LittleEndian(f, 3) == [f % 256] + LittleEndian(a, 2);
    assert LittleEndian(a, 2) == [a % 256] + LittleEndian(b, 1);
    assert LittleEndian(b, 1) == [b % 256] + LittleEndian(b / 256, 0);
  }

  lemma ShortBytes(source: seq<Byte>, src: nat, t: Token)
    requires t.Match? && t.len < 18 && src + 2 <= |source| && source[src..src + 2] == TokenBytes(t)
    ensures (source[src] as int) + 256 * (source[src + 1] as int) == t.len - 2 + 16 * t.slot
  {
    var f := t.len - 2 + 16 * t.slot;
    LittleEndianBytes(f);
    assert source[src] == source[src..src + 2][0] == f % 256;
    assert source[src + 1] == source[src..src + 2][1] == f / 256 % 256;
  }

  lemma ThreeBytes(f: nat, high: nat, low: nat)
    requires low < 0x10000 && f == 65536 * high + low
    ensures f % 256 + 256 * (f / 256 % 256) == low && f / 65536 == high
  {
    DivisionUnique(f, 256, 256 * high + low / 256, low % 256);
    DivisionUnique(256 * high + low / 256, 256, high, low / 256);
    DivisionUnique(f, 65536, high, low);
  }

  lemma LongBytes(source: seq<Byte>, src: nat, t: Token)
    requires t.Match? && t.len >= 18 && src + 3 <= |source| && source[src..src + 3] == TokenBytes(t)
    ensures (source[src] as int) + 256 * (source[src + 1] as int) == 16 * t.slot
    ensures source[src + 2] == t.len
  {
    hide LittleEndian;
    var f := 65536 * t.len + 16 * t.slot;
    LittleEndianBytes(f);
    var b := TokenBytes(t);
    assert source[src] == b[0] && source[src + 1] == b[1] && source[src + 2] == b[2];
    ThreeBytes(f, t.len, 16 * t.slot);
  }

  lemma ValueSplit(b: seq<Byte>)
    requires |b| == 4
    ensures Value(b) == (b[0] as int) + 256 * (b[1] as int) + 65536 * (b[2] as int) + 0x100_0000 * (b[3] as int)
  {
    var c := b[1..];
    var d := c[1..];
    var e := d[1..];
    assert e[1..] == [];
    assert Value(e) == b[3] + 256 * Value([]);
    assert Value(d) == b[2] + 256 * Value(e);
    assert Value(c) == b[1] + 256 * Value(d);
  }

  /** The two-byte and three-byte match forms decode to their slot and length. */
  lemma MatchFields(source: seq<Byte>, src: nat, t: Token)
    requires t.Match? && src + 4 <= |source|
    requires source[src..src + |TokenBytes(t)|] == TokenBytes(t)
    ensures var fetch := FastRead(source, src, 4);
            && fetch / 16 % HASH_VALUES == t.slot
            && (if fetch % 16 != 0 then t.len == fetch % 16 + 2 && |TokenBytes(t)| == 2
                else t.len == source[src + 2] && |TokenBytes(t)| == 3)
  {
    var b := source[src..src + 4];
    var fetch := Value(b);
    ValueSplit(b);
    var x: int := b[2];
    var y: int := b[3];
    if t.len < 18 {
      ShortBytes(source, src, t);
      ShortFields(t.len - 2, t.slot, x + 256 * y, fetch);
    } else {
      LongBytes(source, src, t);
      ShortFields(0, t.slot, x + 256 * y, fetch);
    }
  }

  // ---- batched literals

  const BITLUT: seq<nat> := [4, 0, 1, 0, 2, 0, 1, 0, 3, 0, 1, 0, 2, 0, 1, 0]

  /** The lowest `n` bits are clear. */
  predicate LowBitsClear(w: nat, n: nat)
    decreases n, w
  {
    n == 0 || (w % 2 == 0 && LowBitsClear(w / 2, n - 1))
  }

  /** The table counts the clear bits below the lowest set one, up to four. */
  lemma BitlutCounts(w: nat)
    requires w % 2 == 0
    ensures 1 <= BITLUT[w % 16] <= 4
    ensures LowBitsClear(w, BITLUT[w % 16])
    ensures BITLUT[w % 16] < 4 ==> !LowBitsClear(w, BITLUT[w % 16] + 1)
  {
    var q, v := w / 16, w % 16;
    var w1, w2, w3 := 8 * q + v / 2, 4 * q + v / 4, 2 * q + v / 8;
    assert w / 2 == w1 && w1 / 2 == w2 && w2 / 2 == w3;
    assert LowBitsClear(w1, 0) && LowBitsClear(w2, 0) && LowBitsClear(w3, 0) && LowBitsClear(w3 / 2, 0);
    if v % 4 != 0 {
      assert BITLUT[v] == 1 && !LowBitsClear(w1, 1);
    } else if v % 8 != 0 {
      assert v == 4 || v == 12;
      assert BITLUT[v] == 2 && LowBitsClear(w1, 1) && !LowBitsClear(w2, 1) && !LowBitsClear(w1, 2);
    } else if v != 0 {
      assert v == 8;
      assert BITLUT[v] == 3 && LowBitsClear(w2, 1) && LowBitsClear(w1, 2);
      assert !LowBitsClear(w3, 1) && !LowBitsClear(w2, 2) && !LowBitsClear(w1, 3);
    } else {
      assert BITLUT[v] == 4 && LowBitsClear(w3, 1) && LowBitsClear(w2, 2) && LowBitsClear(w1, 3);
    }
  }

  /** One literal: the byte at `src` is the next plain byte. */
  lemma LiteralSynced(s: seq<Byte>, source: seq<Byte>, end: nat, src: nat, dst: nat, cword: nat,
                      v: View) returns (v': View)
    requires Synced(s, source, end, src, dst, cword, v) && v.open != [] && cword % 2 == 0
    ensures dst < |s| && src < end && source[src] == s[dst]
    ensures v.p > 0 && v.open[0] == Literal(s[dst]) && v' == ViewAfter(s, dst, v)
    ensures Synced(s, source, end, src + 1, dst + 1, cword / 2, v')
  {
    hide Decodes, HashUpto;
    ControlBit(source, src, end, cword, v.open, v.later, v.p);
    v' := TokenSynced(s, source, end, src, dst, cword, v, src + 1, dst + 1);
    assert source[src..src + 1][0] == source[src];
  }

  /** The view after `n` literals. */
  function RunView(s: seq<Byte>, dst: nat, v: View, n: nat): View
    requires n <= |v.open| && n <= v.p && v.lits <= dst && dst + n <= |s|
  {
    View(v.open[n..], v.later, v.p - n,
         if n == 0 then v.D else HashUpto(s, v.D, LastHashed(dst, v.lits), dst + n - 3), v.lits + n)
  }

  lemma RunViewStep(s: seq<Byte>, dst: nat, v: View, v1: View, n: nat)
    requires 0 < n <= |v.open| && n <= v.p && v.lits <= dst && dst + n <= |s|
    requires v.open[0].Literal? && v1 == ViewAfter(s, dst, v)
    ensures RunView(s, dst + 1, v1, n - 1) == RunView(s, dst, v, n)
  {
    hide Hash, Decodes, HashUpto;
    HashUptoCompose(s, v.D, LastHashed(dst, v.lits), dst - 2, dst + n - 3);
    assert v.open[1..][n - 1..] == v.open[n..];
  }

  /** Reading `n` literals at once, up to `src'` and `dst'`, is reading them one by one. */
  lemma {:induction false} LiteralRun(s: seq<Byte>, source: seq<Byte>, end: nat, src: nat, dst: nat, cword: nat,
                                      v: View,
                                      n: nat, src': nat, dst': nat, cword': nat, v': View)
    requires Synced(s, source, end, src, dst, cword, v) && (n > 0 ==> v.open != [])
    requires LowBitsClear(cword, n) && dst + n < |s|
    requires src' == src + n && dst' == dst + n && cword' == Shr(cword, n)
    requires n <= |v.open| && n <= v.p ==> v' == RunView(s, dst, v, n)
    ensures n <= |v.open| && n <= v.p && src' <= end
    ensures Synced(s, source, end, src', dst', cword', v')
    decreases n
  {
    hide Decodes, StreamAt, HashUpto;
    if n == 0 {
      InRange(s, source, end, src, dst, cword, v);
      assert v.open[0..] == v.open;
    } else {
      var v1 := LiteralSynced(s, source, end, src, dst, cword, v);
      if n > 1 {
        MoreToRead(s, source, end, src + 1, dst + 1, cword / 2, v1);
      }
      if n <= |v.open| && n <= v.p {
        RunViewStep(s, dst, v, v1, n);
      }
      LiteralRun(s, source, end, src + 1, dst + 1, cword / 2, v1, n - 1, src', dst', cword', v');
    }
  }

  lemma OneMoreByte(a: seq<Byte>, i: nat, b: seq<Byte>, j: nat, n: nat)
    requires 0 < n && i + n <= |a| && j + n <= |b|
    requires a[i] == b[j] && a[i + 1..i + 1 + (n - 1)] == b[j + 1..j + 1 + (n - 1)]
    ensures a[i..i + n] == b[j..j + n]
  {
  }

  lemma {:induction false} LiteralRunBytes(s: seq<Byte>, source: seq<Byte>, end: nat, src: nat, dst: nat, cword: nat,
                                           v: View, n: nat)
    requires Synced(s, source, end, src, dst, cword, v) && (n > 0 ==> v.open != [])
    requires LowBitsClear(cword, n) && dst + n < |s|
    ensures src + n <= end && source[src..src + n] == s[dst..dst + n]
    decreases n
  {
    hide Decodes, StreamAt, HashUpto;
    InRange(s, source, end, src, dst, cword, v);
    if n > 0 {
      var v1 := LiteralSynced(s, source, end, src, dst, cword, v);
      if n > 1 {
        MoreToRead(s, source, end, src + 1, dst + 1, cword / 2, v1);
      }
      LiteralRunBytes(s, source, end, src + 1, dst + 1, cword / 2, v1, n - 1);
      InRange(s, source, end, src + 1, dst + 1, cword / 2, v1);
      OneMoreByte(source, src, s, dst, n);
    }
  }

  // ---- hash table of the decompressor

  /** `update_hash` on the array: the newest position wins, stale entries stay. */
  function TableUpto(dest: seq<Byte>, tbl: seq<int>, lh: int, max: int): (r: seq<int>)
    requires -1 <= lh && (lh < max ==> max + 3 <= |dest|) && |tbl| == HASH_VALUES
    ensures |r| == HASH_VALUES
    decreases max - lh
  {
    if lh < max then TableUpto(dest, tbl[Hash(dest, lh + 1) := lh + 1], lh + 1, max) else tbl
  }

  ghost predicate Agrees(tbl: seq<int>, D: Table) {
    |tbl| == HASH_VALUES && forall h :: h in D ==> tbl[h] == D[h]
  }

  lemma {:induction false} AgreesUpto(s: seq<Byte>, dest: seq<Byte>, n: nat, tbl: seq<int>, D: Table, lh: int, max: int)
    requires -1 <= lh && n <= |s| && n <= |dest| && dest[..n] == s[..n]
    requires lh < max ==> max + 3 <= n
    requires Agrees(tbl, D)
    ensures Agrees(TableUpto(dest, tbl, lh, max), HashUpto(s, D, lh, max))
    decreases max - lh
  {
    if lh < max {
      var i := lh + 1;
      assert Hash(dest, i) == Hash(s, i) by {
        assert dest[..n][i..i + 3] == dest[i..i + 3];
        assert s[..n][i..i + 3] == s[i..i + 3];
      }
      AgreesUpto(s, dest, n, tbl[Hash(s, i) := i], D[Hash(s, i) := i], i, max);
    }
  }

  /** `update_hash_upto` */
  method UpdateHashUpto(state: DecompressState, destination: array<Byte>, lastHashed: int, max: int) returns (lh: int)
    requires -1 <= lastHashed && (lastHashed < max ==> max + 3 <= destination.Length)
    requires state.offset.Length == HASH_VALUES
    modifies state.offset
    ensures lh == (if lastHashed < max then max else lastHashed)
    ensures state.offset[..] == TableUpto(destination[..], old(state.offset[..]), lastHashed, max)
  {
    lh := lastHashed;
    while lh < max
      invariant lastHashed <= lh && (lastHashed < max ==> lh <= max) && (lastHashed >= max ==> lh == lastHashed)
      invariant TableUpto(destination[..], state.offset[..], lh, max)
                  == TableUpto(destination[..], old(state.offset[..]), lastHashed, max)
      decreases max - lh
    {
      lh := lh + 1;
      ghost var before := state.offset[..];
      var hash := HashFunc(FastRead(destination[..], lh, 3));
      state.offset[hash] := lh;
      assert state.offset[..] == before[hash := lh];
    }
  }

  // ---- copying

  /** `memcpy_up` inside the destination: byte by byte upwards, so overlapping bytes repeat. */
  method MemcpyUp(destination: array<Byte>, to: nat, from: nat, n: nat)
    requires from < to && to + n <= destination.Length
    modifies destination
    ensures destination[..to] == old(destination[..to]) && destination[to + n..] == old(destination[to + n..])
    ensures destination[from..from + n] == destination[to..to + n]
  {
    var k := 0;
    while k < n
      invariant 0 <= k <= n
      invariant destination[..to] == old(destination[..to]) && destination[to + k..] == old(destination[to + k..])
      invariant destination[from..from + k] == destination[to..to + k]
    {
      ghost var before := destination[..];
      destination[to + k] := destination[from + k];
      assert destination[from..from + k] == before[from..from + k];
      assert destination[to..to + k] == before[to..to + k];
      assert destination[from..from + (k + 1)] == destination[from..from + k] + [destination[from + k]];
      assert destination[to..to + (k + 1)] == destination[to..to + k] + [destination[to + k]];
      assert destination[to + (k + 1)..] == before[to + k..][1..];
      k := k + 1;
    }
  }

  /** Copying from three or more bytes back inside the output reproduces the bytes of `s`. */
  lemma {:induction false} OverlapCopy(s: seq<Byte>, dest: seq<Byte>, from: nat, to: nat, n: nat)
    requires from < to && to + n <= |s| && to + n <= |dest|
    requires dest[..to] == s[..to] && dest[from..from + n] == dest[to..to + n] && s[from..from + n] == s[to..to + n]
    ensures dest[..to + n] == s[..to + n]
    decreases n
  {
    if n > 0 {
      var m := n - 1;
      assert dest[from..from + m] == dest[from..from + n][..m] == dest[to..to + n][..m] == dest[to..to + m];
      assert s[from..from + m] == s[from..from + n][..m] == s[to..to + n][..m] == s[to..to + m];
      OverlapCopy(s, dest, from, to, m);
      assert dest[from + m] == dest[..to + m][from + m] == s[..to + m][from + m] == s[from + m];
      assert dest[to + m] == dest[to..to + n][m] == dest[from..from + n][m] == dest[from + m];
      assert s[to + m] == s[to..to + n][m] == s[from..from + n][m] == s[from + m];
      assert dest[..to + n] == dest[..to + m] + [dest[to + m]];
      assert s[..to + n] == s[..to + m] + [s[to + m]];
    }
  }

  // ---- the decompressor

  /** A pointer difference read as an unsigned 32-bit number. */
  function Ui32(x: int): nat {
    x % TWO32
  }

  datatype Reader = Reader(src: nat, dst: nat, cword: nat, lastHashed: int)

  /** What the guards keep for every input: at least four bytes are still to be written, or none has been. */
  ghost predicate Safe(size: nat, r: Reader) {
    && (r.dst == 0 || r.dst + UNCOMPRESSED_END <= size)
    && -1 <= r.lastHashed < r.dst
  }

  /** The output is a prefix of the plain bytes, and the table is the one expected there. */
  ghost predicate Holds(s: seq<Byte>, dest: seq<Byte>, tbl: seq<int>, r: Reader, v: View) {
    && r.dst <= |dest| && r.dst <= |s| && dest[..r.dst] == s[..r.dst]
    && Agrees(tbl, v.D)
    && r.lastHashed == LastHashed(r.dst, v.lits)
  }

  ghost predicate Follows(s: seq<Byte>, source: seq<Byte>, end: nat, dest: seq<Byte>, tbl: seq<int>, r: Reader,
                          v: View) {
    Synced(s, source, end, r.src, r.dst, r.cword, v) && Holds(s, dest, tbl, r, v)
  }

  function MatchLengthField(source: seq<Byte>, src: nat, fetch: nat): nat
    requires src + 3 <= |source|
  {
    if fetch % 16 != 0 then fetch % 16 + 2 else source[src + 2]
  }

  function MatchWidth(fetch: nat): nat {
    if fetch % 16 != 0 then 2 else 3
  }

  /** The two QLZ_MEMORY_SAFE guards of a match. */
  predicate Allowed(size: nat, dst: nat, offset2: int, matchlen: nat) {
    0 <= offset2 <= dst - 3 && matchlen <= Ui32(size - 1 - dst - UNCOMPRESSED_END + 1)
  }

  /** The unsigned subtraction never wraps where it matters: an allowed match ends four bytes early. */
  lemma AllowedStaysInside(size: nat, r: Reader, offset2: int, matchlen: nat)
    requires size < TWO32 && Safe(size, r) && Allowed(size, r.dst, offset2, matchlen)
    ensures r.dst + matchlen + UNCOMPRESSED_END <= size && 0 < r.dst
  {
  }

  /**
    A match token: look the slot up, check it, copy, then hash up to and including the match start.
    Any slot contents and any length field are met; nothing is written when a guard fires.
   */
  method CopyMatch(source: seq<Byte>, destination: array<Byte>, size: nat, state: DecompressState, r: Reader,
                   fetch: nat)
    returns (ok: bool, r': Reader)
    requires size <= destination.Length && size < TWO32 && state.offset.Length == HASH_VALUES && Safe(size, r)
    requires r.src + 4 <= |source|
    modifies destination, state.offset
    ensures var offset2, len := old(state.offset[fetch / 16 % HASH_VALUES]), MatchLengthField(source, r.src, fetch);
            && (ok <==> Allowed(size, r.dst, offset2, len))
            && (ok ==>
                 && r' == Reader(r.src + MatchWidth(fetch), r.dst + len, r.cword / 2, r.dst + len - 1) && Safe(size, r')
                 && destination[offset2..offset2 + len] == destination[r.dst..r.dst + len]
                 && destination[..r.dst] == old(destination[..r.dst])
                 && state.offset[..] == TableUpto(destination[..], old(state.offset[..]), r.lastHashed, r.dst))
    ensures destination[size..] == old(destination[size..])
  {
    hide TableUpto;
    var cword := r.cword / 2;
    var hash := fetch / 16 % HASH_VALUES;
    var offset2 := state.offset[hash];
    var matchlen, src;
    if fetch % 16 != 0 {
      matchlen, src := fetch % 16 + 2, r.src + 2;
    } else {
      matchlen, src := source[r.src + 2], r.src + 3;
    }
    if offset2 < 0 || offset2 > r.dst - 3 {
      return false, r;
    }
    if matchlen > Ui32(size - 1 - r.dst - UNCOMPRESSED_END + 1) {
      return false, r;
    }
    AllowedStaysInside(size, r, offset2, matchlen);
    ghost var dest := destination[..];
    MemcpyUp(destination, r.dst, offset2, matchlen);
    SuffixAgrees(dest, destination[..], r.dst + matchlen, size);
    var dst := r.dst + matchlen;
    var lh := UpdateHashUpto(state, destination, r.lastHashed, dst - matchlen);
    lh := dst - 1;
    return true, Reader(src, dst, cword, lh);
  }

  /** A match of an encoder's stream is read back as it was written, and passes both guards. */
  lemma MatchPasses(s: seq<Byte>, source: seq<Byte>, end: nat, dest: seq<Byte>, tbl: seq<int>, r: Reader, v: View,
                    fetch: nat)
    requires Follows(s, source, end, dest, tbl, r, v) && v.open != [] && r.cword % 2 == 1
    requires r.src + 4 <= |source| && fetch == FastRead(source, r.src, 4) && |s| < TWO32
    ensures var t := v.open[0];
            && Fits(s, r.dst, v.D, t) && t.Match?
            && t.slot == fetch / 16 % HASH_VALUES && tbl[t.slot] == v.D[t.slot]
            && t.len == MatchLengthField(source, r.src, fetch) && |TokenBytes(t)| == MatchWidth(fetch)
            && Allowed(|s|, r.dst, tbl[t.slot], t.len)
  {
    hide Decodes, HashUpto, TokenBytes;
    var t := v.open[0];
    var src' := r.src + |TokenBytes(t)|;
    assert !t.Literal? by {
      ControlBit(source, r.src, end, r.cword, v.open, v.later, v.p);
    }
    assert Fits(s, r.dst, v.D, t) && source[r.src..src'] == TokenBytes(t) by {
      var v' := TokenSynced(s, source, end, r.src, r.dst, r.cword, v, src', r.dst + Covers(t));
    }
    MatchFields(source, r.src, t);
  }

  lemma MatchHolds(s: seq<Byte>, dest: seq<Byte>, tbl: seq<int>, r: Reader, v: View, t: Token,
                   dest': seq<Byte>, tbl': seq<int>, r': Reader, v': View)
    requires Holds(s, dest, tbl, r, v) && v.open != [] && v.open[0] == t && t.Match? && Fits(s, r.dst, v.D, t)
    requires v.lits <= r.dst && 0 < v.p && v' == ViewAfter(s, r.dst, v)
    requires |dest'| == |dest| && r.dst + t.len <= |dest'| && dest'[..r.dst] == dest[..r.dst]
    requires var o := v.D[t.slot]; dest'[o..o + t.len] == dest'[r.dst..r.dst + t.len]
    requires tbl' == TableUpto(dest', tbl, r.lastHashed, r.dst)
    requires r'.dst == r.dst + t.len && r'.lastHashed == r'.dst - 1
    ensures Holds(s, dest', tbl', r', v')
  {
    hide TableUpto, HashUpto, TokenBytes;
    OverlapCopy(s, dest', v.D[t.slot], r.dst, t.len);
    AgreesUpto(s, dest', r'.dst, tbl, v.D, r.lastHashed, r.dst);
  }

  lemma MatchFollows(s: seq<Byte>, source: seq<Byte>, end: nat, dest: seq<Byte>, tbl: seq<int>, r: Reader, v: View,
                     t: Token,
                     dest': seq<Byte>, tbl': seq<int>, r': Reader) returns (v': View)
    requires Follows(s, source, end, dest, tbl, r, v) && v.open != []
    requires v.open[0] == t && t.Match? && Fits(s, r.dst, v.D, t)
    requires |dest'| == |dest| && r.dst + t.len <= |dest'| && dest'[..r.dst] == dest[..r.dst]
    requires var o := v.D[t.slot]; dest'[o..o + t.len] == dest'[r.dst..r.dst + t.len]
    requires tbl' == TableUpto(dest', tbl, r.lastHashed, r.dst)
    requires r' == Reader(r.src + |TokenBytes(t)|, r.dst + t.len, r.cword / 2, r.dst + t.len - 1)
    ensures Follows(s, source, end, dest', tbl', r', v')
  {
    v' := TokenSynced(s, source, end, r.src, r.dst, r.cword, v, r'.src, r'.dst);
    MatchHolds(s, dest, tbl, r, v, t, dest', tbl', r', v');
  }

  /** `memcpy_up(dst, src, 4)` from the source buffer. */
  method CopyFour(source: seq<Byte>, src: nat, destination: array<Byte>, dst: nat)
    requires src + 4 <= |source| && dst + 4 <= destination.Length
    modifies destination
    ensures destination[..dst] == old(destination[..dst]) && destination[dst + 4..] == old(destination[dst + 4..])
    ensures destination[dst..dst + 4] == source[src..src + 4]
  {
    for k := 0 to 4
      invariant destination[..dst] == old(destination[..dst]) && destination[dst + 4..] == old(destination[dst + 4..])
      invariant destination[dst..dst + k] == source[src..src + k]
    {
      destination[dst + k] := source[src + k];
    }
  }

  /** Copies four bytes and keeps as many as there are literals in a row, then hashes up to three bytes back. */
  method CopyLiterals(source: seq<Byte>, destination: array<Byte>, size: nat, state: DecompressState, r: Reader)
    returns (r': Reader)
    requires size <= destination.Length && state.offset.Length == HASH_VALUES && Safe(size, r)
    requires r.src + 4 <= |source| && r.dst + UNCONDITIONAL_MATCHLEN + UNCOMPRESSED_END + 1 < size
    requires r.cword % 2 == 0
    modifies destination, state.offset
    ensures var n := BITLUT[r.cword % 16];
            && 1 <= n <= 4 && Safe(size, r')
            && r' == Reader(r.src + n, r.dst + n, Shr(r.cword, n),
                            if r.lastHashed < r.dst + n - 3 then r.dst + n - 3 else r.lastHashed)
            && state.offset[..] == TableUpto(destination[..], old(state.offset[..]), r.lastHashed, r.dst + n - 3)
    ensures destination[..r.dst] == old(destination[..r.dst]) && destination[size..] == old(destination[size..])
    ensures destination[r.dst..r.dst + 4] == source[r.src..r.src + 4]
  {
    hide TableUpto;
    BitlutCounts(r.cword);
    var n := BITLUT[r.cword % 16];
    ghost var dest := destination[..];
    CopyFour(source, r.src, destination, r.dst);
    SuffixAgrees(dest, destination[..], r.dst + 4, size);
    var lh := UpdateHashUpto(state, destination, r.lastHashed, r.dst + n - 3);
    return Reader(r.src + n, r.dst + n, Shr(r.cword, n), lh);
  }

  lemma JoinPrefix(a: seq<Byte>, b: seq<Byte>, m: nat, n: nat)
    requires m <= n <= |a| && n <= |b| && a[..m] == b[..m] && a[m..n] == b[m..n]
    ensures a[..n] == b[..n]
  {
  }

  lemma FirstOfFour(a: seq<Byte>, i: nat, b: seq<Byte>, j: nat, n: nat)
    requires i + 4 <= |a| && j + 4 <= |b| && n <= 4 && a[i..i + 4] == b[j..j + 4]
    ensures a[i..i + n] == b[j..j + n]
  {
    assert a[i..i + n] == a[i..i + 4][..n];
    assert b[j..j + n] == b[j..j + 4][..n];
  }

  lemma LiteralsHold(s: seq<Byte>, source: seq<Byte>, dest: seq<Byte>, tbl: seq<int>, r: Reader, v: View, n: nat,
                     dest': seq<Byte>, tbl': seq<int>, r': Reader, v': View)
    requires Holds(s, dest, tbl, r, v) && 1 <= n <= 4 && v.lits <= r.dst && r.dst + 4 <= |s|
    requires r.src + 4 <= |source| && source[r.src..r.src + n] == s[r.dst..r.dst + n]
    requires |dest'| == |dest| && r.dst + 4 <= |dest'| && dest'[..r.dst] == dest[..r.dst]
    requires dest'[r.dst..r.dst + 4] == source[r.src..r.src + 4]
    requires tbl' == TableUpto(dest', tbl, r.lastHashed, r.dst + n - 3)
    requires v'.lits == v.lits + n && v'.D == HashUpto(s, v.D, r.lastHashed, r.dst + n - 3)
    requires r'.dst == r.dst + n
    requires r'.lastHashed == (if r.lastHashed < r.dst + n - 3 then r.dst + n - 3 else r.lastHashed)
    ensures Holds(s, dest', tbl', r', v')
  {
    hide TableUpto, HashUpto;
    FirstOfFour(dest', r.dst, source, r.src, n);
    JoinPrefix(dest', s, r.dst, r.dst + n);
    AgreesUpto(s, dest', r'.dst, tbl, v.D, r.lastHashed, r.dst + n - 3);
  }

  lemma LiteralsFollow(s: seq<Byte>, source: seq<Byte>, end: nat, dest: seq<Byte>, tbl: seq<int>, r: Reader, v: View,
                       n: nat,
                       dest': seq<Byte>, tbl': seq<int>, r': Reader) returns (v': View)
    requires Follows(s, source, end, dest, tbl, r, v) && v.open != []
    requires n == BITLUT[r.cword % 16] && r.cword % 2 == 0 && r.dst + 4 < |s| && r.src + 4 <= |source|
    requires |dest'| == |dest| && r.dst + 4 <= |dest'| && dest'[..r.dst] == dest[..r.dst]
    requires dest'[r.dst..r.dst + 4] == source[r.src..r.src + 4]
    requires r.lastHashed >= -1 && tbl' == TableUpto(dest', tbl, r.lastHashed, r.dst + n - 3)
    requires r' == Reader(r.src + n, r.dst + n, Shr(r.cword, n),
                          if r.lastHashed < r.dst + n - 3 then r.dst + n - 3 else r.lastHashed)
    ensures Follows(s, source, end, dest', tbl', r', v')
  {
    hide Decodes, StreamAt, TableUpto, HashUpto, Shr, LowBitsClear;
    BitlutCounts(r.cword);
    v' := if n <= |v.open| && n <= v.p then RunView(s, r.dst, v, n) else v;
    LiteralRun(s, source, end, r.src, r.dst, r.cword, v, n, r'.src, r'.dst, r'.cword, v');
    LiteralRunBytes(s, source, end, r.src, r.dst, r.cword, v, n);
    LiteralsHold(s, source, dest, tbl, r, v, n, dest', tbl', r', v');
  }

  // ---- the literal-only tail

  lemma {:induction false} TailFlags(s: seq<Byte>, i: nat, D: Table, lits: nat, a: seq<Token>, b: seq<Token>)
    requires lits <= i <= |s| && i > LastMatchStart(s) && Decodes(s, i, D, lits, a + b)
    ensures Flags(a) == 0
    decreases |a|
  {
    hide HashUpto;
    if a != [] {
      DecodesLess(s, i, D, lits, a, b, i + Covers(a[0]));
      TailFlags(s, i + 1, DecoderTableAfter(s, i, D, lits, a[0]), lits + 1, a[1..], b);
    }
  }

  /** In the tail the next control word is known without reading it: 31 literals. */
  lemma TailRefill(s: seq<Byte>, source: seq<Byte>, end: nat, src: nat, dst: nat, cword: nat,
                   v: View) returns (v': View)
    requires Synced(s, source, end, src, dst, cword, v) && LastMatchStart(s) < dst < |s| && cword == 1
    ensures src + CWORD_LEN <= end && v'.open != []
    ensures Synced(s, source, end, src + CWORD_LEN, dst, TOP, v')
  {
    hide Decodes, Layout, HashUpto;
    RefillSynced(s, source, end, src, dst, cword, v);
    var k := GroupSize(v.later);
    v' := View(v.later[..k], v.later[k..], GROUP, v.D, v.lits);
    TailFlags(s, dst, v.D, v.lits, v'.open, v'.later);
  }

  lemma TailLiteral(s: seq<Byte>, source: seq<Byte>, end: nat, src: nat, dst: nat, cword: nat,
                    v: View) returns (v': View)
    requires Synced(s, source, end, src, dst, cword, v) && v.open != []
    requires LastMatchStart(s) < dst < |s| || cword % 2 == 0
    ensures src < end && dst < |s| && source[src] == s[dst]
    ensures Synced(s, source, end, src + 1, dst + 1, cword / 2, v')
  {
    hide HashUpto, StreamAt;
    ControlBit(source, src, end, cword, v.open, v.later, v.p);
    DecodesLess(s, dst, v.D, v.lits, v.open, v.later, dst + Covers(v.open[0]));
    v' := LiteralSynced(s, source, end, src, dst, cword, v);
  }

  /** The closing loop: one literal at a time, skipping control words unread. */
  method CopyTail(source: seq<Byte>, destination: array<Byte>, size: nat, state: DecompressState, r: Reader,
                  lastSourceByte: int,
                  ghost own: bool, ghost s: seq<Byte>, ghost end: nat, ghost v: View)
    returns (ok: bool)
    requires size <= destination.Length && state.offset.Length == HASH_VALUES && r.dst <= size && -1 <= r.lastHashed
    requires lastSourceByte < |source| && r.cword % 2 == 0
    requires own ==>
               && Synced(s, source, end, r.src, r.dst, r.cword, v) && destination[..r.dst] == s[..r.dst]
               && |s| == size && LastMatchStart(s) <= r.dst < |s| && end <= lastSourceByte + 1
    modifies destination, state.offset
    ensures destination[size..] == old(destination[size..])
    ensures own ==> ok && destination[..size] == s
  {
    hide Decodes, StreamAt, TableUpto;
    var src: nat, dst: nat, cword: nat := r.src, r.dst, r.cword;
    ghost var w := v;
    while dst <= size - 1
      invariant r.dst <= dst <= size
      invariant destination[size..] == old(destination[size..])
      invariant own ==> Synced(s, source, end, src, dst, cword, w) && destination[..dst] == s[..dst]
      invariant own ==> LastMatchStart(s) < dst || (dst < |s| && cword % 2 == 0)
    {
      if own {
        MoreToRead(s, source, end, src, dst, cword, w);
      }
      if cword == 1 {
        if own {
          w := TailRefill(s, source, end, src, dst, cword, w);
        }
        src := src + CWORD_LEN;
        cword := TOP;
      }
      if own {
        w := TailLiteral(s, source, end, src, dst, cword, w);
      }
      if src >= lastSourceByte + 1 {
        return false;
      }
      destination[dst] := source[src];
      assert destination[..dst + 1] == destination[..dst] + [destination[dst]];
      assert own ==> s[..dst + 1] == s[..dst] + [s[dst]];
      dst := dst + 1;
      src := src + 1;
      cword := cword / 2;
    }
    var lh := UpdateHashUpto(state, destination, r.lastHashed, size - 1 - 3);
    assert own ==> s[..size] == s;
    return true;
  }

  /** `source` holds, after its header, the layout of tokens that decode to `s`, padded to at least nine bytes. */
  ghost predicate EncodedBy(source: seq<Byte>, s: seq<Byte>, ts: seq<Token>) {
    && HeaderReadable(source) && s != [] && Decodes(s, 0, map[], 0, ts)
    && var start, n := SizeHeader(source), |Layout(ts)|;
       && start + n <= SizeCompressed(source) <= |source| && start + 9 <= SizeCompressed(source)
       && source[start..start + n] == Layout(ts)
  }

  lemma StartFollows(source: seq<Byte>, s: seq<Byte>, ts: seq<Token>, dest: seq<Byte>, tbl: seq<int>)
    requires EncodedBy(source, s, ts) && |tbl| == HASH_VALUES
    ensures var start := SizeHeader(source);
            Follows(s, source, start + |Layout(ts)|, dest, tbl, Reader(start, 0, 1, -1), View([], ts, 0, map[], 0))
  {
    var l := Layout(ts);
    assert [] + l == l && [] + ts == ts;
    assert Payload([]) == [] && Flags([]) == 0 && Pow2(0) == 1;
  }

  /** One round of the decoding loop, after the control word has been refilled. */
  datatype Outcome = Rejected | More(r: Reader) | Finished

  /** What holds at the top of the loop on an encoder's stream. */
  ghost predicate OnTrack(s: seq<Byte>, source: seq<Byte>, start: nat, end: nat, limit: int,
                          dest: seq<Byte>, tbl: seq<int>, size: nat, r: Reader, v: View)
  {
    && Follows(s, source, end, dest, tbl, r, v)
    && |s| == size && r.dst < size && end <= limit <= |source| && start + 9 <= limit
    && (r.dst == 0 ==> r.src == start && r.cword == 1)
  }

  /** Refills the control word when only the sentinel is left. */
  method RefillWord(source: seq<Byte>, r: Reader, lastSourceByte: int, ghost own: bool, ghost s: seq<Byte>,
                    ghost start: nat, ghost end: nat,
                    ghost dest: seq<Byte>, ghost tbl: seq<int>, ghost size: nat, ghost v: View)
    returns (ok: bool, r': Reader, ghost v': View)
    requires lastSourceByte < |source| && r.src <= |source|
    requires own ==> OnTrack(s, source, start, end, lastSourceByte + 1, dest, tbl, size, r, v)
    ensures ok ==> r.src <= r'.src <= |source| && r'.dst == r.dst && r'.lastHashed == r.lastHashed
    ensures own ==> ok && v'.open != [] && Follows(s, source, end, dest, tbl, r', v')
    ensures own ==> (r.dst == 0 ==> r'.src == start + CWORD_LEN)
  {
    hide Decodes, StreamAt, Layout, Payload, Flags;
    v' := v;
    if own {
      MoreToRead(s, source, end, r.src, r.dst, r.cword, v);
    }
    if r.cword == 1 {
      if own {
        RefillSynced(s, source, end, r.src, r.dst, r.cword, v);
        InRange(s, source, end, r.src, r.dst, r.cword, v);
        var k := GroupSize(v.later);
        v' := View(v.later[..k], v.later[k..], GROUP, v.D, v.lits);
      }
      if r.src + CWORD_LEN - 1 > lastSourceByte {
        return false, r, v;
      }
      r' := Reader(r.src + CWORD_LEN, r.dst, FastRead(source, r.src, CWORD_LEN), r.lastHashed);
    } else {
      r' := r;
    }
    ok := true;
  }

  /** An encoder's stream always has four readable bytes left where the decompressor fetches. */
  lemma FetchAllowed(s: seq<Byte>, source: seq<Byte>, start: nat, end: nat, limit: int, dest: seq<Byte>,
                     tbl: seq<int>, size: nat,
                     r: Reader, v: View)
    requires Follows(s, source, end, dest, tbl, r, v) && Safe(size, r) && |s| == size && r.dst < size
    requires end <= limit <= |source| && start + 9 <= limit && (r.dst == 0 ==> r.src == start + CWORD_LEN)
    ensures r.src + 4 <= limit
  {
    hide Decodes, StreamAt;
    SourceRoom(s, source, end, r.src, r.dst, r.cword, v);
    InRange(s, source, end, r.src, r.dst, r.cword, v);
  }

  method MatchStep(source: seq<Byte>, destination: array<Byte>, size: nat, state: DecompressState, r: Reader,
                   fetch: nat,
                   ghost own: bool, ghost s: seq<Byte>, ghost end: nat, ghost v: View)
    returns (o: Outcome, ghost v': View)
    requires size <= destination.Length && size < TWO32 && state.offset.Length == HASH_VALUES && Safe(size, r)
    requires r.src + 4 <= |source| && r.dst <= size && fetch == FastRead(source, r.src, 4) && r.cword % 2 == 1
    requires own ==> Follows(s, source, end, destination[..], state.offset[..], r, v) && v.open != [] && |s| == size
    modifies destination, state.offset
    ensures destination[size..] == old(destination[size..])
    ensures !o.Finished? && (own ==> o.More?)
    ensures o.More? ==> Safe(size, o.r) && r.src < o.r.src <= |source| && r.dst <= o.r.dst <= size
    ensures own ==> r.dst < o.r.dst && Follows(s, source, end, destination[..], state.offset[..], o.r, v')
  {
    hide TableUpto, Agrees, Synced, Fits, Follows;
    ghost var dest, tbl := destination[..], state.offset[..];
    v' := v;
    if own {
      MatchPasses(s, source, end, dest, tbl, r, v, fetch);
    }
    var ok, r' := CopyMatch(source, destination, size, state, r, fetch);
    if !ok {
      return Rejected, v;
    }
    if own {
      v' := MatchFollows(s, source, end, dest, tbl, r, v, v.open[0], destination[..], state.offset[..], r');
    }
    o := More(r');
  }

  /** A match or a batch of literals, or the tail when the end is near. */
  method DecodeStep(source: seq<Byte>, destination: array<Byte>, size: nat, state: DecompressState, r: Reader,
                    lastSourceByte: int,
                    ghost own: bool, ghost s: seq<Byte>, ghost start: nat, ghost end: nat, ghost v: View)
    returns (o: Outcome, ghost v': View)
    requires size <= destination.Length && size < TWO32 && state.offset.Length == HASH_VALUES && Safe(size, r)
    requires lastSourceByte < |source| && r.src <= |source| && r.dst <= size
    requires own ==> OnTrack(s, source, start, end, lastSourceByte + 1, destination[..], state.offset[..], size, r, v)
    modifies destination, state.offset
    ensures destination[size..] == old(destination[size..])
    ensures o.More? ==> Safe(size, o.r) && r.src < o.r.src <= |source| && o.r.dst <= size
    ensures own ==> !o.Rejected?
    ensures own && o.More? ==>
              OnTrack(s, source, start, end, lastSourceByte + 1, destination[..], state.offset[..], size, o.r, v')
    ensures own && o.Finished? ==> destination[..size] == s
  {
    hide Decodes, StreamAt, Layout, Payload, Flags, TableUpto, LowBitsClear, Shr, Agrees, Synced, Fits;
    var ok, c;
    ok, c, v' := RefillWord(source, r, lastSourceByte, own, s, start, end, destination[..], state.offset[..], size, v);
    if !ok {
      return Rejected, v';
    }
    if own {
      FetchAllowed(s, source, start, end, lastSourceByte + 1, destination[..], state.offset[..], size, c, v');
    }
    if c.src + 4 - 1 > lastSourceByte {
      return Rejected, v';
    }
    var fetch := FastRead(source, c.src, 4);
    ghost var dest, tbl, w := destination[..], state.offset[..], v';
    if c.cword % 2 == 1 {
      o, v' := MatchStep(source, destination, size, state, c, fetch, own, s, end, w);
    } else if c.dst < size - 1 - UNCONDITIONAL_MATCHLEN - UNCOMPRESSED_END {
      var c' := CopyLiterals(source, destination, size, state, c);
      if own {
        v' := LiteralsFollow(s, source, end, dest, tbl, c, w, BITLUT[c.cword % 16], destination[..], state.offset[..],
                             c');
      }
      o := More(c');
    } else {
      ok := CopyTail(source, destination, size, state, c, lastSourceByte, own, s, end, w);
      o := if ok then Finished else Rejected;
    }
  }

  /**
    `qlz_decompress_core`.  For every source readable up to its claimed length it stops, reads nothing
    beyond that length and writes nothing beyond `size`; on an encoder's stream no guard fires and the
    output is the plain bytes, whatever the hash table held before.
   */
  method DecompressCore(source: seq<Byte>, destination: array<Byte>, size: nat, state: DecompressState,
                        ghost s: seq<Byte>, ghost ts: seq<Token>)
    returns (r: nat)
    requires HeaderReadable(source) && SizeCompressed(source) <= |source|
    requires size <= destination.Length && size < TWO32 && state.offset.Length == HASH_VALUES
    modifies destination, state.offset
    ensures r == 0 || r == size
    ensures destination[size..] == old(destination[size..])
    ensures EncodedBy(source, s, ts) && |s| == size ==> r == size && destination[..size] == s
  {
    hide Decodes, StreamAt, Layout, Payload, Flags, Synced, Holds;
    var lastSourceByte := SizeCompressed(source) - 1;
    ghost var own := EncodedBy(source, s, ts) && |s| == size;
    ghost var start, end := SizeHeader(source), SizeHeader(source) + |Layout(ts)|;
    var c := Reader(SizeHeader(source), 0, 1, -1);
    ghost var v := View([], ts, 0, map[], 0);
    if own {
      StartFollows(source, s, ts, destination[..], state.offset[..]);
    }
    while true
      invariant destination[size..] == old(destination[size..])
      invariant Safe(size, c) && c.src <= |source| && c.dst <= size
      invariant own ==>
                  OnTrack(s, source, start, end, lastSourceByte + 1, destination[..], state.offset[..], size, c, v)
      decreases |source| - c.src
    {
      var o;
      o, v := DecodeStep(source, destination, size, state, c, lastSourceByte, own, s, start, end, v);
      match o {
        case Rejected => return 0;
        case Finished => return size;
        case More(c') => c := c';
      }
    }
  }
}
