/**
  The level 3 compressor of components/quicklz/source/quicklz.c: `qlz_compress_core` over a destination
  buffer and buckets whose entries may hold anything on entry.
 */
module QlzLevel3Compress {
  import opened Division
  import opened Slices
  import opened Words
  import opened QlzFormat
  import opened QlzParse
  import opened QlzOutput
  import opened QlzCompress
  import opened QlzLevel3
  import opened QlzLevel3Parse

  lemma CounterWraps(n: nat)
    ensures (n % COUNTS + 1) % COUNTS == (n + 1) % COUNTS && n % COUNTS % BUCKET_SIZE == n % BUCKET_SIZE
  {
    var q, m := n / COUNTS, n % COUNTS;
    if m == COUNTS - 1 {
      DivisionUnique(n + 1, COUNTS, q + 1, 0);
    } else {
      DivisionUnique(n + 1, COUNTS, q, m + 1);
    }
    DivisionUnique(n, BUCKET_SIZE, 16 * q + m / BUCKET_SIZE, m % BUCKET_SIZE);
  }

  class BucketState {
    /** Slot by slot the positions; `hashCounter`, a byte, says how many of them are from this call. */
    const offset: array2<int>
    const hashCounter: array<nat>

    ghost predicate Shaped() {
      offset.Length0 == HASH_VALUES && offset.Length1 == BUCKET_SIZE && hashCounter.Length == HASH_VALUES
    }

    constructor (leftover: (nat, nat) -> int, counts: seq<nat>)
      requires |counts| == HASH_VALUES
      ensures fresh(offset) && fresh(hashCounter) && Shaped()
    {
      offset := new int[HASH_VALUES, BUCKET_SIZE](leftover);
      hashCounter := new nat[HASH_VALUES](i requires 0 <= i < HASH_VALUES => counts[i]);
    }

    /** The bucket holds the last 16 of the positions `P`. */
    ghost predicate SlotHolds(h: Slot, P: seq<nat>)
      requires Shaped()
      reads offset, hashCounter
    {
      && hashCounter[h] == |P| % COUNTS
      && forall k: nat :: k < BUCKET_SIZE && k < |P| ==> offset[h, k] == Entry(P, k)
    }

    /** The buckets hold what has been entered, all of it in front of `i`. */
    ghost predicate Holds(B: History, i: nat)
      reads offset, hashCounter
    {
      && Shaped() && Below(B, i)
      && forall h: Slot :: SlotHolds(h, Entered(B, h))
    }

    /** `reset_table_compress`: only the counters are cleared. */
    method ResetTable()
      requires Shaped()
      modifies hashCounter
      ensures forall h :: 0 <= h < HASH_VALUES ==> hashCounter[h] == 0
    {
      for i := 0 to HASH_VALUES
        invariant forall h :: 0 <= h < i ==> hashCounter[h] == 0
      {
        hashCounter[i] := 0;
      }
    }

    /** Enters position `pos` into slot `hash`, over the oldest entry; the counter wraps after 255. */
    method Insert(hash: Slot, pos: nat, ghost s: seq<Byte>, ghost B: History)
      requires Holds(B, pos) && pos + 3 <= |s| && hash == Hash(s, pos)
      modifies offset, hashCounter
      ensures forall h, k :: 0 <= h < HASH_VALUES && 0 <= k < BUCKET_SIZE ==>
        offset[h, k] == if h == hash && k == old(hashCounter[hash]) % BUCKET_SIZE then pos else old(offset[h, k])
      ensures forall h :: 0 <= h < HASH_VALUES ==>
        hashCounter[h] == if h == hash then (old(hashCounter[h]) + 1) % COUNTS else old(hashCounter[h])
      ensures Holds(Enter(s, B, pos), pos + 1)
    {
      hide Entry, Hash;
      ghost var P, B' := Entered(B, hash), Enter(s, B, pos);
      EnterBelow(s, B, pos);
      assert SlotHolds(hash, P);
      var c := hashCounter[hash];
      offset[hash, c % BUCKET_SIZE] := pos;
      hashCounter[hash] := (c + 1) % COUNTS;
      forall h: Slot ensures SlotHolds(h, Entered(B', h)) {
        assert old(SlotHolds(h, Entered(B, h)));
        if h == hash {
          CounterWraps(|P|);
          forall k: nat | k < BUCKET_SIZE && k < |P + [pos]| ensures offset[h, k] == Entry(P + [pos], k) {
            EntryAfter(P, pos, k);
          }
        }
      }
    }
  }

  lemma LengthIsCommon(s: seq<Byte>, o: nat, i: nat)
    requires o < i <= LastMatchStart(s) && Fetch(s, o) == Fetch(s, i) && s[o..o + 3] == s[i..i + 3]
    ensures MatchLengthAt(s, o, i) == CommonLength(s, o, i)
  {
  }

  /** The length of the match that entry `o` offers. */
  method OfferedLength(s: seq<Byte>, i: nat, o: nat, fetch: nat) returns (m: nat)
    requires o + 3 <= i <= LastMatchStart(s) && fetch == Fetch(s, i) && Fetch(s, o) == fetch
    ensures m == MatchLengthAt(s, o, i)
  {
    hide Extend, Fetch, FastRead, Value, CommonLength;
    SameFetch(s, o, i);
    var q := |s| - 1 - UNCOMPRESSED_END - i + 1;
    m := ExtendMatch(s, o, i, 3, if q > 255 then 255 else q);
    LongestIs(s, o, i, m);
    LengthIsCommon(s, o, i);
  }

  /** The candidate in the two variables of the search. */
  predicate Is(matchlen: nat, offset2: int, b: Candidate) {
    matchlen == b.len && (matchlen > 0 ==> offset2 == b.pos)
  }

  lemma BucketEntry(state: BucketState, B: History, i: nat, hash: Slot, k: nat)
    requires state.Holds(B, i) && k < BUCKET_SIZE && k < state.hashCounter[hash]
    ensures var P := Entered(B, hash);
            && state.hashCounter[hash] == |P| % COUNTS && k < |P|
            && state.offset[hash, k] == Entry(P, k) < i
  {
    var P := Entered(B, hash);
    assert state.SlotHolds(hash, P) && AllBelow(P, i);
  }

  /** One round of the search. */
  method Consider(s: seq<Byte>, i: nat, state: BucketState, hash: Slot, k: nat, fetch: nat, matchlen0: nat,
                  offset0: int, ghost B: History)
    returns (matchlen: nat, offset2: int)
    requires i <= LastMatchStart(s) && state.Holds(B, i) && fetch == Fetch(s, i)
    requires k < BUCKET_SIZE && k < state.hashCounter[hash]
    requires Is(matchlen0, offset0, Best(s, i, Entered(B, hash), k))
    ensures Is(matchlen, offset2, Best(s, i, Entered(B, hash), k + 1))
  {
    hide FastRead, MatchLengthAt, Entry, Below;
    ghost var P := Entered(B, hash);
    BucketEntry(state, B, i, hash, k);
    var o := state.offset[hash, k];
    matchlen, offset2 := matchlen0, offset0;
    if FastRead(s, o, 3) == fetch && o < i - 2 {
      var m := OfferedLength(s, i, o, fetch);
      if m > matchlen || (m == matchlen && o > offset2) {
        offset2 := o;
        matchlen := m;
      }
    }
  }

  /** The entries behind the counter offer nothing. */
  lemma {:induction false} RestOffersNothing(s: seq<Byte>, i: nat, P: seq<nat>, k: nat, n: nat)
    requires i <= LastMatchStart(s) && |P| % COUNTS <= k <= n
    ensures Best(s, i, P, n) == Best(s, i, P, k)
  {
    hide Offered;
    if k < n {
      RestOffersNothing(s, i, P, k, n - 1);
    }
  }

  /** The search over the slot's entries. */
  method BestMatch(s: seq<Byte>, i: nat, state: BucketState, hash: Slot, fetch: nat, ghost B: History)
    returns (matchlen: nat, offset2: int)
    requires i <= LastMatchStart(s) && state.Holds(B, i) && fetch == Fetch(s, i)
    ensures Is(matchlen, offset2, Best(s, i, Entered(B, hash), BUCKET_SIZE))
  {
    hide FastRead, MatchLengthAt, Entry, Below, Hash;
    ghost var P := Entered(B, hash);
    var c := state.hashCounter[hash];
    assert state.SlotHolds(hash, P);
    if c > 0 {
      BucketEntry(state, B, i, hash, 0);
    }
    offset2 := state.offset[hash, 0];
    matchlen := 0;
    if offset2 < i - 2 && c > 0 && FastRead(s, offset2, 3) == fetch {
      matchlen := OfferedLength(s, i, offset2, fetch);
    }
    assert Best(s, i, P, 0) == NONE;
    var k := 1;
    while k < BUCKET_SIZE && c > k
      invariant 1 <= k <= BUCKET_SIZE
      invariant Is(matchlen, offset2, Best(s, i, P, k))
    {
      matchlen, offset2 := Consider(s, i, state, hash, k, fetch, matchlen, offset2, B);
      k := k + 1;
    }
    if k < BUCKET_SIZE {
      RestOffersNothing(s, i, P, k, BUCKET_SIZE);
    }
  }

  /** The five forms of a match. */
  method WriteFar(offset: FarOffset, matchlen: MatchLength, destination: array<Byte>, dst: nat) returns (dst': nat)
    requires dst + 4 <= destination.Length
    modifies destination
    ensures dst' == dst + |TokenBytes(Far(offset, matchlen))|
    ensures destination[..] == Splice(old(destination[..]), dst, TokenBytes(Far(offset, matchlen)))
  {
    hide LittleEndian, Splice;
    if matchlen == 3 && offset <= 63 {
      FastWrite(4 * offset, destination, dst, 1);
      dst' := dst + 1;
    } else if matchlen == 3 && offset <= 16383 {
      FastWrite(4 * offset + 1, destination, dst, 2);
      dst' := dst + 2;
    } else if matchlen <= 18 && offset <= 1023 {
      FastWrite(4 * (matchlen - 3) + 64 * offset + 2, destination, dst, 2);
      dst' := dst + 2;
    } else if matchlen <= 33 {
      FastWrite(4 * (matchlen - 2) + 128 * offset + 3, destination, dst, 3);
      dst' := dst + 3;
    } else {
      FastWrite(128 * (matchlen - 3) + 32768 * offset + 3, destination, dst, 4);
      dst' := dst + 4;
    }
  }

  /** The positions inside a match are entered too. */
  method InsertMatch(source: seq<Byte>, state: BucketState, src: nat, matchlen: nat, ghost B: History)
    requires 0 < matchlen && src + matchlen + 2 <= |source|
    requires state.Holds(EnterUpto(source, B, src, src + 1), src + 1)
    modifies state.offset, state.hashCounter
    ensures state.Holds(EnterUpto(source, B, src, src + matchlen), src + matchlen)
  {
    hide state.Holds, Enter;
    for u := 1 to matchlen
      invariant state.Holds(EnterUpto(source, B, src, src + u), src + u)
    {
      var hash := HashFunc(FastRead(source, src + u, 3));
      state.Insert(hash, src + u, source, EnterUpto(source, B, src, src + u));
    }
  }

  /** What the search finds decides the token. */
  lemma FoundIsToken(s: seq<Byte>, i: nat, B: History, matchlen: nat, o: int)
    requires i <= LastMatchStart(s) && Is(matchlen, o, Best(s, i, Entered(B, Hash(s, i)), BUCKET_SIZE))
    ensures if matchlen > 2 && i - o < TOO_FAR then
              && 3 <= i - o && 3 <= matchlen <= 255 && i + matchlen + 2 <= |s|
              && Token3(s, i, B) == Far(i - o, matchlen) && History3(s, i, B) == EnterUpto(s, B, i, i + matchlen)
            else Token3(s, i, B) == Literal(s[i]) && History3(s, i, B) == EnterUpto(s, B, i, i + 1)
  {
    hide Best, EnterUpto, Hash;
  }

  lemma LiteralWidth(b: Byte)
    ensures TokenBytes(Literal(b)) == [b]
  {
  }

  /** A match is written, and the positions inside it are entered. */
  method EmitMatch3(source: seq<Byte>, destination: array<Byte>, state: BucketState, c: Cursor, offset: FarOffset,
                    matchlen: MatchLength, ghost B: History)
    returns (c': Cursor)
    requires c.src + matchlen + 2 <= |source| && c.dst + 4 <= destination.Length
    requires state.Holds(EnterUpto(source, B, c.src, c.src + 1), c.src + 1)
    modifies destination, state.offset, state.hashCounter
    ensures destination[..] == Splice(old(destination[..]), c.dst, TokenBytes(Far(offset, matchlen)))
    ensures c' == CursorAfter(c, Far(offset, matchlen))
    ensures state.Holds(EnterUpto(source, B, c.src, c.src + matchlen), c'.src)
  {
    hide TokenBytes, Splice, Enter, EnterUpto, state.Holds;
    InsertMatch(source, state, c.src, matchlen, B);
    var dst := WriteFar(offset, matchlen, destination, c.dst);
    c' := Cursor(c.src + matchlen, c.cptr, dst, c.cword / 2 + TOP);
  }

  /** A literal of one byte. */
  method EmitLiteral3(source: seq<Byte>, destination: array<Byte>, c: Cursor) returns (c': Cursor)
    requires c.src < |source| && c.dst + 4 <= destination.Length
    modifies destination
    ensures destination[..] == Splice(old(destination[..]), c.dst, TokenBytes(Literal(source[c.src])))
    ensures c' == CursorAfter(c, Literal(source[c.src]))
  {
    hide Splice;
    LiteralWidth(source[c.src]);
    WriteLiteral(source[c.src], destination, c.dst);
    c' := Cursor(c.src + 1, c.cptr, c.dst + 1, c.cword / 2);
  }

  lemma FirstEntered(s: seq<Byte>, B: History, i: nat)
    requires i + 3 <= |s|
    ensures EnterUpto(s, B, i, i + 1) == Enter(s, B, i)
  {
  }

  /** One token: the best match of the slot when it is near enough, else a literal. */
  method EmitToken3(source: seq<Byte>, destination: array<Byte>, state: BucketState, c: Cursor, ghost B: History)
    returns (c': Cursor)
    requires c.src <= LastMatchStart(source) && c.dst + 4 <= destination.Length && state.Holds(B, c.src)
    modifies destination, state.offset, state.hashCounter
    ensures var t := Token3(source, c.src, B);
            && destination[..] == Splice(old(destination[..]), c.dst, TokenBytes(t)) && c' == CursorAfter(c, t)
    ensures state.Holds(History3(source, c.src, B), c'.src)
  {
    hide TokenBytes, Best, Splice, Enter, Token3, History3, state.Holds, Entered, FastRead, FitsFar, EnterUpto, Is;
    var fetch := FastRead(source, c.src, 3);
    var hash := HashFunc(fetch);
    var matchlen, o := BestMatch(source, c.src, state, hash, fetch, B);
    FoundIsToken(source, c.src, B, matchlen, o);
    state.Insert(hash, c.src, source, B);
    FirstEntered(source, B, c.src);
    if matchlen > 2 && c.src - o < 131071 {
      c' := EmitMatch3(source, destination, state, c, c.src - o, matchlen, B);
    } else {
      c' := EmitLiteral3(source, destination, c);
    }
  }

  /** The buckets and the plan for the rest, between two rounds of the main loop. */
  ghost predicate Running3(s: seq<Byte>, state: BucketState, c: Cursor, e: Trace, B: History)
    reads state.offset, state.hashCounter
  {
    c.src <= |s| && state.Holds(B, c.src) && e.rest == Parse3(s, c.src, B) && (e.cur == [] ==> c.src == 0)
  }

  method TokenStep3(source: seq<Byte>, destination: array<Byte>, base: nat, state: BucketState, c: Cursor,
                    ghost out0: seq<Byte>, ghost e: Trace, ghost B: History)
    returns (c': Cursor, ghost e': Trace, ghost B': History)
    requires Room(source, destination, base) && Building(source, Tokens3(source), out0, destination[..], base, c, e)
    requires |e.cur| < GROUP && c.cptr <= base + |source| && c.src <= LastMatchStart(source)
    requires state.Holds(B, c.src) && e.rest == Parse3(source, c.src, B)
    modifies destination, state.offset, state.hashCounter
    ensures Building(source, Tokens3(source), out0, destination[..], base, c', e') && c'.cptr == c.cptr
    ensures Running3(source, state, c', e', B') && c.src < c'.src
  {
    hide Token3, Building, Parse3, History3, TokenBytes, FitsFar, state.Holds;
    ghost var t, out := Token3(source, c.src, B), destination[..];
    B' := History3(source, c.src, B);
    FitsCovers(source, c.src, t);
    ghost var rest := Parse3(source, c.src + Covers(t), B');
    e' := Trace(e.done, e.cur + [t], rest);
    BuildingSize(source, Tokens3(source), out0, out, base, c, e);
    c' := EmitToken3(source, destination, state, c, B);
    assert Building(source, Tokens3(source), out0, Splice(out, c.dst, TokenBytes(t)), base, c', e') by {
      Parse3More(source, c.src, B);
      BuildToken(source, Tokens3(source), out0, out, base, c, e, t, rest);
    }
  }

  /** One round of the main loop; `false` when the compression ratio is too low. */
  method CompressStep3(source: seq<Byte>, destination: array<Byte>, base: nat, state: BucketState, c: Cursor,
                       ghost out0: seq<Byte>, ghost e: Trace, ghost B: History)
    returns (goOn: bool, c': Cursor, ghost e': Trace, ghost B': History)
    requires Room(source, destination, base) && Building(source, Tokens3(source), out0, destination[..], base, c, e)
    requires Running3(source, state, c, e, B) && c.src <= LastMatchStart(source) && c.cptr <= base + |source|
    modifies destination, state.offset, state.hashCounter
    ensures Building(source, Tokens3(source), out0, destination[..], base, c', e') && c'.cptr <= base + |source|
    ensures if goOn then Running3(source, state, c', e', B') && c.src < c'.src else GivesUp(source, Tokens3(source))
  {
    hide Emitting, Layout, Token3, state.Holds, Progress;
    goOn, c', e', B' := true, c, e, B;
    BuildingSize(source, Tokens3(source), out0, destination[..], base, c, e);
    if c.cword % 2 == 1 {
      goOn, c' := FlushOrGiveUp(source, destination, base, c, Tokens3(source), out0, e);
      if !goOn {
        return;
      }
      e' := Trace(e.done + e.cur, [], e.rest);
    }
    c', e', B' := TokenStep3(source, destination, base, state, c', out0, e', B);
  }

  /** The main loop. */
  method CompressMain3(source: seq<Byte>, destination: array<Byte>, base: nat, state: BucketState)
    returns (gaveUp: bool, c: Cursor, ghost e: Trace)
    requires source != [] && Room(source, destination, base) && state.Holds(map[], 0)
    modifies destination, state.offset, state.hashCounter
    ensures Building(source, Tokens3(source), old(destination[..]), destination[..], base, c, e)
    ensures gaveUp ==> GivesUp(source, Tokens3(source))
    ensures c.dst <= base + |source| + CWORD_LEN + 4 * GROUP
    ensures !gaveUp ==>
              c.src > LastMatchStart(source) && e.rest == Literals(source, c.src) && (e.cur == [] ==> c.src == 0)
  {
    hide Emitting, Parse3, Layout, state.Holds, Progress;
    ghost var B, out0 := map[], destination[..];
    c, e := Cursor(0, base, base + CWORD_LEN, TOP), Trace([], [], Tokens3(source));
    BuildStart(source, Tokens3(source), out0, base);
    while c.src <= LastMatchStart(source)
      invariant Building(source, Tokens3(source), out0, destination[..], base, c, e)
      invariant Running3(source, state, c, e, B)
      invariant c.cptr <= base + |source|
      decreases |source| - c.src
    {
      var goOn;
      goOn, c, e, B := CompressStep3(source, destination, base, state, c, out0, e, B);
      BuildingSize(source, Tokens3(source), out0, destination[..], base, c, e);
      if !goOn {
        return true, c, e;
      }
    }
    TailParse3(source, c.src, B);
    BuildingSize(source, Tokens3(source), out0, destination[..], base, c, e);
    gaveUp := false;
  }

  /** The literal-only tail; at this level it enters nothing. */
  method CompressTail3(source: seq<Byte>, destination: array<Byte>, base: nat, start: Cursor,
                       ghost out0: seq<Byte>, ghost begun: Trace)
    returns (c: Cursor, ghost e: Trace)
    requires Room(source, destination, base)
    requires Building(source, Tokens3(source), out0, destination[..], base, start, begun)
    requires start.src > LastMatchStart(source) && begun.rest == Literals(source, start.src)
    requires start.dst <= base + |source| + CWORD_LEN + 4 * GROUP
    requires source != [] && (begun.cur == [] ==> start.src == 0)
    modifies destination
    ensures Building(source, Tokens3(source), out0, destination[..], base, c, e)
    ensures e.rest == [] && e.cur != [] && c.dst <= base + |source| + CORE_OVERHEAD
  {
    hide Building, Layout, Tokens3;
    c, e := start, begun;
    BuildingSize(source, Tokens3(source), out0, destination[..], base, c, e);
    ghost var flushes := 0;
    while c.src <= |source| - 1
      invariant Building(source, Tokens3(source), out0, destination[..], base, c, e)
      invariant start.src <= c.src <= |source| && e.rest == Literals(source, c.src)
      invariant e.cur == [] ==> c.src == 0
      invariant 0 <= flushes <= 1 && (flushes == 1 ==> |e.cur| <= c.src - start.src)
      invariant c.dst <= base + |source| + CWORD_LEN + 4 * GROUP + (c.src - start.src) + CWORD_LEN * flushes
      decreases |source| - c.src
    {
      flushes := if |e.cur| == GROUP then flushes + 1 else flushes;
      c, e := TailFlush(source, destination, base, c, Tokens3(source), out0, e);
      c, e := TailLiteral(source, destination, base, c, Tokens3(source), out0, e);
    }
  }

  /**
    `qlz_compress_core` at level 3: writes the layout of `Tokens3(source)` at `base` and returns its
    length, at least 9; or returns 0 exactly when the ratio check fails somewhere past half way.
   */
  method CompressCore3(source: seq<Byte>, destination: array<Byte>, base: nat, state: BucketState) returns (r: nat)
    requires source != [] && Room(source, destination, base) && state.Shaped()
    requires forall h :: 0 <= h < HASH_VALUES ==> state.hashCounter[h] == 0
    modifies destination, state.offset, state.hashCounter
    ensures r == 0 <==> GivesUp(source, Tokens3(source))
    ensures r <= |source| + CORE_OVERHEAD
    ensures destination[..base] == old(destination[..base])
    ensures var end := base + |source| + CORE_OVERHEAD; destination[end..] == old(destination[end..])
    ensures var n := |Layout(Tokens3(source))|;
            r != 0 ==>
              && n <= r && r == (if n < 9 then 9 else n)
              && destination[base..base + n] == Layout(Tokens3(source))
              && destination[base + n..] == old(destination[base + n..])
  {
    hide Layout, Tokens3, GivesUp, Literals, GivesUpAt, ControlWord, Progress;
    ghost var out0, end := destination[..], base + |source| + CORE_OVERHEAD;
    var gaveUp, c, e := CompressMain3(source, destination, base, state);
    if gaveUp {
      SuffixAgrees(destination[..], out0, c.dst, end);
      return 0;
    }
    c, e := CompressTail3(source, destination, base, c, out0, e);
    Finish(source, destination, base, c, Tokens3(source), out0, e);
    SuffixAgrees(destination[..], out0, c.dst, end);
    assert |destination[base..c.dst]| == c.dst - base;
    r := if c.dst - base < 9 then 9 else c.dst - base;
  }
}
