/**
  The level 1 compressor: `qlz_compress_core` over a destination buffer and a hash table whose
  `cache` fields may hold anything on entry.
 */
module QlzCompress {
  import opened Slices
  import opened Words
  import opened QlzFormat
  import opened QlzOutput
  import opened QlzParse

  datatype Offset = Null | At(pos: nat)

  datatype HashEntry = HashEntry(cache: nat, offset: Offset)

  class CompressState {
    const hash: array<HashEntry>

    constructor (leftover: seq<HashEntry>)
      requires |leftover| == HASH_VALUES
      ensures fresh(hash) && hash.Length == HASH_VALUES
      ensures hash[..] == leftover
    {
      hash := new HashEntry[HASH_VALUES](i requires 0 <= i < HASH_VALUES => leftover[i]);
    }

    /** `reset_table_compress`: offsets become null, caches stay as they were. */
    method ResetTable()
      requires hash.Length == HASH_VALUES
      modifies hash
      ensures forall h :: 0 <= h < HASH_VALUES ==> hash[h] == old(hash[h]).(offset := Null)
    {
      for i := 0 to HASH_VALUES
        invariant forall h :: 0 <= h < i ==> hash[h] == old(hash[h]).(offset := Null)
        invariant forall h :: i <= h < HASH_VALUES ==> hash[h] == old(hash[h])
      {
        hash[i] := hash[i].(offset := Null);
      }
    }
  }

  /** The array holds the abstract table: a set offset always comes with the bytes it was hashed from. */
  ghost predicate Represents(entries: seq<HashEntry>, s: seq<Byte>, i: nat, C: Table) {
    && |entries| == HASH_VALUES
    && TableBelow(C, i)
    && forall h: Slot ::
         if h in C then
           C[h] + 3 <= |s| && entries[h] == HashEntry(Fetch(s, C[h]), At(C[h]))
         else entries[h].offset == Null
  }

  lemma RepresentsLater(entries: seq<HashEntry>, s: seq<Byte>, i: nat, j: nat, C: Table)
    requires Represents(entries, s, i, C) && i <= j
    ensures TableBelow(C, i) && Represents(entries, s, j, C)
  {
  }

  lemma RepresentsUpdate(entries: seq<HashEntry>, s: seq<Byte>, i: nat, C: Table)
    requires Represents(entries, s, i, C) && i <= LastMatchStart(s)
    ensures Represents(entries[Hash(s, i) := HashEntry(Fetch(s, i), At(i))], s, i + 1, TableAfter(s, i, C))
  {
  }

  /** `same(src, n)`, scanning from the far end. */
  method SameBytes(s: seq<Byte>, at: nat, n: nat) returns (r: bool)
    requires at + n < |s|
    ensures r == Same(s, at, n)
  {
    var k := n;
    while k > 0 && s[at + k] == s[at]
      invariant 0 <= k <= n
      invariant forall j :: at + k < j <= at + n ==> s[j] == s[at]
    {
      k := k - 1;
    }
    r := k == 0;
  }

  lemma OneMoreEqual(s: seq<Byte>, o: nat, i: nat, m: nat)
    requires o < i && i + m < |s| && s[o..o + m] == s[i..i + m] && s[o + m] == s[i + m]
    ensures s[o..o + m + 1] == s[i..i + m + 1]
  {
    assert s[o..o + m + 1] == s[o..o + m] + [s[o + m]];
    assert s[i..i + m + 1] == s[i..i + m] + [s[i + m]];
  }

  /** An equal prefix of `m` bytes that cannot be made longer. */
  ghost predicate Longest(s: seq<Byte>, o: nat, i: nat, m: nat)
    requires o < i <= LastMatchStart(s)
  {
    && 3 <= m <= Remaining(s, i) && s[o..o + m] == s[i..i + m]
    && (m == Remaining(s, i) || s[o + m] != s[i + m])
  }

  lemma AgreeAt(s: seq<Byte>, o: nat, i: nat, m: nat, k: nat)
    requires o < i && i + m <= |s| && s[o..o + m] == s[i..i + m]
    ensures k < m ==> s[o + k] == s[i + k]
  {
  }

  lemma LongestIs(s: seq<Byte>, o: nat, i: nat, m: nat)
    requires o < i <= LastMatchStart(s) && s[o..o + 3] == s[i..i + 3] && Longest(s, o, i, m)
    ensures CommonLength(s, o, i) == m
  {
    hide Extend;
    var c := CommonLength(s, o, i);
    AgreeAt(s, o, i, m, c);
    AgreeAt(s, o, i, c, m);
  }

  /** The loop that takes a match of `from` bytes as far as `remaining` allows. */
  method ExtendMatch(s: seq<Byte>, o: nat, i: nat, from: nat, remaining: nat) returns (m: nat)
    requires o < i && from <= remaining && i + remaining < |s| && s[o..o + from] == s[i..i + from]
    ensures from <= m <= remaining && s[o..o + m] == s[i..i + m]
    ensures m == remaining || s[o + m] != s[i + m]
  {
    var src := i + from;
    while s[o + (src - i)] == s[src] && src - i < remaining
      invariant i + from <= src <= i + remaining
      invariant s[o..o + (src - i)] == s[i..src]
      decreases i + remaining - src
    {
      OneMoreEqual(s, o, i, src - i);
      src := src + 1;
    }
    m := src - i;
  }

  lemma SameFetch(s: seq<Byte>, o: nat, i: nat)
    requires o + 3 <= |s| && i + 3 <= |s| && Fetch(s, o) == Fetch(s, i)
    ensures s[o..o + 3] == s[i..i + 3]
  {
    ValueInjective(s[o..o + 3], s[i..i + 3]);
  }

  /** The two inner tests and the loop, once four bytes are known to be equal. */
  method LengthFromFour(s: seq<Byte>, o: nat, i: nat) returns (m: nat)
    requires o < i <= LastMatchStart(s) && s[o..o + 4] == s[i..i + 4]
    ensures Longest(s, o, i, m)
  {
    var src := i + 4;
    if s[o + (src - i)] != s[src] {
      return 4;
    }
    OneMoreEqual(s, o, i, 4);
    src := src + 1;
    if s[o + (src - i)] != s[src] {
      return 5;
    }
    OneMoreEqual(s, o, i, 5);
    var q := |s| - 1 - UNCOMPRESSED_END - (src - 5) + 1;
    m := ExtendMatch(s, o, i, 6, if q > 255 then 255 else q);
  }

  /** The three nested tests and the loop that measure a match. */
  method FindMatchLength(s: seq<Byte>, o: nat, i: nat) returns (matchlen: nat)
    requires o < i <= LastMatchStart(s) && Fetch(s, o) == Fetch(s, i)
    ensures matchlen == MatchLengthAt(s, o, i)
  {
    hide Extend, Fetch, FastRead, Value, CommonLength;
    SameFetch(s, o, i);
    if s[o + 3] != s[i + 3] {
      matchlen := 3;
    } else {
      OneMoreEqual(s, o, i, 3);
      matchlen := LengthFromFour(s, o, i);
    }
    LongestIs(s, o, i, matchlen);
  }

  lemma ValueOfThree(a: seq<Byte>)
    requires |a| == 3
    ensures Value(a) == (a[0] as int) + 256 * (a[1] as int) + 65536 * (a[2] as int)
  {
    var b := a[1..];
    var c := b[1..];
    assert c[1..] == [];
    assert Value(c) == a[2] + 256 * Value([]);
    assert Value(b) == a[1] + 256 * Value(c);
  }

  /** Dropping the oldest byte of the three-byte window and taking in the next one. */
  lemma RollFetch(s: seq<Byte>, i: nat)
    requires i + 4 <= |s|
    ensures Fetch(s, i + 1) == Fetch(s, i) / 256 + 65536 * (s[i + 3] as int)
  {
    var a, b := s[i..i + 3], s[i + 1..i + 4];
    assert a == [s[i]] + [s[i + 1], s[i + 2]];
    assert Value(a) == s[i] + 256 * Value(a[1..]);
    assert a[1..] == [s[i + 1], s[i + 2]] && b[..2] == a[1..];
    ValueOfThree(a);
    ValueOfThree(b);
  }

  // ---- the compressor

  /** Looks up and overwrites the hash slot of `src`, and decides whether a match is taken there. */
  method Probe(source: seq<Byte>, src: nat, fetch: nat, lits: nat, state: CompressState, ghost C: Table)
    returns (hash: Slot, isMatch: bool, o: nat)
    requires src <= LastMatchStart(source) && fetch == Fetch(source, src)
    requires state.hash.Length == HASH_VALUES && Represents(state.hash[..], source, src, C)
    modifies state.hash
    ensures hash == Hash(source, src)
    ensures isMatch == IsMatch(source, src, C, lits)
    ensures isMatch ==> o == C[hash] && o < src && Fetch(source, o) == Fetch(source, src)
    ensures Represents(state.hash[..], source, src + 1, TableAfter(source, src, C))
  {
    hash := HashFunc(fetch);
    var entry := state.hash[hash];
    ghost var before := state.hash[..];
    state.hash[hash] := HashEntry(fetch, At(src));
    assert state.hash[..] == before[hash := HashEntry(fetch, At(src))];
    RepresentsUpdate(before, source, src, C);
    isMatch, o := false, 0;
    if fetch == entry.cache && entry.offset.At? {
      o := entry.offset.pos;
      if src - o > 2 {
        isMatch := true;
      } else if src == o + 1 && lits >= 3 && src > 3 {
        isMatch := SameBytes(source, src - 3, 6);
      }
    }
  }

  /** Writes the bytes of a match: two when the length fits the low nibble, three otherwise. */
  method WriteMatch(hash: Slot, matchlen: MatchLength, destination: array<Byte>, dst: nat) returns (dst': nat)
    requires dst + 3 <= destination.Length
    modifies destination
    ensures dst' == dst + |TokenBytes(Match(hash, matchlen))|
    ensures destination[..] == Splice(old(destination[..]), dst, TokenBytes(Match(hash, matchlen)))
  {
    if matchlen < 18 {
      FastWrite(matchlen - 2 + 16 * hash, destination, dst, 2);
      dst' := dst + 2;
    } else {
      FastWrite(65536 * matchlen + 16 * hash, destination, dst, 3);
      dst' := dst + 3;
    }
  }

  lemma {:induction false} TailParse(s: seq<Byte>, i: nat, C: Table, lits: nat)
    requires i <= |s| && TableBelow(C, i) && i > LastMatchStart(s)
    ensures Parse(s, i, C, lits) == Literals(s, i)
    decreases |s| - i
  {
    if i < |s| {
      TailParse(s, i + 1, C, lits + 1);
    }
  }

  lemma MatchIsToken(s: seq<Byte>, i: nat, C: Table, lits: nat, h: Slot, len: nat)
    requires TableBelow(C, i) && IsMatch(s, i, C, lits) && h == Hash(s, i) && len == MatchLengthAt(s, C[h], i)
    ensures 3 <= len <= 255 && TokenAt(s, i, C, lits) == Match(h, len) && i + len + UNCOMPRESSED_END <= |s|
  {
  }

  lemma LiteralIsToken(s: seq<Byte>, i: nat, C: Table, lits: nat)
    requires i < |s| && TableBelow(C, i) && !IsMatch(s, i, C, lits)
    ensures TokenAt(s, i, C, lits) == Literal(s[i]) && |TokenBytes(Literal(s[i]))| == 1
  {
  }

  /** Writes the token for `src`: a match or a literal. */
  method EmitNext(source: seq<Byte>, destination: array<Byte>, state: CompressState, fetch: nat, lits: nat,
                  c: Cursor, ghost C: Table)
    returns (c': Cursor, fetch': nat, lits': nat)
    requires state.hash.Length == HASH_VALUES && Represents(state.hash[..], source, c.src, C)
    requires c.src <= LastMatchStart(source) && fetch == Fetch(source, c.src)
    requires c.dst + 3 <= destination.Length
    modifies destination, state.hash
    ensures var t := TokenAt(source, c.src, C, lits);
            && destination[..] == Splice(old(destination[..]), c.dst, TokenBytes(t))
            && c' == CursorAfter(c, t) && lits' == LitsAfter(t, lits)
    ensures c'.src + 3 <= |source| && fetch' == Fetch(source, c'.src)
    ensures Represents(state.hash[..], source, c'.src, TableAfter(source, c.src, C))
  {
    hide MatchLengthAt, Hash, Extend, Represents, TableAfter, Splice, TokenBytes, IsMatch, Value, TokenAt, LittleEndian;
    RepresentsLater(state.hash[..], source, c.src, c.src, C);
    var hash, isMatch, o := Probe(source, c.src, fetch, lits, state, C);
    if isMatch {
      var matchlen := FindMatchLength(source, o, c.src);
      MatchIsToken(source, c.src, C, lits, hash, matchlen);
      RepresentsLater(state.hash[..], source, c.src + 1, c.src + matchlen, TableAfter(source, c.src, C));
      var dst := WriteMatch(hash, matchlen, destination, c.dst);
      c' := Cursor(c.src + matchlen, c.cptr, dst, c.cword / 2 + TOP);
      fetch', lits' := FastRead(source, c'.src, 3), 0;
    } else {
      LiteralIsToken(source, c.src, C, lits);
      RollFetch(source, c.src);
      WriteLiteral(source[c.src], destination, c.dst);
      c' := Cursor(c.src + 1, c.cptr, c.dst + 1, c.cword / 2);
      fetch', lits' := fetch / 256 + 65536 * (source[c'.src + 2] as int), lits + 1;
    }
  }

  /** The state of the main loop: the output so far, and a table and a plan for the rest. */
  ghost predicate Running(s: seq<Byte>, entries: seq<HashEntry>, fetch: nat, lits: nat, c: Cursor, e: Trace, C: Table) {
    && Represents(entries, s, c.src, C)
    && c.src <= |s| && e.rest == Parse(s, c.src, C, lits)
    && (c.src <= LastMatchStart(s) ==> fetch == Fetch(s, c.src))
    && (e.cur == [] ==> c.src == 0)
  }

  method TokenStep(source: seq<Byte>, destination: array<Byte>, base: nat, state: CompressState, fetch: nat,
                   lits: nat, c: Cursor,
                   ghost out0: seq<Byte>, ghost e: Trace, ghost C: Table)
    returns (c': Cursor, fetch': nat, lits': nat, ghost e': Trace, ghost C': Table)
    requires state.hash.Length == HASH_VALUES && Room(source, destination, base)
    requires Building(source, Tokens(source), out0, destination[..], base, c, e)
    requires |e.cur| < GROUP && c.cptr <= base + |source|
    requires Represents(state.hash[..], source, c.src, C) && e.rest == Parse(source, c.src, C, lits)
    requires c.src <= LastMatchStart(source) && fetch == Fetch(source, c.src)
    modifies destination, state.hash
    ensures c'.cptr == c.cptr
    ensures Building(source, Tokens(source), out0, destination[..], base, c', e')
    ensures Running(source, state.hash[..], fetch', lits', c', e', C') && c.src < c'.src
  {
    hide IsMatch, TokenAt, Building, Parse, TokenBytes, Hash;
    ghost var t, out := TokenAt(source, c.src, C, lits), destination[..];
    C' := TableAfter(source, c.src, C);
    ghost var rest := Parse(source, c.src + Covers(t), C', LitsAfter(t, lits));
    e' := Trace(e.done, e.cur + [t], rest);
    BuildingSize(source, Tokens(source), out0, out, base, c, e);
    c', fetch', lits' := EmitNext(source, destination, state, fetch, lits, c, C);
    assert Building(source, Tokens(source), out0, Splice(out, c.dst, TokenBytes(t)), base, c', e') by {
      ParseMore(source, c.src, C, lits);
      BuildToken(source, Tokens(source), out0, out, base, c, e, t, rest);
    }
  }

  /** One round of the main loop; `false` when the compression ratio is too low. */
  method CompressStep(source: seq<Byte>, destination: array<Byte>, base: nat, state: CompressState, fetch: nat,
                      lits: nat, c: Cursor,
                      ghost out0: seq<Byte>, ghost e: Trace, ghost C: Table)
    returns (goOn: bool, c': Cursor, fetch': nat, lits': nat, ghost e': Trace, ghost C': Table)
    requires state.hash.Length == HASH_VALUES && Room(source, destination, base)
    requires Building(source, Tokens(source), out0, destination[..], base, c, e)
    requires Running(source, state.hash[..], fetch, lits, c, e, C)
    requires c.src <= LastMatchStart(source) && c.cptr <= base + |source|
    modifies destination, state.hash
    ensures Building(source, Tokens(source), out0, destination[..], base, c', e')
    ensures c'.cptr <= base + |source|
    ensures if goOn then Running(source, state.hash[..], fetch', lits', c', e', C') && c.src < c'.src
            else GivesUp(source, Tokens(source))
  {
    hide Emitting, Represents, Layout, TokenAt, IsMatch, MatchAt;
    goOn, c', fetch', lits', e', C' := true, c, fetch, lits, e, C;
    BuildingSize(source, Tokens(source), out0, destination[..], base, c, e);
    if c.cword % 2 == 1 {
      goOn, c' := FlushOrGiveUp(source, destination, base, c, Tokens(source), out0, e);
      if !goOn {
        return;
      }
      fetch' := FastRead(source, c.src, 3);
      e' := Trace(e.done + e.cur, [], e.rest);
    }
    c', fetch', lits', e', C' := TokenStep(source, destination, base, state, fetch', lits, c', out0, e', C);
  }

  /** The main loop: everything up to the last position where a match may start. */
  method CompressMain(source: seq<Byte>, destination: array<Byte>, base: nat, state: CompressState)
    returns (gaveUp: bool, c: Cursor, ghost e: Trace)
    requires source != [] && Room(source, destination, base)
    requires state.hash.Length == HASH_VALUES
    requires forall h :: 0 <= h < HASH_VALUES ==> state.hash[h].offset == Null
    modifies destination, state.hash
    ensures Building(source, Tokens(source), old(destination[..]), destination[..], base, c, e)
    ensures gaveUp ==> GivesUp(source, Tokens(source))
    ensures c.dst <= base + |source| + CWORD_LEN + 4 * GROUP
    ensures !gaveUp ==>
              c.src > LastMatchStart(source) && e.rest == Literals(source, c.src) && (e.cur == [] ==> c.src == 0)
  {
    hide Emitting, Parse, Layout;
    ghost var C, out0 := map[], destination[..];
    c, e := Cursor(0, base, base + CWORD_LEN, TOP), Trace([], [], Tokens(source));
    var lits, fetch := 0, 0;
    var lastMatchStart := LastMatchStart(source);
    if c.src <= lastMatchStart {
      fetch := FastRead(source, c.src, 3);
    }
    BuildStart(source, Tokens(source), out0, base);
    while c.src <= lastMatchStart
      invariant Building(source, Tokens(source), out0, destination[..], base, c, e)
      invariant Running(source, state.hash[..], fetch, lits, c, e, C)
      invariant c.cptr <= base + |source|
      decreases |source| - c.src
    {
      var goOn;
      goOn, c, fetch, lits, e, C := CompressStep(source, destination, base, state, fetch, lits, c, out0, e, C);
      BuildingSize(source, Tokens(source), out0, destination[..], base, c, e);
      if !goOn {
        gaveUp := true;
        return;
      }
    }
    TailParse(source, c.src, C, lits);
    BuildingSize(source, Tokens(source), out0, destination[..], base, c, e);
    gaveUp := false;
  }

  /** One literal of the tail. */
  method TailRound(source: seq<Byte>, destination: array<Byte>, base: nat, state: CompressState, c: Cursor,
                   ghost out0: seq<Byte>, ghost e: Trace)
    returns (c': Cursor, ghost e': Trace)
    requires state.hash.Length == HASH_VALUES && Building(source, Tokens(source), out0, destination[..], base, c, e)
    requires LastMatchStart(source) < c.src < |source| && e.rest == Literals(source, c.src)
    requires c.dst + 1 + (if |e.cur| == GROUP then CWORD_LEN else 0) <= destination.Length
    modifies destination, state.hash
    ensures Building(source, Tokens(source), out0, destination[..], base, c', e')
    ensures c'.src == c.src + 1 && e'.rest == Literals(source, c'.src)
    ensures |e.cur| <= GROUP && |e'.cur| == (if |e.cur| == GROUP then 1 else |e.cur| + 1)
    ensures c'.dst == c.dst + 1 + if |e.cur| == GROUP then CWORD_LEN else 0
  {
    hide Building, Layout, Tokens;
    c', e' := TailFlush(source, destination, base, c, Tokens(source), out0, e);
    if c'.src <= |source| - 1 - 3 {
      var fetch := FastRead(source, c'.src, 3);
      state.hash[HashFunc(fetch)] := HashEntry(fetch, At(c'.src));
    }
    c', e' := TailLiteral(source, destination, base, c', Tokens(source), out0, e');
  }

  /** The literal-only tail; it still stores full control words and still hashes, but never gives up. */
  method CompressTail(source: seq<Byte>, destination: array<Byte>, base: nat, state: CompressState, start: Cursor,
                      ghost out0: seq<Byte>, ghost begun: Trace)
    returns (c: Cursor, ghost e: Trace)
    requires state.hash.Length == HASH_VALUES && Room(source, destination, base)
    requires Building(source, Tokens(source), out0, destination[..], base, start, begun)
    requires start.src > LastMatchStart(source) && begun.rest == Literals(source, start.src)
    requires start.dst <= base + |source| + CWORD_LEN + 4 * GROUP
    requires source != [] && (begun.cur == [] ==> start.src == 0)
    modifies destination, state.hash
    ensures Building(source, Tokens(source), out0, destination[..], base, c, e)
    ensures e.rest == [] && e.cur != [] && c.dst <= base + |source| + CORE_OVERHEAD
  {
    hide Building, Layout, Tokens;
    c, e := start, begun;
    var lastByte := |source| - 1;
    BuildingSize(source, Tokens(source), out0, destination[..], base, c, e);
    ghost var flushes := 0;
    while c.src <= lastByte
      invariant Building(source, Tokens(source), out0, destination[..], base, c, e)
      invariant start.src <= c.src <= |source| && e.rest == Literals(source, c.src)
      invariant e.cur == [] ==> c.src == 0
      invariant 0 <= flushes <= 1 && (flushes == 1 ==> |e.cur| <= c.src - start.src)
      invariant c.dst <= base + |source| + CWORD_LEN + 4 * GROUP + (c.src - start.src) + CWORD_LEN * flushes
      decreases |source| - c.src
    {
      ghost var full := |e.cur| == GROUP;
      c, e := TailRound(source, destination, base, state, c, out0, e);
      flushes := if full then flushes + 1 else flushes;
    }
  }

  /**
    `qlz_compress_core`: writes the layout of `Tokens(source)` at `base` and returns its length, at
    least 9; or returns 0 exactly when the ratio check fails somewhere past half way.
   */
  method CompressCore(source: seq<Byte>, destination: array<Byte>, base: nat, state: CompressState) returns (r: nat)
    requires source != [] && Room(source, destination, base)
    requires state.hash.Length == HASH_VALUES
    requires forall h :: 0 <= h < HASH_VALUES ==> state.hash[h].offset == Null
    modifies destination, state.hash
    ensures r == 0 <==> GivesUp(source, Tokens(source))
    ensures r <= |source| + CORE_OVERHEAD
    ensures destination[..base] == old(destination[..base])
    ensures var end := base + |source| + CORE_OVERHEAD; destination[end..] == old(destination[end..])
    ensures var n := |Layout(Tokens(source))|;
            r != 0 ==>
              && n <= r && r == (if n < 9 then 9 else n)
              && destination[base..base + n] == Layout(Tokens(source))
              && destination[base + n..] == old(destination[base + n..])
  {
    hide Layout, Tokens, GivesUp, Literals, GivesUpAt, ControlWord, Progress, Parse;
    ghost var out0 := destination[..];
    var gaveUp, c, e := CompressMain(source, destination, base, state);
    ghost var end := base + |source| + CORE_OVERHEAD;
    if gaveUp {
      SuffixAgrees(destination[..], out0, c.dst, end);
      return 0;
    }
    c, e := CompressTail(source, destination, base, state, c, out0, e);
    Finish(source, destination, base, c, Tokens(source), out0, e);
    SuffixAgrees(destination[..], out0, c.dst, end);
    assert |destination[base..c.dst]| == c.dst - base;
    r := if c.dst - base < 9 then 9 else c.dst - base;
  }
}
