/**
  What the level 1 compressor decides, as a function of the plain bytes alone: `Tokens(s)`.
  And what makes a token list decodable, `Decodes`: the decompressor's own table, which lags behind
  while literals are copied, must lead every match to the right bytes.  `ParseDecodes` connects the two.
 */
module QlzParse {
  import opened Words
  import opened QlzFormat

  /** Slot to the position last hashed into it; an absent slot is a null offset. */
  type Table = map<Slot, nat>

  function Fetch(s: seq<Byte>, i: nat): nat
    requires i + 3 <= |s|
  {
    FastRead(s, i, 3)
  }

  /** `((i >> 12) ^ i) & (QLZ_HASH_VALUES - 1)` */
  function HashFunc(f: nat): (h: Slot) {
    assert Pow2(6) == 64;
    assert Pow2(12) == 4096;
    Xor(Shr(f, 12), f, 12)
  }

  lemma BitIsBit(x: nat, k: nat)
    ensures Bit(x, k) == 0 || Bit(x, k) == 1
  {
  }

  /** Bit `k` of the slot number differs from bit `k` of the three bytes exactly when their bit `k + 12` is set. */
  lemma HashBits(f: nat, k: nat)
    requires k < 12
    ensures HashFunc(f) < 4096
    ensures Bit(HashFunc(f), k) != Bit(f, k) <==> Bit(f, k + 12) == 1
  {
    hide Bit, Xor, Shr;
    XorBit(Shr(f, 12), f, 12, k);
    ShrBit(f, 12, k);
    BitIsBit(f, k);
    BitIsBit(f, k + 12);
  }

  function Hash(s: seq<Byte>, i: nat): Slot
    requires i + 3 <= |s|
  {
    HashFunc(Fetch(s, i))
  }

  /** `same(src, n)`: the `n + 1` bytes at `i` are all equal. */
  predicate Same(s: seq<Byte>, i: nat, n: nat)
    requires i + n < |s|
  {
    forall k :: i <= k <= i + n ==> s[k] == s[i]
  }

  /** Matches start no later than this position. */
  function LastMatchStart(s: seq<Byte>): int {
    |s| - 1 - UNCONDITIONAL_MATCHLEN - UNCOMPRESSED_END
  }

  /** The longest match the compressor may take at `i`: at most 255, and four bytes short of the end. */
  function Remaining(s: seq<Byte>, i: nat): nat
    requires i <= LastMatchStart(s)
  {
    var q := |s| - 1 - UNCOMPRESSED_END - i + 1;
    if q > 255 then 255 else q
  }

  /** How far the suffixes at `o` and `i` agree from their `m`-th byte on, up to `limit`. */
  function Extend(s: seq<Byte>, o: nat, i: nat, m: nat, limit: nat): (r: nat)
    requires o < i && i + limit <= |s| && m <= limit
    ensures m <= r <= limit
    ensures r < limit ==> s[o + r] != s[i + r]
    decreases limit - m
  {
    if m < limit && s[o + m] == s[i + m] then Extend(s, o, i, m + 1, limit) else m
  }

  lemma {:induction false} ExtendEqual(s: seq<Byte>, o: nat, i: nat, m: nat, limit: nat)
    requires o < i && i + limit <= |s| && m <= limit && s[o..o + m] == s[i..i + m]
    ensures var r := Extend(s, o, i, m, limit); s[o..o + r] == s[i..i + r]
    decreases limit - m
  {
    if m < limit && s[o + m] == s[i + m] {
      assert s[o..o + m + 1] == s[o..o + m] + [s[o + m]];
      assert s[i..i + m + 1] == s[i..i + m] + [s[i + m]];
      ExtendEqual(s, o, i, m + 1, limit);
    }
  }

  ghost predicate TableBelow(C: Table, i: nat) {
    forall h :: h in C ==> C[h] < i
  }

  /** The condition under which the compressor emits a match at `i`, `lits` literals after the last match. */
  predicate IsMatch(s: seq<Byte>, i: nat, C: Table, lits: nat)
    requires TableBelow(C, i)
  {
    i <= LastMatchStart(s) &&
    var h := Hash(s, i);
    h in C && Fetch(s, C[h]) == Fetch(s, i) &&
    (i - C[h] > 2 || (i == C[h] + 1 && lits >= 3 && i > 3 && Same(s, i - 3, 6)))
  }

  function CommonLength(s: seq<Byte>, o: nat, i: nat): (len: nat)
    requires o < i <= LastMatchStart(s) && s[o..o + 3] == s[i..i + 3]
    ensures 3 <= len <= Remaining(s, i)
    ensures s[o..o + len] == s[i..i + len]
    ensures len < Remaining(s, i) ==> s[o + len] != s[i + len]
  {
    ExtendEqual(s, o, i, 3, Remaining(s, i));
    Extend(s, o, i, 3, Remaining(s, i))
  }

  function MatchLengthAt(s: seq<Byte>, o: nat, i: nat): (len: nat)
    requires o < i <= LastMatchStart(s) && Fetch(s, o) == Fetch(s, i)
    ensures 3 <= len <= Remaining(s, i)
    ensures s[o..o + len] == s[i..i + len]
    ensures len < Remaining(s, i) ==> s[o + len] != s[i + len]
  {
    ValueInjective(s[o..o + 3], s[i..i + 3]);
    CommonLength(s, o, i)
  }

  function MatchAt(s: seq<Byte>, i: nat, C: Table, lits: nat): (t: Token)
    requires TableBelow(C, i) && IsMatch(s, i, C, lits)
    ensures t.Match?
  {
    var h := Hash(s, i);
    Match(h, MatchLengthAt(s, C[h], i))
  }

  function TokenAt(s: seq<Byte>, i: nat, C: Table, lits: nat): (t: Token)
    requires i < |s| && TableBelow(C, i)
    ensures i + Covers(t) <= |s|
  {
    if IsMatch(s, i, C, lits) then MatchAt(s, i, C, lits) else Literal(s[i])
  }

  function TableAfter(s: seq<Byte>, i: nat, C: Table): (C': Table)
    requires i < |s| && TableBelow(C, i)
    ensures TableBelow(C', i + 1)
  {
    if i <= LastMatchStart(s) then C[Hash(s, i) := i] else C
  }

  function LitsAfter(t: Token, lits: nat): nat {
    if t.Literal? then lits + 1 else 0
  }

  /** The tokens for `s[i..]`. */
  function Parse(s: seq<Byte>, i: nat, C: Table, lits: nat): seq<Token>
    requires i <= |s| && TableBelow(C, i)
    decreases |s| - i
  {
    if i == |s| then []
    else
      var t := TokenAt(s, i, C, lits);
      [t] + Parse(s, i + Covers(t), TableAfter(s, i, C), LitsAfter(t, lits))
  }

  function Tokens(s: seq<Byte>): seq<Token> {
    Parse(s, 0, map[], 0)
  }

  lemma {:induction false} ParseSpan(s: seq<Byte>, i: nat, C: Table, lits: nat)
    requires i <= |s| && TableBelow(C, i)
    ensures Span(Parse(s, i, C, lits)) == |s| - i
    decreases |s| - i
  {
    hide TokenAt, TableAfter;
    if i < |s| {
      var t := TokenAt(s, i, C, lits);
      ParseSpan(s, i + Covers(t), TableAfter(s, i, C), LitsAfter(t, lits));
    }
  }

  lemma TokensSpan(s: seq<Byte>)
    ensures Span(Tokens(s)) == |s|
  {
    ParseSpan(s, 0, map[], 0);
  }

  // ---- when the compressor gives up

  /** At plain position `p` with `d` bytes written: past half way and saving less than 1/32. */
  predicate Poor(size: nat, p: nat, d: nat) {
    p > size / 2 && d > p - p / 32
  }

  /** More than half of the input is read, and the output has saved less than a whole 1/32 of what is read. */
  lemma PoorMeaning(size: nat, p: nat, d: nat)
    ensures Poor(size, p, d) <==> 2 * p > size && 32 * (p - d + 1) <= p
  {
  }

  /** A full control word is flushed before token `c` of the main loop, and the ratio is poor there. */
  ghost predicate GivesUpAt(s: seq<Byte>, ts: seq<Token>, c: int) {
    0 < c < |ts| && c % GROUP == 0 &&
    Span(ts[..c]) <= LastMatchStart(s) &&
    Poor(|s|, Span(ts[..c]), |Layout(ts[..c])|)
  }

  ghost predicate GivesUp(s: seq<Byte>, ts: seq<Token>) {
    exists c :: GivesUpAt(s, ts, c)
  }

  // ---- the decompressor's table

  /** Positions `lh + 1 ..= m` hashed in order: `update_hash_upto`. */
  function HashUpto(s: seq<Byte>, D: Table, lh: int, m: int): Table
    requires -1 <= lh && (lh < m ==> m + 3 <= |s|)
    decreases m - lh
  {
    if lh < m then HashUpto(s, D[Hash(s, lh + 1) := lh + 1], lh + 1, m) else D
  }

  lemma {:induction false} HashUptoCompose(s: seq<Byte>, D: Table, lh: int, a: int, b: int)
    requires -1 <= lh && a <= b && (lh < b ==> b + 3 <= |s|)
    ensures HashUpto(s, HashUpto(s, D, lh, a), if lh < a then a else lh, b) == HashUpto(s, D, lh, b)
    decreases a - lh
  {
    if lh < a {
      HashUptoCompose(s, D[Hash(s, lh + 1) := lh + 1], lh + 1, a, b);
    }
  }

  /** How far the decompressor has hashed when it stands at `i`, `lits` literals after a match. */
  function LastHashed(i: nat, lits: nat): int {
    i - 1 - (if lits < 2 then lits else 2)
  }

  function DecoderTableAfter(s: seq<Byte>, i: nat, D: Table, lits: nat, t: Token): Table
    requires lits <= i && i + Covers(t) <= |s|
  {
    HashUpto(s, D, LastHashed(i, lits), if t.Match? then i else i - 2)
  }

  /** One token, read with table `D` at `i`, stands for the bytes of `s` at `i`. */
  ghost predicate Fits(s: seq<Byte>, i: nat, D: Table, t: Token) {
    && i + Covers(t) <= |s|
    && match t
       case Literal(b) => s[i] == b
       case Match(slot, len) =>
         && i <= LastMatchStart(s)
         && i + len + UNCOMPRESSED_END <= |s|
         && slot in D && D[slot] + 3 <= i
         && s[D[slot]..D[slot] + len] == s[i..i + len]
       case Far(_, _) => false
  }

  /**
    The decompressor, standing at `i` with table `D`, turns the tokens `ts` into `s[i..]`: literals
    carry the right byte; the slot of a match was written during this call, lies at least three
    bytes back, and leads to the right bytes; matches end four bytes before the end.
   */
  ghost predicate Decodes(s: seq<Byte>, i: nat, D: Table, lits: nat, ts: seq<Token>)
    requires lits <= i <= |s|
    decreases |ts|
  {
    if ts == [] then i == |s|
    else
      Fits(s, i, D, ts[0]) &&
      Decodes(s, i + Covers(ts[0]), DecoderTableAfter(s, i, D, lits, ts[0]), LitsAfter(ts[0], lits), ts[1..])
  }

  lemma DecodesMore(s: seq<Byte>, i: nat, D: Table, lits: nat, t: Token, ts: seq<Token>)
    requires lits <= i <= |s| && Fits(s, i, D, t)
    requires Decodes(s, i + Covers(t), DecoderTableAfter(s, i, D, lits, t), LitsAfter(t, lits), ts)
    ensures Decodes(s, i, D, lits, [t] + ts)
  {
    hide HashUpto, Fits;
    assert ([t] + ts)[1..] == ts;
  }

  lemma DecodesLess(s: seq<Byte>, i: nat, D: Table, lits: nat, a: seq<Token>, b: seq<Token>, i': nat)
    requires lits <= i <= |s| && a != [] && Decodes(s, i, D, lits, a + b) && i' == i + Covers(a[0])
    ensures Fits(s, i, D, a[0])
    ensures Decodes(s, i', DecoderTableAfter(s, i, D, lits, a[0]), LitsAfter(a[0], lits), a[1..] + b)
  {
    hide HashUpto, Fits;
    assert (a + b)[1..] == a[1..] + b;
  }

  /** After the main loop of the compressor only literals follow; the decoder's table no longer matters. */
  lemma {:induction false} TailDecodes(s: seq<Byte>, i: nat, C: Table, D: Table, lits: nat)
    requires lits <= i <= |s| && TableBelow(C, i) && i > LastMatchStart(s)
    ensures Decodes(s, i, D, lits, Parse(s, i, C, lits))
    decreases |s| - i
  {
    hide HashUpto, Extend, Hash;
    if i < |s| {
      var t := Literal(s[i]);
      TailDecodes(s, i + 1, C, DecoderTableAfter(s, i, D, lits, t), lits + 1);
      DecodesMore(s, i, D, lits, t, Parse(s, i + 1, C, lits + 1));
    }
  }

  lemma ParseMore(s: seq<Byte>, i: nat, C: Table, lits: nat)
    requires i < |s| && TableBelow(C, i)
    ensures var t := TokenAt(s, i, C, lits);
            Parse(s, i, C, lits) == [t] + Parse(s, i + Covers(t), TableAfter(s, i, C), LitsAfter(t, lits))
  {
  }

  /** The two tables differ by the at most two literals the decompressor has not hashed yet. */
  ghost predicate InStep(s: seq<Byte>, i: nat, C: Table, D: Table, lits: nat)
    requires lits <= i <= |s|
  {
    && i + 2 <= |s|
    && C == HashUpto(s, D, LastHashed(i, lits), i - 1)
    && (lits >= 3 ==> var h := Hash(s, i - 3); h in D && D[h] == i - 3)
  }

  lemma InStepUnfolded(s: seq<Byte>, i: nat, C: Table, D: Table, lits: nat)
    requires lits <= i && i + 3 <= |s| && InStep(s, i, C, D, lits)
    ensures lits == 0 ==> C == D
    ensures lits == 1 ==> C == D[Hash(s, i - 1) := i - 1]
    ensures lits >= 2 ==> C == D[Hash(s, i - 2) := i - 2][Hash(s, i - 1) := i - 1]
  {
    if lits == 1 {
      assert HashUpto(s, D, i - 2, i - 1) == HashUpto(s, D[Hash(s, i - 1) := i - 1], i - 1, i - 1);
    } else if lits >= 2 {
      var D1 := D[Hash(s, i - 2) := i - 2];
      assert HashUpto(s, D, i - 3, i - 1) == HashUpto(s, D1, i - 2, i - 1);
      assert HashUpto(s, D1, i - 2, i - 1) == HashUpto(s, D1[Hash(s, i - 1) := i - 1], i - 1, i - 1);
    }
  }

  /** Hashing one more position at the end. */
  lemma HashUptoNext(s: seq<Byte>, D: Table, lh: int, m: int)
    requires -1 <= lh < m && m + 3 <= |s|
    ensures HashUpto(s, D, lh, m) == HashUpto(s, D, lh, m - 1)[Hash(s, m) := m]
  {
    HashUptoCompose(s, D, lh, m - 1, m);
    var E := HashUpto(s, D, lh, m - 1);
    assert HashUpto(s, E, m - 1, m) == HashUpto(s, E[Hash(s, m) := m], m, m);
  }

  /** A literal keeps the tables in step. */
  lemma LiteralInStep(s: seq<Byte>, i: nat, C: Table, D: Table, lits: nat)
    requires lits <= i <= LastMatchStart(s) && TableBelow(C, i) && InStep(s, i, C, D, lits)
    ensures InStep(s, i + 1, TableAfter(s, i, C), DecoderTableAfter(s, i, D, lits, Literal(s[i])), lits + 1)
  {
    hide Hash, IsMatch;
    InStepUnfolded(s, i, C, D, lits);
    var lh := LastHashed(i, lits);
    var D' := DecoderTableAfter(s, i, D, lits, Literal(s[i]));
    if lits < 2 {
      assert D' == D;
    } else {
      var D1 := D[Hash(s, i - 2) := i - 2];
      assert HashUpto(s, D, lh, i - 2) == HashUpto(s, D1, i - 2, i - 2) == D1;
    }
    HashUptoCompose(s, D, lh, i - 2, i);
    HashUptoNext(s, D, lh, i);
  }

  /** A match brings the decompressor level with the compressor. */
  lemma MatchInStep(s: seq<Byte>, i: nat, C: Table, D: Table, lits: nat, t: Token)
    requires lits <= i <= LastMatchStart(s) && TableBelow(C, i) && InStep(s, i, C, D, lits)
    requires t.Match? && i + t.len + 2 <= |s|
    ensures InStep(s, i + t.len, TableAfter(s, i, C), DecoderTableAfter(s, i, D, lits, t), 0)
  {
    HashUptoNext(s, D, LastHashed(i, lits), i);
  }

  /** A slot the compressor wrote at least three positions back is the decompressor's slot too. */
  lemma FarSlot(s: seq<Byte>, i: nat, C: Table, D: Table, lits: nat, h: Slot)
    requires lits <= i && i + 3 <= |s| && InStep(s, i, C, D, lits)
    requires h in C && C[h] + 3 <= i
    ensures h in D && D[h] == C[h]
  {
    InStepUnfolded(s, i, C, D, lits);
  }

  /** In a run the slot of `i` is the slot of `i - 3`. */
  lemma RunSlot(s: seq<Byte>, i: nat)
    requires 3 <= i && i + 3 < |s| && Same(s, i - 3, 6)
    ensures Hash(s, i) == Hash(s, i - 3)
  {
    assert s[i..i + 3] == s[i - 3..i - 3 + 3] by {
      assert s[i] == s[i - 3] && s[i + 1] == s[i - 3] && s[i + 2] == s[i - 3];
      assert s[i - 2] == s[i - 3] && s[i - 1] == s[i - 3];
    }
  }

  /** In a run of at least three literals the decompressor's slot is three positions back. */
  lemma NearSlot(s: seq<Byte>, i: nat, C: Table, D: Table, lits: nat)
    requires 3 <= lits <= i && i + 3 < |s| && InStep(s, i, C, D, lits)
    requires Same(s, i - 3, 6)
    ensures Hash(s, i) in D && D[Hash(s, i)] == i - 3
  {
    RunSlot(s, i);
  }

  /** The decompressor's slot at a match: the compressor's own position, or three back in the same run. */
  lemma SlotAtMatch(s: seq<Byte>, i: nat, C: Table, D: Table, lits: nat)
    requires lits <= i <= LastMatchStart(s) && TableBelow(C, i) && InStep(s, i, C, D, lits)
    requires IsMatch(s, i, C, lits)
    ensures var h := Hash(s, i);
            h in D && D[h] == (if C[h] == i - 1 then i - 3 else C[h])
  {
    var h := Hash(s, i);
    if C[h] == i - 1 {
      NearSlot(s, i, C, D, lits);
    } else {
      FarSlot(s, i, C, D, lits, h);
    }
  }

  /** A run that the compressor extends from one byte back is constant throughout. */
  lemma {:induction false} RunConstant(s: seq<Byte>, i: nat, len: nat)
    requires 3 <= i && i + len <= |s| && i + 3 < |s| && Same(s, i - 3, 6)
    requires s[i - 1..i - 1 + len] == s[i..i + len]
    ensures forall k :: i - 3 <= k < i + len ==> s[k] == s[i - 3]
    decreases len
  {
    if len > 0 {
      var a, b := s[i - 1..i - 1 + len], s[i..i + len];
      assert s[i - 1..i - 1 + (len - 1)] == a[..len - 1];
      assert s[i..i + (len - 1)] == b[..len - 1];
      RunConstant(s, i, len - 1);
      assert s[i - 1 + len - 1] == a[len - 1] == b[len - 1] == s[i + len - 1];
      assert s[i - 1] == s[i - 3];
    }
  }

  /** So it also continues from three bytes back. */
  lemma RunBytes(s: seq<Byte>, i: nat, len: nat)
    requires 3 <= i && i + len <= |s| && i + 3 < |s| && Same(s, i - 3, 6)
    requires s[i - 1..i - 1 + len] == s[i..i + len]
    ensures s[i - 3..i - 3 + len] == s[i..i + len]
  {
    RunConstant(s, i, len);
  }

  lemma BytesAtMatch(s: seq<Byte>, i: nat, o: nat, p: nat, len: nat)
    requires 3 <= i && i + 3 < |s| && i + len <= |s|
    requires (o + 3 <= i && p == o) || (o == i - 1 && p == i - 3 && Same(s, i - 3, 6))
    requires s[o..o + len] == s[i..i + len]
    ensures s[p..p + len] == s[i..i + len]
  {
    if p != o {
      RunBytes(s, i, len);
    }
  }

  lemma MatchFacts(s: seq<Byte>, i: nat, C: Table, lits: nat, h: Slot, len: MatchLength)
    requires TableBelow(C, i) && IsMatch(s, i, C, lits) && MatchAt(s, i, C, lits) == Match(h, len)
    ensures h == Hash(s, i) && h in C && len <= Remaining(s, i)
    ensures s[C[h]..C[h] + len] == s[i..i + len]
    ensures C[h] + 3 <= i || (C[h] == i - 1 && 3 <= i && Same(s, i - 3, 6))
  {
    hide Extend, Hash;
    assert len == MatchLengthAt(s, C[h], i);
  }

  /**
    Table synchronisation.  Wherever the compressor takes a match, the decompressor's slot was
    written in this call, at least three positions back, and leads to the same bytes: it is the
    compressor's own position, or, in the run case, the position three bytes back in the same run.
   */
  lemma TablesAgreeAtMatch(s: seq<Byte>, i: nat, C: Table, D: Table, lits: nat, h: Slot, len: MatchLength)
    requires lits <= i <= LastMatchStart(s) && TableBelow(C, i) && InStep(s, i, C, D, lits)
    requires IsMatch(s, i, C, lits) && MatchAt(s, i, C, lits) == Match(h, len)
    ensures i + len + UNCOMPRESSED_END <= |s|
    ensures h in C && h in D && D[h] == (if C[h] == i - 1 then i - 3 else C[h])
    ensures D[h] + 3 <= i && s[D[h]..D[h] + len] == s[i..i + len]
  {
    hide InStep, MatchAt, Extend, Hash;
    MatchFacts(s, i, C, lits, h, len);
    SlotAtMatch(s, i, C, D, lits);
    BytesAtMatch(s, i, C[h], D[h], len);
  }

  /** One step of the main loop: the token fits, and the tables stay in step. */
  lemma MainStep(s: seq<Byte>, i: nat, C: Table, D: Table, lits: nat, t: Token)
    requires lits <= i <= LastMatchStart(s) && TableBelow(C, i) && InStep(s, i, C, D, lits)
    requires t == TokenAt(s, i, C, lits)
    ensures Fits(s, i, D, t)
    ensures LitsAfter(t, lits) <= i + Covers(t) && i + Covers(t) + 2 <= |s|
    ensures InStep(s, i + Covers(t), TableAfter(s, i, C), DecoderTableAfter(s, i, D, lits, t), LitsAfter(t, lits))
  {
    hide HashUpto, Parse, Hash, Same, Extend;
    if IsMatch(s, i, C, lits) {
      assert Fits(s, i, D, t) by {
        TablesAgreeAtMatch(s, i, C, D, lits, t.slot, t.len);
      }
      MatchInStep(s, i, C, D, lits, t);
    } else {
      assert Fits(s, i, D, t);
      LiteralInStep(s, i, C, D, lits);
    }
  }

  /** The compressor's tokens are decodable from any position at which the tables are in step. */
  lemma {:induction false} ParseDecodes(s: seq<Byte>, i: nat, C: Table, D: Table, lits: nat)
    requires lits <= i <= |s| && TableBelow(C, i)
    requires i <= LastMatchStart(s) ==> InStep(s, i, C, D, lits)
    ensures Decodes(s, i, D, lits, Parse(s, i, C, lits))
    decreases |s| - i
  {
    hide Parse, Decodes, TokenAt, HashUpto;
    if i > LastMatchStart(s) {
      TailDecodes(s, i, C, D, lits);
    } else {
      var t := TokenAt(s, i, C, lits);
      var i', lits' := i + Covers(t), LitsAfter(t, lits);
      var C', D' := TableAfter(s, i, C), DecoderTableAfter(s, i, D, lits, t);
      var rest := Parse(s, i', C', lits');
      MainStep(s, i, C, D, lits, t);
      assert Decodes(s, i', D', lits', rest) by {
        ParseDecodes(s, i', C', D', lits');
      }
      assert Decodes(s, i, D, lits, [t] + rest) by {
        DecodesMore(s, i, D, lits, t, rest);
      }
      ParseMore(s, i, C, lits);
    }
  }

  lemma TokensDecode(s: seq<Byte>)
    ensures Decodes(s, 0, map[], 0, Tokens(s))
  {
    ParseDecodes(s, 0, map[], map[], 0);
  }
}
