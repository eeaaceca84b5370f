/**
  The level 3 decompressor of components/quicklz/source/quicklz.c, without a hash table: a match
  brings its own distance.
 */
module QlzLevel3Decompress {
  import opened Slices
  import opened Words
  import opened QlzFormat
  import opened QlzParse
  import opened QlzDecompress
  import opened QlzLevel3

  /** What is still to be read: the open group, the groups behind it, and where the sentinel stands. */
  datatype Ahead = Ahead(open: seq<Token>, later: seq<Token>, p: nat)

  ghost predicate SyncedFar(s: seq<Byte>, source: seq<Byte>, end: nat, src: nat, dst: nat, cword: nat, v: Ahead) {
    && dst <= |s|
    && DecodesFar(s, dst, v.open + v.later)
    && StreamAt(source, src, end, cword, v.open, v.later, v.p)
  }

  lemma FarLess(s: seq<Byte>, i: nat, a: seq<Token>, b: seq<Token>)
    requires i <= |s| && a != [] && DecodesFar(s, i, a + b)
    ensures FitsFar(s, i, a[0]) && DecodesFar(s, i + Covers(a[0]), a[1..] + b)
  {
    hide FitsFar;
    assert (a + b)[1..] == a[1..] + b;
  }

  lemma MoreAhead(s: seq<Byte>, source: seq<Byte>, end: nat, src: nat, dst: nat, cword: nat, v: Ahead)
    requires SyncedFar(s, source, end, src, dst, cword, v)
    ensures src <= end <= |source|
    ensures dst < |s| ==> v.open + v.later != [] && (cword == 1 <==> v.open == []) && (v.open == [] ==> v.p == 0)
  {
  }

  lemma RefillFar(s: seq<Byte>, source: seq<Byte>, end: nat, src: nat, dst: nat, cword: nat,
                  v: Ahead) returns (v': Ahead)
    requires SyncedFar(s, source, end, src, dst, cword, v) && dst < |s| && cword == 1
    ensures src + CWORD_LEN <= end && v'.open != []
    ensures SyncedFar(s, source, end, src + CWORD_LEN, dst, FastRead(source, src, CWORD_LEN), v')
    ensures FastRead(source, src, CWORD_LEN) == Flags(v'.open) + TOP
  {
    hide Flags, Payload, Layout, DecodesFar;
    MoreAhead(s, source, end, src, dst, cword, v);
    var k := GroupSize(v.later);
    assert v.open + v.later == v.later == v.later[..k] + v.later[k..];
    Refill(source, src, end, cword, v.later);
    v' := Ahead(v.later[..k], v.later[k..], GROUP);
  }

  /** Reading one token, up to `src'` and `dst'`. */
  lemma TokenFar(s: seq<Byte>, source: seq<Byte>, end: nat, src: nat, dst: nat, cword: nat,
                 v: Ahead) returns (v': Ahead)
    requires SyncedFar(s, source, end, src, dst, cword, v) && v.open != []
    ensures var t := v.open[0];
            var src', dst' := src + |TokenBytes(t)|, dst + Covers(t);
            && FitsFar(s, dst, t) && v.p > 0 && v' == Ahead(v.open[1..], v.later, v.p - 1)
            && src' <= end && source[src..src'] == TokenBytes(t) && cword % 2 == FlagBit(t)
            && SyncedFar(s, source, end, src', dst', cword / 2, v')
  {
    hide DecodesFar, StreamAt, TokenBytes, FitsFar;
    FarLess(s, dst, v.open, v.later);
    FitsCovers(s, dst, v.open[0]);
    TakeToken(source, src, end, cword, v.open, v.later, v.p, src + |TokenBytes(v.open[0])|);
    v' := Ahead(v.open[1..], v.later, v.p - 1);
  }

  /** At least four payload bytes are left, unless fewer plain bytes are. */
  lemma {:induction false} PayloadRoomFar(s: seq<Byte>, i: nat, ts: seq<Token>)
    requires i <= |s| && DecodesFar(s, i, ts)
    ensures |Payload(ts)| >= (if |s| - i < 4 then |s| - i else 4)
    decreases |ts|
  {
    hide TokenBytes;
    if ts != [] {
      PayloadRoomFar(s, i + Covers(ts[0]), ts[1..]);
    }
  }

  lemma SourceRoomFar(s: seq<Byte>, source: seq<Byte>, end: nat, src: nat, dst: nat, cword: nat, v: Ahead)
    requires SyncedFar(s, source, end, src, dst, cword, v)
    ensures end - src >= (if |s| - dst < 4 then |s| - dst else 4)
  {
    PayloadRoomFar(s, dst, v.open + v.later);
    PayloadAppend(v.open, v.later);
    LayoutLength(v.later);
    assert |source[src..end]| == |Payload(v.open)| + |Layout(v.later)|;
  }

  /** A clear control bit: the byte at `src` is the next plain byte. */
  lemma LiteralFar(s: seq<Byte>, source: seq<Byte>, end: nat, src: nat, dst: nat, cword: nat,
                   v: Ahead) returns (v': Ahead)
    requires SyncedFar(s, source, end, src, dst, cword, v) && v.open != []
    requires cword % 2 == 0 || LastMatchStart(s) < dst
    ensures dst < |s| && src < end && source[src] == s[dst] && cword % 2 == 0
    ensures v' == Ahead(v.open[1..], v.later, v.p - 1) && SyncedFar(s, source, end, src + 1, dst + 1, cword / 2, v')
  {
    hide DecodesFar, StreamAt;
    MoreAhead(s, source, end, src, dst, cword, v);
    v' := TokenFar(s, source, end, src, dst, cword, v);
    assert v.open[0].Literal?;
    assert source[src..src + 1][0] == source[src];
  }

  lemma BitsLeft(w: nat, n: nat)
    requires LowBitsClear(w, n) && n > 0
    ensures w % 2 == 0 && LowBitsClear(w / 2, n - 1) && Shr(w, n) == Shr(w / 2, n - 1)
    ensures n > 1 ==> w / 2 != 1
  {
  }

  /** `n` clear control bits: the next `n` bytes are the next plain bytes. */
  lemma {:induction false} LiteralRunFar(s: seq<Byte>, source: seq<Byte>, end: nat, src: nat, dst: nat, cword: nat,
                                         v: Ahead, n: nat)
    returns (v': Ahead)
    requires SyncedFar(s, source, end, src, dst, cword, v) && (n > 0 ==> v.open != [])
    requires LowBitsClear(cword, n) && dst + n < |s|
    ensures src + n <= end <= |source| && source[src..src + n] == s[dst..dst + n]
    ensures SyncedFar(s, source, end, src + n, dst + n, Shr(cword, n), v')
    decreases n
  {
    hide SyncedFar;
    MoreAhead(s, source, end, src, dst, cword, v);
    if n == 0 {
      v' := v;
    } else {
      var v1 := LiteralFar(s, source, end, src, dst, cword, v);
      MoreAhead(s, source, end, src + 1, dst + 1, cword / 2, v1);
      BitsLeft(cword, n);
      v' := LiteralRunFar(s, source, end, src + 1, dst + 1, cword / 2, v1, n - 1);
      OneMoreByte(source, src, s, dst, n);
    }
  }

  // ---- the decompressor

  datatype Heads = Heads(src: nat, dst: nat, cword: nat)

  datatype Round = Refused | Again(r: Heads) | Done

  /** What the guards keep for every input. */
  ghost predicate SafeFar(size: nat, dst: nat) {
    dst == 0 || dst + UNCOMPRESSED_END <= size
  }

  /** The output so far and the stream still to come belong to `s`. */
  ghost predicate FollowsFar(s: seq<Byte>, source: seq<Byte>, end: nat, dest: seq<Byte>, r: Heads, v: Ahead) {
    SyncedFar(s, source, end, r.src, r.dst, r.cword, v) && r.dst <= |dest| && dest[..r.dst] == s[..r.dst]
  }

  ghost predicate OnTrackFar(s: seq<Byte>, source: seq<Byte>, start: nat, end: nat, limit: int, dest: seq<Byte>,
                             size: nat, r: Heads, v: Ahead) {
    && FollowsFar(s, source, end, dest, r, v)
    && |s| == size && r.dst < size && end <= limit <= |source| && start + 9 <= limit
    && (r.dst == 0 ==> r.src == start && r.cword == 1)
  }

  /** A match token, with its two guards. */
  method CopyFar(source: seq<Byte>, destination: array<Byte>, size: nat, r: Heads, fetch: nat)
    returns (ok: bool, r': Heads)
    requires size <= destination.Length && size < TWO32 && SafeFar(size, r.dst)
    modifies destination
    ensures var offset2, len := r.dst - OffsetField(fetch), LengthField(fetch);
            && (ok <==> Allowed(size, r.dst, offset2, len))
            && (ok ==>
                 && r' == Heads(r.src + WidthField(fetch), r.dst + len, r.cword / 2) && SafeFar(size, r'.dst)
                 && destination[offset2..offset2 + len] == destination[r.dst..r.dst + len]
                 && destination[..r.dst] == old(destination[..r.dst]))
    ensures destination[size..] == old(destination[size..])
  {
    hide OffsetField, LengthField;
    var offset, matchlen := OffsetField(fetch), LengthField(fetch);
    var offset2 := r.dst - offset;
    if offset2 < 0 || offset2 > r.dst - 3 {
      return false, r;
    }
    if matchlen > Ui32(size - 1 - r.dst - UNCOMPRESSED_END + 1) {
      return false, r;
    }
    ghost var dest := destination[..];
    MemcpyUp(destination, r.dst, offset2, matchlen);
    SuffixAgrees(dest, destination[..], r.dst + matchlen, size);
    return true, Heads(r.src + WidthField(fetch), r.dst + matchlen, r.cword / 2);
  }

  lemma FarPasses(s: seq<Byte>, source: seq<Byte>, end: nat, dest: seq<Byte>, r: Heads, v: Ahead, fetch: nat)
    requires FollowsFar(s, source, end, dest, r, v) && v.open != [] && r.cword % 2 == 1
    requires r.src + 4 <= |source| && fetch == FastRead(source, r.src, 4) && |s| < TWO32
    ensures var t := v.open[0];
            && FitsFar(s, r.dst, t) && t.Far?
            && t.offset == OffsetField(fetch) && t.len == LengthField(fetch) && |TokenBytes(t)| == WidthField(fetch)
            && Allowed(|s|, r.dst, r.dst - t.offset, t.len)
  {
    hide DecodesFar, StreamAt, TokenBytes, OffsetField, LengthField, WidthField;
    var v' := TokenFar(s, source, end, r.src, r.dst, r.cword, v);
    FarFields(source, r.src, v.open[0]);
  }

  lemma FarFollows(s: seq<Byte>, source: seq<Byte>, end: nat, dest: seq<Byte>, r: Heads, v: Ahead, dest': seq<Byte>,
                   r': Heads)
    returns (v': Ahead)
    requires FollowsFar(s, source, end, dest, r, v) && v.open != [] && v.open[0].Far? && FitsFar(s, r.dst, v.open[0])
    requires var t := v.open[0];
             && |dest'| == |dest| && r.dst + t.len <= |dest'| && dest'[..r.dst] == dest[..r.dst]
             && dest'[r.dst - t.offset..r.dst - t.offset + t.len] == dest'[r.dst..r.dst + t.len]
             && r' == Heads(r.src + |TokenBytes(t)|, r.dst + t.len, r.cword / 2)
    ensures FollowsFar(s, source, end, dest', r', v')
  {
    hide DecodesFar, StreamAt, TokenBytes;
    v' := TokenFar(s, source, end, r.src, r.dst, r.cword, v);
    OverlapCopy(s, dest', r.dst - v.open[0].offset, r.dst, v.open[0].len);
  }

  method MatchStep3(source: seq<Byte>, destination: array<Byte>, size: nat, r: Heads, fetch: nat,
                    ghost own: bool, ghost s: seq<Byte>, ghost end: nat, ghost v: Ahead)
    returns (o: Round, ghost v': Ahead)
    requires size <= destination.Length && size < TWO32 && SafeFar(size, r.dst) && r.dst <= size
    requires r.src + 4 <= |source| && fetch == FastRead(source, r.src, 4) && r.cword % 2 == 1
    requires own ==> FollowsFar(s, source, end, destination[..], r, v) && v.open != [] && |s| == size
    modifies destination
    ensures destination[size..] == old(destination[size..])
    ensures !o.Done? && (own ==> o.Again?)
    ensures o.Again? ==> SafeFar(size, o.r.dst) && r.src < o.r.src <= |source| && o.r.dst <= size
    ensures own ==> r.dst < o.r.dst && FollowsFar(s, source, end, destination[..], o.r, v')
  {
    hide FollowsFar, TokenBytes, OffsetField, LengthField, WidthField;
    ghost var dest := destination[..];
    v' := v;
    if own {
      FarPasses(s, source, end, dest, r, v, fetch);
    }
    var ok, r' := CopyFar(source, destination, size, r, fetch);
    if !ok {
      return Refused, v;
    }
    if own {
      v' := FarFollows(s, source, end, dest, r, v, destination[..], r');
    }
    o := Again(r');
  }

  /** Four bytes copied, as many kept as there are literals in a row. */
  method LiteralsStep3(source: seq<Byte>, destination: array<Byte>, size: nat, r: Heads,
                       ghost own: bool, ghost s: seq<Byte>, ghost end: nat, ghost v: Ahead)
    returns (r': Heads, ghost v': Ahead)
    requires size <= destination.Length && r.src + 4 <= |source|
    requires r.dst + UNCONDITIONAL_MATCHLEN + UNCOMPRESSED_END + 1 < size
    requires r.cword % 2 == 0
    requires own ==> FollowsFar(s, source, end, destination[..], r, v) && v.open != [] && |s| == size
    modifies destination
    ensures destination[size..] == old(destination[size..])
    ensures r.src < r'.src <= |source| && r.dst < r'.dst <= r.dst + 4
    ensures own ==> FollowsFar(s, source, end, destination[..], r', v')
  {
    hide SyncedFar, LowBitsClear, Shr;
    BitlutCounts(r.cword);
    var n := BITLUT[r.cword % 16];
    ghost var dest := destination[..];
    v' := v;
    CopyFour(source, r.src, destination, r.dst);
    SuffixAgrees(dest, destination[..], r.dst + 4, size);
    r' := Heads(r.src + n, r.dst + n, Shr(r.cword, n));
    if own {
      v' := LiteralRunFar(s, source, end, r.src, r.dst, r.cword, v, n);
      FirstOfFour(destination[..], r.dst, source, r.src, n);
      JoinPrefix(destination[..], s, r.dst, r.dst + n);
    }
  }

  /** In the literal-only end a refilled control word announces literals only, so it need not be read. */
  lemma {:induction false} TailFlagsFar(s: seq<Byte>, i: nat, a: seq<Token>, b: seq<Token>)
    requires LastMatchStart(s) < i <= |s| && DecodesFar(s, i, a + b)
    ensures Flags(a) == 0
    decreases |a|
  {
    if a != [] {
      FarLess(s, i, a, b);
      TailFlagsFar(s, i + 1, a[1..], b);
    }
  }

  lemma TailRefillFar(s: seq<Byte>, source: seq<Byte>, end: nat, src: nat, dst: nat, cword: nat,
                      v: Ahead) returns (v': Ahead)
    requires SyncedFar(s, source, end, src, dst, cword, v) && LastMatchStart(s) < dst < |s| && cword == 1
    ensures src + CWORD_LEN <= end && v'.open != [] && SyncedFar(s, source, end, src + CWORD_LEN, dst, TOP, v')
  {
    hide DecodesFar, StreamAt, Flags;
    v' := RefillFar(s, source, end, src, dst, cword, v);
    TailFlagsFar(s, dst, v'.open, v'.later);
  }

  /** The closing loop. */
  method CopyTail3(source: seq<Byte>, destination: array<Byte>, size: nat, r: Heads, lastSourceByte: int,
                   ghost own: bool, ghost s: seq<Byte>, ghost end: nat, ghost v: Ahead)
    returns (ok: bool)
    requires size <= destination.Length && r.dst <= size && lastSourceByte < |source| && r.cword % 2 == 0
    requires own ==>
               && FollowsFar(s, source, end, destination[..], r, v) && v.open != []
               && |s| == size && LastMatchStart(s) <= r.dst < |s| && end <= lastSourceByte + 1
    modifies destination
    ensures destination[size..] == old(destination[size..])
    ensures own ==> ok && destination[..size] == s
  {
    hide SyncedFar;
    var src: nat, dst: nat, cword: nat := r.src, r.dst, r.cword;
    ghost var w := v;
    while dst <= size - 1
      invariant r.dst <= dst <= size
      invariant destination[size..] == old(destination[size..])
      invariant own ==> SyncedFar(s, source, end, src, dst, cword, w) && destination[..dst] == s[..dst]
      invariant own ==> LastMatchStart(s) < dst || (dst < |s| && cword % 2 == 0)
    {
      if own {
        MoreAhead(s, source, end, src, dst, cword, w);
      }
      if cword == 1 {
        if own {
          w := TailRefillFar(s, source, end, src, dst, cword, w);
        }
        src := src + CWORD_LEN;
        cword := TOP;
      }
      if own {
        w := LiteralFar(s, source, end, src, dst, cword, w);
      }
      if src >= lastSourceByte + 1 {
        return false;
      }
      destination[dst] := source[src];
      assert destination[..dst + 1] == destination[..dst] + [destination[dst]];
      assert own ==> s[..dst + 1] == s[..dst] + [s[dst]];
      dst := dst + 1;
      src := src + 1;
      cword := cword / 2;
    }
    assert own ==> s[..size] == s;
    return true;
  }

  /** Refills the control word when only the sentinel is left. */
  method RefillWord3(source: seq<Byte>, r: Heads, lastSourceByte: int,
                     ghost own: bool, ghost s: seq<Byte>, ghost start: nat, ghost end: nat, ghost dest: seq<Byte>,
                     ghost size: nat, ghost v: Ahead)
    returns (ok: bool, r': Heads, ghost v': Ahead)
    requires lastSourceByte < |source| && r.src <= |source|
    requires own ==> OnTrackFar(s, source, start, end, lastSourceByte + 1, dest, size, r, v)
    ensures ok ==> r.src <= r'.src <= |source| && r'.dst == r.dst
    ensures own ==>
              && ok && v'.open != [] && FollowsFar(s, source, end, dest, r', v')
              && (r.dst == 0 ==> r'.src == start + CWORD_LEN)
  {
    hide SyncedFar;
    v', r' := v, r;
    if own {
      MoreAhead(s, source, end, r.src, r.dst, r.cword, v);
    }
    if r.cword == 1 {
      if own {
        v' := RefillFar(s, source, end, r.src, r.dst, r.cword, v);
      }
      if r.src + CWORD_LEN - 1 > lastSourceByte {
        return false, r, v;
      }
      r' := Heads(r.src + CWORD_LEN, r.dst, FastRead(source, r.src, CWORD_LEN));
    }
    ok := true;
  }

  /** One round of the decoding loop. */
  method DecodeStep3(source: seq<Byte>, destination: array<Byte>, size: nat, r: Heads, lastSourceByte: int,
                     ghost own: bool, ghost s: seq<Byte>, ghost start: nat, ghost end: nat, ghost v: Ahead)
    returns (o: Round, ghost v': Ahead)
    requires size <= destination.Length && size < TWO32 && SafeFar(size, r.dst)
    requires lastSourceByte < |source| && r.src <= |source| && r.dst <= size
    requires own ==> OnTrackFar(s, source, start, end, lastSourceByte + 1, destination[..], size, r, v)
    modifies destination
    ensures destination[size..] == old(destination[size..])
    ensures o.Again? ==> SafeFar(size, o.r.dst) && r.src < o.r.src <= |source| && o.r.dst <= size
    ensures own ==> !o.Refused?
    ensures own && o.Again? ==> OnTrackFar(s, source, start, end, lastSourceByte + 1, destination[..], size, o.r, v')
    ensures own && o.Done? ==> destination[..size] == s
  {
    hide SyncedFar;
    var ok, c;
    ok, c, v' := RefillWord3(source, r, lastSourceByte, own, s, start, end, destination[..], size, v);
    if !ok {
      return Refused, v';
    }
    if own {
      SourceRoomFar(s, source, end, c.src, c.dst, c.cword, v');
      MoreAhead(s, source, end, c.src, c.dst, c.cword, v');
    }
    if c.src + 4 - 1 > lastSourceByte {
      return Refused, v';
    }
    if c.cword % 2 == 1 {
      var fetch := FastRead(source, c.src, 4);
      o, v' := MatchStep3(source, destination, size, c, fetch, own, s, end, v');
    } else if c.dst < size - 1 - UNCONDITIONAL_MATCHLEN - UNCOMPRESSED_END {
      var c';
      c', v' := LiteralsStep3(source, destination, size, c, own, s, end, v');
      o := Again(c');
    } else {
      ok := CopyTail3(source, destination, size, c, lastSourceByte, own, s, end, v');
      o := if ok then Done else Refused;
    }
  }

  /**
    `source` holds, after its header, the layout of level 3 tokens that decode to `s`, padded to at
    least nine bytes.
   */
  ghost predicate EncodedFar(source: seq<Byte>, s: seq<Byte>, ts: seq<Token>) {
    && HeaderReadable(source) && s != [] && DecodesFar(s, 0, ts)
    && var start, n := SizeHeader(source), |Layout(ts)|;
       && start + n <= SizeCompressed(source) <= |source| && start + 9 <= SizeCompressed(source)
       && source[start..start + n] == Layout(ts)
  }

  lemma StartFar(source: seq<Byte>, s: seq<Byte>, ts: seq<Token>, dest: seq<Byte>)
    requires EncodedFar(source, s, ts)
    ensures var start := SizeHeader(source);
            FollowsFar(s, source, start + |Layout(ts)|, dest, Heads(start, 0, 1), Ahead([], ts, 0))
  {
    hide DecodesFar;
    var l := Layout(ts);
    assert [] + l == l && [] + ts == ts;
    assert Payload([]) == [] && Flags([]) == 0 && Pow2(0) == 1;
  }

  /**
    `qlz_decompress_core` at level 3: it stops for every source readable up to its claimed length, and
    on an encoder's stream no guard fires and the output is the plain bytes.
   */
  method DecompressCore3(source: seq<Byte>, destination: array<Byte>, size: nat, ghost s: seq<Byte>,
                         ghost ts: seq<Token>) returns (r: nat)
    requires HeaderReadable(source) && SizeCompressed(source) <= |source|
    requires size <= destination.Length && size < TWO32
    modifies destination
    ensures r == 0 || r == size
    ensures destination[size..] == old(destination[size..])
    ensures EncodedFar(source, s, ts) && |s| == size ==> r == size && destination[..size] == s
  {
    hide FollowsFar, DecodesFar, Layout;
    var lastSourceByte := SizeCompressed(source) - 1;
    ghost var own := EncodedFar(source, s, ts) && |s| == size;
    ghost var start, end := SizeHeader(source), SizeHeader(source) + |Layout(ts)|;
    var c := Heads(SizeHeader(source), 0, 1);
    ghost var v := Ahead([], ts, 0);
    if own {
      StartFar(source, s, ts, destination[..]);
    }
    while true
      invariant destination[size..] == old(destination[size..])
      invariant SafeFar(size, c.dst) && c.src <= |source| && c.dst <= size
      invariant own ==> OnTrackFar(s, source, start, end, lastSourceByte + 1, destination[..], size, c, v)
      decreases |source| - c.src
    {
      var o;
      o, v := DecodeStep3(source, destination, size, c, lastSourceByte, own, s, start, end, v);
      match o {
        case Refused => return 0;
        case Done => return size;
        case Again(c') => c := c';
      }
    }
  }
}
