/**
  The packed form of one input, byte for byte: "abc" ten times.  It ties the format's numbers, the hash
  above all, to the bytes that other builds of the library exchange.
 */
module QlzSample {
  import opened Words
  import opened QlzFormat
  import opened QlzParse
  import opened QlzCompress
  import opened QlzOutput
  import opened QlzPacked
  import opened Quicklz

  ghost predicate TenTimesAbc(s: seq<Byte>) {
    && |s| == 30 && s[0] == 0x61 && s[1] == 0x62 && s[2] == 0x63
    && forall k :: 3 <= k < 30 ==> s[k] == s[k - 3]
  }

  lemma FetchOf(s: seq<Byte>, i: nat)
    requires i + 3 <= |s|
    ensures Fetch(s, i) == (s[i] as int) + 256 * (s[i + 1] as int) + 65536 * (s[i + 2] as int)
  {
    ValueOfThree(s[i..i + 3]);
  }

  /** Four bits of an exclusive or. */
  predicate FourBits(a: nat, b: nat, c: nat) {
    && c % 2 == (a % 2 + b % 2) % 2 && c / 2 % 2 == (a / 2 % 2 + b / 2 % 2) % 2
    && c / 4 % 2 == (a / 4 % 2 + b / 4 % 2) % 2 && c / 8 % 2 == (a / 8 % 2 + b / 8 % 2) % 2
  }

  lemma XorOne(a: nat, b: nat, c: nat, n: nat, a': nat, b': nat, c': nat)
    requires a' == a / 2 && b' == b / 2 && c' == c / 2
    requires c % 2 == (a % 2 + b % 2) % 2 && Xor(a', b', n) == c'
    ensures Xor(a, b, n + 1) == c
  {
  }

  lemma Halves(c: nat, c1: nat, c2: nat, c3: nat)
    requires c1 == c / 2 && c2 == c / 4 && c3 == c / 8
    ensures c1 / 2 == c2 && c2 / 2 == c3 && c3 / 2 == c / 16
  {
  }

  lemma XorFour(a: nat, b: nat, c: nat, n: nat)
    requires FourBits(a, b, c) && Xor(a / 16, b / 16, n) == c / 16
    ensures Xor(a, b, n + 4) == c
  {
    hide Xor;
    var a1, a2, a3 := a / 2, a / 4, a / 8;
    var b1, b2, b3 := b / 2, b / 4, b / 8;
    var c1, c2, c3 := c / 2, c / 4, c / 8;
    Halves(a, a1, a2, a3);
    Halves(b, b1, b2, b3);
    Halves(c, c1, c2, c3);
    assert c1 % 2 == (a1 % 2 + b1 % 2) % 2 && c2 % 2 == (a2 % 2 + b2 % 2) % 2 && c3 % 2 == (a3 % 2 + b3 % 2) % 2;
    hide FourBits;
    XorOne(a3, b3, c3, n, a / 16, b / 16, c / 16);
    XorOne(a2, b2, c2, n + 1, a3, b3, c3);
    XorOne(a1, b1, c1, n + 2, a2, b2, c2);
    XorOne(a, b, c, n + 3, a1, b1, c1);
  }

  lemma XorNone(a: nat, b: nat)
    ensures Xor(a, b, 0) == 0
  {
  }

  lemma Shifts()
    ensures Shr(0x636261, 12) == 0x636 && Shr(0x616362, 12) == 0x616 && Shr(0x626163, 12) == 0x626
  {
  }

  lemma HashIs(f: nat, high: nat, h: nat)
    requires high == Shr(f, 12) && h < 4096 && FourBits(high, f, h)
    requires FourBits(high / 16, f / 16, h / 16) && FourBits(high / 256, f / 256, h / 256)
    ensures HashFunc(f) == h
  {
    hide Xor, FourBits;
    XorNone(high / 4096, f / 4096);
    XorFour(high / 256, f / 256, h / 256, 0);
    XorFour(high / 16, f / 16, h / 16, 4);
    XorFour(high, f, h, 8);
  }

  lemma AbcHash(f: nat)
    requires f == 0x636261
    ensures HashFunc(f) == 0x457
  {
    Shifts();
    hide HashFunc, Shr;
    HashIs(f, 0x636, 0x457);
  }

  lemma BcaHash(f: nat)
    requires f == 0x616362
    ensures HashFunc(f) == 0x574
  {
    Shifts();
    hide HashFunc, Shr;
    HashIs(f, 0x616, 0x574);
  }

  lemma CabHash(f: nat)
    requires f == 0x626163
    ensures HashFunc(f) == 0x745
  {
    Shifts();
    hide HashFunc, Shr;
    HashIs(f, 0x626, 0x745);
  }

  lemma SampleSlots(s: seq<Byte>)
    requires TenTimesAbc(s)
    ensures Hash(s, 0) == Hash(s, 3) == 0x457 && Hash(s, 1) == 0x574 && Hash(s, 2) == 0x745
    ensures Fetch(s, 0) == Fetch(s, 3)
  {
    hide HashFunc, Fetch;
    FetchOf(s, 0);
    FetchOf(s, 1);
    FetchOf(s, 2);
    FetchOf(s, 3);
    AbcHash(Fetch(s, 0));
    BcaHash(Fetch(s, 1));
    CabHash(Fetch(s, 2));
  }

  /** From position 3 on the match reaches as far as it may, four bytes short of the end. */
  lemma SampleLength(s: seq<Byte>)
    requires TenTimesAbc(s) && Fetch(s, 0) == Fetch(s, 3)
    ensures MatchLengthAt(s, 0, 3) == 23
  {
    var len := MatchLengthAt(s, 0, 3);
    assert 3 + len < 30 ==> s[3 + len] == s[len];
  }

  lemma SampleTail(s: seq<Byte>)
    requires TenTimesAbc(s)
    ensures Literals(s, 26) == [Literal(0x63), Literal(0x61), Literal(0x62), Literal(0x63)]
  {
    assert s[26] == s[23] == s[20] == s[17] == s[14] == s[11] == s[8] == s[5] == s[2];
    assert s[27] == s[24] == s[21] == s[18] == s[15] == s[12] == s[9] == s[6] == s[3] == s[0];
    assert s[28] == s[25] == s[22] == s[19] == s[16] == s[13] == s[10] == s[7] == s[4] == s[1];
    assert s[29] == s[26];
    assert Literals(s, 29) == [Literal(s[29])] + Literals(s, 30);
    assert Literals(s, 28) == [Literal(s[28])] + Literals(s, 29);
    assert Literals(s, 27) == [Literal(s[27])] + Literals(s, 28);
  }

  /** An empty slot makes a literal. */
  lemma LiteralStep(s: seq<Byte>, i: nat, C: Table, lits: nat, h: Slot)
    requires i <= LastMatchStart(s) && TableBelow(C, i) && h == Hash(s, i) && h !in C
    ensures TableBelow(C[h := i], i + 1)
    ensures Parse(s, i, C, lits) == [Literal(s[i])] + Parse(s, i + 1, C[h := i], lits + 1)
  {
  }

  /** A slot that leads three or more bytes back, to the same three, makes a match. */
  lemma MatchStep(s: seq<Byte>, i: nat, C: Table, lits: nat, h: Slot, o: nat)
    requires i <= LastMatchStart(s) && TableBelow(C, i) && h == Hash(s, i) && h in C && C[h] == o
    requires Fetch(s, o) == Fetch(s, i) && o + 2 < i
    ensures var len := MatchLengthAt(s, o, i);
            && TableBelow(C[h := i], i + len)
            && Parse(s, i, C, lits) == [Match(h, len)] + Parse(s, i + len, C[h := i], 0)
  {
    hide MatchLengthAt;
  }

  lemma Joined<T>(a: T, b: T, c: T, d: T, rest: seq<T>)
    requires |rest| == 4
    ensures [a] + ([b] + ([c] + ([d] + rest))) == [a, b, c, d, rest[0], rest[1], rest[2], rest[3]]
  {
  }

  lemma SampleFacts(s: seq<Byte>)
    requires TenTimesAbc(s)
    ensures |s| == 30 && LastMatchStart(s) == 19 && s[0] == 0x61 && s[1] == 0x62 && s[2] == 0x63
    ensures TableBelow(map[], 0) && Tokens(s) == Parse(s, 0, map[], 0)
  {
  }

  lemma SampleStart(s: seq<Byte>, C: Table)
    requires TenTimesAbc(s) && C == map[0x457 := 0, 0x574 := 1, 0x745 := 2]
    ensures TableBelow(C, 3)
    ensures Tokens(s) == [Literal(s[0])] + ([Literal(s[1])] + ([Literal(s[2])] + Parse(s, 3, C, 3)))
  {
    hide *;
    SampleFacts(s);
    SampleSlots(s);
    var C0: Table := map[];
    var C1: Table := C0[0x457 := 0];
    var C2: Table := C1[0x574 := 1];
    LiteralStep(s, 0, C0, 0, 0x457);
    LiteralStep(s, 1, C1, 1, 0x574);
    LiteralStep(s, 2, C2, 2, 0x745);
    assert C == C2[0x745 := 2];
  }

  lemma SampleTokens(s: seq<Byte>)
    requires TenTimesAbc(s)
    ensures Tokens(s) == [Literal(0x61), Literal(0x62), Literal(0x63), Match(0x457, 23),
                          Literal(0x63), Literal(0x61), Literal(0x62), Literal(0x63)]
  {
    hide *;
    SampleFacts(s);
    SampleSlots(s);
    SampleLength(s);
    SampleTail(s);
    var C: Table := map[0x457 := 0, 0x574 := 1, 0x745 := 2];
    SampleStart(s, C);
    MatchStep(s, 3, C, 3, 0x457, 0);
    TailParse(s, 26, C[0x457 := 3], 0);
    Joined(Literal(s[0]), Literal(s[1]), Literal(s[2]), Match(0x457, 23), Literals(s, 26));
  }

  // ---- the bytes

  /** The stream: the control word, three literals, the match, four literals. */
  const STREAM: seq<Byte> := [8, 0, 0, 0x80, 0x61, 0x62, 0x63, 0x70, 0x45, 0x17, 0x63, 0x61, 0x62, 0x63]

  /** In front of it: level 1, compressed, one-byte sizes; 17 bytes packed, 30 plain. */
  const PACKED: seq<Byte> := [0x45, 17, 30] + STREAM

  lemma FourBytes(f: nat)
    ensures LittleEndian(f, 2) == [f % 256, f / 256 % 256]
    ensures LittleEndian(f, 3) == [f % 256, f / 256 % 256, f / 256 / 256 % 256]
    ensures LittleEndian(f, 4) == [f % 256, f / 256 % 256, f / 256 / 256 % 256, f / 256 / 256 / 256 % 256]
  {
    var g := f / 256;
    var h := g / 256;
    var k := h / 256;
    assert LittleEndian(k, 1) == [k % 256] && LittleEndian(h, 1) == [h % 256] && LittleEndian(g, 1) == [g % 256];
    assert LittleEndian(h, 2) == [h % 256] + LittleEndian(k, 1);
    assert LittleEndian(g, 2) == [g % 256] + LittleEndian(h, 1);
    assert LittleEndian(g, 3) == [g % 256] + LittleEndian(h, 2);
  }

  lemma PayloadNext(t: Token, ts: seq<Token>)
    ensures Payload([t] + ts) == TokenBytes(t) + Payload(ts)
    ensures Flags([t] + ts) == FlagBit(t) + 2 * Flags(ts)
  {
    assert ([t] + ts)[1..] == ts;
  }

  lemma LiteralsBytes(a: Byte, b: Byte, c: Byte, rest: seq<Token>)
    ensures var ts := [Literal(a)] + ([Literal(b)] + ([Literal(c)] + rest));
            Payload(ts) == [a, b, c] + Payload(rest) && Flags(ts) == 8 * Flags(rest)
  {
    hide Payload, Flags;
    PayloadNext(Literal(a), [Literal(b)] + ([Literal(c)] + rest));
    PayloadNext(Literal(b), [Literal(c)] + rest);
    PayloadNext(Literal(c), rest);
  }

  lemma SampleEnd()
    ensures var ts := [Literal(0x63)] + ([Literal(0x61)] + ([Literal(0x62)] + [Literal(0x63)]));
            Payload(ts) == [0x63, 0x61, 0x62, 0x63] && Flags(ts) == 0
  {
    var t5: seq<Token> := [Literal(0x63)];
    assert Payload(t5) == [0x63] + Payload([]) == [0x63] && Flags(t5) == 0;
    hide Payload, Flags;
    LiteralsBytes(0x63, 0x61, 0x62, t5);
  }

  lemma MatchBytes()
    ensures TokenBytes(Match(0x457, 23)) == [0x70, 0x45, 0x17]
  {
    FourBytes(0x174570);
    hide LittleEndian;
  }

  /** Payload and flags from the match on. */
  lemma SampleRest(rest: seq<Token>)
    requires rest == [Match(0x457, 23)] + ([Literal(0x63)] + ([Literal(0x61)] + ([Literal(0x62)] + [Literal(0x63)])))
    ensures Payload(rest) == [0x70, 0x45, 0x17, 0x63, 0x61, 0x62, 0x63] && Flags(rest) == 1
  {
    SampleEnd();
    MatchBytes();
    hide Payload, Flags, TokenBytes;
    PayloadNext(Match(0x457, 23), [Literal(0x63)] + ([Literal(0x61)] + ([Literal(0x62)] + [Literal(0x63)])));
  }

  lemma SampleGroup(ts: seq<Token>, rest: seq<Token>)
    requires ts == [Literal(0x61)] + ([Literal(0x62)] + ([Literal(0x63)] + rest)) && |ts| == 8
    requires Payload(rest) == [0x70, 0x45, 0x17, 0x63, 0x61, 0x62, 0x63] && Flags(rest) == 1
    ensures Layout(ts) == STREAM
  {
    hide Payload, Flags, Layout, LittleEndian, TokenBytes;
    LayoutOfGroup(ts);
    LiteralsBytes(0x61, 0x62, 0x63, rest);
    FourBytes(0x8000_0008);
  }

  lemma SampleStream(ts: seq<Token>)
    requires ts == [Literal(0x61), Literal(0x62), Literal(0x63), Match(0x457, 23),
                    Literal(0x63), Literal(0x61), Literal(0x62), Literal(0x63)]
    ensures Layout(ts) == STREAM
  {
    var end := [Literal(0x63)] + ([Literal(0x61)] + ([Literal(0x62)] + [Literal(0x63)]));
    SampleRest([Match(0x457, 23)] + end);
    assert end == [Literal(0x63), Literal(0x61), Literal(0x62), Literal(0x63)];
    Joined(Literal(0x61), Literal(0x62), Literal(0x63), Match(0x457, 23), end);
    hide *;
    SampleGroup(ts, [Match(0x457, 23)] + end);
  }

  lemma FewTokens(s: seq<Byte>, ts: seq<Token>)
    requires |ts| <= GROUP
    ensures !GivesUp(s, ts)
  {
  }

  /** The header of 30 bytes packed into 17, and the stream behind it. */
  lemma PackedBytes(s: seq<Byte>, ts: seq<Token>, p: seq<Byte>)
    requires |s| == 30 && IsPacked(1, s, ts, p) && !GivesUp(s, ts) && Layout(ts) == STREAM
    ensures PackedSize(30, ts, true) == 17 <= |p| && p[..17] == PACKED
  {
    hide GivesUp, Layout, Span;
    assert p[..17] == p[..3] + p[3..17];
  }

  /** Every packed form of the sample begins with these 17 bytes. */
  lemma SamplePacked(s: seq<Byte>, p: seq<Byte>)
    requires TenTimesAbc(s) && Packed(s, p)
    ensures PackedLength(s) == 17 <= |p| && p[..17] == PACKED
  {
    hide Tokens, Layout, IsPacked, GivesUp, PackedSize;
    SampleTokens(s);
    SampleStream(Tokens(s));
    FewTokens(s, Tokens(s));
    PackedBytes(s, Tokens(s), p);
  }

  /** So does what the compressor makes of it, whatever state and buffer held before. */
  method CompressSample(s: seq<Byte>, packed0: seq<Byte>, entries0: seq<HashEntry>) returns (packed: seq<Byte>)
    requires TenTimesAbc(s) && |packed0| == 30 + BUFFER_PADDING && |entries0| == HASH_VALUES
    ensures packed == PACKED
  {
    hide Tokens, Layout, GivesUp, IsPacked, PackedLength;
    var destination := new Byte[|packed0|](i requires 0 <= i < |packed0| => packed0[i]);
    var state := new CompressState(entries0);
    var r := Compress(s, destination, state);
    SamplePacked(s, destination[..r]);
    packed := destination[..r];
  }
}
