/**
  What both compression levels share around the cores: the header, the packed form with its size
  bound, the stored path.
 */
module QlzPacked {
  import opened Slices
  import opened Words
  import opened QlzFormat
  import opened QlzOutput
  import opened QlzParse
  import opened QlzDecompress

  const BUFFER_PADDING := 400

  /** `size > 0xffffffff - 400` is refused. */
  const MAX_SIZE := 0xffffffff - 400

  /** The header takes three bytes below this size, nine from here on. */
  const SHORT_HEADER_BELOW := 216

  function Base(size: nat): nat {
    if size < SHORT_HEADER_BELOW then 3 else 9
  }

  /** QLZ_COMPRESSION_LEVEL */
  type Level = n: nat | n == 1 || n == 3 witness 1

  /** `01SSLLHC`: no streaming, the level, header width, compressed or stored. */
  function FirstByte(level: Level, size: nat, compressed: bool): Byte {
    64 + 4 * level + (if Base(size) == 9 then 2 else 0) + (if compressed then 1 else 0)
  }

  /** The first byte from its highest bit down: 0, 1, two for streaming, two for the level, header width, compressed. */
  lemma FirstByteBits(level: Level, size: nat, compressed: bool)
    ensures var b := FirstByte(level, size, compressed);
            && b / 64 == 1 && b / 16 % 4 == 0 && b / 4 % 4 == level
            && (Bit(b, 1) == 1 <==> size >= 216) && (Bit(b, 0) == 1 <==> compressed)
  {
    assert Pow2(0) == 1 && Pow2(1) == 2;
  }

  function Header(level: Level, size: nat, r: nat, compressed: bool): seq<Byte> {
    if Base(size) == 3 then [FirstByte(level, size, compressed), r % 256, size % 256]
    else [FirstByte(level, size, compressed)] + LittleEndian(r, 4) + LittleEndian(size, 4)
  }

  /** The packed size: header and payload, where a payload is at least nine bytes. */
  function PackedSize(size: nat, ts: seq<Token>, compressed: bool): nat {
    if compressed then
      var n := |Layout(ts)|;
      Base(size) + (if n < 9 then 9 else n)
    else Base(size) + size
  }

  // ---- headers

  /** One-byte headers never truncate: below 216 bytes every packed size fits, with at most seven control words. */
  lemma ShortFits(ts: seq<Token>, compressed: bool)
    requires Span(ts) < SHORT_HEADER_BELOW
    ensures PackedSize(Span(ts), ts, compressed) <= 255
  {
    hide Payload, Flags;
    PayloadLength(ts);
    LayoutLength(ts);
    assert Groups(|ts|) <= 7;
  }

  /** The header fields are read back exactly, in either width. */
  lemma HeaderFields(level: Level, size: nat, r: nat, compressed: bool, p: seq<Byte>)
    requires r < TWO32 && size < TWO32 && (Base(size) == 3 ==> r < 256)
    requires |p| >= Base(size) && p[..Base(size)] == Header(level, size, r, compressed)
    ensures HeaderReadable(p) && SizeHeader(p) == Base(size)
    ensures SizeCompressed(p) == r && SizeDecompressed(p) == size
    ensures p[0] % 2 == 1 <==> compressed
  {
    var h := p[..Base(size)];
    assert h[0] == p[0] == FirstByte(level, size, compressed);
    if Base(size) == 3 {
      assert p[1..2] == h[1..2] == LittleEndian(r, 1) by {
        assert LittleEndian(r, 1) == [r % 256] + LittleEndian(r / 256, 0);
      }
      assert p[2..3] == h[2..3] == LittleEndian(size, 1) by {
        assert LittleEndian(size, 1) == [size % 256] + LittleEndian(size / 256, 0);
      }
      assert Pow256(1) == 256 * Pow256(0);
      ReadWritten(r, 1);
      ReadWritten(size, 1);
    } else {
      assert p[1..5] == h[1..5] == LittleEndian(r, 4);
      assert p[5..9] == h[5..9] == LittleEndian(size, 4);
      assert Pow256(4) == TWO32;
      ReadWritten(r, 4);
      ReadWritten(size, 4);
    }
  }

  // ---- packed buffers

  /**
    `p` begins with the packed form of `s`, whose tokens are `ts`: compressed, or stored when the
    compressor gives up.
   */
  ghost predicate IsPacked(level: Level, s: seq<Byte>, ts: seq<Token>, p: seq<Byte>) {
    var base, compressed := Base(|s|), !GivesUp(s, ts);
    var r := PackedSize(|s|, ts, compressed);
    && 0 < |s| <= MAX_SIZE && Span(ts) == |s| && base <= r <= |p|
    && p[..base] == Header(level, |s|, r, compressed)
    && (if compressed then var l := Layout(ts); p[base..base + |l|] == l else p[base..r] == s)
  }

  lemma LastGroupSize(ts: seq<Token>, c: nat)
    requires c <= |ts| <= c + GROUP && c % GROUP == 0
    ensures |Layout(ts)| <= |Layout(ts[..c])| + 4 * GROUP + CWORD_LEN
  {
    hide Payload, Flags, Layout;
    assert ts == ts[..c] + ts[c..];
    LayoutAppend(ts[..c], ts[c..]);
    LayoutLength(ts[c..]);
    PayloadLength(ts[c..]);
  }

  lemma NotPoorAt(s: seq<Byte>, ts: seq<Token>, c: nat)
    requires 0 < c < |ts| && c % GROUP == 0 && Span(ts[..c]) <= LastMatchStart(s) && !GivesUpAt(s, ts, c)
    ensures |Layout(ts[..c])| <= |s|
  {
    hide Layout;
    FlushSize(s, ts[..c], Span(ts[..c]));
  }

  lemma SizeAfterGroup(s: seq<Byte>, ts: seq<Token>, c: nat)
    requires Span(ts) == |s| && forall k :: !GivesUpAt(s, ts, k)
    requires c + GROUP < |ts| && c % GROUP == 0 && |Layout(ts[..c])| <= |s|
    ensures var c' := c + GROUP;
            if Span(ts[..c']) <= LastMatchStart(s) then |Layout(ts[..c'])| <= |s|
            else |Layout(ts)| <= |s| + CORE_OVERHEAD
  {
    hide Payload, Flags, Layout, Span, GivesUpAt;
    var c' := c + GROUP;
    var a, b, d := ts[..c], ts[c..c'], ts[c'..];
    assert ts[..c'] == a + b && ts == ts[..c'] + d;
    assert c' % GROUP == 0;
    SpanAppend(ts[..c'], d);
    if Span(ts[..c']) <= LastMatchStart(s) {
      assert !GivesUpAt(s, ts, c');
      NotPoorAt(s, ts, c');
    } else {
      LayoutAppend(a, b);
      LayoutAppend(ts[..c'], d);
      LayoutLength(b);
      PayloadLength(b);
      LayoutLength(d);
      PayloadLength(d);
    }
  }

  /** From a flush point of the main loop on, at most one full group and one short tail follow before the next. */
  lemma {:induction false} SizeFrom(s: seq<Byte>, ts: seq<Token>, c: nat)
    requires Span(ts) == |s| && forall k :: !GivesUpAt(s, ts, k)
    requires c <= |ts| && c % GROUP == 0 && |Layout(ts[..c])| <= |s|
    ensures |Layout(ts)| <= |s| + CORE_OVERHEAD
    decreases |ts| - c
  {
    hide Layout, GivesUpAt, Span;
    if |ts| - c <= GROUP {
      LastGroupSize(ts, c);
    } else {
      SizeAfterGroup(s, ts, c);
      if Span(ts[..c + GROUP]) <= LastMatchStart(s) {
        assert (c + GROUP) % GROUP == 0;
        SizeFrom(s, ts, c + GROUP);
      }
    }
  }

  /** The size bound: what the compressor does not give up on grows by at most 142 bytes. */
  lemma CompressedSizeBound(s: seq<Byte>, ts: seq<Token>)
    requires Span(ts) == |s| && !GivesUp(s, ts)
    ensures |Layout(ts)| <= |s| + CORE_OVERHEAD
    ensures PackedSize(|s|, ts, true) <= |s| + BUFFER_PADDING
  {
    hide GivesUpAt, Span;
    assert ts[..0] == [];
    SizeFrom(s, ts, 0);
  }

  lemma SliceOfPrefix(s: seq<Byte>, r: nat, from: nat, to: nat)
    requires from <= to <= r <= |s|
    ensures s[..r][from..to] == s[from..to]
  {
  }

  /** A header in front of the right payload makes a packed buffer. */
  lemma HeaderCompletes(level: Level, s: seq<Byte>, ts: seq<Token>, payload: seq<Byte>, out: seq<Byte>, r: nat,
                        compressed: bool)
    requires 0 < |s| <= MAX_SIZE && Span(ts) == |s| && compressed == !GivesUp(s, ts)
    requires r == PackedSize(|s|, ts, compressed) <= |payload|
    requires if compressed then
               var l := Layout(ts); Base(|s|) + |l| <= |payload| && payload[Base(|s|)..Base(|s|) + |l|] == l
             else payload[Base(|s|)..r] == s
    requires out == Splice(payload, 0, Header(level, |s|, r, compressed))
    ensures IsPacked(level, s, ts, out[..r])
  {
    hide GivesUp, Layout, Span, LittleEndian, Splice;
    var h, base := Header(level, |s|, r, compressed), Base(|s|);
    var end := if compressed then base + |Layout(ts)| else r;
    assert |h| == base;
    SpliceAfter(payload, 0, h, base, end);
    SliceOfPrefix(out, r, 0, base);
    SliceOfPrefix(out, r, base, end);
    assert out[0..base] == out[..base] && out[..r][..base] == out[..r][0..base];
  }

  /** The stored path copies the claimed plain size, whatever the claimed compressed size: here it leaves the source. */
  predicate Overreads(source: seq<Byte>)
    requires HeaderReadable(source)
  {
    source[0] % 2 == 0 && SizeHeader(source) + SizeDecompressed(source) > |source|
  }

  /** The header of a packed buffer tells both sizes and whether it is compressed. */
  lemma PackedFields(level: Level, s: seq<Byte>, ts: seq<Token>, p: seq<Byte>)
    requires IsPacked(level, s, ts, p)
    ensures HeaderReadable(p) && SizeHeader(p) == Base(|s|)
    ensures SizeCompressed(p) == PackedSize(|s|, ts, !GivesUp(s, ts)) <= |p| && SizeDecompressed(p) == |s|
    ensures SizeCompressed(p) <= |s| + BUFFER_PADDING && !Overreads(p)
    ensures p[0] % 2 == 1 <==> !GivesUp(s, ts)
  {
    hide GivesUp, Layout, Span;
    if !GivesUp(s, ts) {
      CompressedSizeBound(s, ts);
    }
    if Base(|s|) == 3 {
      ShortFits(ts, !GivesUp(s, ts));
    }
    HeaderFields(level, |s|, PackedSize(|s|, ts, !GivesUp(s, ts)), !GivesUp(s, ts), p);
  }

  // ---- writing a packed buffer

  method WriteHeader(level: Level, destination: array<Byte>, base: nat, size: nat, r: nat, compressed: bool)
    requires base == Base(size) <= destination.Length
    modifies destination
    ensures destination[..] == Splice(old(destination[..]), 0, Header(level, size, r, compressed))
  {
    ghost var before := destination[..];
    var flags := (if base == 3 then 0 else 2) + (if compressed then 1 else 0);
    if base == 3 {
      destination[0] := flags;
      destination[1] := r % 256;
      destination[2] := size % 256;
    } else {
      destination[0] := flags;
      FastWrite(r, destination, 1, 4);
      FastWrite(size, destination, 5, 4);
    }
    destination[0] := destination[0] + 4 * level;
    destination[0] := destination[0] + 64;
    assert |Header(level, size, r, compressed)| == Base(size);
    assert destination[..Base(size)] == Header(level, size, r, compressed);
    assert destination[Base(size)..] == before[Base(size)..];
    assert destination[..] == destination[..Base(size)] + destination[Base(size)..];
  }

  /** `memcpy(destination + base, source, size)` */
  method Store(source: seq<Byte>, destination: array<Byte>, base: nat)
    requires base + |source| <= destination.Length
    modifies destination
    ensures destination[..] == Splice(old(destination[..]), base, source)
  {
    ghost var before := destination[..];
    for k := 0 to |source|
      invariant destination[..base] == before[..base] && destination[base + k..] == before[base + k..]
      invariant destination[base..base + k] == source[..k]
    {
      destination[base + k] := source[k];
      assert source[..k + 1] == source[..k] + [source[k]];
    }
    assert source[..|source|] == source;
    assert destination[..] == destination[..base] + destination[base..base + |source|] + destination[base + |source|..];
  }

  /** A header at the start leaves what lies behind `cap` as it was. */
  lemma BeyondKept(before: seq<Byte>, payload: seq<Byte>, out: seq<Byte>, h: seq<Byte>, end: nat, cap: nat)
    requires |payload| == |before| && |h| <= end <= cap <= |before| && payload[end..] == before[end..]
    requires out == Splice(payload, 0, h)
    ensures out[cap..] == before[cap..]
  {
  }

  /**
    The end of `qlz_compress`: the stored form when the core gave up, and the header.  The packed form
    is then at the start of the destination, and nothing is touched beyond `size + 400`.
   */
  method Seal(level: Level, source: seq<Byte>, destination: array<Byte>, base: nat, core: nat, ghost ts: seq<Token>,
              ghost before: seq<Byte>)
    returns (r: nat)
    requires 0 < |source| <= MAX_SIZE && Span(ts) == |source| && base == Base(|source|)
    requires destination.Length == |before| >= |source| + BUFFER_PADDING
    requires core == 0 <==> GivesUp(source, ts)
    requires var n := |Layout(ts)|;
             core != 0 ==>
               && n <= core == (if n < 9 then 9 else n) <= |source| + CORE_OVERHEAD
               && destination[base..base + n] == Layout(ts)
    requires var end := base + |source| + CORE_OVERHEAD; destination[end..] == before[end..]
    modifies destination
    ensures r == PackedSize(|source|, ts, !GivesUp(source, ts)) <= |source| + BUFFER_PADDING
    ensures IsPacked(level, source, ts, destination[..r])
    ensures destination[|source| + BUFFER_PADDING..] == before[|source| + BUFFER_PADDING..]
  {
    hide GivesUp, Layout, Span, IsPacked, LittleEndian;
    var size, compressed := |source|, core != 0;
    ghost var tried, end := destination[..], base + size + CORE_OVERHEAD;
    if compressed {
      r := base + core;
    } else {
      Store(source, destination, base);
      r := size + base;
      SpliceAfter(tried, base, source, end, |tried|);
    }
    ghost var payload := destination[..];
    assert payload[end..] == before[end..];
    WriteHeader(level, destination, base, size, r, compressed);
    HeaderCompletes(level, source, ts, payload, destination[..], r, compressed);
    BeyondKept(before, payload, destination[..], Header(level, size, r, compressed), end, size + BUFFER_PADDING);
  }

  // ---- the stored path of the decompressor

  /** Three readable bytes that claim three bytes and one plain byte: reading the plain byte leaves them. */
  lemma ShortStoredOverreads()
    ensures var source: seq<Byte> := [0x44, 3, 1];
            HeaderReadable(source) && SizeCompressed(source) <= |source| && Overreads(source)
  {
    var source: seq<Byte> := [0x44, 3, 1];
    assert source[1..2] == [3] && source[2..3] == [1];
    assert Value([3]) == 3 + 256 * Value([]) && Value([1]) == 1 + 256 * Value([]);
  }

  /** `memcpy(destination, source + qlz_size_header(source), dsiz)`, unless it would leave the source. */
  method CopyStored(source: seq<Byte>, destination: array<Byte>) returns (r: nat, overread: bool)
    requires HeaderReadable(source) && source[0] % 2 == 0 && SizeDecompressed(source) <= destination.Length
    modifies destination
    ensures overread <==> Overreads(source)
    ensures overread ==> destination[..] == old(destination[..])
    ensures !overread ==>
              && r == SizeDecompressed(source) && destination[r..] == old(destination[r..])
              && destination[..r] == source[SizeHeader(source)..SizeHeader(source) + r]
  {
    var start := SizeHeader(source);
    r := SizeDecompressed(source);
    overread := start + r > |source|;
    if !overread {
      Store(source[start..start + r], destination, 0);
    }
  }
}
