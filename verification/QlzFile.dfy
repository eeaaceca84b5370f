/**
  The block framing of components/quicklz/source/quicklz_sample.c: a file is cut into blocks of 4096
  bytes, each packed on its own and preceded by its packed size, four bytes, most significant first.
 */
module QlzFile {
  import opened Words
  import opened QlzFormat
  import opened QlzParse
  import opened QlzCompress
  import opened QlzDecompress
  import opened QlzPacked
  import opened Quicklz

  const BLOCK_HEADER_SIZE := 4
  const BLOCK := 4096

  function BigEndian(n: nat): (b: seq<Byte>)
    requires n < TWO32
    ensures |b| == BLOCK_HEADER_SIZE
  {
    [n / 0x100_0000, n % 0x100_0000 / 0x1_0000, n % 0x1_0000 / 0x100, n % 0x100]
  }

  function BlockSize(h: seq<Byte>): nat
    requires |h| == BLOCK_HEADER_SIZE
  {
    (h[0] as int) * 0x100_0000 + (h[1] as int) * 0x1_0000 + (h[2] as int) * 0x100 + (h[3] as int)
  }

  lemma BlockSizeBack(n: nat)
    requires n < TWO32
    ensures BlockSize(BigEndian(n)) == n
  {
    assert n / 0x1_0000 == n / 0x100_0000 * 0x100 + n % 0x100_0000 / 0x1_0000;
    assert n / 0x100 == n / 0x1_0000 * 0x100 + n % 0x1_0000 / 0x100;
  }

  function FirstBlock(f: seq<Byte>): nat {
    if |f| < BLOCK then |f| else BLOCK
  }

  /** `out` is the framed form of the file `f`. */
  ghost predicate Framed(f: seq<Byte>, out: seq<Byte>)
    decreases |f|
  {
    if f == [] then out == []
    else
      var k := FirstBlock(f);
      var r := PackedLength(f[..k]);
      && r < TWO32 && BLOCK_HEADER_SIZE + r <= |out|
      && out[..BLOCK_HEADER_SIZE] == BigEndian(r)
      && Packed(f[..k], out[BLOCK_HEADER_SIZE..BLOCK_HEADER_SIZE + r])
      && Framed(f[k..], out[BLOCK_HEADER_SIZE + r..])
  }

  lemma FramedEmptyOnly(out: seq<Byte>)
    requires Framed([], out)
    ensures out == []
  {
  }

  lemma FramedUnfolded(f: seq<Byte>, out: seq<Byte>)
    requires |f| >= BLOCK
    ensures var r := PackedLength(f[..BLOCK]);
            var n := BLOCK_HEADER_SIZE + r;
            Framed(f, out) <==>
              && r < TWO32 && n <= |out| && out[..BLOCK_HEADER_SIZE] == BigEndian(r)
              && Packed(f[..BLOCK], out[BLOCK_HEADER_SIZE..n]) && Framed(f[BLOCK..], out[n..])
  {
    hide Packed, PackedLength, BigEndian;
  }

  lemma FramedOne(b: seq<Byte>, p: seq<Byte>)
    requires 0 < |b| <= BLOCK && |p| == PackedLength(b) < TWO32 && Packed(b, p)
    ensures Framed(b, BigEndian(|p|) + p)
  {
    hide Packed, PackedLength, BigEndian;
    var frame := BigEndian(|p|) + p;
    assert b[..|b|] == b && b[|b|..] == [];
    assert frame[..BLOCK_HEADER_SIZE] == BigEndian(|p|) && frame[BLOCK_HEADER_SIZE..] == p;
    assert frame[BLOCK_HEADER_SIZE..BLOCK_HEADER_SIZE + |p|] == p;
    assert frame[BLOCK_HEADER_SIZE + |p|..] == [];
  }

  /** One more block at the end. */
  lemma {:induction false} FramedAppend(f: seq<Byte>, out: seq<Byte>, b: seq<Byte>, p: seq<Byte>)
    requires Framed(f, out) && |f| % BLOCK == 0 && 0 < |b| <= BLOCK
    requires |p| == PackedLength(b) < TWO32 && Packed(b, p)
    ensures Framed(f + b, out + (BigEndian(|p|) + p))
    decreases |f|
  {
    hide Packed, PackedLength, BigEndian, Framed;
    var frame := BigEndian(|p|) + p;
    if f == [] {
      FramedEmptyOnly(out);
      assert f + b == b && out + frame == frame;
      FramedOne(b, p);
    } else {
      var r := PackedLength(f[..BLOCK]);
      var n := BLOCK_HEADER_SIZE + r;
      FramedUnfolded(f, out);
      FramedAppend(f[BLOCK..], out[n..], b, p);
      assert (f + b)[..BLOCK] == f[..BLOCK] && (f + b)[BLOCK..] == f[BLOCK..] + b;
      assert (out + frame)[..BLOCK_HEADER_SIZE] == out[..BLOCK_HEADER_SIZE];
      assert (out + frame)[BLOCK_HEADER_SIZE..n] == out[BLOCK_HEADER_SIZE..n];
      assert (out + frame)[n..] == out[n..] + frame;
      FramedUnfolded(f + b, out + frame);
    }
  }

  /** `memset(buffer, 0, n)` */
  method Clear(buffer: array<Byte>)
    modifies buffer
    ensures forall k :: 0 <= k < buffer.Length ==> buffer[k] == 0
  {
    for k := 0 to buffer.Length
      invariant forall j :: 0 <= j < k ==> buffer[j] == 0
    {
      buffer[k] := 0;
    }
  }

  lemma FramedEmpty()
    ensures Framed([], [])
  {
  }

  /** One block through the compressor. */
  method CompressBlock(block: seq<Byte>, cmprsBuffer: array<Byte>, state: CompressState) returns (packed: seq<Byte>)
    requires 0 < |block| <= BLOCK && cmprsBuffer.Length == BLOCK + BUFFER_PADDING && state.hash.Length == HASH_VALUES
    modifies cmprsBuffer, state.hash
    ensures |packed| == PackedLength(block) < TWO32 && Packed(block, packed)
  {
    hide Packed, PackedLength;
    Clear(cmprsBuffer);
    var cmprsSize := Compress(block, cmprsBuffer, state);
    packed := cmprsBuffer[..cmprsSize];
  }

  /**
    `quicklz_compress_file`, over the file's contents.  After the frames it divides by the file size
    for the compression ratio it prints: for an empty file, and for no other, by zero.
   */
  method CompressFile(input: seq<Byte>) returns (output: seq<Byte>, ratio: nat, dividesByZero: bool)
    ensures Framed(input, output)
    ensures dividesByZero <==> input == []
    ensures !dividesByZero ==> ratio == |output| * 100 / |input|
  {
    hide Packed, PackedLength, BigEndian, Framed;
    var cmprsBuffer := new Byte[BLOCK + BUFFER_PADDING](_ => 0);
    var state := new CompressState(seq(HASH_VALUES, _ => HashEntry(0, Null)));
    output := [];
    FramedEmpty();
    var total := 0;
    var i := 0;
    while i < |input|
      invariant 0 <= i <= |input| && (i % BLOCK == 0 || i == |input|)
      invariant Framed(input[..i], output) && total == |output|
      decreases |input| - i
    {
      var blockSize := if |input| - i < BLOCK then |input| - i else BLOCK;
      var block := input[i..i + blockSize];
      var packed := CompressBlock(block, cmprsBuffer, state);
      FramedAppend(input[..i], output, block, packed);
      output := output + (BigEndian(|packed|) + packed);
      total := total + |packed| + BLOCK_HEADER_SIZE;
      assert input[..i + blockSize] == input[..i] + block;
      i := i + blockSize;
    }
    assert input[..i] == input;
    dividesByZero := |input| == 0;
    ratio := if dividesByZero then 0 else total * 100 / |input|;
  }

  lemma PackedFits(b: seq<Byte>, p: seq<Byte>)
    requires Packed(b, p)
    ensures 0 < PackedLength(b) <= |b| + BUFFER_PADDING
  {
    hide GivesUp, Layout, Tokens;
    PackedFields(LEVEL, b, Tokens(b), p);
  }

  /** The first frame of a framed file, as its reader meets it: it fits the reader's buffer. */
  lemma FirstFrame(f: seq<Byte>, input: seq<Byte>)
    requires Framed(f, input) && f != []
    ensures var k := FirstBlock(f);
            && BLOCK_HEADER_SIZE < |input|
            && var r := BlockSize(input[..BLOCK_HEADER_SIZE]);
               && r == PackedLength(f[..k])
               && r <= BLOCK + BUFFER_PADDING && BLOCK_HEADER_SIZE + r <= |input|
               && Packed(f[..k], input[BLOCK_HEADER_SIZE..BLOCK_HEADER_SIZE + r])
               && Framed(f[k..], input[BLOCK_HEADER_SIZE + r..])
  {
    hide Packed, PackedLength, BigEndian;
    var b := f[..FirstBlock(f)];
    var r := PackedLength(b);
    BlockSizeBack(r);
    PackedFits(b, input[BLOCK_HEADER_SIZE..BLOCK_HEADER_SIZE + r]);
  }

  lemma SubPrefix(p: seq<Byte>, q: seq<Byte>, a: nat, b: nat)
    requires |p| <= |q| && q[..|p|] == p && a <= b <= |p|
    ensures q[a..b] == p[a..b]
  {
    forall k | 0 <= k < b - a ensures q[a..b][k] == p[a..b][k] {
      assert q[..|p|][a + k] == q[a + k];
    }
  }

  /** A packed buffer may be followed by anything. */
  lemma PackedPrefix(s: seq<Byte>, p: seq<Byte>, q: seq<Byte>)
    requires Packed(s, p) && |p| <= |q| && q[..|p|] == p
    ensures Packed(s, q)
  {
    hide GivesUp, Layout, Tokens, Header, Span;
    var r, base := PackedLength(s), Base(|s|);
    SubPrefix(p, q, 0, base);
    if !GivesUp(s, Tokens(s)) {
      SubPrefix(p, q, base, base + |Layout(Tokens(s))|);
    } else {
      SubPrefix(p, q, base, r);
    }
  }

  // ---- reading any file

  /** The header bytes before the first one is read. */
  const NO_HEADER: seq<Byte> := [0, 0, 0, 0]
  const READ_BUFFER := BLOCK + BUFFER_PADDING

  /** The reader's buffer after a read of `p` into it. */
  function Loaded(p: seq<Byte>): (b: seq<Byte>)
    requires |p| <= READ_BUFFER
    ensures |b| == READ_BUFFER && b[..|p|] == p
  {
    p + seq(READ_BUFFER - |p|, _ => 0)
  }

  /** What the block claims about its sizes fits the reader's two buffers. */
  predicate ClaimsFit(b: seq<Byte>)
    requires |b| == READ_BUFFER
  {
    SizeDecompressed(b) <= BLOCK && (b[0] % 2 == 1 ==> SizeCompressed(b) <= READ_BUFFER)
  }

  /**
    How reading a file of blocks ends: all of it is read; or a block size does not fit the `int` that it
    is computed in; or a block is read over the end of the buffer; or a block is handed to the
    decompressor that claims more than the buffers hold.
   */
  datatype Fate = AllRead | SizeOverflows | LeavesBuffer | ClaimsTooMuch

  /** The header of the next block: a file that ends inside it leaves the bytes of the one before. */
  function NextHeader(rest: seq<Byte>, hdr: seq<Byte>): (h: seq<Byte>)
    requires |hdr| == BLOCK_HEADER_SIZE
    ensures |h| == BLOCK_HEADER_SIZE
    ensures |rest| >= BLOCK_HEADER_SIZE ==> h == rest[..BLOCK_HEADER_SIZE]
    ensures forall i :: 0 <= i < BLOCK_HEADER_SIZE ==> h[i] == if i < |rest| then rest[i] else hdr[i]
  {
    var k := if |rest| < BLOCK_HEADER_SIZE then |rest| else BLOCK_HEADER_SIZE;
    rest[..k] + hdr[k..]
  }

  /** The bytes of the next block, as many as the file still has. */
  function NextBlock(rest: seq<Byte>, size: nat): (p: seq<Byte>)
    ensures BLOCK_HEADER_SIZE + size <= |rest| ==> p == rest[BLOCK_HEADER_SIZE..BLOCK_HEADER_SIZE + size]
    ensures BLOCK_HEADER_SIZE + size > |rest| ==>
              p == if |rest| <= BLOCK_HEADER_SIZE then [] else rest[BLOCK_HEADER_SIZE..]
  {
    if |rest| <= BLOCK_HEADER_SIZE then []
    else if |rest| - BLOCK_HEADER_SIZE < size then rest[BLOCK_HEADER_SIZE..]
    else rest[BLOCK_HEADER_SIZE..BLOCK_HEADER_SIZE + size]
  }

  /** What comes of the next block alone. */
  function BlockFate(size: nat, p: seq<Byte>): Fate {
    if size >= 0x8000_0000 then SizeOverflows
    else if |p| > READ_BUFFER then LeavesBuffer
    else if !ClaimsFit(Loaded(p)) then ClaimsTooMuch
    else AllRead
  }

  /** A size overflows exactly when the first header byte is 128 or more. */
  lemma OverflowByte(h: seq<Byte>, p: seq<Byte>)
    requires |h| == BLOCK_HEADER_SIZE
    ensures BlockFate(BlockSize(h), p) == SizeOverflows <==> h[0] >= 128
  {
    hide ClaimsFit;
  }

  /** The first block that does not fit decides. */
  function FileFate(rest: seq<Byte>, hdr: seq<Byte>): Fate
    requires |hdr| == BLOCK_HEADER_SIZE
    decreases |rest|
  {
    if rest == [] then AllRead
    else
      var h := NextHeader(rest, hdr);
      var size := BlockSize(h);
      var fate := BlockFate(size, NextBlock(rest, size));
      if fate != AllRead || BLOCK_HEADER_SIZE + size >= |rest| then fate
      else FileFate(rest[BLOCK_HEADER_SIZE + size..], h)
  }

  /** A file of one block that is one byte longer than the reader's buffer. */
  lemma LongBlock(input: seq<Byte>)
    requires |input| == BLOCK_HEADER_SIZE + READ_BUFFER + 1 && input[..BLOCK_HEADER_SIZE] == [0, 0, 0x11, 0x91]
    ensures FileFate(input, NO_HEADER) == LeavesBuffer
  {
    assert BlockSize([0, 0, 0x11, 0x91]) == READ_BUFFER + 1;
    hide ClaimsFit;
  }

  lemma PackedIsLoaded(b: seq<Byte>, p: seq<Byte>)
    requires Packed(b, p) && |b| <= BLOCK && |p| <= READ_BUFFER
    ensures Packed(b, Loaded(p)) && ClaimsFit(Loaded(p))
  {
    hide PackedLength, Layout, Tokens, IsPacked;
    PackedPrefix(b, p, Loaded(p));
    PackedFields(LEVEL, b, Tokens(b), Loaded(p));
  }

  /** What the compressor has framed is read to its end, whatever header came before. */
  lemma {:induction false} FramedIsRead(f: seq<Byte>, input: seq<Byte>, hdr: seq<Byte>)
    requires Framed(f, input) && |hdr| == BLOCK_HEADER_SIZE
    ensures FileFate(input, hdr) == AllRead
    decreases |f|
  {
    hide Packed, PackedLength, BigEndian, Framed, ClaimsFit;
    if f == [] {
      FramedEmptyOnly(input);
    } else {
      FirstFrame(f, input);
      var k, h := FirstBlock(f), NextHeader(input, hdr);
      var size := BlockSize(h);
      var p := NextBlock(input, size);
      PackedIsLoaded(f[..k], p);
      FramedIsRead(f[k..], input[BLOCK_HEADER_SIZE + size..], h);
    }
  }

  /** One block through the two buffers. */
  method DecompressBlock(p: seq<Byte>, buffer: array<Byte>, dcmprsBuffer: array<Byte>, state: DecompressState,
                         ghost b: seq<Byte>)
    returns (block: seq<Byte>)
    requires |p| <= READ_BUFFER && ClaimsFit(Loaded(p)) && buffer != dcmprsBuffer
    requires buffer.Length == READ_BUFFER && dcmprsBuffer.Length == BLOCK && state.offset.Length == HASH_VALUES
    modifies buffer, dcmprsBuffer, state.offset
    ensures Packed(b, p) && |b| <= BLOCK ==> block == b
    ensures block == [] || |block| == SizeDecompressed(Loaded(p))
  {
    hide PackedLength, Layout, Tokens, IsPacked;
    Clear(buffer);
    Clear(dcmprsBuffer);
    Store(p, buffer, 0);
    assert buffer[..] == Loaded(p);
    if Packed(b, p) && |b| <= BLOCK {
      PackedIsLoaded(b, p);
    }
    var dcmprsSize, overread := Decompress(buffer[..], dcmprsBuffer, state, b, Tokens(b));
    block := dcmprsBuffer[..dcmprsSize];
  }

  lemma FramedOnlyEmpty(f: seq<Byte>, input: seq<Byte>)
    requires Framed(f, input)
    ensures f == [] <==> input == []
  {
  }

  lemma FitsWhenRead(size: nat, p: seq<Byte>)
    requires BlockFate(size, p) == AllRead
    ensures |p| <= READ_BUFFER && ClaimsFit(Loaded(p))
  {
  }

  /** The next block of the rest of the file, which is the framed form of `f` when it is the compressor's own. */
  method ReadBlock(rest: seq<Byte>, hdr: seq<Byte>, buffer: array<Byte>, dcmprsBuffer: array<Byte>,
                   state: DecompressState, ghost f: seq<Byte>)
    returns (fate: Fate, hdr': seq<Byte>, used: nat, block: seq<Byte>, ghost k: nat)
    requires rest != [] && |hdr| == BLOCK_HEADER_SIZE && buffer != dcmprsBuffer
    requires buffer.Length == READ_BUFFER && dcmprsBuffer.Length == BLOCK && state.offset.Length == HASH_VALUES
    modifies buffer, dcmprsBuffer, state.offset
    ensures |hdr'| == BLOCK_HEADER_SIZE && used >= BLOCK_HEADER_SIZE
    ensures FileFate(rest, hdr)
            == if fate != AllRead || used >= |rest| then fate else FileFate(rest[used..], hdr')
    ensures fate == AllRead && Framed(f, rest) ==>
              used <= |rest| && k <= |f| && block == f[..k] && Framed(f[k..], rest[used..])
  {
    hide Packed, PackedLength, BigEndian, Framed, ClaimsFit, BlockFate, NextHeader, NextBlock;
    hdr' := NextHeader(rest, hdr);
    var blockSize := BlockSize(hdr');
    used, block, k := BLOCK_HEADER_SIZE + blockSize, [], 0;
    var p := NextBlock(rest, blockSize);
    fate := BlockFate(blockSize, p);
    if fate != AllRead {
      return;
    }
    FitsWhenRead(blockSize, p);
    if Framed(f, rest) {
      FramedOnlyEmpty(f, rest);
      FirstFrame(f, rest);
      k := FirstBlock(f);
    }
    block := DecompressBlock(p, buffer, dcmprsBuffer, state, f[..k]);
  }

  /** The plain bytes so far and the next block. */
  lemma PlainNext(f: seq<Byte>, j: nat, k: nat)
    requires j <= |f| && k <= |f[j..]|
    ensures f[..j] + f[j..][..k] == f[..j + k] && f[j..][k..] == f[j + k..]
  {
  }

  lemma RestNext(input: seq<Byte>, i: nat, used: nat)
    requires i <= |input| && used <= |input[i..]|
    ensures input[i..][used..] == input[i + used..]
  {
  }

  /**
    `quicklz_decompress_file` on any file: -1 without any output for one too short to hold a block,
    else the fate of its blocks; the file that was compressed, if it is the compressor's own.
   */
  method DecompressFile(input: seq<Byte>, ghost f: seq<Byte>) returns (fate: Fate, ret: int, output: seq<Byte>)
    ensures |input| <= BLOCK_HEADER_SIZE ==> fate == AllRead && ret == -1 && output == []
    ensures |input| > BLOCK_HEADER_SIZE ==> fate == FileFate(input, NO_HEADER) && ret == 0
    ensures Framed(f, input) ==> fate == AllRead && (f == [] <==> ret == -1) && output == f
  {
    hide Packed, PackedLength, BigEndian, Framed, FileFate;
    output, fate, ret := [], AllRead, 0;
    var hdr := NO_HEADER;
    ghost var own := Framed(f, input);
    if own {
      FramedOnlyEmpty(f, input);
      FramedIsRead(f, input, hdr);
    }
    if |input| <= BLOCK_HEADER_SIZE {
      if own && f != [] {
        FirstFrame(f, input);
      }
      ret := -1;
      return;
    }
    var dcmprsBuffer := new Byte[BLOCK](_ => 0);
    var buffer := new Byte[READ_BUFFER](_ => 0);
    var state := new DecompressState(seq(HASH_VALUES, _ => 0));
    var i := 0;
    ghost var j := 0;
    assert f[0..] == f && input[0..] == input;
    while i < |input|
      invariant 0 <= i && 0 <= j <= |f| && |hdr| == BLOCK_HEADER_SIZE && fate == AllRead
      invariant FileFate(input, NO_HEADER) == if i < |input| then FileFate(input[i..], hdr) else AllRead
      invariant own ==> i <= |input| && Framed(f[j..], input[i..]) && output == f[..j]
      decreases |input| - i
    {
      var used, block;
      ghost var k, rest := 0, f[j..];
      fate, hdr, used, block, k := ReadBlock(input[i..], hdr, buffer, dcmprsBuffer, state, rest);
      if fate != AllRead {
        return;
      }
      if own {
        PlainNext(f, j, k);
        j := j + k;
      }
      if used <= |input| - i {
        RestNext(input, i, used);
      }
      output := output + block;
      i := i + used;
    }
    if own {
      FramedOnlyEmpty(f[j..], input[i..]);
      assert f[..j] == f;
    }
  }

  /** Every non-empty file comes back block by block; for an empty one the compressor divides by zero. */
  method FileRoundTrip(f: seq<Byte>) returns (dividesByZero: bool, ret: int, g: seq<Byte>)
    ensures dividesByZero <==> f == []
    ensures !dividesByZero ==> ret == 0 && g == f
  {
    var framed, ratio;
    framed, ratio, dividesByZero := CompressFile(f);
    ret, g := -1, [];
    if !dividesByZero {
      var fate;
      fate, ret, g := DecompressFile(framed, f);
    }
  }
}
