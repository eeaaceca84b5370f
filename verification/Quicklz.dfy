/**
  `qlz_compress` and `qlz_decompress` of components/quicklz/source/quicklz.c at level 1, and the round
  trip through both.
 */
module Quicklz {
  import opened Words
  import opened QlzFormat
  import opened QlzParse
  import opened QlzCompress
  import opened QlzDecompress
  import opened QlzPacked

  const LEVEL: Level := 1

  /** `p` begins with the packed form of `s`. */
  ghost predicate Packed(s: seq<Byte>, p: seq<Byte>) {
    IsPacked(LEVEL, s, Tokens(s), p)
  }

  ghost function PackedLength(s: seq<Byte>): nat {
    PackedSize(|s|, Tokens(s), !GivesUp(s, Tokens(s)))
  }

  lemma PackedDecodes(s: seq<Byte>, p: seq<Byte>)
    requires Packed(s, p) && !GivesUp(s, Tokens(s))
    ensures EncodedBy(p, s, Tokens(s))
  {
    hide GivesUp, Layout, Tokens, Decodes, HeaderReadable, SizeCompressed, SizeHeader;
    PackedFields(LEVEL, s, Tokens(s), p);
    TokensDecode(s);
  }

  /**
    `qlz_compress`: 0 for an empty or oversized input, else the packed size, with the packed form of
    the input at the start of the destination and nothing touched beyond `size + 400`.
   */
  method Compress(source: seq<Byte>, destination: array<Byte>, state: CompressState) returns (r: nat)
    requires destination.Length >= |source| + BUFFER_PADDING && state.hash.Length == HASH_VALUES
    modifies destination, state.hash
    ensures r == 0 <==> |source| == 0 || |source| > MAX_SIZE
    ensures r == 0 ==> destination[..] == old(destination[..])
    ensures r != 0 ==> r == PackedLength(source) <= |source| + BUFFER_PADDING && Packed(source, destination[..r])
    ensures destination[|source| + BUFFER_PADDING..] == old(destination[|source| + BUFFER_PADDING..])
  {
    hide GivesUp, Layout, Tokens, IsPacked;
    if |source| == 0 || |source| > 0xffff_ffff - 400 {
      return 0;
    }
    state.ResetTable();
    TokensSpan(source);
    var base := if |source| < 216 then 3 else 9;
    var core := CompressCore(source, destination, base, state);
    r := Seal(LEVEL, source, destination, base, core, Tokens(source), old(destination[..]));
  }

  /**
    `qlz_decompress`: any source that is readable up to its claimed compressed size, if it is compressed.
    Only the stored path can leave the source, and does so exactly when `Overreads` says.  Every stream of
    tokens that decode is unpacked, whichever compressor chose them and whatever its header says of the level.
   */
  method Decompress(source: seq<Byte>, destination: array<Byte>, state: DecompressState, ghost s: seq<Byte>,
                    ghost ts: seq<Token>)
    returns (r: nat, overread: bool)
    requires HeaderReadable(source) && (source[0] % 2 == 1 ==> SizeCompressed(source) <= |source|)
    requires SizeDecompressed(source) <= destination.Length && SizeDecompressed(source) < TWO32
    requires state.offset.Length == HASH_VALUES
    modifies destination, state.offset
    ensures overread <==> Overreads(source)
    ensures !overread ==> r == 0 || r == SizeDecompressed(source)
    ensures destination[SizeDecompressed(source)..] == old(destination[SizeDecompressed(source)..])
    ensures Packed(s, source) ==> !overread && r == |s| && destination[..r] == s
    ensures source[0] % 2 == 1 && EncodedBy(source, s, ts) && |s| == SizeDecompressed(source) ==>
              r == |s| && destination[..r] == s
    ensures source[0] % 2 == 0 && !overread ==>
              r == SizeDecompressed(source) && destination[..r] == source[SizeHeader(source)..SizeHeader(source) + r]
  {
    hide GivesUp, Layout, Tokens, Decodes;
    ghost var own := Packed(s, source);
    if own {
      PackedFields(LEVEL, s, Tokens(s), source);
    }
    if source[0] % 2 == 1 {
      if own {
        PackedDecodes(s, source);
      }
      r := DecompressCore(source, destination, SizeDecompressed(source), state, s, if own then Tokens(s) else ts);
      overread := false;
    } else {
      r, overread := CopyStored(source, destination);
    }
  }

  /** Decompressing what was compressed gives the input back, whatever all four buffers held before. */
  method RoundTrip(s: seq<Byte>, packed0: seq<Byte>, plain0: seq<Byte>, entries0: seq<HashEntry>, offsets0: seq<int>)
    returns (t: seq<Byte>)
    requires 0 < |s| <= MAX_SIZE
    requires |packed0| == |s| + BUFFER_PADDING && |plain0| == |s|
    requires |entries0| == HASH_VALUES && |offsets0| == HASH_VALUES
    ensures t == s
  {
    hide GivesUp, Layout, Tokens, IsPacked;
    var packed := new Byte[|packed0|](i requires 0 <= i < |packed0| => packed0[i]);
    var plain := new Byte[|plain0|](i requires 0 <= i < |plain0| => plain0[i]);
    var enc := new CompressState(entries0);
    var dec := new DecompressState(offsets0);
    var r := Compress(s, packed, enc);
    PackedFields(LEVEL, s, Tokens(s), packed[..r]);
    var n, overread := Decompress(packed[..r], plain, dec, s, Tokens(s));
    t := plain[..n];
  }
}
