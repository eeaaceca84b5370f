/**
  `qlz_compress` and `qlz_decompress` of components/quicklz/source/quicklz.c built for level 3, and
  their round trip.
 */
module QuicklzLevel3 {
  import opened Words
  import opened QlzFormat
  import opened QlzParse
  import opened QlzDecompress
  import opened QlzLevel3
  import opened QlzLevel3Parse
  import opened QlzLevel3Compress
  import opened QlzLevel3Decompress
  import opened QlzPacked

  const LEVEL: Level := 3

  /** `p` begins with the level 3 packed form of `s`. */
  ghost predicate Packed3(s: seq<Byte>, p: seq<Byte>) {
    IsPacked(LEVEL, s, Tokens3(s), p)
  }

  ghost function PackedLength3(s: seq<Byte>): nat {
    PackedSize(|s|, Tokens3(s), !GivesUp(s, Tokens3(s)))
  }

  lemma PackedDecodes3(s: seq<Byte>, p: seq<Byte>)
    requires Packed3(s, p) && !GivesUp(s, Tokens3(s))
    ensures EncodedFar(p, s, Tokens3(s))
  {
    hide GivesUp, Layout, Tokens3, DecodesFar, HeaderReadable, SizeCompressed, SizeHeader;
    PackedFields(LEVEL, s, Tokens3(s), p);
    Tokens3Decode(s);
  }

  /** `qlz_compress` at level 3: 0 for a refused size, else the packed size, with the packed form in place. */
  method Compress3(source: seq<Byte>, destination: array<Byte>, state: BucketState) returns (r: nat)
    requires destination.Length >= |source| + BUFFER_PADDING && state.Shaped()
    modifies destination, state.offset, state.hashCounter
    ensures r == 0 <==> |source| == 0 || |source| > MAX_SIZE
    ensures r == 0 ==> destination[..] == old(destination[..])
    ensures r != 0 ==> r == PackedLength3(source) <= |source| + BUFFER_PADDING && Packed3(source, destination[..r])
    ensures destination[|source| + BUFFER_PADDING..] == old(destination[|source| + BUFFER_PADDING..])
  {
    hide GivesUp, Layout, Tokens3, IsPacked, DecodesFar;
    if |source| == 0 || |source| > 0xffff_ffff - 400 {
      return 0;
    }
    state.ResetTable();
    Tokens3Decode(source);
    var base := if |source| < 216 then 3 else 9;
    var core := CompressCore3(source, destination, base, state);
    r := Seal(LEVEL, source, destination, base, core, Tokens3(source), old(destination[..]));
  }

  /** `qlz_decompress` at level 3: as at level 1, only the stored path can leave the source. */
  method Decompress3(source: seq<Byte>, destination: array<Byte>, ghost s: seq<Byte>, ghost ts: seq<Token>)
    returns (r: nat, overread: bool)
    requires HeaderReadable(source) && (source[0] % 2 == 1 ==> SizeCompressed(source) <= |source|)
    requires SizeDecompressed(source) <= destination.Length && SizeDecompressed(source) < TWO32
    modifies destination
    ensures overread <==> Overreads(source)
    ensures !overread ==> r == 0 || r == SizeDecompressed(source)
    ensures destination[SizeDecompressed(source)..] == old(destination[SizeDecompressed(source)..])
    ensures Packed3(s, source) ==> !overread && r == |s| && destination[..r] == s
    ensures source[0] % 2 == 1 && EncodedFar(source, s, ts) && |s| == SizeDecompressed(source) ==>
              r == |s| && destination[..r] == s
    ensures source[0] % 2 == 0 && !overread ==>
              r == SizeDecompressed(source) && destination[..r] == source[SizeHeader(source)..SizeHeader(source) + r]
  {
    hide GivesUp, Layout, Tokens3, DecodesFar, EncodedFar;
    ghost var own := Packed3(s, source);
    if own {
      PackedFields(LEVEL, s, Tokens3(s), source);
    }
    if source[0] % 2 == 1 {
      if own {
        PackedDecodes3(s, source);
      }
      r := DecompressCore3(source, destination, SizeDecompressed(source), s, if own then Tokens3(s) else ts);
      overread := false;
    } else {
      r, overread := CopyStored(source, destination);
    }
  }

  /** The level 3 round trip, whatever the buffers and the buckets held before. */
  method RoundTrip3(s: seq<Byte>, packed0: seq<Byte>, plain0: seq<Byte>, leftover: (nat, nat) -> int, counts: seq<nat>)
    returns (t: seq<Byte>)
    requires 0 < |s| <= MAX_SIZE && |packed0| == |s| + BUFFER_PADDING && |plain0| == |s| && |counts| == HASH_VALUES
    ensures t == s
  {
    hide GivesUp, Layout, Tokens3, IsPacked;
    var packed := new Byte[|packed0|](i requires 0 <= i < |packed0| => packed0[i]);
    var plain := new Byte[|plain0|](i requires 0 <= i < |plain0| => plain0[i]);
    var state := new BucketState(leftover, counts);
    var r := Compress3(s, packed, state);
    PackedFields(LEVEL, s, Tokens3(s), packed[..r]);
    var n, overread := Decompress3(packed[..r], plain, s, Tokens3(s));
    t := plain[..n];
  }
}
