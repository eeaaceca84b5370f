# Verified models of the codec, flashing, sorting, parsing and random number cores

A Dafny project that models five parts of the firmware repository and proves what they are relied on
for.  Code that changes buffers, flash, lists or `argv` in place is modelled by classes and arrays
with methods that do the same; every method is proved against a function or predicate whose
properties are then proved as lemmas.

**QuickLZ** (`Words`, `QlzFormat`, `QlzParse`, `QlzOutput`, `QlzCompress`, `QlzDecompress`,
`QlzPacked`, `Quicklz`, `QlzFile`, `QlzSample`, and for level 3 `QlzLevel3`, `QlzLevel3Parse`,
`QlzLevel3Compress`, `QlzLevel3Decompress`, `QuicklzLevel3`).  At level 1, as the repository builds
it, a match is written as a hash slot number; the decompressor rebuilds the hash table from its own
output and runs behind while it copies literals.  `QlzParse` gives the compressor's decisions as a
function of the input and proves that the two tables agree wherever a match is taken.  `QlzOutput`
builds a stream for any plan of tokens and decides when to give up; `QlzCompress` and
`QlzDecompress` are the two cores over byte arrays; `QlzPacked` adds headers and the stored path,
`QlzFile` the block framing of the sample program, `QlzSample` one input and its packed bytes.
Level 3 writes distances in five forms and searches 16 positions for each slot; its decisions are a
function of the input too.  Leftover contents of states and buffers are arbitrary throughout.

**The OTA flasher** (`IoBuffer`, `NorFlash`, `NorErase`, `NorWriter`, `NorFaults`, `Nand`, `Persistent`,
`Entries`, `RunLog`, `Boards`, `Upgrade`).  Flash has its real semantics: programming only clears
bits, erasing sets whole blocks to 0xff, and every operation may fail and leave anything behind; a NOR
device may also have no other faults than given cells that cannot be programmed, a NAND chip no others
than worn-out blocks and given blocks that cannot be programmed.
`NorFlash.Device` also records whether a cell was ever programmed without being erased, and
`Nand.Chip` which blocks are worn out.  `Upgrade` is the whole run with both devices and the
persistent memory of the "doing" flag and the version; a log of events says what a reset could find
at each point.

**The list sort** (`GList`), **the option parser** (`GetOpt`) and **the random numbers**
(`MersenneTwister`, bit vectors of 32 bits).  `GetOpt.Scan` is a one-pass reference that never moves
a word; the parser, which rotates blocks of `argv` from call to call, is proved to refine it, as
guideline 9 in section 12.2 of POSIX.1-2017 XBD wants options in front of operands.  The twister is
compared with the recurrence in section 26.5.3.2 of ISO/IEC 14882:2011.

## Findings

| finding | source | stated by |
|---|---|---|
| The erase loop of the NOR writer passes erase-block numbers to a page read. The rest of a partition is erased if and only if the second buffer holds a programmed cell behind the probed pages, or every whole window of the rest is blank or its probe shows a programmed cell outside the windows erased before: always when pages are as large as erase blocks, not always otherwise. | components/hcfota/source/hcfota.c:1185-1187 | `NorWriter.WriteMtdNor`, `NorErase.NoneSkippedExactly`, `NorWriter.EqualUnitsErase`; counterexample `NorWriter.SmallPagesMaySkip`, `NorWriter.SmallPagesSkip` |
| The tail and the remainder erase a whole buffer window and only then program back what lies behind the partition, so an error there may lose programmed cells in erase blocks that the partition does not meet. Some failing program does, for an image that can be read, if and only if the last window is rewritten (bytes of the image go to it, or its cells inside the partition are not blank) and holds a programmed cell behind the partition's erase blocks. A window ends with those blocks if and only if they end with the device or the partition behind its first block takes up as much in whole buffers as in whole erase blocks. | components/hcfota/source/hcfota.c:1121-1138 | `NorFaults.SafeBehind`, `NorFaults.LoseCells`, `NorFaults.ReachIsBlocks`; counterexample `NorFaults.NeighbourLost` |
| A NAND entry whose blocks are all bad or worn out counts as successful: the writer returns 0, which is taken for success. | components/hcfota/source/hcfota.c:1518-1520 | `Boards.UpgradeNand`; counterexample `Boards.LostEntry` |
| With `ignore_version_update` the "doing" flag stays set after a successful upgrade, although components/hcfota/source/hcfota.h:147-148 lets it change back when the upgrade is finished: persistent memory refuses to be written once it has been marked invalid. It is cleared exactly after success without that header field. | components/hcfota/source/hcfota.c:1581-1582 | `Upgrade.Internal` (`Upgrade.Settled`), `Persistent.PersistentMemory.SetDoing`; counterexample `Upgrade.FlagStays` |
| For an empty file the sample compressor divides by the file size when it prints the ratio, before it returns; for no other file. | components/quicklz/source/quicklz_sample.c:119-120 | `QlzFile.CompressFile`, `QlzFile.FileRoundTrip` |
| The sample decompressor answers the empty framed file with -1. | components/quicklz/source/quicklz_sample.c:154-159 | `QlzFile.DecompressFile` |
| It reads a block of any size into a buffer of 4496 bytes. A file is read over the end of that buffer if and only if the first of its blocks that does not fit (its size fits no `int`, or its bytes in the file exceed the buffer, or its claims exceed the buffers) is one with more bytes in the file; the compressor's own files have no such block. | components/quicklz/source/quicklz_sample.c:184-191 | `QlzFile.DecompressFile` (`QlzFile.FileFate`), `QlzFile.FramedIsRead`; counterexample `QlzFile.LongBlock` |
| The stored path of `qlz_decompress` copies the claimed plain size without a look at the source, in spite of the promise at components/quicklz/source/quicklz.h:49-51. It leaves the source if and only if header and plain size together exceed it. | components/quicklz/source/quicklz.c:831-834 | `Quicklz.Decompress`, `QuicklzLevel3.Decompress3`; counterexample `QlzPacked.ShortStoredOverreads` |

## Model

| member | source | states |
|---|---|---|
| Words.FastWrite | components/quicklz/source/quicklz.c:140-183 | `fast_write` stores exactly the low bytes of the word, least significant first, and changes no other byte |
| Words.ReadWritten | components/quicklz/source/quicklz.c:108-130 | a word that fits is read back unchanged from the bytes it was written to |
| Words.ValueInjective | components/quicklz/source/quicklz.c:108-130 | two fetches of the same width are equal only if the bytes are: a cached fetch identifies its three bytes |
| QlzFormat.ControlWordForm | components/quicklz/source/quicklz.c:270-294 | shifting 31 bits in at the top leaves, after k tokens, their flags in order above one sentinel bit with zeros below it |
| QlzFormat.ControlWordFull | components/quicklz/source/quicklz.c:282-292 | the lowest bit of the control word is set exactly when 31 tokens are in it, and the flags then stand above it |
| QlzFormat.LayoutAppend | components/quicklz/source/quicklz.c:288-292 | a stream whose groups are full continues with the layout of the tokens that follow |
| QlzFormat.LayoutLength | components/quicklz/source/quicklz.c:285-292 | a stream costs its payload and four bytes for every started group of 31 tokens |
| QlzFormat.PayloadLength | components/quicklz/source/quicklz.c:318-371 | no token takes more bytes than it stands for, and none more than four |
| QlzFormat.MatchWord | components/quicklz/source/quicklz.c:348-357 | the word of a match: two bytes below length 18, else three; length less two or zero in the low nibble, the slot in the next twelve bits, a long length in the third byte |
| QlzParse.MatchLengthAt | components/quicklz/source/quicklz.c:315-346 | the length of a match: at least 3, equal bytes throughout, and not extensible within 255 and four bytes of the end |
| QlzParse.HashBits | components/quicklz/source/quicklz.c:99-106 | the slot number bit by bit: each of its twelve bits differs from the bit of the three bytes exactly when the bit twelve places higher is set |
| QlzParse.PoorMeaning | components/quicklz/source/quicklz.c:284-286 | the ratio is poor when more than half is read and less than a whole 1/32 of that is saved |
| QlzParse.NearSlot | components/quicklz/source/quicklz.c:313-313 | in a run of literals the decompressor's slot for the next position is the one three positions back |
| QlzParse.TablesAgreeAtMatch | components/quicklz/source/quicklz.c:603-618 | table synchronisation: at every match the decompressor's slot was written in this call, lies three or more bytes back, is the compressor's position or the one three back in the same run, and leads to the same bytes |
| QlzParse.LiteralInStep | components/quicklz/source/quicklz.c:694-707 | a literal keeps the two hash tables at most two unhashed positions apart |
| QlzParse.MatchInStep | components/quicklz/source/quicklz.c:687-690 | a match makes the two hash tables equal again although the positions inside it are never hashed |
| QlzParse.ParseDecodes | components/quicklz/source/quicklz.c:233-262 | from any position where the tables are in step, every token the compressor chooses is decoded to the right bytes by the decompressor's own table |
| QlzParse.TokensDecode | components/quicklz/source/quicklz.c:264-374 | the compressor's tokens for any input decode to that input, starting from an empty table |
| QlzCompress.CompressState.ResetTable | components/quicklz/source/quicklz.c:73-84 | offsets become null, cached fetches keep whatever they held |
| QlzCompress.SameBytes | components/quicklz/source/quicklz.c:64-71 | `same` answers whether n + 1 bytes in a row are equal, without reading beyond them |
| QlzCompress.Probe | components/quicklz/source/quicklz.c:300-313 | a match is taken exactly when the slot was written in this call, its three bytes are equal and it is far enough back or inside a run; the slot then holds this position |
| QlzCompress.FindMatchLength | components/quicklz/source/quicklz.c:315-346 | the nested tests and the loop measure the longest match within 255 bytes and four bytes of the end |
| QlzCompress.EmitNext | components/quicklz/source/quicklz.c:300-373 | one round writes the bytes of the one token the plain bytes determine, and keeps fetch, literal count and table |
| QlzOutput.FlushOrGiveUp | components/quicklz/source/quicklz.c:282-294 | a full control word is stored behind the earlier groups, unless the ratio is poor past half way, which is the giving-up condition |
| QlzCompress.CompressMain | components/quicklz/source/quicklz.c:275-374 | the main loop stops where no match may start any more or gives up, with the output so far laid out |
| QlzCompress.CompressTail | components/quicklz/source/quicklz.c:517-550 | the literal tail never gives up and adds at most one control word |
| QlzOutput.ShiftIntoPlace | components/quicklz/source/quicklz.c:552-555 | shifting to the sentinel leaves the flags of a partly filled group |
| QlzCompress.CompressCore | components/quicklz/source/quicklz.c:264-559 | returns 0 exactly when some flush finds the ratio poor; otherwise writes the layout of the input's tokens, returns its length or 9, never writes beyond size + 142 and changes nothing behind its result |
| QlzDecompress.Refill | components/quicklz/source/quicklz.c:581-589 | reading a control word opens the next group of 31 tokens or fewer |
| QlzDecompress.TakeToken | components/quicklz/source/quicklz.c:598-618 | the lowest control bit is the flag of the next token, whose bytes come next |
| QlzDecompress.MatchFields | components/quicklz/source/quicklz.c:604-618 | both match forms give back slot, length and width |
| QlzDecompress.BitlutCounts | components/quicklz/source/quicklz.c:570-570 | the table counts the clear bits below the lowest set one, four at most |
| QlzDecompress.LiteralRun | components/quicklz/source/quicklz.c:694-707 | taking several literals at once with one batch of hashing is the same as taking them one by one |
| QlzDecompress.UpdateHashUpto | components/quicklz/source/quicklz.c:253-262 | exactly the positions after the last hashed one up to the limit are entered, later ones winning |
| QlzDecompress.MemcpyUp | components/quicklz/source/quicklz.c:211-231 | the upward copy repeats overlapping bytes and touches only its target range |
| QlzDecompress.OverlapCopy | components/quicklz/source/quicklz.c:684-685 | copying from inside the output, even overlapping, reproduces the plain bytes |
| QlzDecompress.AllowedStaysInside | components/quicklz/source/quicklz.c:676-681 | the unsigned subtraction in the length guard never lets a match end closer than four bytes to the end |
| QlzDecompress.CopyMatch | components/quicklz/source/quicklz.c:603-690 | for every slot contents and length field: rejected exactly by the two guards, else copied inside the claimed output, with the table advanced to the match |
| QlzDecompress.CopyLiterals | components/quicklz/source/quicklz.c:694-707 | four bytes are written, as many kept as there are literals, and hashing stays three bytes behind |
| QlzDecompress.CopyTail | components/quicklz/source/quicklz.c:709-731 | the closing loop copies the remaining plain bytes of an own stream, skipping control words unread |
| QlzDecompress.DecompressCore | components/quicklz/source/quicklz.c:561-736 | total: every byte string readable up to its claimed length is decoded to an end without a read beyond it or a write beyond the claimed size; own streams are never rejected and give the plain bytes back |
| QlzPacked.HeaderFields | components/quicklz/source/quicklz.c:186-209 | the size functions read back exactly what either header width stores, and the first byte tells compressed from stored |
| QlzPacked.FirstByteBits | components/quicklz/source/quicklz.c:795-814 | the first byte bit by bit: 0, 1, no streaming, the level, nine-byte header from 216 bytes on, compressed |
| QlzPacked.ShortFits | components/quicklz/source/quicklz.c:747-750 | one-byte headers never truncate: below 216 bytes the packed size fits in a byte |
| QlzPacked.CompressedSizeBound | components/quicklz/source/quicklz.h:57-58 | for either level: what is not given up on grows by at most 142 bytes, so the packed size stays within size + 400 |
| QlzPacked.PackedFields | components/quicklz/source/quicklz.c:186-209 | the size functions applied to a packed buffer of either level return its packed size and the input size, and the stored path stays inside it |
| QlzPacked.Seal | components/quicklz/source/quicklz.c:757-816 | the stored form when the core gave up, then the header: the packed form stands at the start of the destination and nothing is touched beyond size + 400 |
| QlzPacked.CopyStored | components/quicklz/source/quicklz.c:831-834 | the stored path leaves the source exactly when the header and the claimed plain size together exceed it; else it copies the bytes behind the header and nothing else |
| QlzPacked.ShortStoredOverreads | components/quicklz/source/quicklz.c:831-834 | a three-byte source, readable up to its claimed size, that the stored path reads beyond |
| Quicklz.PackedDecodes | components/quicklz/source/quicklz.c:557-558 | a packed buffer meets what the decompressor needs, padding to nine bytes included |
| QlzPacked.WriteHeader | components/quicklz/source/quicklz.c:795-810 | the flag and size bytes are written in front and nothing else changes |
| Quicklz.Compress | components/quicklz/source/quicklz.c:738-816 | 0 exactly for empty or oversized input; else the packed form, compressed or stored, with nothing touched beyond size + 400 |
| Quicklz.Decompress | components/quicklz/source/quicklz.c:818-856 | for every source readable up to its claimed compressed size: only the stored path can leave it, and does if and only if the claimed plain size does not fit, else it copies the bytes behind the header; a compressed source gives 0 or the claimed size and nothing is written beyond it; every stream of tokens that decode is unpacked, and so is every packed form |
| Quicklz.RoundTrip | components/quicklz/source/quicklz.c:738-856 | decompressing what was compressed gives the input back, for every input within the size limit and any leftover contents of states and buffers |
| QlzSample.SampleTokens | components/quicklz/source/quicklz.c:270-374 | the tokens of 'abc' ten times: three literals, a match of 23 bytes with slot 0x457, four literals |
| QlzSample.SamplePacked | components/quicklz/source/quicklz.c:738-816 | every packed form of that input begins with the same 17 bytes, which are given |
| QlzSample.CompressSample | components/quicklz/source/quicklz.c:738-816 | the compressor makes exactly those bytes of it, whatever state and buffer held before |
| QlzFile.BlockSizeBack | components/quicklz/source/quicklz_sample.c:105-109 | the four big-endian header bytes give the block size back |
| QlzFile.FirstFrame | components/quicklz/source/quicklz_sample.c:180-191 | the next frame of a framed file fits the reader's 4096 + 400 buffer and holds the next block packed |
| QlzFile.CompressFile | components/quicklz/source/quicklz_sample.c:86-120 | the output is the frames of the file's blocks in order; the ratio printed at the end divides by zero if and only if the file is empty |
| QlzFile.FramedIsRead | components/quicklz/source/quicklz_sample.c:180-196 | what the compressor has framed is read to its end, whatever header came before |
| QlzFile.LongBlock | components/quicklz/source/quicklz_sample.c:184-189 | a block one byte longer than the reader's buffer is read over its end |
| QlzFile.OverflowByte | components/quicklz/source/quicklz_sample.c:184-184 | a block size fits no `int` exactly when its first byte is 128 or more |
| QlzFile.DecompressFile | components/quicklz/source/quicklz_sample.c:151-196 | for every file: -1 and no output for four bytes or fewer, else 0 unless the first block that does not fit ends it: one whose size overflows an `int`, whose bytes leave the buffer or whose claims exceed the buffers, short reads at the end of the file included; the compressor's own files are read to their end and give the plain file |
| QlzFile.FileRoundTrip | components/quicklz/source/quicklz_sample.c:86-196 | every file survives framing and codec except the empty one, for which the compressor divides by zero before it returns |
| QlzLevel3.FieldsOfWord | components/quicklz/source/quicklz.c:448-477 | whatever bytes follow, the five match forms are told apart and give back distance, length and width, for every length 3..255 and distance 3..131070 |
| QlzLevel3.FarFields | components/quicklz/source/quicklz.c:640-671 | four bytes fetched at a match decode to it |
| QlzLevel3Parse.BestIsBest | components/quicklz/source/quicklz.c:383-427 | of the matches that a slot's valid entries offer, none is longer than the chosen one, or as long and nearer; and the chosen one is offered |
| QlzLevel3Parse.Parse3Decodes | components/quicklz/source/quicklz.c:375-515 | the level 3 tokens, a function of the plain bytes alone, decode to them from any position and whatever was entered before |
| QlzLevel3Parse.EntryAfter | components/quicklz/source/quicklz.c:428-430 | entering a position replaces the oldest of the 16 entries and keeps the others, also after the counter byte has wrapped |
| QlzLevel3Compress.BucketState.ResetTable | components/quicklz/source/quicklz.c:73-84 | only the counters are cleared, the positions are left over |
| QlzLevel3Compress.BucketState.Insert | components/quicklz/source/quicklz.c:428-430 | the new position goes over the oldest entry of its slot, every other entry and counter is kept, and the buckets go on holding the last 16 positions entered into each slot, also after the counter byte has wrapped |
| QlzLevel3Compress.OfferedLength | components/quicklz/source/quicklz.c:412-414 | the length loop measures the longest match an entry offers |
| QlzLevel3Compress.BestMatch | components/quicklz/source/quicklz.c:383-427 | the search over the array finds the best of the matches that the slot's valid entries offer |
| QlzLevel3Compress.WriteFar | components/quicklz/source/quicklz.c:448-477 | the bytes written are those of the match, in the form its length and distance choose |
| QlzLevel3Compress.EmitToken3 | components/quicklz/source/quicklz.c:376-485 | one round writes the bytes of the one token the plain bytes determine, the best match or a literal when there is none or it is farther than 131070 bytes, and enters every position it covers |
| QlzLevel3Compress.CompressCore3 | components/quicklz/source/quicklz.c:375-559 | as at level 1: returns 0 exactly when some flush of the input's level 3 tokens finds the ratio poor; otherwise writes their layout, returns its length or 9 and writes nothing beyond it or beyond size + 142 |
| QlzLevel3Decompress.LiteralRunFar | components/quicklz/source/quicklz.c:694-704 | clear control bits announce as many plain bytes |
| QlzLevel3Decompress.CopyFar | components/quicklz/source/quicklz.c:639-685 | for every fetched word: rejected exactly by the two guards, else copied inside the claimed output |
| QlzLevel3Decompress.DecompressCore3 | components/quicklz/source/quicklz.c:577-735 | total on every readable source; own level 3 streams are never rejected and give the plain bytes back |
| QuicklzLevel3.Compress3 | components/quicklz/source/quicklz.c:738-816 | the same contract as at level 1, with level 3 tokens |
| QuicklzLevel3.Decompress3 | components/quicklz/source/quicklz.c:818-856 | the same contract as at level 1, for level 3 streams and packed forms |
| QuicklzLevel3.RoundTrip3 | components/quicklz/source/quicklz.c:738-856 | the level 3 round trip, for every input and any leftover buckets and counters |
| IoBuffer.Buffer.Fill | components/hcfota/source/hcfota.c:205-226 | the window is refilled from the reading position; it stays empty only at the end of the image or without a source |
| IoBuffer.Buffer.Seek | components/hcfota/source/hcfota.c:196-203 | moving the window keeps it a true part of the image, or empties it |
| IoBuffer.Buffer.Read | components/hcfota/source/hcfota.c:188-240 | whatever was read before, the result is the image's bytes at the offset, as many as asked for unless the image ends, also when the source gives short reads; a buffer without a source gives none |
| NorWriter.RewriteBlock | components/hcfota/source/hcfota.c:1020-1046 | erasing a block, programming its new front and restoring what lies behind the partition programs erased cells only and changes nothing else |
| NorWriter.LeadingFragment | components/hcfota/source/hcfota.c:998-1066 | the leading fragment advances the image by what fits into its erase block, whose other cells are kept, and leaves those image bytes in the second buffer |
| NorWriter.ChunkStep | components/hcfota/source/hcfota.c:1069-1117 | a full chunk is written, or left when the flash already holds it; the second buffer then holds what stood there before |
| NorWriter.FullChunks | components/hcfota/source/hcfota.c:1068-1117 | the loop writes as many full chunks as image and partition have in common, and leaves the old contents of the last one in the second buffer |
| NorWriter.TailFragment | components/hcfota/source/hcfota.c:1120-1182 | the tail fragment finishes the image and restores what lies behind the partition |
| NorWriter.Advance | components/hcfota/source/hcfota.c:1055-1060 | rewriting the next stretch with the next image bytes makes progress |
| NorWriter.LoopStartAligned | components/hcfota/source/hcfota.c:1048-1060 | the erase loop starts on an erase block, at the partition's start rounded by the leading fragment plus the image in whole buffers |
| NorErase.EraseGap | components/hcfota/source/hcfota.c:1184-1211 | the erase loop does on the device what the window function says, probe addresses included |
| NorErase.GapErasedExactly | components/hcfota/source/hcfota.c:1187-1208 | the loop leaves its range erased if and only if no window that still holds something is skipped because of the block numbers passed to the page read |
| NorErase.EqualUnitsSkipNothing | components/hcfota/source/hcfota.c:1184-1211 | with pages as large as erase blocks nothing is skipped |
| NorErase.StaleTailErases | components/hcfota/source/hcfota.c:1187-1197 | a cell behind the probed pages that is not 0xff stays in the buffer from window to window, and then every window is erased |
| NorErase.NoneSkippedExactly | components/hcfota/source/hcfota.c:1187-1208 | no window is skipped if and only if the buffer holds a programmed cell behind the probed pages, or every whole window is blank or its probe shows a programmed cell that was not erased with the windows before it, in terms of the cells before the loop |
| NorErase.EraseRemainder | components/hcfota/source/hcfota.c:1213-1249 | the last partial window is erased and what lies behind it restored, or nothing is done when its part inside is blank; on every outcome only that window is touched; when the first cell behind cannot be programmed, what lies behind is left erased |
| NorWriter.BufferSize | components/hcfota/source/hcfota.c:971-988 | the buffer is a multiple of the erase size, or there is none after one halving |
| NorFaults.BlockReach | components/hcfota/source/hcfota.c:971-974 | with a buffer of one erase block exactly the erase blocks that meet the partition are within reach |
| NorFaults.ReachIsBlocks | components/hcfota/source/hcfota.c:971-974 | a window reaches no block behind the partition's if and only if these end with the device, or the partition behind its first block fills as much in whole buffers as in whole erase blocks |
| NorFaults.SafeBehind | components/hcfota/source/hcfota.c:1120-1249 | unless the last window is rewritten and holds a programmed cell behind the partition's erase blocks, all programmed cells behind those are kept on every outcome, whatever fails |
| NorFaults.LoseCells | components/hcfota/source/hcfota.c:1120-1249 | if it is and does, one cell that cannot be programmed makes the writer return the error with a programmed cell behind the partition's erase blocks reading 0xff, for every such device, partition, image and buffer |
| NorFaults.NeighbourLost | components/hcfota/source/hcfota.c:1213-1249 | that at 4 KiB blocks, a one-block partition with one programmed cell, and one programmed cell in the second block |
| NorWriter.WriteMtdNor | components/hcfota/source/hcfota.c:954-1255 | without an error, for any alignment: the result is how much of the image fits, that much stands at the start of the partition, all outside is unchanged, and the rest is 0xff exactly when `RestErased` says so of old contents, image, sizes and initial buffer; on every outcome only the partition, its first erase block and, if it is rewritten, its last buffer window have changed, and no cell is programmed unless erased; the run succeeds when there is memory, the image can be read and nothing fails within what it may touch; when only the first cell behind the partition cannot be programmed, it fails exactly when the last window is rewritten and reaches that cell, and leaves what lies behind erased |
| NorWriter.RestExactly | components/hcfota/source/hcfota.c:1184-1211 | the condition on old contents, image and sizes is that the erase loop skips nothing |
| NorWriter.EqualUnitsErase | components/hcfota/source/hcfota.c:1184-1211 | with pages as large as erase blocks the rest of the partition is erased for every input |
| NorWriter.SmallPagesMaySkip | components/hcfota/source/hcfota.c:1185-1187 | a concrete input of the writer for which it is not, whatever the buffer holds at first: 64 KiB blocks, 256-byte pages, a blank image for the first block, a zero in the second |
| NorWriter.SmallPagesSkip | components/hcfota/source/hcfota.c:954-1255 | the writer run on that input reports success and leaves the zero |
| NorWriter.NothingToErase | components/applications/apps-spinandwr/source/main.c:772-837 | with the partition cut to the image the trailing erase loops are never entered |
| NorWriter.ProgramNor | components/applications/apps-spinandwr/source/main.c:557-843 | 0 means that exactly `[offset, offset + len)` has been replaced by the image, for any alignment; on every outcome only what is within reach has changed; -ENOMEM comes exactly without memory, and 0 when there is memory, the image can be read and nothing fails within reach |
| Nand.WriteGoodBlock | components/hcfota/source/hcfota.c:1290-1330 | a good block takes the next image bytes padded with 0xff; a failing erase retires it, costs no image byte and is no error, nor is anything when the bytes can be had and the block be programmed |
| Nand.WriteMtdNand | components/hcfota/source/hcfota.c:1257-1336 | without an error, for every pattern of bad and worn-out blocks: the good blocks of the range hold as much of the image as fits, then 0xff, and exactly the blocks whose erase failed are retired, so that nothing is stored if and only if every block of the range was bad or worn out; other blocks are untouched on every outcome; no error is returned when there is memory, the bytes that have room can be read and each block that is neither bad nor worn out can be programmed, whatever is retired on the way |
| Nand.CapacityIsHeld | components/hcfota/source/hcfota.c:1290-1330 | the room used is that of the blocks of the range that are neither bad nor worn out |
| Nand.ReadMtdNand | components/hcfota/source/hcfota.c:868-910 | the contents of the good blocks in order, or 0, which does not come of a device whose reads work unless there are none |
| Nand.WriteThenRead | components/hcfota/source/hcfota.c:868-910 | NAND round trip: when all was written, reading the range gives the image followed by 0xff only; all is written and read back when it fits and only worn-out blocks fail |
| Nand.GoodBlockSpace | components/hcfota/source/hcfota.c:760-787 | 0 for a range that is not whole blocks, else the size of its good blocks |
| Nand.RoomKept | components/hcfota/source/hcfota.c:774-784 | the room found is there as long as no block of the range goes bad |
| Nand.CheckThenWrite | components/hcfota/source/hcfota.c:799-812 | an image that passed the space check is stored whole unless an error is returned or one of the good blocks is worn out; no error is returned when the good blocks can be programmed, the image be read and memory be had |
| Nand.Chip.EraseAll | components/hcfota/source/hcfota.c:848-862 | every block that is not worn out reads 0xff afterwards, and 0 is returned exactly when none is |
| Persistent.PersistentMemory.SetDoing | components/hcfota/source/hcfota.c:677-716 | 0 means that the flag is stored, in a node made for it if there was none, and the version kept; working memory always gives 0 until it is marked invalid, and never after that; a failure leaves an existing node as it was |
| Persistent.PersistentMemory.SetVersion | components/hcfota/source/hcfota.c:284-310 | 0 means that the version is stored and the flag kept; without a node, or marked invalid, the memory stays as it is |
| Persistent.PersistentMemory.StoredVersion | components/kernel/source/drivers/base/sysdata.c:17-39 | the stored version when it can be read, and nothing else |
| Entries.StoredKept | components/hcfota/source/hcfota.c:1626-1637 | an entry that is in place, or has lost its blocks, stays so while its range does not change |
| Entries.BackedUpKept | components/hcfota/source/hcfota.c:1612-1624 | a complete backup stays complete while its new range does not change |
| Entries.PartOfBody | components/hcfota/source/hcfota.c:1501-1506 | in an image of 64 bytes of header, 1024 of payload header and a body, a stored entry's range starts with its part of the body, on either device |
| Boards.CheckBlockSpace | components/hcfota/source/hcfota.c:792-828 | an enabled entry passes if and only if there is room for it; an unknown kind never does |
| Boards.UpgradeNand | components/hcfota/source/hcfota.c:1509-1520 | unless there is an error, the result is 0 if and only if the whole part was stored or the range has lost all its blocks, which happens exactly when there are bytes to store and each block was bad or worn out; with memory, readable bytes and good blocks that can be programmed there is no error, and 0 exactly when the part fits the blocks that are left or none is left |
| Boards.LostEntry | components/hcfota/source/hcfota.c:1518-1520 | a one-block device, worn out and without any other fault, on which 0 is returned and nothing stored |
| Boards.DoUpgrade | components/hcfota/source/hcfota.c:1488-1536 | 0 means that the image part, taken from behind the two headers at its offset in the payload, is in its place, or its NAND range has lost all blocks, and only the entry's range has changed; on every outcome only what the entry reaches has; on a board without faults a part that fits and can be read gives 0 |
| Boards.DoBackup | components/hcfota/source/hcfota.c:1419-1486 | 0 means that the new range holds what the old range of the same device held before, and nothing else has changed; on a board without faults it comes exactly when the old range holds something and the new one has room for it |
| RunLog.UnderwayNext | components/hcfota/source/hcfota.c:1579-1637 | while the flag is set and no version is stored, changing flash keeps every point of the run safe |
| RunLog.Ends | components/hcfota/source/hcfota.c:1640-1647 | clearing the flag and then storing the version is safe once every enabled entry has finished |
| Upgrade.BackupNext | components/hcfota/source/hcfota.c:1612-1624 | after each backup those so far hold what their old ranges held, unless overlapping entries disturb them |
| Upgrade.Backups | components/hcfota/source/hcfota.c:1612-1624 | the loop goes on after failures, with an outcome for every enabled backup, and reports failure exactly if some enabled backup failed; otherwise every undisturbed backup is complete; without faults it fails exactly when some backup has nothing to move or no room |
| Upgrade.Upgrades | components/hcfota/source/hcfota.c:1626-1637 | goes on after failures, with an outcome for every enabled entry, and reports failure exactly if some enabled entry failed; otherwise each is in place or has lost its blocks, unless a later entry overlaps it, and undisturbed backups stay; without faults it fails exactly when some entry does not fit or cannot be read |
| Upgrade.EraseChips | components/hcfota/source/hcfota.c:1584-1593 | a NOR device that works reads 0xff throughout, and so does every NAND block that is not worn out; what is not to be erased stays |
| Upgrade.CheckAll | components/hcfota/source/hcfota.c:1595-1608 | without eMMC entries it passes exactly when every enabled entry passes the space check |
| Upgrade.Commit | components/hcfota/source/hcfota.c:1639-1649 | the flag is cleared and the version stored after success only, and neither when persistent memory has been marked invalid |
| Upgrade.MayUpgrade | components/hcfota/source/hcfota.c:1547-1572 | which check refuses a run, and with which code, the check's own buffer included |
| Upgrade.Internal | components/hcfota/source/hcfota.c:1538-1650 | flag safety: at every point of the run a cleared flag means that no flash was changed or every enabled entry finished, and the version is stored only after that; the flag is cleared exactly after success without `ignore_version_update`; an upgrade error is returned exactly when an entry was refused or failed; 0 means that image parts are in place or lost, and that undisturbed backups, on devices not erased as a whole, hold what their old ranges held when the run started; on every outcome only what enabled entries reach has changed on such devices, and no cell was programmed unless erased; every logged failure names an enabled entry, and each other error code has its condition; where whole chips were to be erased, everything out of the reach of enabled entries reads 0xff; every enabled entry was run to an outcome, or the run was refused and only erased chips; on a board without faults the run succeeds if and only if every enabled entry fits, has something to move or can be read; the version is not stored after a failure or with `ignore_version_update` |
| Upgrade.FlagStays | components/hcfota/source/hcfota.c:1581-1582 | a run without entries and with `ignore_version_update`, on working memory: it returns 0 and the flag is still set |
| GList.MergeElements | components/hc-examples/source/glist.c:404-432 | merging keeps the nodes of both lists |
| GList.MergeSorted | components/hc-examples/source/glist.c:404-432 | merging two sorted lists gives a sorted one, for every total preorder |
| GList.MergeStable | components/hc-examples/source/glist.c:413-427 | merging keeps ties in order, those of the first list in front |
| GList.MergeSortCorrect | components/hc-examples/source/glist.c:440-466 | the sorted order is a sorted permutation that keeps ties in order, for every total preorder and every length |
| GList.StableSortUnique | components/hc-examples/source/glist.c:440-466 | sorted and stable determines the result: any such order is the one computed |
| GList.TakeFirst | components/hc-examples/source/glist.c:416-426 | one round re-links the first node of one list behind the merged ones and disturbs neither remaining list |
| GList.SortMerge | components/hc-examples/source/glist.c:404-432 | in place, with any `prev` in the two heads: the nodes in merged order, linked both ways, first `prev` null |
| GList.Middle | components/hc-examples/source/glist.c:452-459 | the double-speed walk stops at the last node of the first half, for odd and even lengths |
| GList.Halve | components/hc-examples/source/glist.c:452-461 | the list is cut after its first half |
| GList.Sort | components/hc-examples/source/glist.c:440-466 | terminates and returns the nodes in merge-sort order as a well-formed list, relying on no `prev` field of its input |
| GList.SortList | components/hc-examples/source/glist.c:440-466 | from a well-formed list: well-formed, sorted, the same nodes, ties in their order |
| GetOpt.Rotate | components/liblzo/source/lzo_supp.h:2398-2414 | the one-pass swaps give `old[middle..last) + old[first..middle)` between the untouched ends and return the length moved, or do nothing and return 0 |
| GetOpt.SwapKeepsTarget | components/liblzo/source/lzo_supp.h:2404-2404 | one swap brings the array closer to the same final arrangement |
| GetOpt.ShortRuleMeaning | components/liblzo/source/lzo_supp.h:2541-2560 | a letter is an option if and only if it is no colon and occurs in the definition; the colons behind its first occurrence say whether it takes an argument |
| GetOpt.ShortStepMeaning | components/liblzo/source/lzo_supp.h:2537-2568 | return code, error, `optopt`, argument and words used of a letter in terms of the definition string: errors are unknown letters and missing arguments, an argument is the rest of the word or, if required at the word's end, the whole next word |
| GetOpt.ConfigureMeaning | components/liblzo/source/lzo_supp.h:2437-2446 | a leading '-' or '+' chooses the ordering, a ':' first or right behind it what a missing argument returns, and the letters begin behind them |
| GetOpt.FindLong | components/liblzo/source/lzo_supp.h:2482-2496 | the search loop with its two candidates finds what the lookup function says |
| GetOpt.LookupMeaning | components/liblzo/source/lzo_supp.h:2482-2496 | an option is found if and only if it is the first with that name, or the only one so abbreviated and not marked exact |
| GetOpt.LongStepMeaning | components/liblzo/source/lzo_supp.h:2480-2531 | return code, error, index, argument and words used of a long option: an unknown name, a refused argument or a missing one is an error, the argument is the text behind the separator or, if required and without one, the next word |
| GetOpt.StepProper | components/liblzo/source/lzo_supp.h:2448-2580 | every call keeps the parser's state proper: operands passed over are never options, and are rotated away only behind pending options |
| GetOpt.StepBag | components/liblzo/source/lzo_supp.h:2448-2580 | every call keeps the words, none lost and none made |
| GetOpt.StepRemaining | components/liblzo/source/lzo_supp.h:2448-2580 | a call returns the next event of the one-pass reference, and what remains is the rest of it |
| GetOpt.ScanSplits | components/liblzo/source/lzo_supp.h:2458-2463 | options with their arguments, and operands, are two subsequences of the words that together are all of them |
| GetOpt.SplitPermutes | components/liblzo/source/lzo_supp.h:2456-2457 | such a split, one part behind the other, is a permutation of the words |
| GetOpt.OperandsAreNoOptions | components/liblzo/source/lzo_supp.h:2460-2461 | unless `--` came up, no operand looks like an option |
| GetOpt.ScanAt | components/liblzo/source/lzo_supp.h:2448-2580 | from a word in front of which the pass stands, the rest is a pass of its own |
| GetOpt.OrderKept | components/liblzo/source/lzo_supp.h:2571-2576 | unless operands are passed over every word stays where it is, and the pass ends at `--`, at an operand or at the end |
| GetOpt.OperandAt | components/liblzo/source/lzo_supp.h:2571-2580 | what an operand gives in each ordering: the end, code 1 with itself, or a place behind the options |
| GetOpt.RunMeaning | components/liblzo/source/lzo_supp.h:2431-2582 | these in terms of the characters of the definition, and what a missing last argument returns |
| GetOpt.RotatedLayout | components/liblzo/source/lzo_supp.h:2456-2456 | rotating puts the pending options in front of the operands |
| GetOpt.Parser.constructor | components/liblzo/source/lzo_supp.h:2390-2397 | the initial state shows the words as still to come |
| GetOpt.Parser.SettlePending | components/liblzo/source/lzo_supp.h:2456-2463 | after the rotation and the skipping, the array holds options, operands and the rest, with the indices at the seams |
| GetOpt.Parser.ReadLetter | components/liblzo/source/lzo_supp.h:2537-2568 | one letter of a cluster: the event, the words used up and the error fields that the reference gives |
| GetOpt.Parser.NextLong | components/liblzo/source/lzo_supp.h:2480-2531 | a long option: the event and the words used up that the reference gives |
| GetOpt.Parser.ActOnWord | components/liblzo/source/lzo_supp.h:2464-2580 | end of words, `--`, option, or operand in the three orderings: array and indices follow the state machine |
| GetOpt.Parser.Next | components/liblzo/source/lzo_supp.h:2431-2582 | one call is one step of the state machine, on the array, with return code, argument, error count and offending character as the step says; after every call `argv` is a permutation of what it was |
| GetOpt.ParseAll | components/liblzo/source/lzo_supp.h:2431-2582 | calling until the end gives the returns of the reference and leaves `argv` as the words used by options in order, then the operands in order, `optind` between them; with '+' or '-' in front of the definition `argv` is unchanged, with '+' the run ends at the first operand, with '-' each operand in front of `--` comes back as code 1 with itself, otherwise operands are left behind the options; a missing last argument returns ':' exactly when a colon stands ahead |
| MersenneTwister.RandMt.constructor | components/liblzo/source/lzo_supp.h:2184-2193 | the state holds the first 624 terms and no number has been drawn |
| MersenneTwister.NextSeed | components/liblzo/source/lzo_supp.h:2189-2190 | a seeding step is that of the standard, in integers modulo 2 to the 32 |
| MersenneTwister.RandMt.Replace | components/liblzo/source/lzo_supp.h:2205-2209 | replacing a word in place, with some words new and some old, gives the next term of the recurrence |
| MersenneTwister.CodeTwists | components/liblzo/source/lzo_supp.h:2206-2209 | the masks, the exclusive or and the conditional constant are the twist of the standard |
| MersenneTwister.CodeTempers | components/liblzo/source/lzo_supp.h:2213-2214 | masking before the shifts is the tempering of the standard, which masks behind them |
| MersenneTwister.OuterShifts | components/liblzo/source/lzo_supp.h:2213-2214 | the first and the last shift are those of the standard |
| MersenneTwister.RandMt.Next | components/liblzo/source/lzo_supp.h:2198-2216 | each call returns the next tempered term, whether or not the block is renewed |
| MersenneTwister.Draw | components/liblzo/source/lzo_supp.h:2184-2216 | for every seed and n, the n-th number is the tempered (624 + n)-th term of the endless recurrence |

## Left out

- The X86X64 branches, level 2 and streaming buffers of QuickLZ: variants of the same argument.  The portable branches are modelled with 32-bit words as unbounded integers; the places where 32 bits matter are written out.
- `hash_counter` of the level 1 decompressor, which is written and never read, and pointers: positions are integers relative to their buffer, a null offset is a value of its own.
- Persistent.PersistentMemory.SetDoing: of the system data only the flag and the version are modelled, and a write that the driver refuses changes nothing.
- Device drivers, printing, progress reports, threads, and reading or writing files: devices are arrays of cells with operations that may fail, sources are byte sequences with honest readers, files are sequences of bytes.
- Read callbacks that return more than they were asked for or a negative count, and offsets that overflow 64 bits.
- Scratch buffers from `malloc` are sequences; what the second one holds when it is allocated is a parameter of `NorWriter.WriteMtdNor`, and arbitrary in a run.
- Nand.WriteMtdNand: ranges are whole erase blocks inside the device, as the check before an upgrade demands except for an empty entry, and marking a block bad always works.  Which blocks are worn out is fixed during one call and, on a chip where anything may fail, arbitrary from call to call.
- Nand.ReadMtdNand: a failed read and a range without good blocks both give 0, as in the code.
- NorWriter.WriteMtdNor: after an error under arbitrary faults nothing is stated about the cells within reach, since a failed operation may leave anything there.
- QlzFile.DecompressFile: nothing is stated about what happens once a block has left the buffers or its size has overflowed, nor about the plain bytes of a file that is not the compressor's own.
- Boards.DoBackup: old and new device of an entry are the same type; for different types components/hcfota/source/hcfota.c:1464 tests the old type in place of the new one.
- Upgrade.Internal: the bytes of the headers are not decoded and the checksum is a parameter; eMMC entries write and answer anything; entry ranges lie inside their devices and image parts start inside the image.  Flag safety needs persistent memory that works and is not marked invalid when the run starts, and that is no part of the flash that the run writes to.
- Nand.Chip.EraseAll: erasing a whole chip goes on behind a block that fails; the driver is not part of this model.
- NorWriter.ProgramNor: the mailbox that delivers the image is an image source like the others; its protocol is not part of this model.
- The drivers behind the MTD calls, the console, video, boot loader and communication code, and the LZO compression itself.
- The other list functions of components/hc-examples/source/glist.c (insertion, removal, reversal, copying) and the pointer arrays.
- Allocation of list nodes: the local node of the merge is a fresh object.
- GetOpt.Parser.Next: error texts, the stores through `flag` pointers and a `longind` that is not asked for; strings have no terminating zero, the start index lies within `argc`, and the option definitions stay the same during a run.
- The other generators of components/liblzo/source/lzo_supp.h and the 31-bit result of the twister.
