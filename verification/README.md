# Verified model of the cow VM's codecs, hash, heap and bytecode

A Dafny 4.11 model of the parts of the repository that move bytes about, with proofs of what
they promise. `dafny verify dfyconfig.toml` checks all of it.

| files | what they model |
|---|---|
| `Bytes`, `Radix` | bytes, shifts, little-endian loads; positional numerals and long multiplication |
| `SnappyFormat`, `SnappyFormatMeaning`, `SnappyDescription`, `SnappyVarint`, `SnappyTagTable` | the meaning of a Snappy stream: to the decoder, to the format, and laid out in numerals by sections 1, 2.1 and 2.2 of the format description; varints; the decoder's table |
| `SnappyMatch`, `SnappyCopy`, `SnappyEmit`, `SnappyFragment`, `SnappyStream`, `SnappyCompress` | the compressor: match lengths, overlapping copies, tag emitters, the match finder for any hash, sources and sinks, the block loop |
| `SnappyArrayWriter`, `SnappyScatteredWriter`, `SnappyIOVecWriter`, `SnappyWriter` | the writers and the one contract they share |
| `SnappyDecompressor`, `SnappyUncompress`, `SnappyLimits` | decoding a fragmented source, the entry points, and what no compressor can do |
| `Base58` | Base58 in both directions, in place |
| `Sha256Standard`, `Sha256` | FIPS 180-4, and the incremental implementation on a little-endian machine |
| `Sha256Constants`, `Sha256Bits`, `Sha256Example` | what fixes the standard: constants as roots of primes, functions bit by bit, the digest of abc |
| `Bech32Checksum`, `Bech32`, `Segwit`, `Bech32Examples` | BIP 173: the checksum as a linear map on 30-bit states, strings, regrouping, addresses, and its own examples |
| `Heap` | the paged first-fit and bump allocator |
| `BitStream`, `Bytecode`, `BytecodeParser`, `BytecodeReader`, `BytecodeInterpreter` | the byte stream, the compiler's emitter with back-patched lengths, a parser in the order of the interpreter, and the readers that only move through bytecode |

How to read it. A C buffer that is only read is a `seq`, one that is written is an `array`, and a
pointer into it is an index, so "writes at most that far" is checked as an index bound. Objects
with mutable fields are classes; what they mean is a ghost field or function (`contents`,
`bytes`, `message`, `Abstract`), and each method relates it before and after. A reference
definition (`Uncompressed`, `CopyFromSelf`, `Value`, `Digest`, `WellFormed`, `Means`, `Safe`,
`Code`, `Skip`) is what the code is proved against. What such a definition shares with the code is
tied down in turn by a description that shares nothing with either: the format in numerals
(`FormatAsDescribed`), roots of primes (`RoundConstantsAre`), a parser (`ParseCode`), free places
(`FirstFit`), published strings (`AbcdefDecoded`, `DigestOfAbc`). Proof bodies hide all definitions at the
start and use small named lemmas, which keeps each obligation small; a lemma called `…Facts` or
`…Is` only unfolds a definition.

Things worth knowing about the code:

- Snappy, `peeked_` has 32 bits. Of a used-up fragment of 2^32 bytes or more only the low 32 bits
  of the size are skipped, and its tail is decoded again, over and over: a decoder that has come
  upon such a fragment never reaches the end of its input (`Starve`), whichever way it goes on.
  `InternalUncompress` reports this as `stalled`, whether the code then refuses the stream or
  loops for ever. It accepts exactly the streams with a meaning on which it does not stall. It
  never does where no fragment after the header is that large, and always where the body is one
  such fragment. So the law that uncompressing undoes compressing holds for strings exactly if the
  compressed body is below 2^32 bytes. For inputs close to 2^32 bytes no compressor can achieve
  that (`SnappyLimits`).
- Snappy, a literal length field of 0xFFFFFFFF wraps round to an empty literal, where the format
  has one of 2^32 bytes. `MeaningByFormat` says exactly when that makes a difference.
- Snappy, a copy into buffers without room for it may report success; the final check of the
  length fails then (`TooLittleRoom`, `RawUncompressToIOVec`).
- Base58, the first character that is not a one is looked up in a table of 128 entries before it
  is known to be ASCII. `Decode` requires just that; later characters may be anything.
- Bech32, an empty human-readable part is encoded but never decoded. Segwit, a negative version is
  encoded by its low eight bits. Both are part of the exact conditions proved.
- The heap treats a request for no bytes as having been served at the next gap of any size, even
  on top of a live block. Live blocks stay in their pages and apart even so; but that callers hold
  exactly the live blocks is true of requests for at least one byte only.
- The compiler passes the pointer to each operand of a boolean operator where a node is expected
  (`src/compiler/Compiler.cpp`, lines 83-86 and 286-287), and a cast makes a node of it. What is
  read as the node's type is part of an address. The model takes it that this is not the number of
  a kind of node, so that the compiler throws: `a and b` cannot be compiled. skip_next has a case
  for the operator all the same. An operand that is a null pointer would be read as type 0, which
  is a kind of node (`thirdparty/libpypa/src/pypa/ast/ast_type.inl`, line 13); the parser adds only
  operands that it has parsed, so that does not come up.

## Model

| member | source | states |
|---|---|---|
| SnappyUncompress.RoundTrip | thirdparty/snappy/snappy.cc:1028-1119 | For every hash function into the table, every input of less than 2^32 bytes, in any fragments, and every fragmentation of the compressed stream into pieces of less than 2^32 bytes, compressing into a buffer of MaxCompressedLength bytes and uncompressing into a flat array succeeds and gives the input back. |
| SnappyUncompress.StringRoundTrip | thirdparty/snappy/snappy.cc:1415-1493 | Uncompress(Compress(x)) is x exactly if the body of the compressed string, without its header, is below 2^32 bytes, as it is for all x up to 6/7 of that size; otherwise the string means x and is refused, or decoded for ever. |
| SnappyUncompress.LargeBodyRefused | thirdparty/snappy/snappy.cc:930-947 | A flat string whose body has 2^32 bytes or more, whatever it means, is never accepted: however the loop goes on, eof is never set. |
| SnappyLimits.SomeBodyIsLarge | thirdparty/snappy/snappy.cc:737-756 | However strings are compressed, there is one of 2^32 - 1 bytes whose compressed body is that large, so that what the decoder refuses cannot be avoided by any compressor. |
| SnappyLimits.SomeBodyIsLonger | thirdparty/snappy/snappy.cc:797-927 | If different strings of n bytes have different bodies, each starting with a literal, some body has more than n bytes. |
| SnappyCompress.Compress | thirdparty/snappy/snappy.cc:1028-1119 | What is appended to the sink uncompresses to exactly the bytes of the source, is at most 32 + n + n/6 bytes long, leaves what was in the sink alone, and uses up the source; every write stays inside a buffer of that size. |
| SnappyUncompress.InternalUncompress | thirdparty/snappy/snappy.cc:997-1020 | For each of the four writers, and fragments of any sizes: it accepts exactly the streams that have a meaning, a function of the concatenated bytes alone, for which the writer has room and on which the decoder does not stall; on acceptance the writer holds that meaning and the source is used up. It does not stall where no fragment after the header has 2^32 bytes or more, and does where the body is one such fragment; then eof is never set, however it goes on to use its reader. |
| SnappyUncompress.RawUncompress | thirdparty/snappy/snappy.cc:1409-1413 | Into a flat array of any size that holds the promised length, and so into one of exactly that size: same verdict, same bytes. |
| SnappyUncompress.RawUncompressToIOVec | thirdparty/snappy/snappy.cc:1321-1325 | Into buffers of any sizes: accepts exactly what the others accept and the buffers together have room for, and the output fills the buffers in order. |
| SnappyUncompress.IsValidCompressed | thirdparty/snappy/snappy.cc:1468-1472 | The validator accepts exactly the streams that the storing writers accept. |
| SnappyUncompress.UncompressToSink | thirdparty/snappy/snappy.cc:1710-1740 | Block by block: same verdict, and the flushed blocks, joined, are the output. |
| SnappyUncompress.Uncompress | thirdparty/snappy/snappy.cc:1415-1430 | Sizing the string by the header first loses nothing: for bodies below 2^32 bytes the result is the meaning of the stream, or nothing where it has none; for any other body it is nothing. |
| SnappyUncompress.RawCompress | thirdparty/snappy/snappy.cc:1474-1482 | The compressed bytes mean the input to the decoder, are a stream for it as the format description has it, and fit MaxCompressedLength. |
| SnappyUncompress.Compress | thirdparty/snappy/snappy.cc:1484-1493 | The compressed string means the input to the decoder, is a stream for it as the format description has it, and is at most 32 + n + n/6 bytes long. |
| SnappyUncompress.Cut | thirdparty/snappy/snappy-sinksource.h:123-141 | Any sequence of sizes gives non-empty pieces below 2^32 bytes that join up to the stream again, as the contract of a source wants. |
| SnappyFragment.CompressFragment | thirdparty/snappy/snappy.cc:545-674 | For every hash function into the table: the emitted elements are encodable (copy offsets 1..65535, lengths 4..64), rebuild exactly the input, appended to what was there; the code is at most n + n/32 + 3 bytes; and a run of n > 16 equal bytes takes at most 2 + 3 * ((n + 62) / 64). |
| SnappyFragment.CompressLoop | thirdparty/snappy/snappy.cc:564-671 | The main loop keeps: the elements so far tile a prefix of the input, and every table entry is below the position reached. Of a run of equal bytes it makes one literal byte and one copy, whatever the hash function. |
| SnappyFragment.FindCandidate | thirdparty/snappy/snappy.cc:592-614 | The skip-accelerated scan ends; a candidate it returns is an earlier position with the same four bytes, and the table stays below the position after. It does return the first candidate, if that agrees. |
| SnappyFragment.EmitMatches | thirdparty/snappy/snappy.cc:633-662 | Copies emitted for as long as matches follow each other keep the tiling and the size budget; where the rest of the input is periodic they are one copy of all of it. |
| SnappyFragment.Rehash | thirdparty/snappy/snappy.cc:652-659 | The two positions hashed are recorded, and another match is announced exactly when the four bytes at the candidate agree. |
| SnappyFragment.MatchLength | thirdparty/snappy/snappy.cc:637-639 | Extending a four-byte match gives a length of equal bytes, all of the rest where that is periodic, and the flag for lengths below twelve. |
| SnappyFragment.EmitTileLiteral | thirdparty/snappy/snappy.cc:619-620 | A literal for bytes [from, to) extends the tiling to `to` by just that element, in one to three bytes more than it holds. |
| SnappyFragment.EmitTileCopy | thirdparty/snappy/snappy.cc:641-644 | The pieces of a copy extend the tiling by the matched length, and are just those, in fewer bytes than they cover. |
| SnappyFragment.TileLiteral | thirdparty/snappy/snappy.cc:619-620 | A literal covers the next bytes of the input once and in order. |
| SnappyFragment.TileCopy | thirdparty/snappy/snappy.cc:637-644 | A copy from equal bytes reproduces the next bytes of the input, after it has been split. |
| SnappyFragment.RunBytes | thirdparty/snappy/snappy.cc:564-671 | A literal byte and copies at offset 1 for the rest of a run take at most 2 + 3 * ((n + 62) / 64) bytes. |
| SnappyFragment.CopyBytes | thirdparty/snappy/snappy.cc:409-439 | A copy of any length takes at most three bytes for each 64 begun. |
| SnappyFragment.Uint32AtOffset | thirdparty/snappy/snappy.cc:506-515 | A shifted 64-bit load contains the 32-bit load at that offset. |
| SnappyEmit.EmitLiteral | thirdparty/snappy/snappy.cc:336-382 | The tag, length bytes and data that the format asks for, including the 16-byte over-copy that later writes cover. |
| SnappyEmit.EmitLongLength | thirdparty/snappy/snappy.cc:364-379 | The length bytes of a long literal, least significant first and without leading zeros, and their number in the tag. |
| SnappyEmit.EmitCopyAtMost64 | thirdparty/snappy/snappy.cc:384-407 | One copy element, in two bytes where offset and length allow and otherwise in three of the four stored. |
| SnappyEmit.EmitCopy | thirdparty/snappy/snappy.cc:409-439 | A copy of any length is emitted as pieces of 4..64 bytes, in fewer bytes than it covers. |
| SnappyEmit.SplitCopySize | thirdparty/snappy/snappy.cc:409-439 | The pieces are all encodable, and their code is shorter than what they copy. |
| SnappyEmit.SplitCopyIsCopy | thirdparty/snappy/snappy.cc:409-439 | The pieces, one after the other, compose to the one copy. |
| SnappyEmit.LiteralSize | thirdparty/snappy/snappy.cc:336-382 | The size of a literal element. |
| SnappyCompress.WorkingMemory.GetHashTable | thirdparty/snappy/snappy.cc:458-489 | A cleared table whose size is a power of two from 256 to 2^14. |
| SnappyCompress.HashTableSize | thirdparty/snappy/snappy.cc:464-469 | The size is the first power of two that is large enough, within the limits. |
| SnappyCompress.HashInTable | thirdparty/snappy/snappy.cc:71-75 | The multiplicative hash is one of those that hash into every table. |
| SnappyCompress.ReadBlock | thirdparty/snappy/snappy.cc:1044-1083 | The next block of the source, without copying if it is in one fragment and gathered into scratch otherwise; what remains to be skipped is pending. |
| SnappyCompress.Gather | thirdparty/snappy/snappy.cc:1071-1078 | Fragments are copied until the block is full. |
| SnappyCompress.CompressBlock | thirdparty/snappy/snappy.cc:1085-1106 | The block is compressed straight into the sink. |
| SnappyCompress.CompressNext | thirdparty/snappy/snappy.cc:1042-1111 | One turn of the block loop: header and elements so far rebuild the blocks so far, within the room that MaxCompressedLength leaves for the rest. |
| SnappyCompress.CompressBlocks | thirdparty/snappy/snappy.cc:1042-1111 | The block loop uses up the source. |
| SnappyCompress.AppendLength | thirdparty/snappy/snappy.cc:1033-1035 | The varint length comes first. |
| SnappyCompress.NextBlock | thirdparty/snappy/snappy.cc:1042-1111 | Elements that rebuild the next block by itself rebuild it after the blocks before. |
| SnappyCompress.RoomAfterBlock | thirdparty/snappy/snappy.cc:81-104 | The 32 + n + n/6 bound survives a whole block, and the last one. |
| SnappyFormat.StreamMeansData | thirdparty/snappy/snappy.cc:1028-1119 | A length header and encodable elements that rebuild some data are a stream whose meaning is the data. |
| SnappyFormatMeaning.StreamMeansByFormat | thirdparty/snappy/snappy.cc:1028-1119 | They mean the same data to the format. |
| SnappyFormatMeaning.MeaningByFormat | thirdparty/snappy/snappy.cc:877-904 | A stream means to the decoder what the format says, except where decoding meets a literal length that wraps round: then it means nothing to the format, so whatever has a meaning keeps it. |
| SnappyFormatMeaning.ElementByFormat | thirdparty/snappy/snappy.cc:877-882 | An element is read as the format says exactly if it is no literal with a length field of 0xFFFFFFFF. |
| SnappyFormatMeaning.DecodeByFormat | thirdparty/snappy/snappy.cc:849-924 | Decoding by the format fails where a length wraps round and is the same otherwise. |
| SnappyFormatMeaning.WrappingStream | thirdparty/snappy/snappy.cc:877-882 | Six bytes that the decoder takes for the empty string and the format rejects. |
| SnappyDescription.FormatAsDescribed | thirdparty/snappy/format_description.txt:18-110 | Data is what a stream means to the format exactly if the stream is a header with the length of the data and then elements, each laid out as sections 1 to 2.2 say in numerals, that produce it. |
| SnappyDescription.MeaningAsDescribed | thirdparty/snappy/snappy-internal.h:178-184 | The decoder takes a stream for some data exactly if the stream is described so and no literal length of it wraps round; so each of the four tag numbers, each field and each byte order is that of the description. |
| SnappyDescription.ElementAsDescribed | thirdparty/snappy/format_description.txt:38-110 | An element is read at the front of a stream exactly if the first bytes are laid out as one: 4(n - 1) and n bytes, 4(59 + k) and k bytes of length, 1 + 4(n - 4) + 32(o div 256) and o mod 256, 2 + 4(n - 1) and two bytes, 3 + 4(n - 1) and four. |
| SnappyDescription.HeaderAsDescribed | thirdparty/snappy/format_description.txt:20-25 | A header is read exactly if each byte but the last is 128 or more; its value is the sum of seven bits a byte, the least significant first. |
| SnappyDescription.DecodeAsDescribed | thirdparty/snappy/format_description.txt:28-110 | Decoding from any output reached so far gives what elements that follow each other produce, if that is within the limit. |
| SnappyDescription.StreamsWithCopies | thirdparty/snappy/snappy-internal.h:181-184 | A stream for each kind of copy that stands for aaaaa. |
| SnappyDescription.StreamsWithLiterals | thirdparty/snappy/format_description.txt:46-59 | A stream for each way to give the length of a literal. |
| SnappyDescription.HeaderOf300 | thirdparty/snappy/format_description.txt:20-25 | The length 300 is AC 02. |
| SnappyFormat.DecodeEncoded | thirdparty/snappy/snappy.cc:336-439 | Decoding what was written applies the elements in order and goes on with what follows. |
| SnappyFormat.ParseEncoded | thirdparty/snappy/snappy.cc:336-439 | Every written element is read back as itself, whatever follows. |
| SnappyFormat.ApplyAllWithPrefix | thirdparty/snappy/snappy.cc:1042-1111 | Copies never reach before their own block, so a block decodes the same after other output. |
| SnappyFormat.ApplyAllAppend | thirdparty/snappy/snappy.cc:849-924 | Elements apply in order. |
| SnappyFormat.ParseElement | thirdparty/snappy/snappy.cc:849-924 | The first element of a stream takes between one byte and all of it. |
| SnappyCopy.IncrementalCopy | thirdparty/snappy/snappy.cc:170-332 | For all src < op <= op_limit <= buf_limit: the bytes up to op_limit are those of the byte-at-a-time overlapping copy, and nothing at or past buf_limit changes. |
| SnappyCopy.IncrementalCopySlow | thirdparty/snappy/snappy.cc:136-148 | The byte loop gives the overlapping copy and changes nothing past op_limit. |
| SnappyCopy.ExpandPattern | thirdparty/snappy/snappy.cc:251-261 | Doubling the pattern keeps the copy periodic and makes its period at least eight. |
| SnappyCopy.CopyBlocks | thirdparty/snappy/snappy.cc:277-332 | Sixteen bytes at a time, with a period of at least eight, extend the periodic copy. |
| SnappyCopy.UnalignedCopy64 | thirdparty/snappy/snappy.cc:109-114 | Eight bytes are read before any is written. |
| SnappyCopy.CopyRepeats | thirdparty/snappy/snappy.cc:136-148 | The overlapping copy is the one continuation that repeats with its offset as period. |
| SnappyCopy.CopyCompose | thirdparty/snappy/snappy.cc:136-148 | Copying m and then n bytes is copying m + n. |
| SnappyCopy.CopyReproduces | thirdparty/snappy/snappy.cc:545-674 | Where the source of a copy equals what comes next in the data, copying continues the data. |
| SnappyMatch.FindMatchLength | thirdparty/snappy/snappy-internal.h:86-144 | The length of the longest common prefix within the limit, and whether it is below eight, eight bytes at a time. |
| SnappyMatch.FindMatchLengthPortable | thirdparty/snappy/snappy-internal.h:146-172 | The same, four bytes at a time. |
| SnappyMatch.MatchLengthUnique | thirdparty/snappy/snappy-internal.h:86-172 | There is one such length, so the two versions agree. |
| SnappyMatch.MismatchedWord | thirdparty/snappy/snappy-internal.h:115-129 | The trailing zeros of the exclusive or of two different words, divided by eight, count the equal bytes before the first different one. |
| SnappyMatch.TrailingZerosOfXor | thirdparty/snappy/snappy-internal.h:124-126 | The trailing zeros of a ^ b count the low bits in which a and b agree. |
| SnappyMatch.FindLSBSetNonZero | thirdparty/snappy/snappy-stubs-internal.h:432-446 | The bisecting loop finds the number of trailing zeros of a non-zero word. |
| SnappyMatch.FindLSBSetNonZero64 | thirdparty/snappy/snappy-stubs-internal.h:450-462 | So do its two halves for a 64-bit word. |
| SnappyMatch.Log2Floor | thirdparty/snappy/snappy-stubs-internal.h:412-430 | The bisecting loop finds the position of the highest bit, and -1 for zero. |
| SnappyVarint.Encode32 | thirdparty/snappy/snappy-stubs-internal.h:531-567 | The bytes of the unrolled cases are those of the recursive encoding. |
| SnappyVarint.Parse32WithLimit | thirdparty/snappy/snappy-stubs-internal.h:490-529 | The unrolled parser reads the value and size of a varint, and fails where it is cut short or does not fit 32 bits. |
| SnappyVarint.ParseEncodedVarint | thirdparty/snappy/snappy-stubs-internal.h:490-567 | Parsing an encoded number gives it back with its size, whatever follows. |
| SnappyVarint.ParseVarintBound | thirdparty/snappy/snappy-stubs-internal.h:490-529 | A parsed value is below 2^32. |
| SnappyStream.Source.Peek | thirdparty/snappy/snappy-sinksource.h:123-136 | The fragment is a prefix of what is left, and empty only at the end. |
| SnappyStream.Source.Skip | thirdparty/snappy/snappy-sinksource.h:138-141 | Skipping any number of bytes, across fragments, drops them from the front. |
| SnappyStream.Source.Available | thirdparty/snappy/snappy-sinksource.h:120-121 | The number of bytes that are left, over all fragments. |
| SnappyStream.UncheckedByteArraySink.Append | thirdparty/snappy/snappy-sinksource.h:165-180 | The data is appended, without copying if it is in place already. |
| SnappyDecompressor.SnappyDecompressor.DecompressAllTags | thirdparty/snappy/snappy.cc:801-927 | The loop stops with eof set, the whole rest decoded into the writer and the source used up, or without eof, and then the rest has no meaning. |
| SnappyDecompressor.SnappyDecompressor.DecompressTag | thirdparty/snappy/snappy.cc:849-924 | One turn: one element is applied and the next tag is available, or the verdict stands. |
| SnappyDecompressor.SnappyDecompressor.RefillTag | thirdparty/snappy/snappy.cc:930-995 | The next tag and trailer are made contiguous, with five readable bytes, and nothing is lost or repeated; it fails only at the end of the input, which sets eof, or inside a tag; unless the decoder has come upon a fragment of 2^32 bytes or more, and then it is stuck. |
| SnappyDecompressor.SnappyDecompressor.Stitch | thirdparty/snappy/snappy.cc:955-978 | A tag that is spread over fragments is completed in scratch; this fails only at the end of the input or at a fragment whose size is a multiple of 2^32. |
| SnappyDecompressor.SnappyDecompressor.MoveToScratch | thirdparty/snappy/snappy.cc:979-988 | Fewer than five bytes are moved where five may be read. |
| SnappyDecompressor.SnappyDecompressor.NextFragment | thirdparty/snappy/snappy.cc:933-944 | Advances the reader by the low 32 bits of the size that was peeked, and peeks again; a fragment below 2^32 bytes leaves the rest of the input the same, and with any other the decoder is stuck. |
| SnappyDecompressor.SnappyDecompressor.AdvancesOver | thirdparty/snappy/snappy.cc:936-939 | The reader is advanced over the whole of a used-up fragment exactly if its size is below 2^32. |
| SnappyDecompressor.SnappyDecompressor.Starve | thirdparty/snappy/snappy.cc:839-995 | Once the decoder is stuck at a fragment of 2^32 bytes or more, or about to peek at one, then in any sequence of refills and next fragments eof is never set. |
| SnappyDecompressor.SnappyDecompressor.PullBytes | thirdparty/snappy/snappy.cc:966-973 | At most the wanted bytes of the next fragment go to scratch; none exactly if its size is a multiple of 2^32. |
| SnappyDecompressor.SnappyDecompressor.MaybeRefill | thirdparty/snappy/snappy.cc:839-846 | With five bytes left there is no need to refill; otherwise the next tag is made available, or the input is used up, cut short, or never to be used up. |
| SnappyDecompressor.SnappyDecompressor.FastLiteral | thirdparty/snappy/snappy.cc:867-876 | When the writer takes a literal early, five bytes are left after it, which is enough for any next tag. |
| SnappyDecompressor.SnappyDecompressor.LiteralElement | thirdparty/snappy/snappy.cc:865-906 | A literal of any length, with its wrapped length field, is applied or rejected as the meaning of the stream has it. |
| SnappyDecompressor.SnappyDecompressor.AppendLiteral | thirdparty/snappy/snappy.cc:885-904 | A literal is appended across fragments, and fails exactly if it is too long for the output or the input. |
| SnappyDecompressor.SnappyDecompressor.CopyElement | thirdparty/snappy/snappy.cc:907-923 | The table entry and trailer give the offset and length of the format. |
| SnappyDecompressor.SnappyDecompressor.ReadUncompressedLength | thirdparty/snappy/snappy.cc:766-793 | Byte by byte over fragments, it reads what Parse32WithLimit reads. |
| SnappyDecompressor.LiteralStep | thirdparty/snappy/snappy.cc:865-906 | What a literal contributes to decoding, and when it ends it. |
| SnappyDecompressor.LostBits | thirdparty/snappy/snappy.cc:783-784 | The shift test fails exactly for a fifth byte of sixteen or more. |
| SnappyTagTable.TableMatchesFormat | thirdparty/snappy/snappy-internal.h:198-221 | Every one of the 256 entries has the length, offset bits and trailer size that its tag byte means. |
| SnappyTagTable.TableFields | thirdparty/snappy/snappy-internal.h:174-221 | Splitting an entry by shift and mask gives back the three fields. |
| SnappyWriter.Writer.Append | thirdparty/snappy/snappy.cc:695-696 | All four writers append a literal under one contract, and refuse it exactly if it does not fit; a writer without room for the expected output stays valid while it accepts. |
| SnappyWriter.Writer.AppendFromSelf | thirdparty/snappy/snappy.cc:695-697 | All four writers append a copy under one contract, and refuse it exactly for a zero or too large offset or for exceeding the expected length, provided that there is room for all of that. |
| SnappyWriter.Writer.TryFastAppend | thirdparty/snappy/snappy.cc:699-719 | A writer may decline; if it accepts, five input bytes are left and the literal has been appended. |
| SnappyWriter.Writer.CheckLength | thirdparty/snappy/snappy.cc:692-693 | The output has the expected length. |
| SnappyArrayWriter.SnappyArrayWriter.Append | thirdparty/snappy/snappy.cc:1348-1359 | Refuses exactly what does not fit, and otherwise appends. |
| SnappyArrayWriter.SnappyArrayWriter.TryFastAppend | thirdparty/snappy/snappy.cc:1361-1376 | The 16-byte copy stays within the space that is left. |
| SnappyArrayWriter.SnappyArrayWriter.AppendFromSelf | thirdparty/snappy/snappy.cc:1378-1393 | With the offset - 1 trick, refuses offsets of zero and beyond the start in one comparison. |
| SnappyArrayWriter.SnappyDecompressionValidator.Append | thirdparty/snappy/snappy.cc:1443-1447 | Counts what the array writer stores. |
| SnappyArrayWriter.SnappyDecompressionValidator.AppendFromSelf | thirdparty/snappy/snappy.cc:1449-1457 | Counts and refuses as the array writer does. |
| SnappyScatteredWriter.SnappyScatteredWriter.Append | thirdparty/snappy/snappy.cc:1542-1556 | Refuses exactly what does not fit, and otherwise appends, keeping all blocks but the last full. |
| SnappyScatteredWriter.SnappyScatteredWriter.SlowAppend | thirdparty/snappy/snappy.cc:1594-1626 | Bytes are spread over as many new blocks as they need. |
| SnappyScatteredWriter.SnappyScatteredWriter.SlowAppendFromSelf | thirdparty/snappy/snappy.cc:1628-1653 | A copy that crosses blocks, byte by byte, is the overlapping copy. |
| SnappyScatteredWriter.SnappyScatteredWriter.AppendFromSelf | thirdparty/snappy/snappy.cc:1575-1587 | Whether it copies within the block or across blocks, it is the overlapping copy. |
| SnappyScatteredWriter.SnappyScatteredWriter.Locate | thirdparty/snappy/snappy.cc:1645-1650 | Byte i of the output is at i mod 65536 in block i div 65536. |
| SnappyScatteredWriter.SnappyScatteredWriter.Flush | thirdparty/snappy/snappy.cc:1673-1686 | The blocks handed over, the last only as far as it is written, join up to the output. |
| SnappyIOVecWriter.SnappyIOVecWriter.Append | thirdparty/snappy/snappy.cc:1176-1212 | Refuses exactly what exceeds the expected length or the room in the buffers, and otherwise spreads the bytes over the buffers. |
| SnappyIOVecWriter.SnappyIOVecWriter.AppendFromSelf | thirdparty/snappy/snappy.cc:1230-1310 | Walking back to the buffer of the source and forward again, zero-sized buffers included, is the overlapping copy, if the buffers have room for it. |
| SnappyIOVecWriter.SnappyIOVecWriter.TooLittleRoom | thirdparty/snappy/snappy.cc:1172-1310 | With too little room in the buffers, whatever is appended stays inside them and the output never has the expected length. |
| SnappyIOVecWriter.SnappyIOVecWriter.Locate | thirdparty/snappy/snappy.cc:1244-1261 | The backwards walk ends at the buffer and offset of the byte at that distance. |
| SnappyIOVecWriter.SnappyIOVecWriter.ContentsArePrefix | thirdparty/snappy/snappy.cc:1128-1171 | The output is a prefix of the joined buffers. |
| Base58.RoundTrip | thirdparty/btc/base58.c:44-199 | Encoding any bytes and decoding the string into any non-empty buffer that is large enough succeeds, reports the original size and leaves the original bytes, leading zeros included, at the end of the buffer; encoding fails exactly if the string and its terminator do not fit. |
| Base58.Encode | thirdparty/btc/base58.c:156-199 | Writes a one for each leading zero byte and then the base-58 digits of the value, and a terminator; reports the size needed whether or not it fits. |
| Base58.AddByte | thirdparty/btc/base58.c:172-176 | The carry loop multiplies the number in the buffer by 256 and adds the byte, although it skips the digits left of `high`, and never runs off the left end. |
| Base58.ConvertDigits | thirdparty/btc/base58.c:167-177 | On exit the base-58 digits denote the same number as the base-256 input. |
| Base58.ScratchSuffices | thirdparty/btc/base58.c:167-169 | 256^n < 58^(138n/100 + 1) for all n: the scratch buffer is large enough. |
| Base58.RatioSuffices | thirdparty/btc/base58.c:167-169 | 256^100 <= 58^138. |
| Base58.Decode | thirdparty/btc/base58.c:44-127 | Succeeds exactly for strings of the alphabet whose value fits the buffer, fills it with that value, and reports the size without leading zero bytes but with one for each leading one; a failure changes nothing. |
| Base58.ReadDigit | thirdparty/btc/base58.c:68-93 | After each digit the words denote the digits read so far and fit the bytes of the output; a failure means that the string never will. |
| Base58.AddDigit | thirdparty/btc/base58.c:78-82 | The words are multiplied by 58 and the digit added; a carry out means that they cannot hold the product. |
| Base58.TopDecides | thirdparty/btc/base58.c:88-92 | The zero mask on the first word decides whether the value fits the buffer, for every buffer size modulo four. |
| Base58.StoreWords | thirdparty/btc/base58.c:95-113 | The bytes written denote the same number as the words. |
| Base58.EncodingMeans | thirdparty/btc/base58.c:156-199 | The encoded string is in the alphabet, denotes the value of the data, and has as many leading ones as the data has leading zeros. |
| Base58.RightAligned | thirdparty/btc/base58.c:115-123 | A buffer with the value of the data holds the data at its end, after zeros. |
| Base58.TablesAgree | thirdparty/btc/base58.c:33-42 | The table of digits inverts the alphabet. |
| Base58.AlphabetIs | thirdparty/btc/base58.c:153-154 | The alphabet is exactly the ASCII letters and digits other than 0, O, I and l. |
| Base58.AlphabetAscends | thirdparty/btc/base58.c:153-154 | Its characters stand in the order of their codes, which fixes the digit of each. |
| Base58.MapRange | thirdparty/btc/base58.c:33-42 | The table gives digits below 58, and zero only for a one. |
| Radix.CarryStep | thirdparty/btc/base58.c:172-176 | One digit of long multiplication in place keeps what the digits and the carry are worth. |
| Radix.CarryOverflow | thirdparty/btc/base58.c:83-87 | A carry out of the first digit means that the product does not fit; no carry, that it does. |
| Radix.ValueInjective | thirdparty/btc/base58.c:115-123 | Numerals of one length are told apart by their values. |
| Radix.MinimalDigitsOfValue | thirdparty/btc/base58.c:179-193 | A numeral without leading zeros consists of the minimal digits of its value. |
| Sha256.HashPieces | thirdparty/btc/sha2.c:543-650 | However a message of less than 2^61 bytes is cut into updates, the result is its FIPS 180-4 digest, in which constants and functions are what the next rows say. |
| Sha256.Sha256Context.Update | thirdparty/btc/sha2.c:543-587 | The absorbed message grows by exactly the data, whatever was in the buffer and however much is added. |
| Sha256.Sha256Context.Final | thirdparty/btc/sha2.c:589-650 | The digest of everything absorbed, in each padding case, and a cleared context. |
| Sha256.Raw | thirdparty/btc/sha2.c:652-658 | The digest of the data. |
| Sha256.Sha256Context.Transform | thirdparty/btc/sha2.c:462-539 | With a circular schedule of 16 words in the block buffer, which may also be where the data is, the state becomes what the standard computes with its schedule of 64 words. |
| Sha256.Sha256Context.FirstRounds | thirdparty/btc/sha2.c:480-501 | The first 16 rounds read the block in, word by word before it is overwritten. |
| Sha256.Sha256Context.LastRounds | thirdparty/btc/sha2.c:503-525 | The other 48 rounds extend the schedule in place. |
| Sha256.CircularNext | thirdparty/btc/sha2.c:503-513 | The word computed in place is the next one of the schedule, and the buffer again holds the last 16. |
| Sha256.LoadedNext | thirdparty/btc/sha2.c:481-485 | Overwriting a word of the data after it has been read does not disturb the words still to be read. |
| Sha256.Sha256Context.Pad | thirdparty/btc/sha2.c:602-629 | In all three cases one more block completes the padded message. |
| Sha256.OneLastBlock | thirdparty/btc/sha2.c:606-608 | A message that leaves at least nine bytes of its block is padded within it. |
| Sha256.TwoLastBlocks | thirdparty/btc/sha2.c:609-618 | Any other message takes one more block. |
| Sha256.Sha256Context.StoreLength | thirdparty/btc/sha2.c:598-628 | Reversing the bit count and storing it in host order gives the standard length field. |
| Sha256.Sha256Context.StoreDigest | thirdparty/btc/sha2.c:634-643 | The digest bytes are those of the state, most significant first. |
| Sha256.AbsorbBlock | thirdparty/btc/sha2.c:556-569 | Bytes that complete a block advance the hash by it. |
| Sha256.ReverseHostWord | thirdparty/btc/sha2.c:111-116 | Reversing a word read in host order gives the word of the standard. |
| Sha256.ReverseHostBytes64 | thirdparty/btc/sha2.c:117-123 | Reversing a 64-bit word and storing it in host order gives its bytes, most significant first. |
| Sha256Standard.HashNextBlock | thirdparty/btc/sha2.c:462-539 | The hash after one more block is the compression of the hash before with it. |
| Sha256Constants.RoundConstantsAre | thirdparty/btc/sha2.c:186-250 | Round constant t is the first 32 bits of the fraction of the cube root of the t-th prime: for c, the whole part of the root, (c 2^32 + K)^3 <= p 2^96 < (c 2^32 + K + 1)^3. It holds of all 64. |
| Sha256Constants.InitialWordsAre | thirdparty/btc/sha2.c:253-261 | Initial word t is the first 32 bits of the fraction of the square root of the t-th prime, for all eight. |
| Sha256Constants.PrimesAre | thirdparty/btc/sha2.c:186-250 | The 64 numbers that are used are exactly the primes below 312. |
| Sha256Constants.PrimesAscend | thirdparty/btc/sha2.c:186-250 | They are in order. |
| Sha256Constants.RoundConstantUnique | thirdparty/btc/sha2.c:186-250 | There is only one such fraction of a root. |
| Sha256Bits.Sigma0Bits | thirdparty/btc/sha2.c:163 | Bit i of Sigma0 is the exclusive or of bits i + 2, i + 13 and i + 22, around the word. |
| Sha256Bits.Sigma1Bits | thirdparty/btc/sha2.c:164 | Bit i of Sigma1: bits i + 6, i + 11 and i + 25. |
| Sha256Bits.SmallSigma0Bits | thirdparty/btc/sha2.c:165 | Bit i of sigma0: bits i + 7 and i + 18 around the word, and i + 3 if there is one. |
| Sha256Bits.SmallSigma1Bits | thirdparty/btc/sha2.c:166 | Bit i of sigma1: bits i + 17 and i + 19 around the word, and i + 10 if there is one. |
| Sha256Bits.ChBits | thirdparty/btc/sha2.c:159 | Each bit of x chooses between those of y and z. |
| Sha256Bits.MajBits | thirdparty/btc/sha2.c:160 | Each bit is set if two of the three are. |
| Sha256Bits.BytesOfWord | thirdparty/btc/sha2.c:111-116 | A word is read from the bytes that it is written as, of which the first is its top byte. |
| Sha256Bits.WordOfBytes | thirdparty/btc/sha2.c:111-116 | Bytes that are read as a word are what it is written as. |
| Sha256Bits.BytesOfLength | thirdparty/btc/sha2.c:117-123 | The eight bytes of a length, shifted and joined, are the length again. |
| Sha256Example.DigestOfAbc | thirdparty/btc/sha2.c:543-650 | The digest of abc is the one that FIPS 180-4 gives as its first example, through all 64 rounds. |
| Bech32.DecodeEncoded | thirdparty/btc/segwit_addr.c:50-141 | What is encoded is decoded to the same human-readable part and symbols exactly if the human-readable part is not empty; an empty one can be encoded but is never decoded. |
| Bech32.EmptyHrpEncoded | thirdparty/btc/segwit_addr.c:50-102 | There is such an input: the empty human-readable part and no data. |
| Bech32.EncodeDecoded | thirdparty/btc/segwit_addr.c:50-141 | Encoding what was decoded from any accepted string gives that string in small letters: there is one checksum, and no other string for the data. |
| Bech32.OneErrorDetected | thirdparty/btc/segwit_addr.c:119-140 | Changing one character of the data part of an accepted string into one with another value makes it rejected. |
| Bech32.Encode | thirdparty/btc/segwit_addr.c:50-84 | Succeeds exactly for printable human-readable parts without capitals, five-bit data and a total of at most 90, and writes the string and its terminator. |
| Bech32.Decode | thirdparty/btc/segwit_addr.c:86-141 | Accepts exactly the well-formed strings (sizes, last separator, characters, one case, checksum 1) and gives the human-readable part in small letters and all but six symbols. |
| Bech32.ReadHrp | thirdparty/btc/segwit_addr.c:101-115 | The first pass: characters, case flags, copy in small letters and checksum. |
| Bech32.ReadData | thirdparty/btc/segwit_addr.c:121-135 | The data part: symbols, case flags and checksum, and all but six are stored. |
| Bech32.WriteChecksum | thirdparty/btc/segwit_addr.c:75-81 | The six characters appended are those of the checksum. |
| Bech32.SymbolOfCharset | thirdparty/btc/segwit_addr.c:37-48 | The reverse table inverts the alphabet. |
| Bech32.CharOfSymbol | thirdparty/btc/segwit_addr.c:37-48 | The alphabet inverts the reverse table, up to case. |
| Bech32Checksum.StepLinear | thirdparty/btc/segwit_addr.c:27-35 | The polymod step is linear over GF(2). |
| Bech32Checksum.StepInjective | thirdparty/btc/segwit_addr.c:27-35 | It is injective on 30-bit states. |
| Bech32Checksum.ChecksumUnique | thirdparty/btc/segwit_addr.c:75-81 | From any state, exactly one choice of six symbols leads to 1: the checksum. |
| Bech32Checksum.FeedPacked | thirdparty/btc/segwit_addr.c:75-81 | Up to six symbols add their bits to what zeros would have given. |
| Bech32Checksum.OneSymbolMatters | thirdparty/btc/segwit_addr.c:27-35 | Sequences that differ in one symbol have different checksums. |
| Bech32Checksum.GeneratorIs | thirdparty/btc/segwit_addr.c:27-35 | Of the five generators, number k is 2^k times the coefficients (29, 22, 20, 21, 29, 18) in GF(32). |
| Segwit.RoundTrip | thirdparty/btc/segwit_addr.c:165-191 | Every address that is encoded is decoded to the same version and program exactly if the human-readable part is not empty and the version is not negative; a negative version is not refused. |
| Segwit.NotAllRoundTrip | thirdparty/btc/segwit_addr.c:165-175 | An empty human-readable part and a negative version are both accepted for encoding. |
| Segwit.EncodeAddress | thirdparty/btc/segwit_addr.c:165-175 | Succeeds exactly for acceptable input, of which a negative version counts by its low eight bits, and writes the address: `AcceptedExactly` says what is acceptable in numbers, and `AddressOfProgram` gives one address in full. |
| Segwit.AcceptedExactly | thirdparty/btc/segwit_addr.c:165-175 | Exactly what is acceptable: a version up to 16 whose low eight bits are a symbol, 2 to 40 bytes, 20 or 32 for version 0, a printable human-readable part without capitals, and 90 characters in all. |
| Bech32Examples.AddressOfProgram | thirdparty/btc/segwit_addr.c:165-175 | The program 751e...3bd6 of version 0 for bc is bc1qw508d6qejxtdg4y5r3zarvary0c5xw7kv8f3t4, as BIP 173 has it. |
| Bech32Examples.AbcdefDecoded | thirdparty/btc/segwit_addr.c:37-50 | BIP 173's string of all 32 characters in order is well formed and decodes to the symbols 0 to 31, so that each character of the alphabet is where it should be. |
| Bech32Examples.CapitalDecoded | thirdparty/btc/segwit_addr.c:86-141 | A12UEL5L is well formed, with the human-readable part a and no data. |
| Bech32.ShapedExactly | thirdparty/btc/segwit_addr.c:86-141 | What is asked of a string before its checksum, in numbers: its length, where the separator is, printable characters, those of the alphabet after it, and not both cases. |
| Segwit.DecodeAddress | thirdparty/btc/segwit_addr.c:177-191 | Gives the version and program that the address stands for; where it fails, the address stands for none. |
| Segwit.AddressMeans | thirdparty/btc/segwit_addr.c:165-191 | When an address means what it was made from. |
| Segwit.MeaningUnique | thirdparty/btc/segwit_addr.c:177-191 | An address stands for at most one version and program. |
| Segwit.RegroupingIsBijective | thirdparty/btc/segwit_addr.c:143-163 | 5-to-8 regrouping without padding accepts exactly what 8-to-5 regrouping with padding gives, and undoes it. |
| Segwit.RegroupingUnique | thirdparty/btc/segwit_addr.c:143-163 | No two byte strings have the same regrouping. |
| Segwit.ToSymbols | thirdparty/btc/segwit_addr.c:143-163 | 8-to-5 with padding: the bits of the bytes in groups of five, filled up with zeros. |
| Segwit.ToBytes | thirdparty/btc/segwit_addr.c:143-163 | 5-to-8 without padding: the whole bytes, and failure exactly if five or more bits or a bit that is set are left over. |
| Segwit.ConvertGroups | thirdparty/btc/segwit_addr.c:147-154 | The loop keeps: the groups given out denote all but the last bits of what was taken in. |
| Segwit.AccumulatorWraps | thirdparty/btc/segwit_addr.c:144-148 | The 32-bit accumulator may wrap: its low 32 bits stay right. |
| Segwit.Window | thirdparty/btc/segwit_addr.c:149-152 | The bits that are taken out of it are not affected by the wrapping. |
| Heap.RunsAreSafe | src/interpreter/MemoryManager.cpp:41-125 | Over every run of requests for at least one byte and releases, from the empty heap with any limit of at least one page: the blocks that callers hold are exactly the live ones, and no two of them share a byte. |
| Heap.RunsStayInPages | src/interpreter/MemoryManager.cpp:41-125 | Over every run of requests for any numbers of bytes and releases: live blocks lie inside their pages and do not overlap, on the last page they end at or before the bump position, pages never exceed the limit, and the offset check never fails. |
| Heap.MallocSafe | src/interpreter/MemoryManager.cpp:55-110 | A request for any number of bytes: a block handed out lies in its page, overlaps no live block and is the only change, or, if its place was taken, nothing changes; a request fails, and then changes nothing, exactly if it is too large or there is neither a gap nor room nor another page. |
| Heap.FreeSafe | src/interpreter/MemoryManager.cpp:112-125 | Releasing keeps the invariant. |
| Heap.FreeUndoesMalloc | src/interpreter/MemoryManager.cpp:55-125 | Releasing a block that was just handed out leaves the live blocks as they were exactly if its place was a new one, as it is for a request for at least one byte where no block is empty. |
| Heap.LiveBlocksDisjoint | src/interpreter/MemoryManager.cpp:41-110 | No two live blocks share a byte. |
| Heap.ZeroBytesAlias | src/interpreter/MemoryManager.cpp:63-82 | A run with a request for no bytes after which a caller holds a block that the heap does not know of, at the place of a live one; releasing it releases that. |
| Heap.ZeroBytesNotHonoured | src/interpreter/MemoryManager.cpp:55-110 | In every safe heap without empty blocks, what is handed out is recorded as a block of its own exactly if at least one byte was asked for. |
| Heap.StepAccounted | src/interpreter/MemoryManager.cpp:41-125 | Each request for at least one byte, and each release, keeps the blocks that callers hold the same as the live ones. |
| Heap.DefaultMemoryManager.Malloc | src/interpreter/MemoryManager.cpp:55-110 | The block is at the lowest available page and offset, if there is one: where no live block meets the place and one starts after it. A request fails exactly if it is for a page or more, or no place is available, the last page is full and there can be no other page. The state is as the state function says, and safe, for any number of bytes. |
| Heap.FirstFit | src/interpreter/MemoryManager.cpp:55-110 | First fit, then the bump position, then a new page, then failure, said of places that no live block meets and not of the search. |
| Heap.FirstGapIsLowest | src/interpreter/MemoryManager.cpp:62-86 | The search finds the lowest such place on the first page that has one, or none because there is none. |
| Heap.TooLargeFails | src/interpreter/MemoryManager.cpp:57-60 | Requests for a whole page or more are refused, and only those in this way; nothing changes. |
| Heap.Adds | src/interpreter/MemoryManager.cpp:41-110 | What is live afterwards is what was, and the new block, unless a block has that address. |
| Heap.TakesAway | src/interpreter/MemoryManager.cpp:112-125 | A release succeeds exactly if there is a block at the address, and what is live afterwards is everything else. |
| Heap.DefaultMemoryManager.Free | src/interpreter/MemoryManager.cpp:112-125 | Erases the block at this address, or fails. |
| Heap.DefaultMemoryManager.FindGap | src/interpreter/MemoryManager.cpp:65-83 | The running last_pos finds the first block with a large enough gap before it. |
| Heap.DefaultMemoryManager.FindPage | src/interpreter/MemoryManager.cpp:62-86 | The outer loop finds the first page with such a gap. |
| Heap.DefaultMemoryManager.constructor | src/interpreter/MemoryManager.cpp:13-17 | One page, nothing allocated. |
| Heap.LastEndInOrder | src/interpreter/MemoryManager.cpp:65-83 | last_pos is where the blocks before end, so gaps are never negative. |
| Heap.EmplaceAt | src/interpreter/MemoryManager.cpp:48-52 | A block that fits between its neighbours is inserted between them. |
| BitStream.SwapIsBigEndian | thirdparty/bitstream/include/bitstream.h:61-73 | Swapping a word and storing it in host order gives its bytes, most significant first. |
| BitStream.ReadWritten | thirdparty/bitstream/include/bitstream.h:129-164 | A word is read back modulo 2^32, whatever follows. |
| BitStream.ReadWrittenText | thirdparty/bitstream/include/bitstream.h:269-301 | A string is read back. |
| BitStream.BitStream.GetWord | thirdparty/bitstream/include/bitstream.h:167-184 | Reads the next word, or fails at the end. |
| BitStream.BitStream.GetText | thirdparty/bitstream/include/bitstream.h:269-286 | Reads the next string, or fails where it is cut short. |
| BitStream.BitStream.Read | thirdparty/bitstream/include/bitstream.h:211-216 | Reads that many bytes; at the end it does not throw, but the stream has failed. |
| BitStream.BitStream.PutWord | thirdparty/bitstream/include/bitstream.h:158-164 | Writes over the four bytes at the write cursor, or appends them. |
| BitStream.BitStream.AppendText | thirdparty/bitstream/include/bitstream.h:288-301 | Appends a string with its length. |
| Bytecode.Compiler.ParseNext | src/compiler/Compiler.cpp:118-452 | Appends exactly the code of the pure encoding, which a parser written from the interpreter reads as the same tree (`ParseCode`), and throws exactly where a required child is missing, a node is of an unknown kind, or a boolean operator has an operand (a null one aside; `CompiledExactly`). |
| BytecodeParser.ParseCode | src/interpreter/Interpreter.cpp:378-1460 | A parser that takes the parts of each node in the order of the interpreter, with tags in numerals and without the tables of the compiler, rebuilds every tree that is compiled to less than 2^32 bytes, field by field, whatever follows. Only expression statements are dropped, text is cut at a zero byte, integers are reduced modulo 2^32 and an absent part of a list becomes Pass. |
| BytecodeParser.CompiledExactly | src/compiler/Compiler.cpp:82-452 | What is compiled, kind by kind: every child there that must be, and no boolean operator with operands. |
| BytecodeParser.NormalTwice | src/compiler/Compiler.cpp:118-452 | What the parser makes of a tree is not changed any more by compiling it again. |
| BytecodeParser.CompileAndParse | src/compiler/Compiler.cpp:82-452 | A module is compiled exactly if each of its nodes can be, and then parsing what comes out gives its tree. |
| Bytecode.OperandsNotEmitted | src/compiler/Compiler.cpp:279-289 | No tree in which a boolean operator has a first operand, not a null pointer, is compiled: the pointer to the operand is itself taken for a node. |
| Bytecode.AndNotEmitted | src/compiler/Compiler.cpp:83-86 | Of two names each can be compiled, and their conjunction can not. |
| Bytecode.BareOperator | src/compiler/Compiler.cpp:279-289 | A boolean operator without operands would be compiled. |
| Bytecode.Compiler.ParseFunction | src/compiler/Compiler.cpp:413-449 | The stream left by writing zero first and patching the length afterwards, nested functions included, is that of the encoding that knows the length beforehand. |
| Bytecode.Compiler.Patch | src/compiler/Compiler.cpp:441-445 | Patching changes the one word and goes back to the end. |
| Bytecode.Compiler.ParseCells | src/compiler/Compiler.cpp:118-412 | The parts of a node are appended in order. |
| Bytecode.Compiler.ParseCell | src/compiler/Compiler.cpp:88-104 | A missing expression in a list becomes Pass; a missing child throws, and so does the operand of a boolean operator (a null one aside). |
| Bytecode.Compiler.Run | src/compiler/Compiler.cpp:78-80 | The result is the code of the module body. |
| Bytecode.FunctionCode | src/compiler/Compiler.cpp:413-449 | The code of a function in its parts, with the length of its body. |
| Bytecode.RangeSplits | src/compiler/Compiler.cpp:118-452 | The code of a run of parts is that of its halves, one after the other. |
| BytecodeReader.SkipCode | src/interpreter/Interpreter.cpp:1466-1643 | skip_next started at the first byte of any compiled node stops right after its last, if the node and everything below it is of the kinds it handles and loops run over a name or a pair of names, and throws otherwise. |
| BytecodeReader.BranchWithDefinition | src/interpreter/Interpreter.cpp:1466-1643 | An if whose body holds a function definition is compiled and can not be skipped. |
| BytecodeReader.HandledTags | src/interpreter/Interpreter.cpp:1471-1642 | There is a case for the tag of exactly the handled kinds of node. |
| BytecodeReader.PrefixFree | src/interpreter/Interpreter.cpp:1466-1643 | The code of nodes that can be skipped is prefix-free. |
| BytecodeReader.StubOfFunction | src/interpreter/Interpreter.cpp:54-136 | Of a function whose defaults are all absent, one for each argument, read_function_stub extracts the argument names and exactly the code of the body, and stops right after the end marker. |
| BytecodeReader.StubVerdict | src/interpreter/Interpreter.cpp:54-136 | Of any compiled function with named arguments: it throws if there are not as many defaults as arguments, reads the stub if no default is given, and otherwise comes to execute one. |
| BytecodeReader.NameOfFunction | src/interpreter/Interpreter.cpp:1443-1450 | Before the stub come the tag and the name. |
| BytecodeReader.ReadNameCode | src/interpreter/Interpreter.cpp:357-375 | read_name reads back a name or string. |
| BytecodeReader.ReadNameVerdict | src/interpreter/Interpreter.cpp:357-375 | read_name reads back what is a name or string, and throws on the code of anything else. |
| BytecodeReader.ReadNamesCode | src/interpreter/Interpreter.cpp:320-354 | read_names reads back a loop target, a name or a pair of names, and throws on the code of anything else. |
| BytecodeReader.HandledIsTagged | src/interpreter/Interpreter.cpp:1471-1642 | For every kind of node that is handled, the case of its tag expects the parts that the compiler writes. |
| BytecodeReader.ReadArgumentsCode | src/interpreter/Interpreter.cpp:76-81 | The argument loop reads back the names. |
| BytecodeReader.ReadDefaultsCode | src/interpreter/Interpreter.cpp:99-110 | The defaults loop passes over the placeholders. |
| BytecodeReader.ReadDefaultsVerdict | src/interpreter/Interpreter.cpp:99-110 | It gets past them exactly if no default is given, and otherwise comes to an expression. |
| BytecodeReader.StepsExactly | src/interpreter/Interpreter.cpp:1471-1642 | skip_next has a case for the tags 0 to 26 other than 17 and 18. |
| BytecodeInterpreter.SkipAdvances | src/interpreter/Interpreter.cpp:1466-1643 | On any bytes at all, skip_next throws or ends up at least four bytes further on in the same bytes. |
| BytecodeInterpreter.Interpreter.SkipNext | src/interpreter/Interpreter.cpp:1466-1643 | The switch moves the cursor as the specification says, and terminates. |
| BytecodeInterpreter.Interpreter.ReadFunctionStub | src/interpreter/Interpreter.cpp:54-136 | Checks the markers and counts in order, and throws at the end marker if the body was cut short. |
| BytecodeInterpreter.Interpreter.ReadAName | src/interpreter/Interpreter.cpp:357-375 | A name or a string, or it throws. |
| BytecodeInterpreter.Interpreter.ReadSomeNames | src/interpreter/Interpreter.cpp:320-354 | A name or exactly two, or it throws. |
| BytecodeInterpreter.CompileAndSkip | src/interpreter/Interpreter.cpp:1466-1643 | Skipping what was compiled ends at the end of the stream exactly if it can be skipped, and throws otherwise. |
| BytecodeInterpreter.CompileAndReadFunction | src/interpreter/Interpreter.cpp:54-136 | Reading back a compiled function gives its name, its argument names and the code of its body. |

## Left out

- Big-endian machines, the SSSE3 paths of Snappy and compiler builtins for bit scans: the little-endian, portable code is modelled, and 64-bit `GetUint32AtOffset`.
- Lifetimes of memory: a fragment returned by Peek is a value, so its invalidation by Skip, and freeing of blocks after a flush, are not expressed.
- `SnappyUncompress.InternalUncompress`: once the decoder has stalled, what the code goes on to decode and write is not stated, nor whether it returns false or loops for ever; its use of the reader is taken to be any sequence of refills and next fragments.
- `SnappyDecompressor.SnappyDecompressor.Stitch`: where the next fragment's size is a multiple of 2^32 the loop of the source does not end; the model gives up there instead, and has stalled.
- `SnappyUncompress.UncompressToSink`: says nothing of the sink after a rejected stream, when the code still flushes; the flat-buffer branch for sinks that offer one is `RawUncompress`.
- `SnappyWriter.Writer`: the template parameter is a datatype of the four writers; inlining and `Report` are not modelled.
- `SnappyCompress.Compress`: the sink is the unchecked array sink, whose append buffer is the destination itself; the scratch output buffer for other sinks is not modelled.
- `SnappyCopy.IncrementalCopy`: the hints to the branch predictor and the order of the unrolled stores within sixteen bytes are not modelled.
- `Base58.Encode`: sizes are unbounded, so overflow of `binsz * 138` is not modelled; nor are the final `memset` calls.
- Base58Check (`btc_b58check`, `btc_base58_encode_check`, `btc_base58_decode_check`): the last does not stop after a failed decode.
- SHA-512, HMAC and the unrolled transforms: the same shape as SHA-256.
- `Sha256.Sha256Context.Update`: the data does not lie in the context's own buffer.
- `Bech32.Encode`: the output after a failed call, which may be partly written, is not stated.
- `Segwit.ConvertGroups`: only the two widths that are used, 8 to 5 and 5 to 8, and symbols below 32.
- `Heap.DefaultMemoryManager.Malloc`: blocks are pages and offsets; host addresses and the pairing of allocation functions are not modelled.
- `Bytecode.Compiler.ParseNext`: the switch is the table `Cells`, one line for each case, and the parts of a node are written in a loop over them. The syntax tree is given, with Null for an empty pointer. That an address is not the number of a kind of node is assumed, for the operands of boolean operators; a null operand, which would be read as type 0 and which the parser does not make, is outside that assumption. The code of a module is below 2^32 bytes, as the cursors are.
- `BytecodeReader.StubVerdict`: that a default is executed is where the model stops, with the outcome `Executes`; what comes of it is not modelled.
- `BytecodeParser.ParseCode`: the parser is not in the repository. It has the order in which the interpreter takes parts, and values and effects are left out.
- `BytecodeReader.SkipCode`: no step limit is set.
- `Interpreter::execute_next`, scopes, values, built-ins, the parser, the shell and persistence: no clean law of theirs is decided by this code.
