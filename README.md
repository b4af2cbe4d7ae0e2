# Huffman codec over a 64-bit-word bit stream

This project models an in-memory Huffman compressor and decompressor, and proves properties of the model.

The codec has four parts:

- **A bit writer and a bit reader.** The writer appends bits least-significant first into `u64` words. The reader walks the same words with a forward-only cursor.
- **The Huffman tree type.** A node is a branch, a leaf holding a character and its count, or `None`.
- **The encoder.** It works in these steps:
  - counts character frequencies by linear search;
  - sorts the leaves by descending count;
  - repeatedly merges the two lightest nodes, and re-inserts their parent with a binary search;
  - assigns codes by a depth-first walk: `false` into `t`, `true` into `f`;
  - writes one of two framings: the *tree framing* (leaf count, leaf characters, pre-order shape bits) or the *map framing* (entry count, code width, padded code records);
  - writes the payload: a `u16` length header followed by the code of every input character.
- **The decoder.** It reads either framing back into a table from bit strings to characters, then reads payload bits until they match a key, as many times as the length header says.

## How the model is built

Each module models one source file, in the same form as the source.

- **`Bits`** holds the bit-level vocabulary shared by writer and reader:
  - which bit of which word holds stream bit `i`;
  - the least-significant-first layout of `u8` and `u16` fields, and the shift accumulator that reads them back;
  - what each read returns, given the stream as a `seq<bool>` and a cursor;
  - casts: `as u8` and `as u16` keep a number modulo 256 or 65536, and a character crosses the stream as one byte.
- **`BitStream`**:
  - `BitWriter` is a class with fields `buffer: seq<bv64>` and `bitPosition`. Its methods keep the invariant that `buffer` has `ceil(bitPosition / 64)` words and that no bit at or past the cursor is set.
  - `BitReader` is a class with an immutable `buffer` and a moving cursor.
  - Every write is specified by the bits it appends. Every read is specified by a function of the stream and the old cursor.
- **`HuffmanTypes`**: the tree datatypes and their accessors, plus facts about leaves, weights and leaf paths.
- **`TreeBuild`**: the encoder's tree-building half:
  - the counting loop;
  - the stable sort;
  - the merge loop;
  - the code-assigning walk (`recurse_node`).

  The imperative methods are proved against pure functions: `Frequencies`, `SortByCount` and `CodeMap`.
- **`Compress`**: the two framings, the payload and `compress`. Each is a method that writes into a `BitWriter`, specified by the bits it appends (`TreeStructBits`, `HashMapBits`, `PayloadBits`, `CompressedBits`).
- **`Decompress`**: the two framing readers and the payload loop. Each is a method over `BitReader`s, proved equal to a pure decoder over the stream (`TreeStructDecodeAt`, `HashMapDecodeAt`, `PayloadAt`, `DecompressAt`). Every `unreachable!()` and every debug-build `u16` overflow in the decoder is a `None` result.
- **`RoundTrip`**: what the decoders make of what the encoders write. This covers:
  - each framing pair;
  - the payload loop under a prefix-free table;
  - the whole pipeline;
  - the two discrepancies listed under Findings.

## Model

| member | source | states |
|---|---|---|
| BitStream.BitWriter.constructor | src/bit_stream.rs:1-5 | A default writer has no words and position 0, and satisfies the writer invariant. |
| BitStream.BitWriter.WriteBit | src/bit_stream.rs:8-20 | The position grows by one. A zero word is pushed exactly when the old position is a multiple of 64. The contents become the old contents plus `bit`, so every earlier bit is unchanged. The invariant holds: `ceil(pos/64)` words, and every bit at or past the cursor is clear. |
| BitStream.SetBitStep | src/bit_stream.rs:13-17 | OR-ing `1 << (pos % 64)` into word `pos / 64` appends `true` and keeps the invariant. |
| BitStream.ClearBitStep | src/bit_stream.rs:9-11 | Writing `false` (a push on a word boundary, otherwise nothing) appends `false` and keeps the invariant. |
| BitStream.BitWriter.WriteBitsVec | src/bit_stream.rs:22-26 | Appends exactly the given bits, in order. |
| BitStream.BitWriter.WriteU8 | src/bit_stream.rs:28-32 | Appends the 8 bits `(n >> i) & 1`, least significant first. |
| BitStream.BitWriter.WriteU16 | src/bit_stream.rs:34-38 | Appends the 16 bits `(n >> i) & 1`, least significant first. |
| BitStream.BitWriter.ToReader | src/bit_stream.rs:48-50 | The new reader has a copy of the words and cursor 0. It sees the written bits, followed by the zero bits that fill the last word. |
| BitStream.WrittenStream | src/bit_stream.rs:48-64 | Under the writer invariant, fewer than 64 unwritten bits fill the last word, and they read as zeros. |
| BitStream.BitReader.FromWriter | src/bit_stream.rs:59-64 | Copies the writer's words and starts at position 0. |
| BitStream.BitReader.Progress | src/bit_stream.rs:66-68 | Adds `len` to the cursor without reading. |
| BitStream.BitReader.ReadBit | src/bit_stream.rs:70-80 | Always advances the cursor by one. Returns `None` exactly when the cursor is past the last word; otherwise returns the stored bit, which is `false` for unwritten bits of the last word. |
| BitStream.BitReader.ReadU16 | src/bit_stream.rs:82-94 | Returns the shift-accumulated value of the next 16 bits, or `None` if any bit read fails. The cursor then stands one past the first failing bit. |
| BitStream.BitReader.ReadU8 | src/bit_stream.rs:96-108 | As `ReadU16`, for 8 bits. |
| BitStream.BitReader.ReadBitsVec | src/bit_stream.rs:110-122 | Returns exactly the next `len` bits, in order, or `None` as soon as a bit read fails. |
| Bits.U8RoundTrip | src/bit_stream.rs:96-108 | The accumulator of `read_u8` over the bits of `write_u8(n)` is `n`. |
| Bits.U16RoundTrip | src/bit_stream.rs:82-94 | The accumulator of `read_u16` over the bits of `write_u16(n)` is `n`. |
| Bits.ShiftIn16Layout | src/bit_stream.rs:85-91 | After `k <= 16` bits were shifted in, they occupy the top `k` bits in reading order, and the rest are zero. |
| Bits.ReadU16Written | src/bit_stream.rs:82-94 | A `u16` written anywhere in a stream reads back as itself from that position. |
| Bits.U16ValueOf | src/compress.rs:118 | `n as u16` keeps `n` modulo 65536. |
| Bits.TruncateAscii | src/decompress.rs:74-75 | A character that goes out `as u8` and comes back `as char` is unchanged when it is ASCII. |
| HuffmanTypes.HuffmanBranch.IsTNone | src/huffman_types.rs:12-17 | True exactly when `t` is `None`. |
| HuffmanTypes.HuffmanBranch.IsFNone | src/huffman_types.rs:19-24 | True exactly when `f` is `None`. |
| HuffmanTypes.HuffmanNode.CountSubBranches | src/huffman_types.rs:35-45 | A branch's stored count, not recomputed from its children; a leaf's count; 0 for `None`. |
| HuffmanTypes.WeightIsLeafTotal | src/huffman_types.rs:35-45 | In a well-formed tree, the stored weight equals the sum of the leaf counts. |
| HuffmanTypes.PathsPrefixFree | src/huffman_types.rs:29-33 | Of two leaf paths, one is a prefix of the other only when they are the same path to the same leaf. |
| TreeBuild.CountFrequencies | src/compress.rs:10-32 | The counting loop yields `Frequencies(input)`. |
| TreeBuild.FrequencyValuesStep | src/compress.rs:12-31 | A character already counted has its count raised by one in place. A new character is appended with count 1. |
| TreeBuild.FrequencyValuesDistinct | src/compress.rs:10-32 | No character is counted on two leaves. |
| TreeBuild.FrequencyValuesTotal | src/compress.rs:10-32 | The counts sum to the number of characters. |
| TreeBuild.SortByCountSorted | src/compress.rs:35-42 | After the sort, counts are non-increasing. |
| TreeBuild.SortByCountPermutes | src/compress.rs:35-42 | The sort is a permutation. |
| TreeBuild.SortByCountStable | src/compress.rs:35-42 | The sort is stable: the nodes of each count keep their relative order. |
| TreeBuild.InsertPosition | src/compress.rs:59-62 | The binary search returns a position where every earlier node weighs at least `count` and every later node at most `count`. |
| TreeBuild.MergeLightest | src/compress.rs:45-71 | One iteration pops the lightest node as `t` and the next lightest as `f`, and builds their parent with the summed count. It inserts the parent at a position that keeps the vector sorted non-increasing, one node shorter. |
| TreeBuild.MergeKeepsLeaves | src/compress.rs:45-71 | A merge keeps the multiset of leaves. |
| TreeBuild.MergeKeepsWellFormed | src/compress.rs:50-55 | A merge keeps every tree well formed: each branch count is the sum of its children's. |
| TreeBuild.MergeStepsSnoc | src/compress.rs:45-71 | One more iteration of the merge loop extends the trace of insertion positions by the one it used. |
| TreeBuild.MergeStepsKeep | src/compress.rs:45-71 | However many iterations run, the leaves are kept with multiplicity and every tree stays well formed. |
| TreeBuild.BuildTree | src/compress.rs:45-71 | The merge loop ends with exactly one well-formed tree (none for empty input) holding the same leaves. That result is reached from the sorted vector by a trace of merge steps, each popping the last two nodes and inserting their parent in order. |
| TreeBuild.HuffmanTree | src/compress.rs:10-75 | For non-empty input the root is a Huffman tree for the input: the single node the merge steps leave, starting from the counted leaves in stable descending order. |
| TreeBuild.HuffmanTreeIsTreeOver | src/compress.rs:10-75 | Only non-empty text has a Huffman tree. Such a tree is well formed, and its leaves are the counted characters with multiplicity. |
| TreeBuild.HuffmanTreeLeaves | src/compress.rs:10-75 | The root's leaves are exactly the distinct input characters, each once, each with its number of occurrences. The root's weight is the character count. |
| TreeBuild.RecurseNode | src/compress.rs:80-102 | The walk adds `CodeMap(node, path)` to the cache, and leaves `highest_depth` at the maximum of its old value and the deepest leaf's depth. |
| TreeBuild.CodeMapPath | src/compress.rs:80-98 | Every code extends the path the walk started from, and continues along a leaf path to its character. |
| TreeBuild.CodeMapComplete | src/compress.rs:80-98 | With no character on two leaves, every leaf path is the code of that leaf's character. |
| TreeBuild.CodesPrefixFree | src/compress.rs:80-102 | The codes of distinct characters are prefix-free. |
| TreeBuild.HeightIsLongestCode | src/compress.rs:95 | `highest_depth` from the root is the longest code length: no code is longer, and some code is that long. |
| TreeBuild.HeightBound | src/compress.rs:80-102 | No leaf is deeper than the number of leaves minus one. |
| TreeBuild.CodeLengths | src/compress.rs:80-102 | One distinct character if and only if the root is a leaf, and then its code is empty. With two or more, every code is non-empty. |
| Compress.ShapeLength | src/compress.rs:137-150 | The shape bits of a tree with `n` leaves number `2n - 1`. |
| Compress.RecurseShape | src/compress.rs:137-150 | The walk appends the leaf characters in pre-order (`t` before `f`) and the pre-order shape bits (`true` per branch, `false` per leaf). |
| Compress.WriteCharacters | src/compress.rs:155-157 | Appends each character `as u8`, in order. |
| Compress.TreeStructEncode | src/compress.rs:132-161 | Appends a `u16` leaf count, the leaf characters as bytes, then the shape bits. |
| Compress.WriteRecord | src/compress.rs:171-186 | Appends `highest_depth - len` zeros, a `true` terminator, the code, then the character as a byte: `highest_depth + 9` bits. |
| Compress.WriteRecords | src/compress.rs:168-188 | Appends the records of the keys in the given iteration order. |
| Compress.HashMapEncode | src/compress.rs:162-189 | Appends a `u16` entry count, a `u16` `highest_depth`, then one record per key, in the given order. |
| Compress.WritePayload | src/compress.rs:119-126 | Appends each input character's code, in input order. |
| Compress.Utf8LenAscii | src/compress.rs:118 | The byte length equals the character count exactly when the text is ASCII. |
| Compress.Compress | src/compress.rs:5-130 | Empty input writes nothing. Otherwise `compress` builds a Huffman tree for the input. It appends the tree framing, `input.len() as u16` (the byte length modulo 65536) and the payload. |
| Decompress.TreeStructDecode | src/decompress.rs:48-89 | Equals the pure tree-framing reader: a `u16` `n`, a character cursor right after it, the shape cursor moved on by `8n`, then the recursive walk. |
| Decompress.Recurse | src/decompress.rs:57-84 | Equals the pure walk. `true` descends into `false` then `true`. `false` reads a byte and maps the current path to it. Both cursors end where the pure walk says. |
| Decompress.TreeStructDecodeStart | src/decompress.rs:49-54 | Once the count is read, the tree-framing reader is the walk from `pos + 16 + 8n`, with the characters from `pos + 16`. |
| Decompress.ReadKey | src/decompress.rs:97-110 | Reads `depth + 1` bits and keeps those after the first `true`, or fails with the underlying read. |
| Decompress.ReadRecord | src/decompress.rs:95-117 | Reads one record: a key, then a byte as a character. |
| Decompress.ReadRecords | src/decompress.rs:95-118 | Equals the pure record loop: `count` records, each inserted into the table in turn. |
| Decompress.HashMapDecode | src/decompress.rs:90-126 | Equals the pure map-framing reader: a `u16` count, a `u16` width, then the records. A width of 65535 with at least one record overflows `highest_depth + 1` and fails. |
| Decompress.NoRecordsAnyWidth | src/decompress.rs:93-95 | A map framing announcing no records reads as the table it was given, cursor right after the two counts, whatever the width: the loop body, and with it `highest_depth + 1`, never runs. |
| Decompress.StripPaddingSnoc | src/decompress.rs:100-106 | A bit before the terminator is dropped. A bit after it is kept. |
| Decompress.DecodePayload | src/decompress.rs:17-43 | Equals the pure payload reader: a `u16` count, then bits accumulated until they are a key, emitted, and cleared, exactly `count` times. |
| Decompress.Decompress | src/decompress.rs:4-44 | `decompress` as shipped is the map-framing reader followed by the payload reader. |
| Decompress.DecompressMatched | src/decompress.rs:8 | `decompress` with the tree-framing reader (the commented-out call) is that reader followed by the payload reader. |
| RoundTrip.TreeRecurseReadsTree | src/decompress.rs:57-84 | Over the shape bits and leaf bytes a tree writes, the walk maps every leaf path to its truncated character, and stops right after both. |
| RoundTrip.TreeFramingReadBack | src/decompress.rs:48-89 | On the output of `tree_struct_encode`, `tree_struct_decode` yields the map from every leaf path to `(c as u8) as char`, and stops just past the shape bits. |
| RoundTrip.PathTableDecodes | src/decompress.rs:75 | With no character on two leaves, the decoded tree table maps each character's code back to that character, truncated. |
| RoundTrip.HashRecordReads | src/decompress.rs:95-117 | A record written for `(c, code)` reads back as `code` and `(c as u8) as char`: the zero padding is dropped. |
| RoundTrip.HashFramingReadBack | src/decompress.rs:90-126 | On the output of `hash_map_encode`, `hash_map_decode` inserts every code with its truncated character, in the order written, and stops just past the records. |
| RoundTrip.InsertAllDecodes | src/decompress.rs:114 | Inserting the records of a prefix-free code map, in any enumeration order, gives a table that maps each code back to its character. |
| RoundTrip.ScanCode | src/decompress.rs:22-38 | Under a prefix-free table, the loop reads one whole code without matching a proper prefix, then emits its character. |
| RoundTrip.ScanInput | src/decompress.rs:22-38 | Given a payload that concatenates codes, the loop emits exactly the encoded characters, in order, and stops right after them. |
| RoundTrip.PayloadReadBack | src/decompress.rs:20-43 | A `u16` character count followed by the payload reads back as the truncated input. |
| RoundTrip.ScanNeverMatches | src/decompress.rs:25-35 | If the table's only key is the empty path, no bit string ever matches, and the loop fails once the stream runs out. |
| RoundTrip.CountedRoundTrip | src/compress.rs:118 | With the character count in the header, the tree framing and the payload read back as the truncated input, for any trailing zeros. |
| RoundTrip.AsciiRoundTrip | src/compress.rs:5-130 | For ASCII input with at least two distinct characters and fewer than 65536 characters, the matched decoder returns the input exactly. |
| RoundTrip.SingleSymbolResult | src/decompress.rs:20-38 | With one distinct character the code is empty. The decoder fails unless the byte length is a multiple of 65536, in which case the loop runs zero times. |
| RoundTrip.HashMapRoundTrip | src/compress.rs:162-189 | For ASCII input with at least two distinct characters and fewer than 65536 characters, the map framing (in any key order) and the payload are read back by the shipped `decompress` as the input. A single distinct character is outside this domain: its only code is empty, and `ScanNeverMatches` shows the loop then never matches. |
| RoundTrip.NonAsciiNeverRoundTrips | src/compress.rs:118 | Text with a non-ASCII character never comes back as itself through the matched decoder. |
| RoundTrip.TwoLeafHuffmanTree | src/compress.rs:35-71 | For a text `a` `b` of two different characters, a tree is a Huffman tree exactly when it is the branch with `b` as `t` and `a` as `f`: the sort keeps `a` first, and the loop pops `b` first. |
| RoundTrip.TwoByteLeadGrows | src/compress.rs:118 | For a text `a` `b` with `a` two UTF-8 bytes and `b` one, both below 256, and its Huffman tree: `b`'s code is `false` and `a`'s is `true`. The header says 3, and the third code read is the padding zero, so the matched decoder returns `a` `b` `b`. |
| RoundTrip.AccentedTextGrows | src/compress.rs:118 | The text `"éa"`, under its Huffman tree, comes back from the matched decoder as `"éaa"`. |
| RoundTrip.ShippedDecoderMisreads | src/decompress.rs:9 | For a two-character text `a` `b` and its Huffman tree, the shipped decoder takes the two leaf bytes, `b` then `a`, for the code width. Once that width runs the first record past the end of the stream, it fails. |
| RoundTrip.ShippedDecoderRejects | src/decompress.rs:9 | The text `"ab"`, under its Huffman tree, does not survive the shipped `decompress`: the width read is 0x6162, that is 24930. |
| RoundTrip.PipelineOutcome | src/decompress.rs:4-44 | Consider the stream a fresh writer holds after `compress`, for ASCII text shorter than 65536 characters. The matched decoder returns the input when it has at least two distinct characters. It fails when the input is empty or has one distinct character. Non-ASCII text (within the `u16` bounds) never comes back as itself. |
| RoundTrip.CompressThenDecompress | src/compress.rs:5-130 | The whole pipeline is a fresh writer, `compress`, `to_reader`, then the matched decoder. For ASCII text shorter than 65536 characters, it returns the input exactly when the input has at least two distinct characters, and fails otherwise. It never returns non-ASCII text (within the `u16` bounds) unchanged. |

## Left out

- Console output: `BitWriter::print` and the `println!` calls. They only print.
- `branch_length_encode` and `branch_length_decode`: unfinished stubs that write and read nothing.
- The `if true == true` framing choice. It is fixed to the tree framing in `Compress.Compress`. `hash_map_encode` is modelled as its own method, `Compress.HashMapEncode`, and its use in place of the tree framing as `Compress.HashMapCompressedBits`.
- `HashMap` hashing. Maps are Dafny `map`s, and the map framing's iteration order is an `order` parameter: any enumeration of the keys. Map lookups and a later insert replacing an earlier equal key are kept.
- UTF-8 encoding. Text is a `seq<char>`, and `input.len()` is `Compress.Utf8Len`: 1 to 4 bytes per character by code point.
- `Box` and heap layout, and the `u64`/`usize` width of the cursors. Positions are unbounded naturals.
- Panics. Every `unreachable!()` and every debug-build `u16` overflow in the decoder (`8 * ordered_chars_len`, and `highest_depth + 1` once a record is read) is a `None` result, not an abort. The encoder's `as u16` casts truncate modulo 65536, as written.
- `Compress.Compress`: the contract names the written bits through the tree the merge loop built, which is a ghost out-value. It states that this tree is reached by the merge steps from the sorted counted leaves. Where equal weights tie, it does not say which insertion position was used, because `TreeBuild.InsertPosition` does not. The method body builds the same tree as the source.
- `TreeBuild.HuffmanTree`: as for `Compress.Compress`, the root is one the merge steps reach with insertions that keep the order. Where weights tie, it is not pinned to the position the standard library's binary search picks. When no tie arises, as for two characters, the tree is unique (`RoundTrip.TwoLeafHuffmanTree`).
- `TreeBuild.InsertPosition`: the contract states the ordering property of the returned position, not which of several equal-count positions the standard library's binary search picks.
- `RoundTrip.NonAsciiNeverRoundTrips`: stated only for byte lengths below 65536 and fewer than 8192 distinct characters. Beyond them the header or the leaf count wraps modulo 65536, and the lemma says nothing there.

## Findings

| source | as written | input that shows it | evidently intended | confidence | as-written member | corrected member |
|---|---|---|---|---|---|---|
| src/decompress.rs:9 | `decompress` reads the map framing, while `compress` writes the tree framing (src/compress.rs:105-106) | `"ab"`: the tree framing writes the leaf bytes 0x62 then 0x61, and the decoder takes them as a code width of 24930 and runs off the end of the stream | the decoder reads the framing the encoder writes (the commented-out `tree_struct_decode` call) | not executed | RoundTrip.ShippedDecoderRejects | RoundTrip.AsciiRoundTrip |
| src/compress.rs:118 | the payload header is `input.len() as u16`, the UTF-8 byte count, but the decoder counts characters | `"éa"` (3 bytes, 2 characters) decodes as `"éaa"`: its tree gives `a` the code `false`, and the padding zero decodes as `a` | the header counts characters | not executed | RoundTrip.AccentedTextGrows | RoundTrip.CountedRoundTrip |
