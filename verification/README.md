# Huffman file compressor — a verified model

This project models the Huffman compressor in
`Huffman-Coding-File-Compression/Huffman.cpp` and `Huffman.hpp` as pure
Dafny functions. The compressor runs this pipeline:

1. count each `char` of the input into an ordered `map<char,int>`;
2. build the Huffman tree with a priority queue ordered by `Compare` on
   `(freq, ch)`, with a one-child dummy root when only one character occurs;
3. turn root-to-leaf paths into codes, left `0` and right `1`;
4. write a header (the entry count as a `size_t`, then one `char` and one
   `int` per entry, in map order) and pack the code bits into bytes, most
   significant first, with a zero-padded last byte.

Decompression reads the header back and rebuilds the same tree. It then
walks the payload bits from the root until `root->freq` characters have been
emitted.

Modules, one per stage:

- `Wrappers`: `Option` for a possibly-null child pointer, and a `Result` with
  the decoder's error cases.
- `Nodes`: the tree node, leafness, the `Compare` ordering, and paths through
  a tree.
- `Frequencies`: counting, the ordered key sequence of a `map<char, …>`, and
  sums over a table.
- `TreeBuilder`: the priority queue as a sequence of nodes, the greedy merge
  loop and `buildTree`.
- `Codes`: `generateCodes` and the bit stream of a text under a code table.
- `Bits`: the packing loop and its padding, and how the decoder reads a
  byte's bits.
- `Header`: `writeHeader` and `readHeader`.
- `Decoder`: the bit walk of `decompress`.
- `Compressor`: `compress` and `decompress` end to end.

Choices the model makes:

- **Characters.** `char` is the signed 8-bit type `Char` (-128..127), and map
  iteration is ascending in that order. Container bytes are `bv8`; code bits
  are `bool`.
- **Header layout.**
  - The count is 8 bytes, little-endian.
  - Each entry is one byte for the `char` (its two's-complement pattern),
    then 4 bytes for the `int`. The `int` is written modulo 2^32 and read
    back signed.
- **Queue ties.** `std::priority_queue` breaks ties among nodes that
  `Compare` ranks equal in an order that only the heap's internals fix. All
  internal nodes carry `'\0'`, so such ties do happen.
  - The model lets every extraction take any node with the least
    `(freq, ch)`. The choice is made by a `hints` sequence: `PickTop` takes
    the hinted position when that node is a legal top, otherwise the first
    legal top. So every legal choice can be reached.
  - Every property of the tree is proved for all hint sequences.
  - `Compress` and `Decompress` take the same hints. This stands for the
    fact that the source rebuilds the tree from the same table with the same
    deterministic queue.

## Model

| member | source | states |
|---|---|---|
| Nodes.MakeLeaf | Huffman-Coding-File-Compression/Huffman.hpp:18-19 | a node built from only a character and a count has no children, so it is a leaf, and it keeps that character and count |
| Nodes.Compare | Huffman-Coding-File-Compression/Huffman.hpp:24-32 | `Compare(l, r)` holds exactly when `r`'s `(freq, ch)` is lexicographically smaller than `l`'s, so the queue top has the least `(freq, ch)` |
| Nodes.CompareIsStrictOrder | Huffman-Coding-File-Compression/Huffman.hpp:26-31 | `Compare` is irreflexive, asymmetric and transitive |
| Nodes.CompareTiesShareKey | Huffman-Coding-File-Compression/Huffman.hpp:26-31 | two nodes that neither compares before the other have the same frequency and the same character |
| Nodes.FollowAppend | Huffman-Coding-File-Compression/Huffman.cpp:180-184 | following one path and then another from where it ends is the same as following the two paths joined |
| Nodes.FollowFromLeaf | Huffman-Coding-File-Compression/Huffman.cpp:186 | no nonempty path leaves a leaf, because a leaf has neither child |
| Frequencies.Bump | Huffman-Coding-File-Compression/Huffman.cpp:65 | one increment adds the character to the table if it is new, raises its count by one, and leaves every other count unchanged |
| Frequencies.Tally | Huffman-Coding-File-Compression/Huffman.cpp:62-66 | the table's keys are exactly the characters that occur, and each count is that character's number of occurrences |
| Frequencies.Keys | Huffman-Coding-File-Compression/Huffman.hpp:39 | iterating the ordered map visits every key exactly once, in strictly ascending `char` order |
| Frequencies.KeysCount | Huffman-Coding-File-Compression/Huffman.cpp:121 | the number of keys iterated equals the map's `size()` |
| Frequencies.TallyTotal | Huffman-Coding-File-Compression/Huffman.cpp:64-66 | the counts add up to the input length |
| Frequencies.TallyWeighted | Huffman-Coding-File-Compression/Huffman.cpp:64-66 | weighting each table entry by its count is the same as weighting each input character once |
| Frequencies.TallyEmpty | Huffman-Coding-File-Compression/Huffman.cpp:68-75 | the table is empty exactly when the input is empty |
| TreeBuilder.BestOf | Huffman-Coding-File-Compression/Huffman.hpp:24-32 | the chosen position holds a node that `Compare` puts before no other node in range |
| TreeBuilder.PickTop | Huffman-Coding-File-Compression/Huffman.cpp:42-43 | the popped node is a legal queue top with the least `(freq, ch)`, and any legal top can be the one chosen |
| TreeBuilder.Remove | Huffman-Coding-File-Compression/Huffman.cpp:42-43 | a pop shrinks the queue by one and removes exactly the popped node, leaving every other node queued |
| TreeBuilder.Parent | Huffman-Coding-File-Compression/Huffman.cpp:45-47 | the new internal node is not a leaf; its leaves are its children's leaves; it is full when both children are |
| TreeBuilder.MergeStep | Huffman-Coding-File-Compression/Huffman.cpp:41-48 | one merge round shrinks the queue by one: the two popped nodes leave it, their parent joins it, and every other node stays |
| TreeBuilder.MergeStepFull | Huffman-Coding-File-Compression/Huffman.cpp:41-48 | one merge round shrinks the queue by one, keeps every queued tree full, and pushes the parent of the two popped nodes |
| TreeBuilder.MergeStepSums | Huffman-Coding-File-Compression/Huffman.cpp:41-48 | one merge round keeps the queue's leaves (with counts), their characters and its total frequency |
| TreeBuilder.QueueRemove | Huffman-Coding-File-Compression/Huffman.cpp:42-43 | popping a node takes exactly its leaves, characters and frequency out of the queue's totals |
| TreeBuilder.LeafQueue | Huffman-Coding-File-Compression/Huffman.cpp:29-31 | the initial queue has one node per key, and node `k` is the leaf of the `k`-th key with that key's count |
| TreeBuilder.LeafQueueSummary | Huffman-Coding-File-Compression/Huffman.cpp:29-31 | for distinct keys, the queued leaves hold each `(ch, count)` pair exactly once, their characters are the keys, and their frequencies add up to the table total |
| TreeBuilder.SeedQueue | Huffman-Coding-File-Compression/Huffman.cpp:29-31 | the initial queue holds one leaf per table entry, exactly once each, and its total is the table total |
| TreeBuilder.SeedSingle | Huffman-Coding-File-Compression/Huffman.cpp:35-37 | with one entry, the queue's only node is that entry's leaf and the total is its count |
| TreeBuilder.Combine | Huffman-Coding-File-Compression/Huffman.cpp:41-49 | the merge loop ends in a full tree holding the queue's leaves and its total frequency; with two or more nodes queued the root has two children |
| TreeBuilder.BuildTree | Huffman-Coding-File-Compression/Huffman.cpp:26-50 | the root is never a leaf; its leaf characters are the table's keys and its frequency is the table total. With one entry it is the dummy parent with that leaf as its only, left, child. With two or more it is full and holds each `(ch, count)` entry exactly once as a leaf |
| Codes.CodesFrom | Huffman-Coding-File-Compression/Huffman.cpp:17-24 | every code generated below a node extends the path to that node |
| Codes.CodesFromKeys | Huffman-Coding-File-Compression/Huffman.cpp:17-24 | codes are generated for exactly the characters of the leaves |
| Codes.CodesFromPaths | Huffman-Coding-File-Compression/Huffman.cpp:17-24 | each generated code is the path to a leaf holding that character |
| Codes.GenerateCodes | Huffman-Coding-File-Compression/Huffman.cpp:82 | the code table has exactly the tree's leaf characters as keys |
| Codes.CodeReachesLeaf | Huffman-Coding-File-Compression/Huffman.cpp:19-23 | following a character's code from the root ends at a leaf holding that character |
| Codes.GeneratedCodesArePrefixFree | Huffman-Coding-File-Compression/Huffman.cpp:17-24 | no character's code is a prefix of a different character's code |
| Codes.GeneratedCodesNonEmpty | Huffman-Coding-File-Compression/Huffman.cpp:17-24 | when the root is not a leaf, every code has at least one bit |
| Codes.SingleSymbolCode | Huffman-Coding-File-Compression/Huffman.cpp:35-39 | the dummy root of a single-character tree gives that character the code `0` and no other code exists |
| Codes.Encode | Huffman-Coding-File-Compression/Huffman.cpp:93-95 | the bit stream is the codes of the input characters, read through `CodeOf`, which gives a character without a code the empty code as `huffmanCodes[ch]` does; when every character has a nonempty code, the stream has at least one bit per character |
| Codes.EncodeAppend | Huffman-Coding-File-Compression/Huffman.cpp:93-95 | the bit stream of a longer input is the old stream followed by the next character's code |
| Codes.EncodeLength | Huffman-Coding-File-Compression/Huffman.cpp:93-95 | the bit stream is as long as the input's code lengths added up |
| Bits.Shift | Huffman-Coding-File-Compression/Huffman.cpp:96-99 | the code bit shifted into the buffer becomes its lowest bit |
| Bits.ShiftBits | Huffman-Coding-File-Compression/Huffman.cpp:96-99 | after shifting a bit into the buffer, that bit is bit 0 and every older bit moved up one position |
| Bits.ShiftLeftBits | Huffman-Coding-File-Compression/Huffman.cpp:111 | shifting left by `m` clears the low `m` bits and moves the others up by `m` |
| Bits.ShiftAppends | Huffman-Coding-File-Compression/Huffman.cpp:96-100 | shifting a bit into a buffer of `k` pending bits appends it after them, most significant first |
| Bits.PaddedByte | Huffman-Coding-File-Compression/Huffman.cpp:110-112 | the flushed partial byte reads as its pending bits followed by zero padding |
| Bits.PackFrom | Huffman-Coding-File-Compression/Huffman.cpp:90-113 | packing with `count` bits pending emits `ceil((count + n)/8)` bytes, and these read back as the pending bits, the new bits and the zero padding |
| Bits.Pack | Huffman-Coding-File-Compression/Huffman.cpp:90-113 | the payload has `ceil(n/8)` bytes and its bits read back as the code bits followed by zeros up to a whole byte |
| Bits.BytesToBits | Huffman-Coding-File-Compression/Huffman.cpp:176-180 | the decoder visits eight bits per payload byte |
| Bits.BytesToBitsAt | Huffman-Coding-File-Compression/Huffman.cpp:176-180 | bit `j` of the visited stream is `(byte >> i) & 1`, written `BitOf`, of byte `j / 8` with `i = 7 - j % 8`, so bytes are read in order and each from its most significant bit down |
| Bits.BytesToBitsPrefix | Huffman-Coding-File-Compression/Huffman.cpp:176-177 | the bits visited in the first `n` bytes are the first `8n` bits of the whole stream |
| Header.LittleEndianRoundTrip | Huffman-Coding-File-Compression/Huffman.cpp:122 | a value below `256^width`, written as `width` little-endian bytes, reads back unchanged |
| Header.CharByteRoundTrip | Huffman-Coding-File-Compression/Huffman.cpp:125 | a `char` written as one byte reads back as the same `char` |
| Header.IntBytesRoundTrip | Huffman-Coding-File-Compression/Huffman.cpp:126 | an `int` written as four bytes reads back as the same `int` |
| Header.WriteEntries | Huffman-Coding-File-Compression/Huffman.cpp:124-127 | each entry takes five bytes |
| Header.CountField | Huffman-Coding-File-Compression/Huffman.cpp:121-122 | the count field is eight bytes that read back as the entry count |
| Header.WriteHeader | Huffman-Coding-File-Compression/Huffman.cpp:120-128 | the header is `8 + 5n` bytes for `n` entries, and its first eight bytes read back as `n` |
| Header.ReadEntries | Huffman-Coding-File-Compression/Huffman.cpp:135-141 | the entry loop fails only as a malformed header; a success keeps every key read earlier and consumes bytes without adding any |
| Header.ReadEntriesSucceeds | Huffman-Coding-File-Compression/Huffman.cpp:135-141 | the entry loop succeeds exactly when all announced entries are present, and it leaves the bytes after them |
| Header.ReadEntriesSize | Huffman-Coding-File-Compression/Huffman.cpp:135-140 | reading `n` entries adds at most `n` keys to the table, because a repeated character overwrites its entry |
| Header.ReadHeader | Huffman-Coding-File-Compression/Huffman.cpp:130-142 | reading fails only as a malformed header; a success needs the eight count bytes and leaves at most the bytes after them |
| Header.ReadHeaderSize | Huffman-Coding-File-Compression/Huffman.cpp:131-141 | the table read back has at most as many entries as the count field announces |
| Header.ReadHeaderSucceeds | Huffman-Coding-File-Compression/Huffman.cpp:130-142 | reading succeeds exactly when the count field and all `5n` entry bytes are present, and it stops right after the last entry |
| Header.ReadEntriesStep | Huffman-Coding-File-Compression/Huffman.cpp:136-140 | one iteration reads back the `(char, int)` pair written for one entry and records it in the table |
| Header.ReadWrittenEntries | Huffman-Coding-File-Compression/Huffman.cpp:135-141 | reading back written entries adds exactly those entries to the table and stops at the bytes after them |
| Header.ReadHeaderOfWritten | Huffman-Coding-File-Compression/Huffman.cpp:131-135 | in a written header, the count read back announces exactly the written entries |
| Header.HeaderRoundTrip | Huffman-Coding-File-Compression/Huffman.cpp:120-142 | reading back a written header, followed by any payload, rebuilds the same frequency table and leaves the payload untouched |
| Decoder.Walk | Huffman-Coding-File-Compression/Huffman.cpp:176-192 | a successful walk emits exactly the owed number of characters and needs at least one bit per character |
| Decoder.DecodePayload | Huffman-Coding-File-Compression/Huffman.cpp:167-192 | a successful decode emits exactly as many characters as the root counts |
| Decoder.WalkThroughPath | Huffman-Coding-File-Compression/Huffman.cpp:180-190 | walking the bits of a path to a leaf emits that leaf's character and goes back to the root for the rest |
| Decoder.WalkEncodedThen | Huffman-Coding-File-Compression/Huffman.cpp:176-192 | the bits of a text under the tree's own codes walk back to that text, then the walk continues from the root |
| Decoder.WalkEncoded | Huffman-Coding-File-Compression/Huffman.cpp:176-192 | the bits of a text, followed by any padding, decode to exactly that text; the padding is never walked |
| Decoder.WalkTruncated | Huffman-Coding-File-Compression/Huffman.cpp:176-178 | a stream that ends right after a whole code, while more characters are still owed, is reported as truncated |
| Decoder.WalkPathPrefix | Huffman-Coding-File-Compression/Huffman.cpp:180-186 | walking only a proper prefix of a path to a leaf reaches no leaf and runs out of bits |
| Decoder.WalkCutEncoded | Huffman-Coding-File-Compression/Huffman.cpp:176-190 | the bits of a text cut anywhere before their end, even inside a code, are reported as truncated when the whole text is owed |
| Compressor.Payload | Huffman-Coding-File-Compression/Huffman.cpp:89-113 | the payload of a text has `ceil(n/8)` bytes for its `n` code bits, and its bits read back as those code bits followed by zero padding |
| Compressor.Compress | Huffman-Coding-File-Compression/Huffman.cpp:52-113 | the container is empty exactly when the input is empty |
| Compressor.Decompress | Huffman-Coding-File-Compression/Huffman.cpp:144-192 | an empty container decompresses to empty output; a shorter-than-header container is malformed; success requires a readable header |
| Compressor.TallyFitsInt | Huffman-Coding-File-Compression/Huffman.cpp:126 | for inputs shorter than 2^31, every count fits the header's `int` field |
| Compressor.RoundTrip | Huffman-Coding-File-Compression/Huffman.cpp:144-192 | decompressing a compressed input, with the same tie choices, returns exactly the input |
| Compressor.DecompressWritten | Huffman-Coding-File-Compression/Huffman.cpp:151-164 | a container made of a written header and any payload is decoded with the tree rebuilt from that same table |
| Compressor.DecodeOwnPayload | Huffman-Coding-File-Compression/Huffman.cpp:166-192 | the payload of a text, decoded with a tree that owes the text's length, gives back exactly the text |
| Compressor.CompressedSize | Huffman-Coding-File-Compression/Huffman.cpp:87-113 | a nonempty input compresses to `8 + 5n` header bytes plus `ceil(Σ count·code length / 8)` payload bytes |
| Compressor.PayloadBits | Huffman-Coding-File-Compression/Huffman.cpp:89-113 | after the header comes the packed code stream, whose bits are the input's codes followed by zero padding to a whole byte |
| Compressor.DecodeLostByte | Huffman-Coding-File-Compression/Huffman.cpp:176-192 | a payload missing its last byte is reported as truncated, because that byte always holds part of the last code (the source would stop at end of file instead; see `Decoder.Walk` under Left out) |

## Left out

- `main.cpp` is not part of this model. It is the console menu and the filename prompts.
- File handling is not modelled: opening files, the `seekg`/`clear` rewind, stream error flags, and the `cout`/`cerr` messages. Input is an in-memory `seq<Char>`; output is a returned sequence or `Result`.
- Memory management is not modelled: `new`, `deleteTree` and the destructor. Trees are immutable datatypes.
- The heap's own tie order among nodes `Compare` ranks equal is abstracted. It becomes the `hints` parameter, which can make any legal choice.
- Native endianness and the width of `size_t` are fixed: the layout is little-endian with an 8-byte count.
- `int` overflow in the arithmetic is not modelled. Counts and node frequencies are unbounded integers, while the source increments and adds them as 32-bit `int` at Huffman.cpp:65 and Huffman.cpp:45. Writing a count to the header is modelled: `Header.IntBytes` stores it modulo 2^32.
- Compressor.RoundTrip: requires the input to be shorter than 2^31 characters. Longer inputs overflow the `int` counts in the source.
- Packing is modelled over the whole code stream rather than code by code. `Pack` consumes the concatenated bits, which gives the same byte sequence as the source's per-character loop.
- Decoder.Walk: reports an early end of the bits as `TruncatedPayload` where the source stops at end of file and keeps the characters decoded so far. This is deliberate hardening.
- Decoder.Walk: reports a step to a missing child as `CorruptPayload` where the source dereferences a null pointer (a `1` bit under the single-character dummy root, Huffman.cpp:181). This is deliberate hardening.
- Header.ReadHeaderSucceeds: reports a container too short for its count or its entries as `MalformedHeader`. The source reads uninitialised variables there, which is undefined behaviour.
- Compressor.Decompress: maps an empty container to empty output. The source reads an uninitialised `size_t` there, although its comment shows empty output is the intent.
