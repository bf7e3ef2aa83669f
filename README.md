# Huffman codec (vaelen/huffman) in Dafny

This project models the engine of a Go Huffman compressor and proves
properties of it.

The library package `huffman` encodes a stream in blocks of at most 65535
bytes. Each block becomes one chunk, laid out as follows:

- a big-endian uint16 header length;
- the Huffman tree in pre-order: a branch is the byte 0 followed by its children, a leaf is the byte 1 followed by its value;
- a big-endian uint16 data size;
- the payload: the code bits of the block's bytes, packed most significant bit first and padded with zeros to a whole byte.

The decoder does the reverse. It reads the framing and parses the tree
against the header-length budget. It then walks the tree bit by bit until
it has emitted the data size in bytes.

Two further versions of the encoder are modelled as they are written:

- the older `io.go` copy of `padToByte`/`encodeBytes`, whose `encodeBytes` moves on by seven characters per byte;
- the standalone prototype in `main/main.go`. It has a textual header: sixteen digits of the longest code length, untagged leaves written in binary at that width, and sixteen digits of the data size. Its payload goes through the same seven-step `encodeBytes`. It also holds the only visible `PriorityQueue`.

Modules:

- `Bits`: bit strings as `seq<char>` over `'0'`/`'1'`, so that the parse-error path of `strconv.ParseUint` stays expressible. Also `%08b`, `ParseUint(s, 2, 8)`, big-endian uint16 and the uint16 decrement.
- `HuffmanTree`: `tree.go`. The tree, `IsLeaf`, and `printTree` as the lines it prints.
- `PriorityQueue`: the queue of `main/main.go`. It is a class whose item slots are a `seq` the methods reassign. Each `Item`'s `index` is a mutable field.
- `TreeBuilder`: `buildEncodingTree`. It counts the bytes, seeds the queue and merges.
- `Encoder`: the rest of `encode.go`.
- `Decoder`: `decode.go`. The compressed stream is a byte sequence read through a cursor.
- `RoundTrip`: what the decoder makes of what the encoder writes.
- `LegacyIo`: the seven-step `encodeBytes` of `io.go` and `main/main.go`.
- `Prototype`: the rest of `main/main.go`.

The main results are:

- `RoundTrip.EncodeDecode`: decoding what `Encode` writes gives the input back, as long as every block holds at least two distinct byte values.
- `RoundTrip.SingleSymbolBlock`: a block of one repeated value is decoded to nothing. If anything follows it, decoding fails.
- `TreeBuilder.BuildEncodingTree`: the tree holds every input byte exactly once as a leaf, and its root weight is the input length.
- `Encoder.CodesPrefixFree`: the code table is prefix-free.
- `Prototype.AmbiguousHeader`: the prototype's untagged header does not determine the tree.

Where the code and its description differ, the model follows the code.

## Model

| member | source | states |
|---|---|---|
| HuffmanTree.IsLeaf | tree.go:32-34 | a node is a leaf exactly when both children are nil, so a node with only one child is not a leaf |
| HuffmanTree.LeavesAndBranches | encode.go:133-146 | a tree of the shape the merge loop builds, with N leaves, has N - 1 branches and 2N - 1 nodes |
| HuffmanTree.Decimal | tree.go:39 | the `%d` rendering is a non-empty run of decimal digits whose value is the number, one digit exactly below ten, with no leading zero unless the number is zero |
| HuffmanTree.PrintTree | tree.go:36-46 | a nil node prints nothing; a leaf prints one line, the prefix, `-` and its decimal value; there is one line per non-nil node |
| HuffmanTree.PrintTreeLines | tree.go:36-46 | printTree prints the non-nil nodes in pre-order; a node at depth d carries d extra `\|` characters, then `-` and its value, or `*` for a branch |
| Bits.ByteBits | decode.go:59 | `%08b` gives eight binary digits whose value is the byte |
| Bits.ParseOctet | encode.go:176-179 | eight characters fail to parse exactly when one of them is not a binary digit |
| Bits.ParseByteBits | decode.go:59 | formatting a byte with `%08b` and parsing it back gives the byte; a parsable octet is the formatting of its value |
| Bits.ExpandPack | encode.go:172-183 | packing whole binary octets and expanding them again gives the bits back |
| Bits.PackExpand | decode.go:59-63 | expanding bytes to bits and packing them again gives the bytes back |
| Bits.BigEndian16 | encode.go:89 | PutUint16 writes two bytes from which BigEndian.Uint16 reads the same number back |
| Bits.Dec16 | decode.go:85 | the uint16 decrement subtracts one from a positive value and wraps 0 to 65535 |
| PriorityQueue.Item.constructor | main/main.go:21-27 | a new item holds its subtree and its priority, and its index is zero |
| PriorityQueue.PriorityQueue.constructor | encode.go:124 | the queue starts empty, with each item recording its own slot |
| PriorityQueue.PriorityQueue.Len | main/main.go:36 | the length is zero exactly when the queue is empty |
| PriorityQueue.PriorityQueue.Less | main/main.go:38-40 | one slot is less than another exactly when its priority is smaller; nothing else about the items matters |
| PriorityQueue.PriorityQueue.MinSlotLeast | main/main.go:38-40 | no queued item is less than the one in the slot PopMin takes |
| PriorityQueue.PriorityQueue.Swap | main/main.go:42-46 | two slots are exchanged and each moved item records its new slot; every other slot and index is unchanged, and each item still records its own slot |
| PriorityQueue.PriorityQueue.Push | main/main.go:48-53 | the item is appended, with its index set to the previous length, and each item still records its own slot |
| PriorityQueue.PriorityQueue.Pop | main/main.go:55-62 | the last item is removed and returned with index -1; the other slots are unchanged, each item still records its own slot, and the popped item leaves the queue's footprint, so later queue operations do not touch it |
| PriorityQueue.PriorityQueue.PopMin | encode.go:134-135 | heap.Pop: removes and returns, with index -1, an item whose priority is not above any other's and than which no item is less, moving the last item into its slot; the popped item leaves the queue's footprint |
| TreeBuilder.CountBytes | encode.go:115-122 | the counts have one entry per distinct input byte, holding how often it occurs |
| TreeBuilder.PushLeaf | encode.go:126-129 | one pass of the seeding loop appends one item, a leaf holding the byte and weighted by its count, keeps the items already queued, and keeps the seeding invariant |
| TreeBuilder.SeedQueue | encode.go:124-131 | after seeding, the queue holds as many items as there are counted bytes, each a leaf of a counted byte weighted by its count, every byte exactly once (in any order), accounting for every occurrence |
| TreeBuilder.LeafStep | encode.go:126-129 | appending the leaf of a counted byte, weighted by its count, keeps every queued item such a leaf |
| TreeBuilder.SeedStep | encode.go:127 | pushing the leaf of a new byte adds exactly that byte's leaf and occurrences to the queue's totals |
| TreeBuilder.SeededMerging | encode.go:131-133 | a seeded queue for non-empty input is non-empty and meets the merge invariant |
| TreeBuilder.MergeSums | encode.go:137-143 | replacing the two popped trees by a branch over them leaves the queue's leaves and occurrences unchanged |
| TreeBuilder.MergeStep | encode.go:133-144 | one merge keeps every queued tree well formed and weighted by its occurrences, and keeps the whole input accounted for |
| TreeBuilder.MergeTwo | encode.go:134-143 | the first item popped has least priority and becomes the left child; the second has least priority among the rest and becomes the right child; both leave the queue with index -1 and the queue becomes the remaining items followed by the pushed branch, which weighs their sum; the queue keeps the merge invariant |
| TreeBuilder.LastTree | encode.go:146 | the one tree left holds each input byte exactly once as a leaf, and its weight is the input length |
| TreeBuilder.BuildEncodingTree | encode.go:114-148 | the returned tree is well formed; each distinct input byte is exactly one leaf; the leaves account for every occurrence; the root priority is len(input) |
| Encoder.BuildEncodingMap | encode.go:150-160 | filling a table extends it with the codes of the tree's leaves, which override earlier entries |
| Encoder.CodesKeys | encode.go:150-160 | exactly the leaf values get a code |
| Encoder.CodesPaths | encode.go:150-160 | each code extends the prefix with the binary root-to-leaf path of its byte, so its length is the leaf's depth; below a branch it is non-empty |
| Encoder.CodesPrefixFree | encode.go:150-160 | no code is a prefix of another byte's code |
| Encoder.CodeBitsAppend | encode.go:66-70 | the code bits of two inputs in a row are the bits of the first followed by those of the second |
| Encoder.SingleSymbolNoBits | encode.go:59 | a block of one repeated value gets the empty code, so its payload has no bits |
| Encoder.BuiltForEncodable | encode.go:57-59 | every byte of a block has a binary code in the table built for it |
| Encoder.BuildHeader | encode.go:100-112 | the header grows by two bytes per leaf and one per branch |
| Encoder.BuildHeaderSerializes | encode.go:100-112 | buildHeader keeps what it is given and appends the pre-order serialisation: 0 and both children for a branch, 1 and the value for a leaf, nothing for nil |
| Encoder.HeaderSize | encode.go:87-89 | the header of a built tree is three bytes per leaf less one, at most 767, so its uint16 length is exact |
| Encoder.ChunkHeader | encode.go:86-98 | the chunk header is the big-endian header length, the header and the big-endian data size, each readable from its place |
| Encoder.Padded | encode.go:162-170 | padding leaves an empty buffer alone; otherwise it keeps the buffer and appends fewer than eight pad characters, reaching a multiple of eight |
| Encoder.PadCount | encode.go:164 | the loop stops after exactly the number of pad characters that makes the length a multiple of eight |
| Encoder.PadToByte | encode.go:162-170 | padToByte returns the padded buffer (io.go:12-22 and main/main.go:121-131 hold the same code) |
| Encoder.EncodeBytes | encode.go:172-183 | without error, the emitted bytes' bits followed by a remainder shorter than eight give back the input; an error occurs exactly when the whole octets are not binary, and then comes at the first bad octet, after the good ones were written |
| Encoder.EncodeBytesPacks | encode.go:172-183 | without error, the bytes written are the whole leading octets packed MSB first |
| Encoder.Payload | encode.go:63-79 | the payload's bits are the codes of the block's bytes in order, padded with '0' to a whole byte |
| Encoder.EncodePayload | encode.go:63-79 | the payload loop never fails and writes the padded code bits of the input |
| Encoder.EncodeChunk | encode.go:54-84 | EncodeChunk writes the chunk header of the tree built for the block, then its payload, and returns no error |
| Encoder.Blocks | encode.go:31-52 | the input is read in non-empty blocks of at most 65535 bytes |
| Encoder.BlocksFlatten | encode.go:31-52 | the blocks in order make up the whole input |
| Encoder.ChunksAppend | encode.go:42 | the chunks of one more block follow those written so far |
| Encoder.Encode | encode.go:31-52 | Encode writes one chunk per block, each with a tree built for that block, and never fails; empty input writes nothing |
| Decoder.ReadHeader | decode.go:138-172 | a zero budget reads nothing and gives a nil tree; a tag above 1 is an invalid node type; any other failure is EOF; the cursor never moves back |
| Decoder.LeafBudgetWraps | decode.go:160-167 | a leaf whose tag takes the last budgeted byte leaves a budget of 65535 |
| Decoder.ReadChunkHeader | decode.go:102-136 | fewer than two bytes gives EOF; a header error other than EOF is returned as it is; a complete header with fewer than two bytes after it gives EOF; failures are EOF or an invalid node type; success consumes at least the two size fields |
| Decoder.Scan | decode.go:67-90 | a match ends inside the buffer; an invalid-bit error names a non-binary character; the nil-dereference case arises only on a nil node |
| Decoder.FindMatch | decode.go:67-90 | the range loop returns the first leaf reached from the root, or the first error, or no match at the end of the buffer |
| Decoder.Drain | decode.go:64-94 | the tryAgain loop only appends to the output; it stops without error only at the data size's end or when no complete code remains |
| Decoder.ChunkFrom | decode.go:52-100 | DecodeChunk only appends to the output and never moves the cursor back |
| Decoder.DecodeChunk | decode.go:52-100 | the nested loops of DecodeChunk compute exactly the chunk decoding specified byte by byte |
| Decoder.DecodeFrom | decode.go:27-50 | Decode only appends, and never reports EOF: an EOF while reading a chunk header, or while reading a chunk's data, ends decoding with the output so far and no error; a chunk header error other than EOF stops decoding and is returned, with the output so far |
| Decoder.Decode | decode.go:27-50 | the chunk loop of Decode computes exactly the stream decoding |
| RoundTrip.HeaderRoundTrip | decode.go:138-172 | given the bytes buildHeader writes for a built tree and a budget of at least their number, readHeader rebuilds the tree, consumes exactly those bytes and leaves the surplus budget |
| RoundTrip.ChunkHeaderRoundTrip | decode.go:102-136 | readChunkHeader recovers the tree and the data size writeChunkHeader framed, and stops right after them |
| RoundTrip.ScanPath | decode.go:67-90 | fed a code leading to a leaf, the range loop matches that leaf exactly where the code ends, whatever follows |
| RoundTrip.ScanPartial | decode.go:67-90 | fed only a proper prefix of a code, the range loop finds no match |
| RoundTrip.DrainCodes | decode.go:64-94 | the tryAgain loop over whole codes followed by a tail emits their bytes and stops at the tail |
| RoundTrip.ChunkStep | decode.go:55-97 | one payload byte emits the codes it completes; the chunk then either ends exactly at the payload's end or is still mid-chunk |
| RoundTrip.ChunkCodes | decode.go:52-100 | from the middle of a chunk, DecodeChunk emits the rest of the block and stops exactly at the end of the payload |
| RoundTrip.ChunkRoundTrip | decode.go:52-100 | DecodeChunk on a payload EncodeChunk wrote for a block with two distinct values reproduces the block and reads exactly the payload bytes |
| RoundTrip.BranchRoot | encode.go:133-146 | a block with two distinct values gets a tree whose root is a branch |
| RoundTrip.ChunkDecodes | decode.go:33-42 | the header and payload of a written chunk decode back to its tree, data size and block, ending where the next chunk begins |
| RoundTrip.OneChunkDecodes | decode.go:32-48 | Decode over a written chunk emits its block and carries on after it |
| RoundTrip.ChunksDecode | decode.go:27-50 | Decode over a run of written chunks emits their blocks in order without error |
| RoundTrip.EncodeDecode | decode.go:27-50 | decoding what Encode wrote gives the input back when every block holds two distinct byte values |
| RoundTrip.SingleLeaf | encode.go:114-148 | a block of one repeated value gets a single leaf as its tree |
| RoundTrip.BadTagFails | decode.go:32-38 | a chunk whose header size is non-zero and whose first tag byte is above 1 stops decoding with InvalidNodeType, keeping the output written before it |
| RoundTrip.CorruptTagFails | decode.go:149-170 | overwriting the root tag byte of an encoded chunk with a value above 1 makes decoding fail with InvalidNodeType rather than produce wrong output |
| RoundTrip.SingleSymbolBlock | decode.go:67-80 | a single-value block's chunk has no payload; alone it decodes to nothing without error; followed by anything, decoding fails with an invalid decoding tree |
| RoundTrip.HeaderOnlyDecodes | decode.go:33-35 | a chunk header that ends the stream decodes to nothing, without error |
| RoundTrip.LeafRootFails | decode.go:67-80 | with a leaf as root, the first bit of the next byte reaches a nil child and fails |
| LegacyIo.Windows | io.go:25-27 | from eight characters on, the loop runs until one to seven characters are left |
| LegacyIo.Leftover | io.go:34 | the remainder is the whole input below eight characters, and one to seven characters otherwise |
| LegacyIo.Slide | io.go:24-35 | the k-th byte written is the value of the characters 7k to 7k+8 |
| LegacyIo.EncodeBytes | io.go:24-35 | the k-th byte comes from the window at 7k; an error occurs exactly when some window is not binary, and then before that window's byte is written; for binary input all windows are written and the remainder returned |
| LegacyIo.SlideAppend | main/main.go:100-110 | carrying the remainder of one call into the next gives the same bytes and remainder as one call over all the bits |
| LegacyIo.OverlappingWindows | io.go:26-27 | the bits of the bytes 0 and 255 come out as 0 and 127 with "11" left over |
| Prototype.SizeString | main/main.go:153-155 | the format is "%0", the decimal digits of the size, and "b" |
| Prototype.Binary | main/main.go:160 | `%b` gives binary digits with no leading zero whose value is the number |
| Prototype.Formatted | main/main.go:160 | the zero-padded `%b` is binary, has the value, and is as wide as the width or the value's digits, whichever is more |
| Prototype.FormattedFits | main/main.go:134 | a value that fits the width is formatted as exactly that many digits, as the fixed-width `%016b` is |
| Prototype.BuildHeader | main/main.go:157-171 | the prototype's buildHeader keeps what the header held |
| Prototype.BuildHeaderAppends | main/main.go:157-171 | buildHeader appends the tree bits in pre-order: '0' and both children for a branch, the untagged value for a leaf |
| Prototype.TreeBitsLength | main/main.go:157-171 | when every leaf value fits the width, the tree part is one digit per branch plus width digits per leaf |
| Prototype.AmbiguousHeader | main/main.go:157-171 | two different trees give the same header bits, so the prototype's header does not determine the tree |
| Prototype.HeaderBits | main/main.go:133-141 | the header bits are binary and at least 32 long |
| Prototype.HeaderLayout | main/main.go:133-141 | the header bits are sixteen digits of the bit size, the tree bits, then sixteen digits of the data size, each readable from its place |
| Prototype.WriteChunkHeader | main/main.go:133-151 | writeChunkHeader pads the header bits with '1' to whole octets, writes them through the seven-step encodeBytes and returns no error |
| Prototype.MaxCodeLength | main/main.go:91-94 | the maxSize loop finds the longest code length, or 0 for an empty table |
| Prototype.MaxLengthUnique | main/main.go:91-94 | the longest code length is well defined |
| Prototype.CodeLengthBound | main/main.go:223-233 | no code is longer than its prefix plus the number of leaves less one |
| Prototype.MaxLengthSmall | main/main.go:95 | the longest code of a built tree is below 256, so the uint16 conversion keeps it |
| Prototype.FlushedSlides | main/main.go:111-114 | padding the remainder and writing it gives the same bytes as the seven-step loop over all the bits followed by the pad zeros |
| Prototype.PayloadStep | main/main.go:100-110 | one more input byte: the bytes and remainder over the carried remainder plus its code continue those over the bits so far |
| Prototype.EncodePayload | main/main.go:97-114 | the prototype's payload is the seven-step windows over the code bits, then those over the padded remainder, and there is no error |
| Prototype.EncodeChunk | main/main.go:87-119 | the prototype's EncodeChunk writes the textual header with the longest code length as width, then the payload, and returns no error |

## Left out

- Reading and writing: `io.Reader`, `io.Writer`, bufio buffering, flushing and short reads are not modelled (encode.go:35, encode.go:55-56, decode.go:28-29, decode.go:104). The input is a byte sequence. Each `Encode` read takes the next 65535 bytes, or what is left. The decoder reads a byte sequence through a cursor. What is written is returned as a sequence.
- I/O errors of the reader and writer are not modelled, because a byte sequence has none. The errors of `writeChunkHeader`'s writes are ignored by the source anyway.
- Progress output (`fmt.Print("#")`, the deferred `fmt.Println`) and `printTree`'s printing are left out. printTree is modelled as the list of lines it prints.
- `container/heap` internals are not modelled, because they are not part of the shown source. `heap.Pop` is modelled as removing an item of least priority, through the queue's own `Swap` and `Pop`. `heap.Init` is not modelled.
- PriorityQueue.PriorityQueue.PopMin: it picks the first slot of least priority, and its contract states only that the item has least priority. Which of several equal-priority items the heap would take is not captured. That choice also depends on Go's random map iteration order (encode.go:126).
- The library's own `PriorityQueue` type, used at encode.go:124, is not part of this model. The queue is modelled from the one in main/main.go:33-62.
- `math.Mod` and `math.Max` on float64 (encode.go:164, main/main.go:93) are modelled with integer `%` and maximum. The values involved are small integers, which float64 represents exactly.
- `strconv.ParseUint` and `fmt.Sprintf` are modelled as pure functions on bit strings.
- TreeBuilder.BuildEncodingTree: requires a non-empty input. On an empty input the Go code pops from an empty queue and panics. Both `Encode` functions call it only for a non-empty block.
- Encoder.EncodeChunk: requires a non-empty block, for the same reason.
- Prototype.EncodeChunk: requires a non-empty block. On an empty block, buildEncodingTree pops from an empty queue and panics. Its only caller, main/main.go's `Encode`, calls it only when `n > 0` (main/main.go:77-79).
- LegacyIo.EncodeBytes: on a parse error the source returns `bits[:8]`. When fewer than eight characters are left, that slice reaches past the length. Whether it then panics depends on the slice's capacity, which a sequence does not have. The contract fixes the remainder only when eight characters are left.
- The `input == nil` test of readHeader (decode.go:139) is not modelled. readChunkHeader always passes a reader.
- The type assertion to `io.ByteReader` in readChunkHeader (decode.go:115-118) is not modelled. The caller's reader is a `bufio.Reader`, so header and data are read from the same cursor.
- Dereferencing a nil tree in DecodeChunk (decode.go:71-73 with a nil root) panics in Go. The model reports it as the error `NilTreePanic`.
- io.go redeclares `BlockSize`, `padToByte` and `encodeBytes` next to encode.go in the same package, so the package as shown does not build. Each version is modelled on its own. io.go's `padToByte` is the same code as encode.go's and is modelled once, as Encoder.PadToByte.
- `Encode` of main/main.go (main/main.go:67-85) is not modelled separately. It is the same block loop as encode.go's `Encode` (Encoder.Encode), around the prototype's EncodeChunk (Prototype.EncodeChunk). It differs only in sharing one buffered writer and printing errors.
- `main` of main/main.go (main/main.go:235-254) is left out: it only opens the two files.
- The command-line program huffman/main.go is left out: it holds flag parsing, file handling and the compression ratio.
- No decoder exists for the prototype's textual format, so no round trip is stated for it. Prototype.AmbiguousHeader shows that its header cannot be decoded unambiguously.

## Findings

| source | as written | input that shows it | evidently intended | confidence | as-written member | corrected member |
|---|---|---|---|---|---|---|
| io.go:24-35 | each pass parses the first eight characters but drops only seven (`bits[7:]`), so consecutive bytes share a bit; main/main.go:174-185 repeats it | the bits "0000000011111111" of the bytes 0 and 255 are written as 0 and 127, with "11" left over | drop eight characters per byte, as encode.go:172-183 does, so those bits pack to 0 and 255 | high, not executed | LegacyIo.OverlappingWindows | Encoder.EncodeBytesPacks |
