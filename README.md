# Huffman codec (`.huff` files) in Dafny

This project models the algorithmic core of a small Huffman file compressor and proves
properties of that model. The compressor works in five steps:

1. It counts the bytes of a file.
2. It builds a Huffman tree with a 1-indexed binary min-heap. The heap merges the two
   least frequent trees until one tree is left. The first tree removed becomes the left child.
   The model calls a tree whose leaves are exactly the input's bytes, with their counts and
   summed frequencies, a code tree; a Huffman tree is a code tree these greedy merges reach.
3. It gives every leaf the 0/1 path to it as its code. When the input has only one distinct
   byte, that lone leaf gets the code `1`.
4. It writes a header. The header holds the length of the file extension, the extension
   itself, a 32-bit big-endian count of tree bits, and the post-order tree bits padded with
   zeros to a whole byte. In the tree bits a leaf is `1` plus its 8 bits and an internal node
   is `0`.
5. It writes the payload. This is the codes of all input bytes packed into bytes, followed by
   a two-byte trailer: the zero-padded last bits and a byte that counts the padding bits. When
   the codes end on a byte boundary, both trailer bytes are 0 (see Findings).

The decompressor reverses these steps:

- It reads the fields and splits the rest of the file into tree bits and payload bits.
- It rebuilds the tree on a stack. A `1` pushes a leaf. A `0` pops the right child, then the
  left, and pushes their parent.
- It drops the padding that the last byte counts.
- It walks the tree bit by bit. When the root is a lone leaf, every bit yields that byte.

Modules:

- `Outcomes` holds `Option` and `Result`.
- `Binary` models Java's signed `byte` as `Byte`. It also defines the 8-character bit strings,
  written as `seq<bool>` with `true` for `'1'`, and the packing of bits into bytes.
- `HuffmanTree` holds the tree datatype, the depth-first code table, the code assignment into
  `nodes[]`, and the post-order serialisation.
- `MinHeap` models the `Heap` class over an array.
- `Compressor` models the `CompressScene` pipeline.
- `Decompressor` models the decoding part of `DecompressScene.getHeader()`.
- `Codec` proves the end-to-end properties and the finding below.

Points where the code and its own description differ. The model follows the code:

- The decoder takes the tree root from the top of the stack (`stack.peek()`). It does not check
  that exactly one node is left.
- The decoder's `generateHuffmanCodes` has no lone-leaf override. A lone leaf gets the empty
  code there. That code is only displayed; decoding walks the tree itself.

## Model

| member | source | states |
|---|---|---|
| MinHeap.Parent | HuffmanCoding/src/ProjectTwo/Heap.java:68-70 | the parent of every slot from 2 on is a slot from 1 up and below it, so sift-up never moves into the sentinel's slot 0 |
| MinHeap.LeftChild | HuffmanCoding/src/ProjectTwo/Heap.java:73-75 | the parent of the left child of `p` is `p` |
| MinHeap.RightChild | HuffmanCoding/src/ProjectTwo/Heap.java:78-80 | the parent of the right child of `p` is `p`, and the right child sits just after the left one |
| MinHeap.Heap.constructor | HuffmanCoding/src/ProjectTwo/Heap.java:10-16 | a new heap has capacity `maxSize`, is empty, holds the frequency-0 sentinel in slot 0 and satisfies heap order |
| MinHeap.Heap.GetSize | HuffmanCoding/src/ProjectTwo/Heap.java:63-65 | `size` is the number of nodes stored |
| MinHeap.Heap.IsLeaf | HuffmanCoding/src/ProjectTwo/Heap.java:83-85 | a position reported as a leaf has no left child inside the heap |
| MinHeap.Heap.Swap | HuffmanCoding/src/ProjectTwo/Heap.java:88-93 | the array afterwards is the old array with the two slots exchanged |
| MinHeap.Heap.Insert | HuffmanCoding/src/ProjectTwo/Heap.java:40-52 | on a full heap, neither `size` nor the array changes; otherwise `size` grows by one, the stored multiset gains exactly the element, heap order holds again, and the sentinel stays in slot 0 |
| MinHeap.SiftUpStep | HuffmanCoding/src/ProjectTwo/Heap.java:48-51 | one swap with a larger parent moves the only heap-order violation one level up and never reaches slot 0 |
| MinHeap.SiftUpDone | HuffmanCoding/src/ProjectTwo/Heap.java:48 | once the parent is no larger, the whole array is in heap order |
| MinHeap.Heap.MinHeapify | HuffmanCoding/src/ProjectTwo/Heap.java:19-37 | starting from a heap whose only violation is at `pos`, the array ends in heap order and holds the same nodes |
| MinHeap.SiftDownStep | HuffmanCoding/src/ProjectTwo/Heap.java:24-34 | swapping with the smaller child moves the only violation down to that child |
| MinHeap.SiftDownDone | HuffmanCoding/src/ProjectTwo/Heap.java:31 | when the node is no larger than its children, the whole array is in heap order |
| MinHeap.Heap.Remove | HuffmanCoding/src/ProjectTwo/Heap.java:55-60 | the node returned was stored and its frequency is at most that of every stored node; `size` drops by one, the stored multiset loses exactly that node, and heap order holds again |
| MinHeap.MinimumAtRoot | HuffmanCoding/src/ProjectTwo/Heap.java:56 | in heap order, slot 1 holds a node whose frequency is at most every stored frequency |
| MinHeap.LastToRoot | HuffmanCoding/src/ProjectTwo/Heap.java:57 | moving the last node to slot 1 removes the old root from the multiset and leaves slot 1 as the only violation |
| Compressor.GetFreq | HuffmanCoding/src/ProjectTwo/CompressScene.java:110-127 | `freq[v]` is the number of input bytes whose unsigned value is `v` (negative bytes shifted by 256), and the counts add up to the input length |
| Compressor.InsertLeaves | HuffmanCoding/src/ProjectTwo/CompressScene.java:134-140 | afterwards the heap holds exactly one leaf `(v, freq[v])` for every `v` with a non-zero count |
| Compressor.ForestMerge | HuffmanCoding/src/ProjectTwo/CompressScene.java:148-155 | replacing two trees by an internal node with the first as left child and the summed frequency keeps the leaf symbols, the counts at the leaves and the total frequency |
| Compressor.MergeAll | HuffmanCoding/src/ProjectTwo/CompressScene.java:147-156 | starting from the leaves of the histogram, the merge loop ends with one tree, and that tree is a Huffman tree for the histogram: a code tree reached by a run of greedy merges |
| Compressor.MergeTwo | HuffmanCoding/src/ProjectTwo/CompressScene.java:148-155 | one pass removes a lightest tree and then a lightest of the rest, inserts their parent with the first on the left and the summed frequency, keeps the forest's symbols, counts and total, and extends the run of greedy merges by that step |
| Compressor.GreedyRunLeftLighter | HuffmanCoding/src/ProjectTwo/CompressScene.java:148-153 | along a run of greedy merges, every tree keeps its left child no heavier than its right child |
| Compressor.HuffmanLeftLighter | HuffmanCoding/src/ProjectTwo/CompressScene.java:148-153 | in a Huffman tree built by the merges, the first node removed, the left child, is never heavier than its sibling |
| Compressor.InitializeHeap | HuffmanCoding/src/ProjectTwo/CompressScene.java:133-158 | for a histogram with a non-zero entry, the heap ends with one tree, a Huffman tree for the histogram. It is a code tree: well formed, with every leaf holding its byte's count, with leaves that are exactly the bytes with a non-zero count, and with root frequency equal to the total count. It is reached from the leaves by a run of greedy merges, each joining a lightest tree and a lightest of the rest, the first on the left; `numberOfLeafs` is the number of distinct bytes cast to `byte` |
| Compressor.CountIsOne | HuffmanCoding/src/ProjectTwo/CompressScene.java:142-145 | the cast count of leaves is 1 exactly when there is one distinct byte, so the early return only happens then |
| Compressor.HuffmanTreeShape | HuffmanCoding/src/ProjectTwo/CompressScene.java:133-158 | a tree built for a histogram has no repeated symbol, at most 256 leaves, and a leaf for a byte exactly when that byte's count is non-zero |
| Compressor.HistogramCounts | HuffmanCoding/src/ProjectTwo/CompressScene.java:115-122 | every byte of the input has a non-zero count |
| HuffmanTree.GenerateHuffmanCodes | HuffmanCoding/src/ProjectTwo/CompressScene.java:168-185 | after the walk, the slot of every leaf symbol holds the code so far plus its path (`0` left, `1` right), and every other slot is unchanged |
| HuffmanTree.CodesKeys | HuffmanCoding/src/ProjectTwo/CompressScene.java:168-185 | the code table has an entry for a byte exactly when the tree has a leaf for it |
| HuffmanTree.CodesPrefixFree | HuffmanCoding/src/ProjectTwo/CompressScene.java:168-185 | no code is a prefix of the code of another byte |
| HuffmanTree.CodesAreLeafPaths | HuffmanCoding/src/ProjectTwo/CompressScene.java:181-182 | following a byte's code from the root reaches the leaf of that byte |
| HuffmanTree.CodesNonEmpty | HuffmanCoding/src/ProjectTwo/CompressScene.java:181-182 | below an internal root every code has at least one bit |
| Compressor.CodeTableSound | HuffmanCoding/src/ProjectTwo/CompressScene.java:86-98 | the codes in use cover exactly the tree's bytes, are non-empty and are prefix-free; this includes the lone-leaf code `1` |
| Compressor.AssignCodes | HuffmanCoding/src/ProjectTwo/CompressScene.java:87-98 | `nodes[]` holds the code of every byte of the tree (`1` for a lone leaf, else its path) at the byte's unsigned index, and nothing elsewhere |
| Compressor.CodesCoverInput | HuffmanCoding/src/ProjectTwo/CompressScene.java:303-311 | every input byte has a code, so the `nodes[...]` lookups of the writer never miss |
| HuffmanTree.SerializeShape | HuffmanCoding/src/ProjectTwo/CompressScene.java:235-247 | the post-order bits have at least 9 bits, start with the `1` of the leftmost leaf and, below an internal root, end with the root's `0` |
| HuffmanTree.SerializeLength | HuffmanCoding/src/ProjectTwo/CompressScene.java:235-247 | the post-order bits of a tree are 9 per leaf plus 1 per internal node |
| HuffmanTree.InternalCountOfWellShaped | HuffmanCoding/src/ProjectTwo/CompressScene.java:151-153 | a tree whose internal nodes all have two children has one internal node fewer than leaves |
| Binary.ByteToBinaryString | HuffmanCoding/src/ProjectTwo/CompressScene.java:255-262 | the result is the 8 bits of the byte's two's-complement form, most significant bit first, and parsing them base 2 and casting back gives the byte |
| Binary.ParseByteOfByteBits | HuffmanCoding/src/ProjectTwo/CompressScene.java:286 | `(byte) Integer.parseInt(byteToBinaryString(b), 2)` is `b` |
| Binary.ByteBitsOfParseByte | HuffmanCoding/src/ProjectTwo/CompressScene.java:315 | any 8 bits parsed and cast to a byte print back as the same 8 bits |
| Compressor.Padding | HuffmanCoding/src/ProjectTwo/CompressScene.java:214-216 | fewer than 8 zeros are appended, and they bring the tree bits to a multiple of 8 |
| Compressor.AppendZeros | HuffmanCoding/src/ProjectTwo/CompressScene.java:215-216 | the loop appends exactly `n` `'0'` characters and keeps what was there |
| Compressor.ExtField | HuffmanCoding/src/ProjectTwo/CompressScene.java:200-208 | the extension bytes written are a prefix of the extension shorter than 128 bytes: the whole extension when it is shorter than 128, its first `length % 256` bytes when that remainder is below 128, and none otherwise |
| Compressor.ExtBits | HuffmanCoding/src/ProjectTwo/CompressScene.java:206-208 | the first part of the header is the bits of the length byte followed by the bits of the extension bytes written |
| Compressor.PaddedTree | HuffmanCoding/src/ProjectTwo/CompressScene.java:210-218 | the tree part is the post-order bits followed by the padding zeros |
| Compressor.LengthBits | HuffmanCoding/src/ProjectTwo/CompressScene.java:220-223 | the length part is the bits of the four big-endian bytes of the tree bit count |
| Compressor.HeaderBits | HuffmanCoding/src/ProjectTwo/CompressScene.java:206-224 | the full header is a whole number of bytes |
| Compressor.GenerateHeader | HuffmanCoding/src/ProjectTwo/CompressScene.java:193-227 | the full header is the length byte, the extension, the 4-byte unpadded tree length and the padded tree bits, in that order |
| Compressor.HeaderBytes | HuffmanCoding/src/ProjectTwo/CompressScene.java:206-224 | packed into bytes, the header is the length byte, the extension bytes, the 4 length bytes and the packed tree bits; its bit count is a multiple of 8 |
| Compressor.WriteHeader | HuffmanCoding/src/ProjectTwo/CompressScene.java:284-295 | the bytes written for the header, flushed 8 at a time and then the rest, are the header bits packed 8 to a byte |
| Binary.UnpackOfPack | HuffmanCoding/src/ProjectTwo/CompressScene.java:284-286 | packing whole bytes and unpacking them gives the bits back |
| Binary.PackOfUnpack | HuffmanCoding/src/ProjectTwo/DecompressScene.java:135-138 | unpacking bytes and packing them again gives the bytes back |
| Compressor.Encode | HuffmanCoding/src/ProjectTwo/CompressScene.java:305-310 | the `nodes[...]` lookups of the input all succeed exactly when every input byte has a code slot |
| Compressor.EncodeSlots | HuffmanCoding/src/ProjectTwo/CompressScene.java:303-311 | looking the input up in `nodes[]` succeeds exactly when every input byte has a code, and then yields the codes of the input bytes concatenated in input order |
| Compressor.FillBuffer | HuffmanCoding/src/ProjectTwo/CompressScene.java:314-317 | the bytes put in `bufferOut` are the first 8-bit groups of the accumulator, and what is left is the accumulator without them |
| Compressor.FlushKeepsBits | HuffmanCoding/src/ProjectTwo/CompressScene.java:313-319 | a flush moves bits from the accumulator into the output without losing or reordering any |
| Compressor.AppendCodes | HuffmanCoding/src/ProjectTwo/CompressScene.java:298-321 | the bytes flushed followed by the accumulator are the code stream of the input; when every code has at most 64 bits, the accumulator ends below 64 bits |
| Compressor.WriteRemaining | HuffmanCoding/src/ProjectTwo/CompressScene.java:324-355 | for fewer than 72 leftover bits, the whole leftover bytes and the two `remain` bytes written are the payload as written of the accumulator; with no bits left both `remain` bytes are 0 |
| Compressor.PayloadOfTail | HuffmanCoding/src/ProjectTwo/CompressScene.java:324-355 | the payload is the whole bytes of the bits followed by the trailer of the last `r < 8` bits |
| Compressor.TrailerAsWritten | HuffmanCoding/src/ProjectTwo/CompressScene.java:332-355 | `remain` is always two bytes: the padded bits and `8 - r` for `r` in 1..7 leftover bits, and two zeros when none are left, because `substring(0, 8)` throws and the exception is swallowed |
| Compressor.PayloadBytesAsWritten | HuffmanCoding/src/ProjectTwo/CompressScene.java:323-355 | the payload as written has one byte per 8 code bits plus the two `remain` bytes |
| Compressor.AsWrittenDiffersOnlyWhenAligned | HuffmanCoding/src/ProjectTwo/CompressScene.java:346-355 | the payload as written equals the corrected payload unless the code stream is a multiple of 8 bits; then it has one more zero byte at the end |
| Compressor.Trailer | HuffmanCoding/src/ProjectTwo/CompressScene.java:331-345 | with `r` in 1..7 leftover bits, the trailer is two bytes; with none, it is the one count byte 0 (corrected, see Findings) |
| Compressor.WritePayload | HuffmanCoding/src/ProjectTwo/CompressScene.java:298-355 | when the writer succeeds, every input byte had a code and it wrote the payload as written of the input's code stream; it succeeds whenever every code fits in 64 bits |
| Compressor.CompressedFileAsWritten | HuffmanCoding/src/ProjectTwo/CompressScene.java:346-355 | the file as written is the corrected file when the code stream does not end on a byte boundary, and the corrected file plus one zero byte when it does |
| Compressor.Compress | HuffmanCoding/src/ProjectTwo/CompressScene.java:74-105 | for a non-empty input, the tree is a Huffman tree for the input's histogram (a code tree built by greedy two-minimum merges) whose left children are never heavier than their siblings, every input byte has a code, and the output is the file as written: the packed header followed by the payload with its two-byte trailer; the writer succeeds whenever every code fits in 64 bits |
| Compressor.LoneByteTree | HuffmanCoding/src/ProjectTwo/CompressScene.java:142-145 | for `n > 0` copies of one byte, the tree built is the lone leaf of that byte with count `n`, the case that gets the code `1` |
| Codec.EncodeWithAppend | HuffmanCoding/src/ProjectTwo/CompressScene.java:303-311 | the code stream of a concatenation is the concatenation of the code streams |
| Codec.TrailerBits | HuffmanCoding/src/ProjectTwo/CompressScene.java:331-345 | the trailer's bits begin with the leftover bits, and its last byte counts the bits between them and that byte |
| Codec.TrailerOfLeftover | HuffmanCoding/src/ProjectTwo/CompressScene.java:334-341 | with `r` in 1..7 leftover bits, the trailer unpacks to those bits, `8 - r` zeros and the byte `8 - r` |
| Codec.PayloadBits | HuffmanCoding/src/ProjectTwo/CompressScene.java:298-355 | the payload's bits start with the code stream, and the last byte counts the padding bits between the code stream and that byte |
| Decompressor.ReadPrefix | HuffmanCoding/src/ProjectTwo/DecompressScene.java:104-119 | the prefix is read exactly when the file is non-empty and its first byte is non-negative; the extension is the next bytes up to that count; the header length is the next 4 bytes read big-endian; the rest follows them |
| Decompressor.Int32BE | HuffmanCoding/src/ProjectTwo/DecompressScene.java:118-119 | the reassembled length is a 32-bit signed value |
| Codec.LengthFieldRoundTrip | HuffmanCoding/src/ProjectTwo/DecompressScene.java:116-119 | reading the 4 length bytes big-endian gives back every tree length below 2^31 that the compressor split |
| Decompressor.JavaDiv | HuffmanCoding/src/ProjectTwo/DecompressScene.java:124-125 | Java's `/` rounds toward zero: for a non-negative dividend the quotient times the divisor is the largest multiple not above it, and for a negative one the smallest multiple not below it |
| Decompressor.JavaRem | HuffmanCoding/src/ProjectTwo/DecompressScene.java:124-125 | Java's `%` truncates toward zero: quotient times divisor plus remainder is the dividend, and the remainder takes the sign of the dividend |
| Decompressor.HeaderByteCount | HuffmanCoding/src/ProjectTwo/DecompressScene.java:124-125 | for a non-negative header length, the header takes the length divided by 8, rounded up |
| Codec.HeaderByteCountOfPadding | HuffmanCoding/src/ProjectTwo/DecompressScene.java:124-125 | the decoder's header byte count equals the compressor's padded tree length divided by 8 |
| Decompressor.HeaderBytesTaken | HuffmanCoding/src/ProjectTwo/DecompressScene.java:134-136 | the header never takes more bytes than are left, and takes exactly the wanted number when that many are there |
| Decompressor.SplitSections | HuffmanCoding/src/ProjectTwo/DecompressScene.java:121-141 | the header bits are the bits of the first bytes the header takes, and the payload bits are the bits of every later byte |
| Codec.SectionsLayout | HuffmanCoding/src/ProjectTwo/DecompressScene.java:123-141 | on a compressed file, the split falls exactly between the padded tree bytes and the payload bytes |
| Decompressor.ReconstructTree | HuffmanCoding/src/ProjectTwo/DecompressScene.java:148-164 | the stack loop gives the top of the stack built by pushing leaves on `1` and joining the two top nodes on `0`, or the error where the bits run out or the stack is empty |
| Decompressor.RebuildLeaf | HuffmanCoding/src/ProjectTwo/DecompressScene.java:151-154 | a `1` followed by a byte's 8 bits pushes that byte's leaf and moves on 9 bits |
| Decompressor.RebuildJoin | HuffmanCoding/src/ProjectTwo/DecompressScene.java:155-160 | a `0` pops the right node, then the left, and pushes their parent |
| Decompressor.RebuildSerialize | HuffmanCoding/src/ProjectTwo/DecompressScene.java:150-162 | reading a tree's post-order bits pushes that tree, with frequencies zeroed, on top of whatever the stack held |
| Decompressor.TreeOfSerialize | HuffmanCoding/src/ProjectTwo/DecompressScene.java:148-164 | rebuilding from the serialised bits of a tree, with the header length set to their number, returns that tree with its shape and symbols and zero frequencies |
| HuffmanTree.Erase | HuffmanCoding/src/ProjectTwo/DecompressScene.java:153-157 | the decoder's nodes carry frequency 0 and the same symbols |
| HuffmanTree.SerializeOfErase | HuffmanCoding/src/ProjectTwo/DecompressScene.java:269-281 | the decoder's `getHelper` on the rebuilt tree gives the same bits as the compressor's `getHeader` on the original |
| HuffmanTree.CodesOfErase | HuffmanCoding/src/ProjectTwo/DecompressScene.java:240-261 | the rebuilt tree assigns every byte the same code as the original |
| Codec.CodeTableOfErase | HuffmanCoding/src/ProjectTwo/DecompressScene.java:240-261 | the code table in use is the same for the rebuilt tree as for the original |
| Decompressor.DecoderCodes | HuffmanCoding/src/ProjectTwo/DecompressScene.java:240-261 | `nodes[]` holds every byte's depth-first path at its unsigned index, with no lone-leaf override |
| Decompressor.StripPadding | HuffmanCoding/src/ProjectTwo/DecompressScene.java:180-182 | the kept bits are a prefix of the payload bits that drops at least the count byte |
| Codec.StripPayload | HuffmanCoding/src/ProjectTwo/DecompressScene.java:180-182 | stripping the payload bytes of a code stream gives back exactly that code stream |
| Decompressor.Descend | HuffmanCoding/src/ProjectTwo/DecompressScene.java:193-205 | the inner walk never moves backwards or past the end, consumes a bit whenever it starts at an internal node, and stops at a leaf unless the bits ran out |
| Decompressor.DescendCode | HuffmanCoding/src/ProjectTwo/DecompressScene.java:193-205 | following a byte's code from the root consumes exactly the code and stops at that byte's leaf |
| Decompressor.Step | HuffmanCoding/src/ProjectTwo/DecompressScene.java:190-205 | each pass of the outer loop consumes at least one bit and stays within the bits |
| Decompressor.Walk | HuffmanCoding/src/ProjectTwo/DecompressScene.java:190-205 | the loop reaches the node and position of one decoding pass |
| Decompressor.DecodeWalk | HuffmanCoding/src/ProjectTwo/DecompressScene.java:185-219 | the bytes written, through the 8-byte buffer and the final partial flush, are the decoded symbols in emission order |
| Codec.StepCode | HuffmanCoding/src/ProjectTwo/DecompressScene.java:189-209 | one pass over a byte's code consumes exactly that code and emits that byte, for a lone leaf and for an internal root alike |
| Codec.DecodeLeafRoot | HuffmanCoding/src/ProjectTwo/DecompressScene.java:198-200 | with a lone-leaf root, every remaining bit, whatever its value, yields one copy of the leaf's byte |
| Codec.DecodeEncoded | HuffmanCoding/src/ProjectTwo/DecompressScene.java:189-215 | decoding a code stream followed by anything yields the encoded bytes followed by what the rest decodes to |
| Codec.DecodeAll | HuffmanCoding/src/ProjectTwo/DecompressScene.java:189-215 | decoding the code stream of the input with the rebuilt tree returns exactly the input |
| Decompressor.Decompress | HuffmanCoding/src/ProjectTwo/DecompressScene.java:97-229 | the method's outcome is the file's decoded extension and bytes, or the exception that stops it |
| Codec.ReadLayout | HuffmanCoding/src/ProjectTwo/DecompressScene.java:104-119 | on a compressed file with an extension shorter than 128 bytes, the reader recovers the extension, the tree bit count and the rest |
| Codec.DecodeLayout | HuffmanCoding/src/ProjectTwo/DecompressScene.java:97-229 | the packed header of any tree, followed by any payload, decodes with the rebuilt tree to whatever the stripped payload decodes to |
| Codec.RoundTripAnyTree | HuffmanCoding/src/ProjectTwo/DecompressScene.java:97-229 | for any tree whose codes cover the input, decompressing the compressed file gives back the extension and the input |
| Codec.RoundTrip | HuffmanCoding/src/ProjectTwo/CompressScene.java:74-105 | for a non-empty input and any code tree for its histogram, such as the Huffman tree `Compress` builds, every byte has a code, and decompressing the compressed file gives back the extension and exactly the input |
| Codec.RoundTripAsWritten | HuffmanCoding/src/ProjectTwo/CompressScene.java:298-355 | the file as written, which `Compress` returns, decompresses to the extension and exactly the input whenever the code stream does not end on a byte boundary |
| Codec.AlignedAsWrittenBits | HuffmanCoding/src/ProjectTwo/DecompressScene.java:180-182 | for an aligned code stream, the decoder's strip keeps the as-written zero byte as 8 data bits |
| Codec.AsWrittenAlignedFile | HuffmanCoding/src/ProjectTwo/CompressScene.java:346-355 | an aligned file as written decodes to the code stream followed by 8 zero bits |
| Codec.DecodeWithExtraZeros | HuffmanCoding/src/ProjectTwo/DecompressScene.java:189-215 | those 8 extra bits decode to the input followed by at least one more byte |
| Codec.AsWrittenAlignedPayload | HuffmanCoding/src/ProjectTwo/CompressScene.java:346-355 | for an aligned code stream, the file as written decodes to more bytes than the input, starting with the input, so the round trip fails |
| Codec.AsWrittenLoneLeaf | HuffmanCoding/src/ProjectTwo/CompressScene.java:346-355 | a file of `n` copies of one byte, with `n` a multiple of 8, written with the lone leaf as tree, decodes to `n + 8` copies |
| Codec.AsWrittenLoneByte | HuffmanCoding/src/ProjectTwo/CompressScene.java:346-355 | the same for every tree the compressor can build for those `n > 0` bytes: the file as written decodes to `n + 8` copies |

## Left out

- File I/O is not modelled. Files are byte sequences and the output is the byte sequence that would be written. Reading and writing in 8-byte chunks is modelled as one pass; the chunk size does not change the result.
- File names are not modelled: `split("\\.")`, the unique output name and the `.huff` suffix. The extension is an opaque byte sequence.
- The JavaFX scenes, the table views, the statistics and the open-directory action are left out; they compute nothing the files depend on.
- Exceptions are modelled as `Err` results. The bytes a failing run writes before the exception are not modelled.
- `Node.java`, `Stack.java` and `NodeModel.java` are not part of this model. Nodes are a datatype, and an internal node's `getCharCode()` is taken to be 0, the field's default. The decoder's stack is a sequence whose end is the top. An empty `pop`/`peek` is an error, and the capacity of 256 is not modelled.
- The `huffLength` byte each leaf stores is not modelled. Only its code is kept, and the code's length stands for it.
- Extension characters are modelled as bytes. The `(byte)` cast on write and the `(char)` widening on read are not modelled as characters.
- Compressor.GetFreq: counts are unbounded; Java's `int` counters would wrap past 2^31 - 1 occurrences of one byte.
- Compressor.InitializeHeap: proves that the single tree is a code tree for the input reached by greedy two-minimum merges; it does not prove that such a tree gives the minimal weighted code length.
- Compressor.InitializeHeap: frequencies of merged nodes are unbounded. In the source, `node1.getFreq() + node2.getFreq()` is an `int` sum and turns negative once the input has 2^31 bytes or more, even when no single count wraps. A negative node then sifts up past slot 1 into the sentinel's slot 0, and `remove()` can return the sentinel. That case is not modelled.
- MinHeap.Heap.Remove: requires a non-empty heap. On an empty heap `remove()` copies the sentinel into slot 1 and sets `size` to -1; no caller does that.
- Compressor.WritePayload: reports failure whenever 72 or more bits are left after the last 64-bit flush, which takes codes longer than 64 bits. In the source, 72 to 127 leftover bits write past `bufferOut[7]` and throw, and 128 to 248 make `(byte) builder.length()` -128 to -8, so `length / 8` is negative, `out.write` gets a negative length and throws. From 249 bits on, the cast gives -7 to -1, `length / 8` truncates to 0, and a wrong two-byte trailer is written with no exception; from 256 bits on, the cast wraps around and some lengths lose bits the same way. The model does not reproduce those silent losses. With 64 to 71 leftover bits the source succeeds, and so does the model. Success is proved whenever every code has at most 64 bits.
- Codec.RoundTrip: requires an extension shorter than 128 bytes. When the length modulo 256 is 128 or more, the length byte is negative and the decoder's `new byte[extLength]` throws. Longer extensions whose length modulo 256 is below 128 wrap around: the compressor writes only their first `length % 256` bytes and the extension comes back truncated, without an exception.
- Codec.RoundTrip: is about the corrected file `CompressedFile`, whose trailer is the single count byte 0 on aligned code streams. `Compressor.Compress` returns the file as written, which round-trips only when the code stream is not aligned (`Codec.RoundTripAsWritten`; see Findings).

## Findings

| source | as written | input that shows it | evidently intended | confidence | as-written member | corrected member |
|---|---|---|---|---|---|---|
| HuffmanCoding/src/ProjectTwo/CompressScene.java:346-355 | When the code stream ends on a byte boundary, `builder.substring(0, 8)` throws on the empty accumulator. The exception is swallowed and two zero bytes are written. The decoder reads the last zero as "no padding" and keeps the other zero byte as 8 code bits, so it emits extra bytes. | A file of eight bytes `0x41`: the lone leaf has code `1`, the stream is 8 bits, and the file decodes to sixteen `0x41` | A code stream of a whole number of bytes ends with the single pad-count byte 0, and decompression returns exactly the input | not executed | Codec.AsWrittenLoneByte | Codec.RoundTrip |
