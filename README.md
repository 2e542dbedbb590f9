# Huffman codec, modelled in Dafny

This project models the in-memory core of a Huffman text compressor and proves
properties of it. The core is the `HuffmanTools` class and the tree helpers.

**Compression.**
- count the characters of a text;
- plant one leaf per character in a forest sorted by frequency;
- merge the forest into one Huffman tree;
- derive each character's code from its root-to-leaf path;
- write the file: a header (32-bit text length, 16-bit postorder count, the postorder tree, padding), then the padded body of codes, both packed into bytes.

**Decompression.** Expand the bytes back into bits, read the header, rebuild the tree from its postorder tokens with a stack, skip to the body, and walk the tree bit by bit until the text length is reached.

## Modules

| file | module | models |
|---|---|---|
| `wrappers.dfy` | `Wrappers` | `Option`; `Result` with the Python exception that ends a call (`IndexError`, `ValueError`, `KeyError`, `AttributeError`); `PrefixWith`, text produced before a possible failure |
| `bitstream.dfy` | `Bitstream` | bits (`'0'`/`'1'` characters) and bytes (0..255); `int(.., 2)` and `"{0:0Nb}".format`; `pad_bitstream`, `get_byte_array`, `extract_file_bitstream` |
| `tree.dfy` | `Trees` | the `Tree` node; `get_tree_postorder`, `get_tree_preorder`, `tree_depth`, `construct_tree_from_postorder` |
| `forest.dfy` | `Forest` | `generate_frequency_table`, `plant_forest` (a stable sort), `merge_trees` |
| `codes.dfy` | `Codes` | `get_binary_code`, `generate_compression_codes` (a class with a mutable code table, over an array buffer), `generate_file_bytestream` |
| `header.dfy` | `Header` | `format_postorder_tree_for_header`, `generate_file_header`, `extract_header_from_bitstream`, `calculate_binary_tree_header_length`, `get_file_body` |
| `decode.dfy` | `Decode` | `decompress_bitstream` |
| `pipeline.dfy` | `Pipeline` | `compress` and `decompress` of `HuffmanCoding`, and the end-to-end round trip |

## Representation

- **Tree.** `Tree = Leaf(symbol) | Node(left, right) | Wrap(left)`. `Wrap` is the root that a one-character text gets: an internal node with only a left child.
- **Frequencies.** A frequency lives on the forest's roots as `Weighted(tree, freq)`; nothing reads it below the root.
- **Dictionaries.** A Python `dict` is a key sequence in insertion order plus a `map`. Insertion order matters: `sorted` is stable, so ties keep the order of first occurrence.
- **Postorder tokens.** A token read back from a header is `Option<char>`: `None` for an internal node, `Some(c)` for a symbol.
- **Reconstruction outcomes.** `construct_tree_from_postorder` ends in one of four ways, kept apart in `Rebuilt`:
  - it returns a stack item;
  - it falls off the loop, returning `None`;
  - it underflows the stack, an `IndexError`;
  - it builds the wrapper around a bare `Tree(None)`, a left child with no symbol and no children.
- **Imperative code.** Where the source changes state step by step, the model keeps the loop with its invariants. Each such method is proved equal to a function, and the properties are lemmas about that function:
  - the frequency table, the merge loop, the code buffer, the header writer and reader, the padding and byte loops, and the decoder.
  - `generate_compression_codes` is a method of the `HuffmanTools` class. It updates `compressionCodes` in place and writes and clears an `array` code buffer, as the source does.

Behaviour of the code that the model keeps as written:
- **Errors.** The code raises Python's own exceptions (`IndexError`, `ValueError`, `KeyError`, `AttributeError`), and so does the model. There is no dedicated error for an empty text, a text that is too long, a symbol outside 0..127 or a malformed header.
- **Decoding.** The decoder goes right on any bit other than `'0'`, not only on `'1'`.
- **Insertion.** A merged node is inserted before the first strictly greater frequency; equal frequencies stay in front of it.
- **Preorder.** `get_tree_preorder` is an in-order traversal; it is modelled as `InOrder`.

The end-to-end result is `Pipeline.RoundTrip`. For every nonempty ASCII text shorter than 2^32 characters, decompressing the compressed file gives back the text. The 16-bit count field always suffices for such a text: at most 128 distinct symbols give at most 383 postorder characters (`Pipeline.HuffmanTreeFits`).

## Model

| member | source | states |
|---|---|---|
| Bitstream.BitsToNatOfNatToBits | huffman_compression_tools.py:209-210 | reading a number written in a width it fits gives back the number |
| Bitstream.NatToBitsOfBitsToNat | huffman_compression_tools.py:199 | writing the value of a bit string in that string's width gives back the string |
| Bitstream.FormatBinary | huffman_compression_tools.py:132-133 | `format(n, '0Nb')` is at least N bits, and exactly the N-bit representation when n fits |
| Bitstream.BitsToNatOfFormatBinary | huffman_compression_tools.py:133 | `int(format(n, '0Nb'), 2) == n` for every n, including one wider than the field |
| Bitstream.PadBitstream | huffman_compression_tools.py:166-176 | the input is a prefix; the result is byte-aligned; 1 to 8 zero bits are added, exactly 8 when the input is already aligned |
| Bitstream.PaddedAligned | huffman_compression_tools.py:173-176 | the padded stream is byte-aligned and keeps the input as its prefix |
| Bitstream.GetByteArray | huffman_compression_tools.py:178-189 | the loop over 8-bit slices yields `BytesOf` of the stream |
| Bitstream.BytesOfLength | huffman_compression_tools.py:183 | there is one byte per started 8-bit chunk |
| Bitstream.BytesOfAt | huffman_compression_tools.py:185-188 | byte k is the most-significant-first value of bits 8k..8k+8 |
| Bitstream.ByteBits | huffman_compression_tools.py:199 | each byte expands to exactly 8 bits |
| Bitstream.BitsOfBytes | huffman_compression_tools.py:197-200 | a byte sequence expands to 8 bits per byte |
| Bitstream.BitsOfBytesConcat | huffman_compression_tools.py:197-200 | expanding bytes distributes over concatenation |
| Bitstream.ExtractFileBitstream | huffman_compression_tools.py:191-200 | the read loop yields exactly `BitsOfBytes` of the file |
| Bitstream.BitsOfBytesOfBits | huffman_compression_tools.py:182-189 | bits to bytes to bits is the identity on byte-aligned streams |
| Bitstream.BytesOfBitsOfBytes | huffman_compression_tools.py:197-200 | bytes to bits to bytes is the identity |
| Trees.PostorderShape | tree.py:58-77 | `Trees.Postorder` models `get_tree_postorder`; its string has at least two characters, starts with the leftmost leaf's `1`, and ends with `0` for an internal node |
| Trees.InOrder | tree.py:39-55 | the "preorder" (in-order) string is as long as the postorder string and also starts with the leftmost leaf's `1` |
| Trees.FullInternalCount | huffman_compression_tools.py:54-55 | a tree built by merging two trees at a time has one internal node fewer than leaves |
| Trees.PostorderLength | tree.py:67-77 | the postorder string has one character per internal node and two per leaf |
| Trees.InOrderPermutesPostorder | tree.py:39-55 | the "preorder" (in-order) string is a permutation of the postorder string |
| Trees.TreeDepth | tree.py:109-123 | the depth is at most one more than the number of internal nodes |
| Trees.TreeDepthBounds | tree.py:109-123 | every tree has depth at least 1, and every tree that is not a leaf at least 2 |
| Trees.WalkAppend | huffman_compression_tools.py:272-273 | following a path and then another is following their concatenation |
| Trees.WalkWithinDepth | tree.py:115-123 | a path plus the depth of where it ends is at most the tree's depth |
| Trees.CountSymbolsConcat | tree.py:88 | the symbol count of concatenated token lists is the sum |
| Trees.CountSymbolsPostTokens | tree.py:88 | a tree's postorder tokens hold one string per leaf |
| Trees.ConstructTreeFromPostorder | tree.py:80-107 | the stack loop ends as `Rebuild` says: single-leaf wrapper, return at a lone item, underflow, or falling off the end |
| Trees.RunStackPostTokens | tree.py:94-107 | a full subtree's tokens push exactly one item, that subtree, onto any stack without returning early |
| Trees.RebuildPostTokens | tree.py:94-101 | a full tree of at least two leaves is rebuilt exactly from its tokens plus one extra `None` |
| Trees.RebuildNeedsTerminator | tree.py:94-107 | without the extra `None` the loop falls through and returns `None` |
| Trees.RebuildSingleLeaf | tree.py:88-90 | a token list whose only string is its first token gives the wrapper with that leaf as its left child |
| Trees.RebuildLateSingleLeaf | tree.py:88-90 | a token list whose only string comes after a leading `None` gives the wrapper around a bare `Tree(None)` (`BareLeaf`) |
| Forest.DistinctProperties | huffman_compression_tools.py:24-29 | the dictionary's keys have no duplicates and are exactly the text's characters |
| Forest.CountPositive | huffman_compression_tools.py:26-28 | a character has a positive count exactly when it occurs |
| Forest.GenerateFrequencyTable | huffman_compression_tools.py:18-29 | keys are exactly the text's characters and each value is its occurrence count |
| Forest.SumCountsDistinct | huffman_compression_tools.py:24-29 | the counts of the distinct characters sum to the text's length |
| Forest.FrequencyTableProperties | huffman_compression_tools.py:24-29 | keys are exactly the characters; values are positive counts summing to the length; an empty text gives an empty table |
| Forest.InsertAt | huffman_compression_tools.py:58-65 | the element goes in at the insertion point; everything before and after is kept in order |
| Forest.InsertionPointIs | huffman_compression_tools.py:58-65 | the insertion point is the first index of strictly greater frequency, or the end |
| Forest.InsertionSplit | huffman_compression_tools.py:58-65 | insertion places the new node before the first strictly greater frequency |
| Forest.InsertMultiset | huffman_compression_tools.py:58-65 | insertion adds exactly the new element |
| Forest.InsertSorted | huffman_compression_tools.py:58-65 | insertion keeps a sorted forest sorted |
| Forest.InsertTotals | huffman_compression_tools.py:58-65 | insertion adds the new tree's frequency and leaves, and keeps every tree full |
| Forest.InsertStable | huffman_compression_tools.py:58-65 | among equal frequencies the new element comes after the existing ones |
| Forest.SortByFreqProperties | huffman_compression_tools.py:38 | the sort is ascending and a permutation; it is stable (each frequency's run keeps its order); it keeps totals, leaves and fullness |
| Forest.SortSorted | huffman_compression_tools.py:38 | the sort is ascending by frequency |
| Forest.SortPermutes | huffman_compression_tools.py:38 | the sort is a permutation |
| Forest.SortStable | huffman_compression_tools.py:38 | elements of each frequency keep their relative order |
| Forest.SortTotals | huffman_compression_tools.py:38 | the sort keeps the total frequency, the leaf symbols and fullness |
| Forest.LeavesOf | huffman_compression_tools.py:38 | the comprehension gives one leaf per key, weighted by that key's count |
| Forest.LeavesOfSymbols | huffman_compression_tools.py:38 | the leaves hold exactly the keys, and each is a full tree |
| Forest.PlantForest | huffman_compression_tools.py:31-39 | the forest is sorted ascending by frequency and is a permutation of the table's leaves |
| Forest.PlantForestProperties | huffman_compression_tools.py:31-39 | one leaf per table entry; sorted ascending; ties in the table's key order; leaves are the keys |
| Forest.MergeRoundSorted | huffman_compression_tools.py:54-65 | a merge round keeps the forest sorted and shrinks it by one |
| Forest.MergeRoundTotals | huffman_compression_tools.py:55-65 | a merge round keeps the total frequency, the leaf symbols and fullness |
| Forest.MergeRoundsProperties | huffman_compression_tools.py:54-67 | merging two or more trees gives a node whose frequency is the total and whose leaves are all the original leaves |
| Forest.ForestSymbolsSize | huffman_compression_tools.py:54-67 | a forest holds at least as many leaves as trees |
| Forest.MergeAllProperties | huffman_compression_tools.py:49-67 | the root's frequency is the total and it holds every leaf; one tree gives the wrapper; two or more give a full tree of at least two leaves |
| Forest.MergeTrees | huffman_compression_tools.py:41-67 | the while loop returns `MergeAll`: total frequency and all the forest's leaves |
| Codes.CodeTableKeys | huffman_compression_tools.py:95-103 | there is a code for exactly the leaf symbols |
| Codes.CodeTablePaths | huffman_compression_tools.py:95-103 | each code extends the current path, and its remainder walks from the node to that symbol's leaf (left 0, right 1) |
| Codes.CodeIsLeafPath | huffman_compression_tools.py:95-103 | each code is the path from the root to its leaf; it is no longer than depth - 1 and nonempty unless the root is a leaf |
| Codes.PrefixFree | huffman_compression_tools.py:95-103 | no code is a prefix of another symbol's code |
| Codes.SingleSymbolCode | huffman_compression_tools.py:95-103 | the single-symbol wrapper gives the code "0" |
| Codes.PresentConcat | huffman_compression_tools.py:77-81 | dropping the `None` entries distributes over concatenation |
| Codes.PresentOfNone | huffman_compression_tools.py:77-81 | a buffer of `None` entries gives the empty code |
| Codes.GetBinaryCode | huffman_compression_tools.py:69-81 | the result is the buffer's bits without its `None` entries; it equals the whole buffer when no entry is `None` |
| Codes.PresentOfPrefix | huffman_compression_tools.py:95-103 | while only entries below the top are set, the code is read from them alone |
| Codes.BufferPush | huffman_compression_tools.py:96-100 | writing a bit at the top extends the current path by that bit, and clearing it again restores the buffer |
| Codes.BufferRootCleared | huffman_compression_tools.py:104-107 | after the root's `code[top-1] = None` the buffer is all `None`, so the root call returns the table |
| Codes.EmptyBuffer | HuffmanCoding.py:137 | a buffer of `None` starts with the empty path at the root |
| Codes.EncodeSnoc | huffman_compression_tools.py:159-160 | encoding one more character appends its code |
| Codes.HuffmanTools.constructor | huffman_compression_tools.py:13-16 | a new object starts with no compression codes |
| Codes.HuffmanTools.GenerateCompressionCodes | huffman_compression_tools.py:83-107 | adds each leaf's code (the current path followed by its subtree path); clears the slot above its caller's top; returns the table exactly when the buffer is all `None` again |
| Codes.HuffmanTools.GenerateFileBytestream | huffman_compression_tools.py:151-164 | the padded concatenated codes as bytes, and `KeyError` exactly when a character has no code |
| Decode.DecodeFrom | huffman_compression_tools.py:272-278 | a decoded text has exactly as many symbols as asked for |
| Decode.DecompressBitstream | huffman_compression_tools.py:261-281 | the loop yields `DecodeFrom` from the root: `IndexError` past the last bit, `AttributeError` at a missing child |
| Decode.DecodeCode | huffman_compression_tools.py:272-279 | a code that leads to a leaf is consumed exactly, emits that symbol and restarts at the root |
| Decode.DecodeText | huffman_compression_tools.py:269-281 | the concatenated codes of a text, followed by any bits, decode to the text, and the bits after them are never read |
| Header.FormatPostorder | huffman_compression_tools.py:112-121 | the only failure of the postorder formatting is `IndexError` |
| Header.FormatPostorderTreeForHeader | huffman_compression_tools.py:109-124 | the loop yields the formatted postorder followed by the terminator `0`, or the same `IndexError` |
| Header.FormatPostorderOfTree | huffman_compression_tools.py:114-121 | formatting a tree's postorder, followed by anything, produces the tree field first |
| Header.FormatPostorderTree | huffman_compression_tools.py:109-124 | a tree's postorder string formats without error into its tree field |
| Header.TreeFieldLength | huffman_compression_tools.py:115-121 | for an ASCII tree the field has one bit per internal node and eight per leaf |
| Header.GenerateFileHeader | huffman_compression_tools.py:126-149 | the header bytes are `BytesOf` the padded fields, and they expand back to exactly those bits |
| Header.ShortHeader | huffman_compression_tools.py:209-210 | a stream of at most 32 bits is rejected with `ValueError` |
| Header.ExtractHeaderFromBitstream | huffman_compression_tools.py:202-231 | the result is `ExtractHeader`: `ValueError` when either size field is empty, else the tree reading's result with the text length |
| Header.ReadPostorderTree | huffman_compression_tools.py:212-229 | the index-driven loop yields `ReadTokens` from bit 48 on, including its `IndexError` and `ValueError` exits |
| Header.ReadPastEnd | huffman_compression_tools.py:216-217 | reading past the stream's end while entries remain raises `IndexError` |
| Header.ReadZeroAt | huffman_compression_tools.py:217-219 | a `0` bit appends `None` and moves on by one bit and one entry |
| Header.ReadSymbolAt | huffman_compression_tools.py:220-226 | a `1` bit reads the next seven bits as a symbol and moves on by eight bits and two entries; nothing left raises `ValueError` |
| Header.TokensFieldConcat | huffman_compression_tools.py:114-121 | the field of concatenated token lists is the concatenation, and their entry counts add |
| Header.TreeFieldTokens | huffman_compression_tools.py:114-121 | the tree field is the field of the tree's postorder tokens, and the postorder string length is their entry count |
| Header.ReadZero | huffman_compression_tools.py:218-219 | reading a `0` yields `None` |
| Header.ReadSymbol | huffman_compression_tools.py:220-226 | reading `1` and seven symbol bits yields that symbol |
| Header.ReadToken | huffman_compression_tools.py:217-229 | reading one token's field yields that token |
| Header.ReadTokensOfField | huffman_compression_tools.py:216-229 | reading the field of ASCII tokens yields those tokens, then continues after it |
| Header.ReadTokensOfTree | huffman_compression_tools.py:216-229 | reading an ASCII tree's field yields its postorder tokens |
| Header.ReadTerminator | huffman_compression_tools.py:123 | the terminator `0` as the last entry is read as one `None` |
| Header.ReadTreeAndTerminator | huffman_compression_tools.py:216-231 | the tree field and terminator read back as the postorder tokens and one trailing `None` |
| Header.FieldFits | huffman_compression_tools.py:132-141 | a fitting size field is exactly its width and reads back to its value |
| Header.HeaderLayout | huffman_compression_tools.py:129-147 | the header is the length field, the count field, the tree field, the terminator and the padding |
| Header.ExtractHeaderOfFields | huffman_compression_tools.py:209-210 | the two size fields read back, and the tree reading starts right after them |
| Header.ExtractHeaderOfSizes | huffman_compression_tools.py:209-210 | two fitting size fields read back as the text length and the tree size, and the tokens after them are read with that size |
| Header.ExtractHeaderOfTree | huffman_compression_tools.py:209-231 | the fields written for a text length and an ASCII tree read back as that length and the tree's tokens plus one `None` |
| Header.HeaderRoundTrip | huffman_compression_tools.py:126-149 | any header written, then any body, reads back as the text length and the postorder tokens plus one trailing `None` |
| Header.TokenBitsConcat | huffman_compression_tools.py:240-244 | the computed field length is additive over token lists |
| Header.TokenBitsOfTree | huffman_compression_tools.py:240-244 | for an ASCII tree the computed length is the tree field's length |
| Header.CalculateBinaryTreeHeaderLength | huffman_compression_tools.py:233-249 | 1 per `None` and 8 per symbol, plus 1..8 bits of padding; the result is a multiple of 8 |
| Header.PaddingAfterSizeFields | huffman_compression_tools.py:246-248 | the 48 size bits do not change the padding |
| Header.BoundedSymbols | huffman_compression_tools.py:119 | distinct symbols below n, for n up to 128, number at most n |
| Header.TreeFitsSizeField | huffman_compression_tools.py:132-141 | an ASCII tree with distinct leaves, full or a one-leaf wrapper, has a postorder count that fits the 16-bit field |
| Header.HeaderLengthOfTokens | huffman_compression_tools.py:239-249 | 48 plus the length computed from the read tokens is the padded header's exact length |
| Header.GetFileBody | huffman_compression_tools.py:251-259 | the body is what follows the first 48 + length bits, and is empty past the end |
| Pipeline.ForestOfText | huffman_compression_tools.py:24-39 | a nonempty text gives a valid table and a nonempty forest of its distinct characters |
| Pipeline.HuffmanTreeShape | huffman_compression_tools.py:41-67 | the tree holds each character of the text once; it is the wrapper around one leaf or a full tree of at least two leaves |
| Pipeline.NoDuplicatesCount | huffman_compression_tools.py:24-29 | a key occurs once among the dictionary's keys |
| Pipeline.HuffmanTreeEncodes | huffman_compression_tools.py:159-160 | every character of the text has a code |
| Pipeline.HuffmanTreeAscii | huffman_compression_tools.py:119 | an ASCII text gives an ASCII tree |
| Pipeline.HuffmanTreeFits | huffman_compression_tools.py:132-141 | the tree of any nonempty ASCII text has a postorder count that fits the 16-bit field |
| Pipeline.RebuildHuffmanTree | tree.py:80-107 | the text's tree is rebuilt exactly from its tokens plus the trailing `None` |
| Pipeline.CompressFileBits | HuffmanCoding.py:139-142 | the file's bits are the padded header followed by the padded body |
| Pipeline.BuildHuffmanTree | HuffmanCoding.py:129-132 | the frequency table, the forest and the merges give `HuffmanTree(text)` |
| Pipeline.Compress | HuffmanCoding.py:129-142 | a fresh object's `compress` fills the code table from the tree and returns the header bytes then the body bytes |
| Pipeline.Decompress | HuffmanCoding.py:150-159 | a fresh object's `decompress` yields `DecompressFile`, with every error exit of its steps |
| Pipeline.DecodeWithout | huffman_compression_tools.py:269-274 | decoding with something that is not a tree of nodes succeeds only for text length 0, with the empty text; otherwise it raises `IndexError` (no bit left) or `AttributeError` (no child) |
| Pipeline.DecompressHeaderAndBody | HuffmanCoding.py:150-159 | a written header with any body decompresses to the body decoded with the header's tree |
| Pipeline.RoundTrip | HuffmanCoding.py:129-159 | `decompress(compress(text)) == text` for every nonempty ASCII text shorter than 2^32 characters |

## Left out

- Files and file objects: the context manager, the `rb`/`wb` mode decorators, the extension checks, the diagnostic prints and `file.write`. `compress` returns bytes and `decompress` takes them.
- Reading the file one byte at a time: `extract_file_bitstream` works on a sequence of bytes.
- `print_tree_indented`: console output only.
- `sys.exit` at huffman_compression_tools.py:143 and 187. The first needs an empty postorder, which no tree has. The second is in a `try` that never catches.
- The `try` around the text-length field never raises. A text of 2^32 characters or more gets a wider field; `FormatBinary` models that width, and `Pipeline.RoundTrip` requires the text to fit.
- Pipeline.Compress, Forest.MergeTrees, Pipeline.HuffmanTree: require a nonempty text or forest. With an empty one, `merge_trees` fails with an unbound local variable rather than returning.
- Pipeline.RoundTrip: requires symbols below 128. `"{0:07b}"` writes a wider symbol with more than seven bits, and the reader then misreads the header.
- Pipeline.Compress: models a fresh object, with no cached tree and no codes yet. Reusing a cached tree or cached codes is not modelled.
- Pipeline.Decompress: models a fresh object. Reusing a tree left by an earlier `compress`, or a cached decompressed text, is not modelled.
- Aliasing in `merge_trees`: `del forest[:2]` changes the caller's list until the rebinding at huffman_compression_tools.py:60. Only the returned tree is modelled.
- The mutable default `code=[]` of `generate_compression_codes`: the buffer is always passed explicitly.
- `Tree.frequency` below the forest's roots, and on rebuilt trees, where it is `None`. Also the `depth` field assigned from outside; the depth is computed where `compress` needs it.
- `get_binary_code` applied to a string slice while the header is read: it returns the slice unchanged, so that step is the identity.
- Unicode beyond 0..127: characters are Dafny `char`s, and the header is proved only for symbols below 128.
- No concrete text is evaluated, so compression ratio is not covered.
- Codes.HuffmanTools.GenerateCompressionCodes: requires a buffer of at least depth - 1 entries, and a nonempty one at the root. A shorter buffer makes Python raise `IndexError` (`code[top]` past the end, or `code[-1]` on an empty list); that error path is not modelled, because `compress` always passes a buffer of exactly depth - 1 entries to a root that is never a leaf.
