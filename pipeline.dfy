/**
 * The compress and decompress operations of HuffmanCoding, wired from the
 * HuffmanTools steps: the tree of a text, the file it is compressed into, the
 * reading of such a file back, and the round trip between the two.
 */
module Pipeline {
  import opened Wrappers
  import opened Bitstream
  import opened Trees
  import opened Forest
  import opened Codes
  import opened Header
  import opened Decode

  /** Every character fits the seven bits the header stores per symbol. */
  predicate AsciiText(text: seq<char>)
  {
    forall i :: 0 <= i < |text| ==> (text[i] as int) < 128
  }

  // ---------------------------------------------------------------------------
  // The Huffman tree of a text

  /** The frequency table of a nonempty text is valid and its forest is not empty. */
  lemma ForestOfText(text: seq<char>)
    requires text != []
    ensures ValidDict(FrequencyTableOf(text))
    ensures |PlantForest(FrequencyTableOf(text))| >= 1
    ensures ForestSymbols(PlantForest(FrequencyTableOf(text))) == multiset(Distinct(text))
  {
    FrequencyTableProperties(text);
    PlantForestProperties(FrequencyTableOf(text));
    DistinctProperties(text);
    assert text[0] in Distinct(text);
  }

  /** generate_frequency_table, plant_forest and merge_trees in a row. */
  function HuffmanTree(text: seq<char>): Tree
    requires text != []
  {
    ForestOfText(text);
    MergeAll(PlantForest(FrequencyTableOf(text))).tree
  }

  /**
   * The tree of a nonempty text holds each distinct character of the text once:
   * a wrapper around a lone leaf when there is one, a full tree of at least two
   * leaves otherwise. Its root is never a bare leaf.
   */
  lemma HuffmanTreeShape(text: seq<char>)
    requires text != []
    ensures forall c :: c in LeafSymbols(HuffmanTree(text)) <==> c in text
    ensures forall c :: c in LeafSymbols(HuffmanTree(text)) ==> LeafSymbols(HuffmanTree(text))[c] == 1
    ensures !HuffmanTree(text).Leaf?
    ensures HuffmanTree(text).Wrap? ==> HuffmanTree(text).left.Leaf?
    ensures !HuffmanTree(text).Wrap? ==> Full(HuffmanTree(text)) && |LeafSymbols(HuffmanTree(text))| >= 2
  {
    var d := FrequencyTableOf(text);
    ForestOfText(text);
    var forest := PlantForest(d);
    PlantForestProperties(d);
    MergeAllProperties(forest);
    DistinctProperties(text);
    var t := HuffmanTree(text);
    assert LeafSymbols(t) == multiset(Distinct(text));
    forall c | c in LeafSymbols(t)
      ensures LeafSymbols(t)[c] == 1
    {
      NoDuplicatesCount(Distinct(text), c);
    }
    if |forest| == 1 {
      assert forest[0] in multiset(TableLeaves(d));
      var i :| 0 <= i < |TableLeaves(d)| && TableLeaves(d)[i] == forest[0];
      assert forest[0].tree == Leaf(d.keys[i]);
    }
  }

  /** A character occurs once in a sequence without duplicates. */
  lemma {:induction false} NoDuplicatesCount(s: seq<char>, c: char)
    requires NoDuplicates(s) && c in s
    ensures multiset(s)[c] == 1
  {
    var i :| 0 <= i < |s| && s[i] == c;
    assert s == s[..i] + [c] + s[i + 1..];
    assert c !in s[..i] && c !in s[i + 1..] by {
      forall j | 0 <= j < |s| && j != i
        ensures s[j] != c
      {
        if j < i { assert s[j] != s[i]; } else { assert s[i] != s[j]; }
      }
    }
  }

  /** Every character of the text has a code in the tree's code table. */
  lemma HuffmanTreeEncodes(text: seq<char>)
    requires text != []
    ensures Encodable(CodeTable(HuffmanTree(text), []), text)
  {
    HuffmanTreeShape(text);
    CodeTableKeys(HuffmanTree(text), []);
  }

  /** For an ASCII text the tree can be written into the header. */
  lemma HuffmanTreeAscii(text: seq<char>)
    requires text != [] && AsciiText(text)
    ensures Ascii(HuffmanTree(text))
  {
    HuffmanTreeShape(text);
    forall c | c in LeafSymbols(HuffmanTree(text))
      ensures (c as int) < 128
    {
      var i :| 0 <= i < |text| && text[i] == c;
    }
  }

  /**
   * The 16-bit tree_size field always holds an ASCII text's tree: at most 128
   * distinct leaves give a postorder string of at most 3 * 128 - 1 characters.
   */
  lemma HuffmanTreeFits(text: seq<char>)
    requires text != [] && AsciiText(text)
    ensures |Postorder(HuffmanTree(text))| + 1 < Pow2(TreeSizeWidth)
  {
    HuffmanTreeShape(text);
    HuffmanTreeAscii(text);
    TreeFitsSizeField(HuffmanTree(text));
  }

  /** The header's tree, read back, rebuilds the same tree. */
  lemma RebuildHuffmanTree(text: seq<char>)
    requires text != []
    ensures Rebuild(PostTokens(HuffmanTree(text)) + [None]) == Returned(Sub(HuffmanTree(text)))
  {
    var t := HuffmanTree(text);
    HuffmanTreeShape(text);
    if t.Wrap? {
      var c := t.left.symbol;
      var tail: seq<Token> := [None, None];
      assert PostTokens(t) + [None] == [Some(c)] + tail;
      RebuildSingleLeaf(c, tail);
    } else {
      RebuildPostTokens(t);
    }
  }

  // ---------------------------------------------------------------------------
  // Compression

  /** The compressed file: the header, then the padded codes of the text as bytes. */
  function CompressFile(text: seq<char>): seq<Byte>
    requires text != []
  {
    var t := HuffmanTree(text);
    HuffmanTreeEncodes(text);
    BytesOf(HeaderBits(|text|, t)) + BytesOf(Padded(Encode(CodeTable(t, []), text)))
  }

  /** The bits of the compressed file are the header's bits followed by the padded body. */
  lemma CompressFileBits(text: seq<char>)
    requires text != []
    ensures Encodable(CodeTable(HuffmanTree(text), []), text)
    ensures BitsOfBytes(CompressFile(text))
      == HeaderBits(|text|, HuffmanTree(text)) + Padded(Encode(CodeTable(HuffmanTree(text), []), text))
  {
    var t := HuffmanTree(text);
    HuffmanTreeEncodes(text);
    var header, body := HeaderBits(|text|, t), Padded(Encode(CodeTable(t, []), text));
    PaddedAligned(HeaderFields(|text|, t));
    PaddedAligned(Encode(CodeTable(t, []), text));
    BitsOfBytesConcat(BytesOf(header), BytesOf(body));
    BitsOfBytesOfBits(header);
    BitsOfBytesOfBits(body);
  }

  /** The first half of compress on a fresh object: frequency table, forest, merges. */
  method BuildHuffmanTree(text: seq<char>) returns (huffmanTree: Tree)
    requires text != []
    ensures huffmanTree == HuffmanTree(text)
  {
    var frequency := GenerateFrequencyTable(text);
    ForestOfText(text);
    var huffmanForest := PlantForest(frequency);
    var root := MergeTrees(huffmanForest);
    huffmanTree := root.tree;
  }

  /**
   * compress on a fresh object: build the tree, fill compression_codes through a
   * buffer of tree_depth - 1 entries, then the header and the body.
   */
  method Compress(tools: HuffmanTools, text: seq<char>) returns (file: seq<Byte>)
    requires text != []
    requires tools.compressionCodes == map[]
    modifies tools
    ensures tools.compressionCodes == CodeTable(HuffmanTree(text), [])
    ensures file == CompressFile(text)
  {
    var huffmanTree := BuildHuffmanTree(text);
    HuffmanTreeShape(text);
    TreeDepthBounds(huffmanTree);
    var depth := TreeDepth(huffmanTree) - 1;
    var code := new Option<Bit>[depth](_ => None);
    EmptyBuffer(code[..]);
    var _ := tools.GenerateCompressionCodes(huffmanTree, code, 0);
    MapUnionEmpty(CodeTable(huffmanTree, []));
    var header := GenerateFileHeader(text, huffmanTree);
    HuffmanTreeEncodes(text);
    var bytestream := tools.GenerateFileBytestream(text);
    file := header + bytestream.value;
  }

  /** The first call adds its table to an empty compression_codes. */
  lemma MapUnionEmpty<K, V>(m: map<K, V>)
    ensures map[] + m == m
  {
  }

  // ---------------------------------------------------------------------------
  // Decompression

  /**
   * decompress_bitstream on what construct_tree_from_postorder returned when that
   * is not a tree of nodes: a bare string or None has no child attribute, and
   * the wrapper around Tree(None) has a left child without children. The bit is
   * read before the child is looked up, so a missing bit raises IndexError first.
   */
  function DecodeWithout(rebuilt: Rebuilt, textLength: nat, body: seq<Bit>): (r: Result<seq<char>>)
    ensures r.Ok? <==> textLength == 0
    ensures r.Ok? ==> r.value == []
    ensures r.Err? ==> r.error == IndexError || r.error == AttributeError
    ensures textLength > 0 && body == [] ==> r == Err(IndexError)
  {
    if textLength == 0 then Ok([])
    else if body == [] then Err(IndexError)
    else if rebuilt.BareLeaf? && body[0] == '0' && |body| == 1 then Err(IndexError)
    else Err(AttributeError)
  }

  /** decompress on a fresh object, from the bits of the file. */
  function DecompressBits(bits: seq<Bit>): Result<seq<char>>
  {
    match ExtractHeader(bits)
    case Err(e) => Err(e)
    case Ok((textLength, tokens)) => DecompressBody(bits, textLength, tokens)
  }

  /**
   * The rest of decompress once the header is read: rebuild the tree, skip the
   * header's length as computed from the postorder list, decode the body.
   */
  function DecompressBody(bits: seq<Bit>, textLength: nat, tokens: seq<Token>): Result<seq<char>>
  {
    var rebuilt := Rebuild(tokens);
    var length := TokenBits(tokens) + PaddingLength(TokenBits(tokens));
    var body := GetFileBody(bits, length);
    if rebuilt.StackUnderflow? then Err(IndexError)
    else if rebuilt.Returned? && rebuilt.item.Sub? then
      DecodeFrom(rebuilt.item.t, rebuilt.item.t, textLength, body)
    else DecodeWithout(rebuilt, textLength, body)
  }

  /** decompress on a fresh object, from the bytes of the file. */
  function DecompressFile(file: seq<Byte>): Result<seq<char>>
  {
    DecompressBits(BitsOfBytes(file))
  }

  /**
   * decompress: read the file's bits, the header, the tree, then the body after
   * the header's length as computed from the postorder list.
   */
  method Decompress(file: seq<Byte>) returns (r: Result<seq<char>>)
    ensures r == DecompressFile(file)
  {
    var fileBitstream := ExtractFileBitstream(file);
    var header := ExtractHeaderFromBitstream(fileBitstream);
    if header.Err? {
      return Err(header.error);
    }
    var (textLength, postorderTreeList) := header.value;
    var huffmanTree := ConstructTreeFromPostorder(postorderTreeList);
    var length := CalculateBinaryTreeHeaderLength(postorderTreeList);
    var binaryText := GetFileBody(fileBitstream, length);
    if huffmanTree.StackUnderflow? {
      return Err(IndexError);
    }
    if huffmanTree.Returned? && huffmanTree.item.Sub? {
      r := DecompressBitstream(huffmanTree.item.t, textLength, binaryText);
    } else {
      r := DecodeWithout(huffmanTree, textLength, binaryText);
    }
  }

  /**
   * A header written for an ASCII tree that fits the size fields, followed by any
   * body: decompression rebuilds the tree from the header, finds the body right
   * after the header's padding, and decodes it with the rebuilt tree.
   */
  lemma DecompressHeaderAndBody(textLength: nat, t: Tree, body: seq<Bit>)
    requires textLength < Pow2(TextLengthWidth)
    requires |Postorder(t)| + 1 < Pow2(TreeSizeWidth)
    requires Ascii(t)
    requires Rebuild(PostTokens(t) + [None]) == Returned(Sub(t))
    ensures DecompressBits(HeaderBits(textLength, t) + body) == DecodeFrom(t, t, textLength, body)
  {
    var header := HeaderBits(textLength, t);
    var tokens := PostTokens(t) + [None];
    HeaderRoundTrip(textLength, t, body);
    HeaderLengthOfTokens(textLength, t);
    var length := TokenBits(tokens) + PaddingLength(TokenBits(tokens));
    BodyAfterHeader(header, body, length);
    DecompressBodyOfTree(header + body, textLength, tokens, t, length, body);
  }

  /** The body is decoded with the tree rebuilt from the header. */
  lemma DecompressBodyOfTree(bits: seq<Bit>, textLength: nat, tokens: seq<Token>, t: Tree, length: nat, body: seq<Bit>)
    requires Rebuild(tokens) == Returned(Sub(t))
    requires length == TokenBits(tokens) + PaddingLength(TokenBits(tokens))
    requires GetFileBody(bits, length) == body
    ensures DecompressBody(bits, textLength, tokens) == DecodeFrom(t, t, textLength, body)
  {
  }

  /** The body starts where the header ends. */
  lemma BodyAfterHeader(header: seq<Bit>, body: seq<Bit>, length: nat)
    requires TreeStart + length == |header|
    ensures GetFileBody(header + body, length) == body
  {
    assert (header + body)[|header|..] == body;
  }

  /**
   * Round trip: a nonempty ASCII text shorter than 2^32 characters decompresses
   * from its compressed file to itself.
   */
  lemma RoundTrip(text: seq<char>)
    requires text != []
    requires |text| < Pow2(TextLengthWidth)
    requires AsciiText(text)
    ensures DecompressFile(CompressFile(text)) == Ok(text)
  {
    var t := HuffmanTree(text);
    HuffmanTreeFits(text);
    CompressFileBits(text);
    var encoded := Encode(CodeTable(t, []), text);
    HuffmanTreeAscii(text);
    RebuildHuffmanTree(text);
    HuffmanTreeShape(text);
    DecompressHeaderAndBody(|text|, t, Padded(encoded));
    DecodeText(t, text, Zeros(PaddingLength(|encoded|)));
  }
}
