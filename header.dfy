/**
 * The file header of HuffmanTools: a 32-bit text length, a 16-bit count of
 * postorder entries, and the postorder tree itself (1 and a 7-bit symbol per
 * leaf, 0 per internal node, 0 as terminator), padded to a byte boundary; and
 * the reading of that header back from a file's bitstream.
 */
module Header {
  import opened Wrappers
  import opened Bitstream
  import opened Trees

  /** header_info['text_length']: the width of the text-length field. */
  const TextLengthWidth: nat := 32
  /** header_info['tree_leaves']: the width of the postorder-count field. */
  const TreeSizeWidth: nat := 16
  /** Where the tree field starts. */
  const TreeStart: nat := TextLengthWidth + TreeSizeWidth

  /** Every symbol of the tree fits the seven bits the header gives it. */
  predicate Ascii(t: Tree)
  {
    forall c :: c in LeafSymbols(t) ==> (c as int) < 128
  }

  /** Distinct symbols below n, for n <= 128, number at most n. */
  lemma {:induction false} BoundedSymbols(m: multiset<char>, n: nat)
    requires n <= 128
    requires forall c :: c in m ==> (c as int) < n && m[c] == 1
    ensures |m| <= n
  {
    if n == 0 {
      assert m == multiset{};
    } else {
      var top := (n - 1) as char;
      var rest := m - multiset{top};
      BoundedSymbols(rest, n - 1);
      if top in m {
        assert m == rest + multiset{top};
      } else {
        assert m == rest;
      }
    }
  }

  /**
   * An ASCII tree with distinct leaves, full or a wrapper around one leaf, has a
   * postorder string short enough for the 16-bit tree_size field.
   */
  lemma TreeFitsSizeField(t: Tree)
    requires Ascii(t)
    requires forall c :: c in LeafSymbols(t) ==> LeafSymbols(t)[c] == 1
    requires Full(t) || (t.Wrap? && t.left.Leaf?)
    ensures |Postorder(t)| + 1 < Pow2(TreeSizeWidth)
  {
    BoundedSymbols(LeafSymbols(t), 128);
    PostorderLength(t);
    if Full(t) {
      FullInternalCount(t);
    }
    TreeSizeRange();
  }

  /** The 16-bit tree_size field holds every count below 512. */
  lemma TreeSizeRange()
    ensures Pow2(TreeSizeWidth) >= 512
  {
    Pow2Monotone(9, TreeSizeWidth);
    assert Pow2(9) == 512;
  }

  lemma AsciiSubtrees(t: Tree)
    requires Ascii(t)
    ensures !t.Leaf? ==> Ascii(t.left)
    ensures t.Node? ==> Ascii(t.right)
  {
    if !t.Leaf? {
      forall c | c in LeafSymbols(t.left)
        ensures (c as int) < 128
      {
        assert c in LeafSymbols(t);
      }
    }
    if t.Node? {
      forall c | c in LeafSymbols(t.right)
        ensures (c as int) < 128
      {
        assert c in LeafSymbols(t);
      }
    }
  }

  /** "{0:07b}".format(ord(c)): seven bits for an ASCII symbol, more for a wider one. */
  function SymbolBits(c: char): seq<Bit>
  {
    FormatBinary(c as nat, 7)
  }

  // ---------------------------------------------------------------------------
  // Writing the header

  /**
   * format_postorder_tree_for_header as a function, without its final terminator
   * bit: '0' gives 0, '1' gives 1 and the seven bits of the character after it,
   * which it skips; any other character is skipped. A '1' in the last position
   * has no character after it: postorder[i + 1] raises IndexError.
   */
  function FormatPostorder(postorder: seq<char>): (r: Result<seq<Bit>>)
    ensures r.Err? ==> r.error == IndexError
    decreases |postorder|
  {
    if postorder == [] then Ok([])
    else if postorder[0] == '0' then PrefixWith(['0'], FormatPostorder(postorder[1..]))
    else if postorder[0] == '1' then
      if |postorder| == 1 then Err(IndexError)
      else PrefixWith(['1'] + SymbolBits(postorder[1]), FormatPostorder(postorder[2..]))
    else FormatPostorder(postorder[1..])
  }

  /** format_postorder_tree_for_header: the formatted entries followed by the terminator bit 0. */
  method FormatPostorderTreeForHeader(postorder: seq<char>) returns (r: Result<seq<Bit>>)
    ensures r.Ok? <==> FormatPostorder(postorder).Ok?
    ensures r.Ok? ==> r.value == FormatPostorder(postorder).value + ['0']
    ensures r.Err? ==> r.error == IndexError
  {
    var bitstream: seq<Bit> := [];
    var i := 0;
    PrefixWithNothing(FormatPostorder(postorder));
    while i < |postorder|
      invariant 0 <= i <= |postorder|
      invariant PrefixWith(bitstream, FormatPostorder(postorder[i..])) == FormatPostorder(postorder)
      decreases |postorder| - i
    {
      ghost var rest := postorder[i..];
      assert rest[1..] == postorder[i + 1..];
      if postorder[i] == '0' {
        assert FormatPostorder(rest) == PrefixWith(['0'], FormatPostorder(postorder[i + 1..]));
        PrefixWithAssoc(bitstream, ['0'], FormatPostorder(postorder[i + 1..]));
        bitstream := bitstream + ['0'];
      } else if postorder[i] == '1' {
        if i + 1 >= |postorder| {
          return Err(IndexError);
        }
        assert rest[2..] == postorder[i + 2..];
        assert FormatPostorder(rest) == PrefixWith(['1'] + SymbolBits(postorder[i + 1]), FormatPostorder(postorder[i + 2..]));
        var leafBits := ['1'] + SymbolBits(postorder[i + 1]);
        PrefixWithAssoc(bitstream, leafBits, FormatPostorder(postorder[i + 2..]));
        bitstream := bitstream + leafBits;
        i := i + 1;
      } else {
        assert FormatPostorder(rest) == FormatPostorder(postorder[i + 1..]);
      }
      i := i + 1;
    }
    assert postorder[i..] == [];
    return Ok(bitstream + ['0']);
  }

  /** The tree field of a subtree, in postorder: 1 and the symbol's bits per leaf, 0 per internal node. */
  function TreeField(t: Tree): seq<Bit>
  {
    match t
    case Leaf(c) => ['1'] + SymbolBits(c)
    case Node(l, r) => TreeField(l) + TreeField(r) + ['0']
    case Wrap(l) => TreeField(l) + ['0']
  }

  /** Formatting a subtree's postorder string emits that subtree's tree field and never fails. */
  lemma {:induction false} FormatPostorderOfTree(t: Tree, rest: seq<char>)
    ensures FormatPostorder(Postorder(t) + rest) == PrefixWith(TreeField(t), FormatPostorder(rest))
  {
    var p := Postorder(t) + rest;
    match t
    case Leaf(c) =>
      assert p[0] == '1' && p[1] == c && p[2..] == rest;
    case Node(l, r) =>
      var tail := ['0'] + rest;
      assert p == Postorder(l) + (Postorder(r) + tail);
      FormatPostorderOfTree(l, Postorder(r) + tail);
      FormatPostorderOfTree(r, tail);
      assert tail[1..] == rest;
      PrefixWithAssoc(TreeField(r), ['0'], FormatPostorder(rest));
      PrefixWithAssoc(TreeField(l), TreeField(r) + ['0'], FormatPostorder(rest));
      assert TreeField(l) + (TreeField(r) + ['0']) == TreeField(t);
    case Wrap(l) =>
      var tail := ['0'] + rest;
      assert p == Postorder(l) + tail;
      FormatPostorderOfTree(l, tail);
      assert tail[1..] == rest;
      PrefixWithAssoc(TreeField(l), ['0'], FormatPostorder(rest));
  }

  lemma FormatPostorderTree(t: Tree)
    ensures FormatPostorder(Postorder(t)) == Ok(TreeField(t))
  {
    FormatPostorderOfTree(t, []);
    assert Postorder(t) + [] == Postorder(t);
    assert TreeField(t) + [] == TreeField(t);
  }

  /** An ASCII tree's field has eight bits per leaf and one per internal node. */
  lemma {:induction false} TreeFieldLength(t: Tree)
    requires Ascii(t)
    ensures |TreeField(t)| == InternalCount(t) + 8 * |LeafSymbols(t)|
  {
    match t
    case Leaf(c) =>
      assert c in LeafSymbols(t);
      Pow2Monotone(0, 0);
      assert Pow2(7) == 128;
    case Node(l, r) =>
      AsciiSubtrees(t);
      TreeFieldLength(l);
      TreeFieldLength(r);
    case Wrap(l) =>
      AsciiSubtrees(t);
      TreeFieldLength(l);
  }

  /**
   * The header as generate_file_header builds it, before packing: the text length
   * in 32 bits, len(postorder) + 1 in 16 bits (the +1 counts the terminator),
   * the tree field and the terminator 0, padded to a byte boundary.
   */
  function HeaderBits(textLength: nat, t: Tree): seq<Bit>
  {
    Padded(HeaderFields(textLength, t))
  }

  /** The header's fields before padding. */
  function HeaderFields(textLength: nat, t: Tree): seq<Bit>
  {
    FormatBinary(textLength, TextLengthWidth) + FormatBinary(|Postorder(t)| + 1, TreeSizeWidth) + TreeField(t) + ['0']
  }

  /**
   * generate_file_header: the header packed into bytes. The postorder string of
   * a tree is never empty, so the sys.exit branch is never taken.
   */
  method GenerateFileHeader(text: seq<char>, huffmanTree: Tree) returns (header: seq<Byte>)
    ensures header == BytesOf(HeaderBits(|text|, huffmanTree))
    ensures BitsOfBytes(header) == HeaderBits(|text|, huffmanTree)
  {
    var bits: seq<Bit> := FormatBinary(|text|, TextLengthWidth);
    var postorder := Postorder(huffmanTree);
    bits := bits + FormatBinary(|postorder| + 1, TreeSizeWidth);
    var field := FormatPostorderTreeForHeader(postorder);
    FormatPostorderTree(huffmanTree);
    assert bits + (TreeField(huffmanTree) + ['0']) == bits + TreeField(huffmanTree) + ['0'];
    bits := bits + field.value;
    bits := PadBitstream(bits);
    assert bits == HeaderBits(|text|, huffmanTree);
    header := GetByteArray(bits);
    BitsOfBytesOfBits(bits);
  }

  // ---------------------------------------------------------------------------
  // Reading the header

  /** chr(int(bits, 2)) for at most seven bits. */
  function SymbolOf(bits: seq<Bit>): char
    requires |bits| <= 7
  {
    Pow2Monotone(|bits|, 7);
    assert Pow2(7) == 128;
    BitsToNat(bits) as char
  }

  /**
   * The loop of extract_header_from_bitstream as a function, over the stream
   * from the current bit on, at entry cti of tree_size entries: a 0 bit is None;
   * a 1 bit is the character of the next seven bits and counts as two entries
   * (the '1' and the symbol of the postorder string). Reading past the end raises
   * IndexError and an empty seven-bit slice ValueError.
   */
  function ReadTokens(field: seq<Bit>, cti: nat, treeSize: nat): Result<seq<Token>>
    decreases treeSize - cti
  {
    if cti >= treeSize then Ok([])
    else if field == [] then Err(IndexError)
    else if field[0] == '0' then PrefixWith([None], ReadTokens(field[1..], cti + 1, treeSize))
    else
      var symbolBits := field[1..Min(8, |field|)];
      if symbolBits == [] then Err(ValueError)
      else PrefixWith([Some(SymbolOf(symbolBits))], ReadTokens(field[Min(8, |field|)..], cti + 2, treeSize))
  }

  /**
   * extract_header_from_bitstream as a function: the text length from the first
   * 32 bits and tree_size from the next 16, then the postorder tokens from bit 48
   * on. int('', 2) raises ValueError, so a stream of at most 32 bits is rejected.
   */
  function ExtractHeader(bits: seq<Bit>): Result<(nat, seq<Token>)>
  {
    var lengthField := bits[..Min(TextLengthWidth, |bits|)];
    var sizeField := bits[Min(TextLengthWidth, |bits|)..Min(TreeStart, |bits|)];
    if lengthField == [] || sizeField == [] then Err(ValueError)
    else match ReadTokens(bits[Min(TreeStart, |bits|)..], 0, BitsToNat(sizeField))
      case Err(e) => Err(e)
      case Ok(tokens) => Ok((BitsToNat(lengthField), tokens))
  }

  /** A stream too short to hold the two size fields is rejected with ValueError. */
  lemma ShortHeader(bits: seq<Bit>)
    requires |bits| <= TextLengthWidth
    ensures ExtractHeader(bits) == Err(ValueError)
  {
    assert bits[Min(TextLengthWidth, |bits|)..Min(TreeStart, |bits|)] == [];
  }

  /**
   * extract_header_from_bitstream. get_binary_code applied to a string slice
   * returns the slice unchanged, so it is not modelled as a separate step.
   */
  method ExtractHeaderFromBitstream(bitstream: seq<Bit>) returns (r: Result<(nat, seq<Token>)>)
    ensures r == ExtractHeader(bitstream)
  {
    var lengthField := bitstream[..Min(TextLengthWidth, |bitstream|)];
    if lengthField == [] {
      return Err(ValueError);
    }
    var fileLength: nat := BitsToNat(lengthField);
    var sizeField := bitstream[Min(TextLengthWidth, |bitstream|)..Min(TreeStart, |bitstream|)];
    if sizeField == [] {
      return Err(ValueError);
    }
    var treeSize: nat := BitsToNat(sizeField);
    var tokens := ReadPostorderTree(bitstream, treeSize);
    match tokens {
      case Err(e) => return Err(e);
      case Ok(postorderHuffmanTree) => return Ok((fileLength, postorderHuffmanTree));
    }
  }

  /**
   * The loop of extract_header_from_bitstream: tree_size entries of the postorder
   * tree, read from bit 48 on.
   */
  method ReadPostorderTree(bitstream: seq<Bit>, treeSize: nat) returns (r: Result<seq<Token>>)
    ensures r == ReadTokens(bitstream[Min(TreeStart, |bitstream|)..], 0, treeSize)
  {
    ghost var whole := ReadTokens(bitstream[Min(TreeStart, |bitstream|)..], 0, treeSize);
    var postorderHuffmanTree: seq<Token> := [];
    var bitstreamIndex: nat := 0;
    var currentTreeIndex: nat := 0;
    PrefixWithNothing(whole);
    while currentTreeIndex < treeSize
      invariant PrefixWith(postorderHuffmanTree,
        ReadTokens(bitstream[Min(TreeStart + bitstreamIndex, |bitstream|)..], currentTreeIndex, treeSize)) == whole
      decreases treeSize - currentTreeIndex
    {
      var at: nat := TreeStart + bitstreamIndex;
      if at >= |bitstream| {
        ReadPastEnd(bitstream, at, currentTreeIndex, treeSize, postorderHuffmanTree);
        return Err(IndexError);
      }
      // where the step lemmas leave the reading, as the same terms the invariant will use
      ghost var nextAt: nat, nextIndex: nat;
      if bitstream[at] == '0' {
        ReadZeroAt(bitstream, at, currentTreeIndex, treeSize, postorderHuffmanTree);
        nextAt, nextIndex := at + 1, currentTreeIndex + 1;
        postorderHuffmanTree := postorderHuffmanTree + [None];
      } else {
        var symbolBits := bitstream[at + 1..Min(at + 8, |bitstream|)];
        ReadSymbolAt(bitstream, at, currentTreeIndex, treeSize, postorderHuffmanTree);
        if symbolBits == [] {
          return Err(ValueError);
        }
        var character := SymbolOf(symbolBits);
        nextAt, nextIndex := at + 8, currentTreeIndex + 2;
        postorderHuffmanTree := postorderHuffmanTree + [Some(character)];
        bitstreamIndex := bitstreamIndex + 7;
        currentTreeIndex := currentTreeIndex + 1;
      }
      bitstreamIndex := bitstreamIndex + 1;
      currentTreeIndex := currentTreeIndex + 1;
      assert TreeStart + bitstreamIndex == nextAt && currentTreeIndex == nextIndex;
    }
    assert postorderHuffmanTree + [] == postorderHuffmanTree;
    return Ok(postorderHuffmanTree);
  }

  /** Reading from past the end of the stream, while entries remain, raises IndexError. */
  lemma ReadPastEnd(bits: seq<Bit>, at: nat, cti: nat, treeSize: nat, acc: seq<Token>)
    requires at >= |bits| && cti < treeSize
    ensures PrefixWith(acc, ReadTokens(bits[Min(at, |bits|)..], cti, treeSize)) == Err(IndexError)
  {
  }

  /** A 0 bit at position at, while entries remain, is read as None. */
  lemma ReadZeroAt(bits: seq<Bit>, at: nat, cti: nat, treeSize: nat, acc: seq<Token>)
    requires at < |bits| && bits[at] == '0' && cti < treeSize
    ensures PrefixWith(acc, ReadTokens(bits[Min(at, |bits|)..], cti, treeSize))
      == PrefixWith(acc + [None], ReadTokens(bits[Min(at + 1, |bits|)..], cti + 1, treeSize))
  {
    assert bits[at..][1..] == bits[at + 1..];
    PrefixWithAssoc(acc, [None], ReadTokens(bits[at + 1..], cti + 1, treeSize));
  }

  /**
   * A 1 bit at position at, while entries remain, reads the (up to) seven bits
   * after it: none left raises ValueError, otherwise they are the symbol.
   */
  lemma ReadSymbolAt(bits: seq<Bit>, at: nat, cti: nat, treeSize: nat, acc: seq<Token>)
    requires at < |bits| && bits[at] != '0' && cti < treeSize
    ensures bits[at + 1..Min(at + 8, |bits|)] == [] ==>
      PrefixWith(acc, ReadTokens(bits[Min(at, |bits|)..], cti, treeSize)) == Err(ValueError)
    ensures bits[at + 1..Min(at + 8, |bits|)] != [] ==>
      PrefixWith(acc, ReadTokens(bits[Min(at, |bits|)..], cti, treeSize))
        == PrefixWith(acc + [Some(SymbolOf(bits[at + 1..Min(at + 8, |bits|)]))],
                      ReadTokens(bits[Min(at + 8, |bits|)..], cti + 2, treeSize))
  {
    var field := bits[at..];
    var symbolBits := bits[at + 1..Min(at + 8, |bits|)];
    assert field[1..Min(8, |field|)] == symbolBits;
    assert field[Min(8, |field|)..] == bits[Min(at + 8, |bits|)..];
    if symbolBits != [] {
      PrefixWithAssoc(acc, [Some(SymbolOf(symbolBits))], ReadTokens(bits[Min(at + 8, |bits|)..], cti + 2, treeSize));
    }
  }

  /** The bits one token occupies in the tree field. */
  function TokenField(token: Token): seq<Bit>
  {
    if token.None? then ['0'] else ['1'] + SymbolBits(token.value)
  }

  /** The tree field of a token list, front to back. */
  function TokensField(tokens: seq<Token>): seq<Bit>
  {
    if tokens == [] then [] else TokenField(tokens[0]) + TokensField(tokens[1..])
  }

  /** How many postorder entries a token list stands for: one per None, two per symbol. */
  function Entries(tokens: seq<Token>): nat
  {
    if tokens == [] then 0 else TokenEntries(tokens[0]) + Entries(tokens[1..])
  }

  function TokenEntries(token: Token): nat
  {
    if token.None? then 1 else 2
  }

  predicate AsciiTokens(tokens: seq<Token>)
  {
    forall i :: 0 <= i < |tokens| && tokens[i].Some? ==> (tokens[i].value as int) < 128
  }

  lemma {:induction false} TokensFieldConcat(a: seq<Token>, b: seq<Token>)
    ensures TokensField(a + b) == TokensField(a) + TokensField(b)
    ensures Entries(a + b) == Entries(a) + Entries(b)
  {
    if a == [] {
      assert a + b == b;
    } else {
      assert (a + b)[1..] == a[1..] + b;
      TokensFieldConcat(a[1..], b);
    }
  }

  lemma AsciiTokensConcat(a: seq<Token>, b: seq<Token>)
    requires AsciiTokens(a) && AsciiTokens(b)
    ensures AsciiTokens(a + b)
  {
    forall i | 0 <= i < |a + b| && (a + b)[i].Some?
      ensures ((a + b)[i].value as int) < 128
    {
      if i >= |a| {
        assert (a + b)[i] == b[i - |a|];
      }
    }
  }

  /** A subtree's field is the field of its postorder tokens, which stand for its postorder string's entries. */
  lemma {:induction false} TreeFieldTokens(t: Tree)
    requires Ascii(t)
    ensures TreeField(t) == TokensField(PostTokens(t))
    ensures |Postorder(t)| == Entries(PostTokens(t))
    ensures AsciiTokens(PostTokens(t))
  {
    AsciiSubtrees(t);
    var none: seq<Token> := [None];
    assert TokensField(none) == ['0'] && Entries(none) == 1 by {
      assert none[1..] == [];
    }
    match t
    case Leaf(c) =>
      assert c in LeafSymbols(t);
      var leaf: seq<Token> := [Some(c)];
      assert leaf[1..] == [];
    case Node(l, r) =>
      TreeFieldTokens(l);
      TreeFieldTokens(r);
      TokensFieldConcat(PostTokens(l), PostTokens(r));
      TokensFieldConcat(PostTokens(l) + PostTokens(r), none);
      AsciiTokensConcat(PostTokens(l), PostTokens(r));
      AsciiTokensConcat(PostTokens(l) + PostTokens(r), none);
    case Wrap(l) =>
      TreeFieldTokens(l);
      TokensFieldConcat(PostTokens(l), none);
      AsciiTokensConcat(PostTokens(l), none);
  }

  /** A 0 bit, while entries remain, is read as None. */
  lemma ReadZero(rest: seq<Bit>, cti: nat, treeSize: nat)
    requires cti < treeSize
    ensures ReadTokens(['0'] + rest, cti, treeSize) == PrefixWith([None], ReadTokens(rest, cti + 1, treeSize))
  {
    assert (['0'] + rest)[1..] == rest;
  }

  /** An ASCII symbol's eight bits, while entries remain, are read as that symbol. */
  lemma ReadSymbol(c: char, rest: seq<Bit>, cti: nat, treeSize: nat)
    requires (c as int) < 128
    requires cti < treeSize
    ensures ReadTokens(['1'] + SymbolBits(c) + rest, cti, treeSize) == PrefixWith([Some(c)], ReadTokens(rest, cti + 2, treeSize))
  {
    assert Pow2(7) == 128;
    BitsToNatOfNatToBits(c as nat, 7);
    var field := ['1'] + SymbolBits(c) + rest;
    assert field[1..8] == SymbolBits(c);
    assert field[8..] == rest;
  }

  /**
   * Reading the field of ASCII tokens back, with enough entries left in tree_size,
   * yields the tokens and moves on past their field and their entries.
   */
  lemma {:induction false} ReadTokensOfField(tokens: seq<Token>, rest: seq<Bit>, cti: nat, end: nat, treeSize: nat)
    requires AsciiTokens(tokens)
    requires end == cti + Entries(tokens) && end <= treeSize
    ensures ReadTokens(TokensField(tokens) + rest, cti, treeSize) == PrefixWith(tokens, ReadTokens(rest, end, treeSize))
    decreases |tokens|
  {
    if tokens == [] {
      ReadNoTokens(rest, cti, treeSize);
    } else {
      var more, next := tokens[1..], cti + TokenEntries(tokens[0]);
      AsciiTokensTail(tokens);
      ReadTokensOfField(more, rest, next, end, treeSize);
      ReadTokensCons(tokens, rest, cti, end, treeSize);
    }
  }

  lemma ReadNoTokens(rest: seq<Bit>, cti: nat, treeSize: nat)
    ensures ReadTokens(TokensField([]) + rest, cti, treeSize) == PrefixWith([], ReadTokens(rest, cti, treeSize))
  {
    assert TokensField([]) + rest == rest;
    PrefixWithNothing(ReadTokens(rest, cti, treeSize));
  }

  /** The step of ReadTokensOfField: the first token read, then the rest as the hypothesis says. */
  lemma ReadTokensCons(tokens: seq<Token>, rest: seq<Bit>, cti: nat, end: nat, treeSize: nat)
    requires tokens != [] && (tokens[0].Some? ==> (tokens[0].value as int) < 128)
    requires cti < treeSize
    requires ReadTokens(TokensField(tokens[1..]) + rest, cti + TokenEntries(tokens[0]), treeSize)
      == PrefixWith(tokens[1..], ReadTokens(rest, end, treeSize))
    ensures ReadTokens(TokensField(tokens) + rest, cti, treeSize) == PrefixWith(tokens, ReadTokens(rest, end, treeSize))
  {
    var token, more := tokens[0], tokens[1..];
    var after := TokensField(more) + rest;
    FieldUnfold(tokens, rest);
    ReadToken(token, after, cti, treeSize);
    PrefixWithCons(tokens, ReadTokens(rest, end, treeSize));
  }

  lemma AsciiTokensTail(tokens: seq<Token>)
    requires tokens != [] && AsciiTokens(tokens)
    ensures AsciiTokens(tokens[1..])
    ensures tokens[0].Some? ==> (tokens[0].value as int) < 128
    ensures Entries(tokens) == TokenEntries(tokens[0]) + Entries(tokens[1..])
  {
    var more := tokens[1..];
    forall i | 0 <= i < |more| && more[i].Some?
      ensures (more[i].value as int) < 128
    {
      assert more[i] == tokens[i + 1];
    }
  }

  /** The field of a token list is the first token's field, then the rest's. */
  lemma FieldUnfold(tokens: seq<Token>, rest: seq<Bit>)
    requires tokens != []
    ensures TokensField(tokens) + rest == TokenField(tokens[0]) + (TokensField(tokens[1..]) + rest)
    ensures Entries(tokens) == TokenEntries(tokens[0]) + Entries(tokens[1..])
  {
  }

  /** One token's bits, while entries remain, are read as that token. */
  lemma ReadToken(token: Token, after: seq<Bit>, cti: nat, treeSize: nat)
    requires token.Some? ==> (token.value as int) < 128
    requires cti < treeSize
    ensures ReadTokens(TokenField(token) + after, cti, treeSize)
      == PrefixWith([token], ReadTokens(after, cti + TokenEntries(token), treeSize))
  {
    if token.None? {
      ReadZero(after, cti, treeSize);
    } else {
      ReadSymbol(token.value, after, cti, treeSize);
    }
  }

  /**
   * Reading an ASCII subtree's field back, with enough entries left in tree_size,
   * yields the subtree's postorder tokens and moves on past its field and its
   * postorder string's entries.
   */
  lemma ReadTokensOfTree(t: Tree, rest: seq<Bit>, cti: nat, end: nat, treeSize: nat)
    requires Ascii(t)
    requires end == cti + |Postorder(t)| && end <= treeSize
    ensures ReadTokens(TreeField(t) + rest, cti, treeSize) == PrefixWith(PostTokens(t), ReadTokens(rest, end, treeSize))
  {
    TreeFieldTokens(t);
    ReadTokensOfField(PostTokens(t), rest, cti, end, treeSize);
  }

  /**
   * Header round trip: for a text length that fits 32 bits, a postorder count
   * that fits 16 bits and an ASCII tree, reading the header back, whatever body
   * follows it, gives the text length and the tree's postorder tokens followed
   * by the None of the terminator.
   */
  lemma HeaderRoundTrip(textLength: nat, t: Tree, body: seq<Bit>)
    requires textLength < Pow2(TextLengthWidth)
    requires |Postorder(t)| + 1 < Pow2(TreeSizeWidth)
    requires Ascii(t)
    ensures ExtractHeader(HeaderBits(textLength, t) + body) == Ok((textLength, PostTokens(t) + [None]))
  {
    HeaderLayout(textLength, t, body);
    ExtractHeaderOfTree(textLength, t, HeaderPadding(textLength, t) + body);
  }

  /** The two size fields, then the terminated tree field, read back. */
  lemma ExtractHeaderOfTree(textLength: nat, t: Tree, after: seq<Bit>)
    requires textLength < Pow2(TextLengthWidth)
    requires |Postorder(t)| + 1 < Pow2(TreeSizeWidth)
    requires Ascii(t)
    ensures ExtractHeader(FormatBinary(textLength, TextLengthWidth) + FormatBinary(|Postorder(t)| + 1, TreeSizeWidth)
      + Terminated(t, after)) == Ok((textLength, PostTokens(t) + [None]))
  {
    var size := |Postorder(t)| + 1;
    ReadTreeAndTerminator(t, after, size);
    ExtractHeaderOfSizes(textLength, size, Terminated(t, after), PostTokens(t) + [None]);
  }

  /** Two fitting size fields, then a field that reads as the tokens, read back as the text length and those tokens. */
  lemma ExtractHeaderOfSizes(textLength: nat, size: nat, field: seq<Bit>, tokens: seq<Token>)
    requires textLength < Pow2(TextLengthWidth) && size < Pow2(TreeSizeWidth)
    requires ReadTokens(field, 0, size) == Ok(tokens)
    ensures ExtractHeader(FormatBinary(textLength, TextLengthWidth) + FormatBinary(size, TreeSizeWidth) + field)
      == Ok((textLength, tokens))
  {
    FieldFits(textLength, TextLengthWidth);
    FieldFits(size, TreeSizeWidth);
    ExtractHeaderOfFields(FormatBinary(textLength, TextLengthWidth), FormatBinary(size, TreeSizeWidth), field, tokens);
  }

  /** The tree field, the terminating 0, then whatever follows. */
  function Terminated(t: Tree, after: seq<Bit>): seq<Bit>
  {
    TreeField(t) + (['0'] + after)
  }

  /** The zero bits that pad the header to a byte boundary. */
  function HeaderPadding(textLength: nat, t: Tree): seq<Bit>
  {
    Zeros(PaddingLength(|HeaderFields(textLength, t)|))
  }

  /** A header followed by a body: the two size fields, the tree field, the terminator, the padding, the body. */
  lemma HeaderLayout(textLength: nat, t: Tree, body: seq<Bit>)
    ensures HeaderBits(textLength, t) + body
      == FormatBinary(textLength, TextLengthWidth) + FormatBinary(|Postorder(t)| + 1, TreeSizeWidth)
        + Terminated(t, HeaderPadding(textLength, t) + body)
  {
    HeaderBitsSplit(FormatBinary(textLength, TextLengthWidth), FormatBinary(|Postorder(t)| + 1, TreeSizeWidth),
      TreeField(t), body);
  }

  /** The terminator 0, as the last entry of tree_size, is read as a final None. */
  lemma ReadTerminator(after: seq<Bit>, cti: nat, treeSize: nat)
    requires cti + 1 == treeSize
    ensures ReadTokens(['0'] + after, cti, treeSize) == Ok([None])
  {
    ReadZero(after, cti, treeSize);
    assert ReadTokens(after, cti + 1, treeSize) == Ok([]);
    var none: seq<Token> := [None];
    assert none + [] == none;
  }

  /** The tree field of an ASCII tree and the terminator, read with tree_size = len(postorder) + 1, give the tokens and a final None. */
  lemma ReadTreeAndTerminator(t: Tree, after: seq<Bit>, treeSize: nat)
    requires Ascii(t)
    requires |Postorder(t)| + 1 == treeSize
    ensures ReadTokens(Terminated(t, after), 0, treeSize) == Ok(PostTokens(t) + [None])
  {
    ReadTokensOfTree(t, ['0'] + after, 0, |Postorder(t)|, treeSize);
    ReadTerminator(after, |Postorder(t)|, treeSize);
  }

  /** A value that fits its field is formatted in exactly the field's width and reads back as itself. */
  lemma FieldFits(n: nat, width: nat)
    requires width >= 1 && n < Pow2(width)
    ensures |FormatBinary(n, width)| == width
    ensures BitsToNat(FormatBinary(n, width)) == n
  {
    BitsToNatOfNatToBits(n, width);
  }

  /** Regrouping the padded header's concatenation so the tree field and its terminator sit together. */
  lemma HeaderBitsSplit(lengthBits: seq<Bit>, sizeBits: seq<Bit>, field: seq<Bit>, body: seq<Bit>)
    ensures Padded(lengthBits + sizeBits + field + ['0']) + body
      == lengthBits + sizeBits + (field + (['0']
        + (Zeros(PaddingLength(|lengthBits + sizeBits + field + ['0']|)) + body)))
  {
  }

  /** With both size fields present, the header is read from bit 48 on with the size field's value as tree_size. */
  lemma ExtractHeaderOfFields(lengthBits: seq<Bit>, sizeBits: seq<Bit>, field: seq<Bit>, tokens: seq<Token>)
    requires |lengthBits| == TextLengthWidth && |sizeBits| == TreeSizeWidth
    requires ReadTokens(field, 0, BitsToNat(sizeBits)) == Ok(tokens)
    ensures ExtractHeader(lengthBits + sizeBits + field) == Ok((BitsToNat(lengthBits), tokens))
  {
    var bits := lengthBits + sizeBits + field;
    assert bits[..TextLengthWidth] == lengthBits;
    assert bits[TextLengthWidth..TreeStart] == sizeBits;
    assert bits[TreeStart..] == field;
  }

  // ---------------------------------------------------------------------------
  // Locating the body

  function TokenCost(token: Token): nat
  {
    if token.None? then 1 else 8
  }

  /** The tree field's length as calculate_binary_tree_header_length counts it: 1 per None, 8 per symbol. */
  function TokenBits(tokens: seq<Token>): nat
  {
    if tokens == [] then 0 else TokenBits(tokens[..|tokens| - 1]) + TokenCost(tokens[|tokens| - 1])
  }

  lemma {:induction false} TokenBitsConcat(a: seq<Token>, b: seq<Token>)
    ensures TokenBits(a + b) == TokenBits(a) + TokenBits(b)
    decreases |b|
  {
    if b == [] {
      assert a + b == a;
    } else {
      assert (a + b)[..|a + b| - 1] == a + b[..|b| - 1];
      TokenBitsConcat(a, b[..|b| - 1]);
    }
  }

  /** For an ASCII tree the count matches the tree field bit for bit. */
  lemma {:induction false} TokenBitsOfTree(t: Tree)
    requires Ascii(t)
    ensures TokenBits(PostTokens(t)) == |TreeField(t)|
  {
    match t
    case Leaf(c) =>
      assert c in LeafSymbols(t);
      assert Pow2(7) == 128;
      assert [Some(c)][..0] == [];
    case Node(l, r) =>
      AsciiSubtrees(t);
      TokenBitsOfTree(l);
      TokenBitsOfTree(r);
      TokenBitsConcat(PostTokens(l) + PostTokens(r), [None]);
      TokenBitsConcat(PostTokens(l), PostTokens(r));
      var none: seq<Token> := [None]; assert none[..0] == [];
    case Wrap(l) =>
      AsciiSubtrees(t);
      TokenBitsOfTree(l);
      TokenBitsConcat(PostTokens(l), [None]);
      var none: seq<Token> := [None]; assert none[..0] == [];
  }

  /**
   * calculate_binary_tree_header_length: 1 bit per None and 8 per symbol, plus the
   * padding pad_bitstream would add to that many bits; the result is a multiple
   * of 8.
   */
  method CalculateBinaryTreeHeaderLength(postorderTreeList: seq<Token>) returns (length: nat)
    ensures length == TokenBits(postorderTreeList) + PaddingLength(TokenBits(postorderTreeList))
    ensures length % 8 == 0
    ensures TokenBits(postorderTreeList) < length <= TokenBits(postorderTreeList) + 8
  {
    length := 0;
    for i := 0 to |postorderTreeList|
      invariant length == TokenBits(postorderTreeList[..i])
    {
      assert postorderTreeList[..i + 1][..i] == postorderTreeList[..i];
      if postorderTreeList[i] == None {
        length := length + 1;
      } else {
        length := length + 8;
      }
    }
    assert postorderTreeList[..|postorderTreeList|] == postorderTreeList;
    ghost var fieldLength := length;
    var padding := 8 - length % 8;
    for i := 0 to padding
      invariant length == fieldLength + i
    {
      length := length + 1;
    }
  }

  /**
   * For a header written for an ASCII tree, the two size fields plus the computed
   * tree length end exactly where the padded header ends, so the body starts
   * right after the header's padding.
   */
  lemma HeaderLengthOfTokens(textLength: nat, t: Tree)
    requires textLength < Pow2(TextLengthWidth)
    requires |Postorder(t)| + 1 < Pow2(TreeSizeWidth)
    requires Ascii(t)
    ensures TreeStart + TokenBits(PostTokens(t) + [None]) + PaddingLength(TokenBits(PostTokens(t) + [None]))
      == |HeaderBits(textLength, t)|
  {
    var fieldLength := TokenBits(PostTokens(t) + [None]);
    assert fieldLength == |TreeField(t)| + 1 by {
      TokenBitsOfTree(t);
      TokenBitsConcat(PostTokens(t), [None]);
      var none: seq<Token> := [None];
      assert none[..0] == [];
    }
    assert |HeaderFields(textLength, t)| == TreeStart + fieldLength by {
      FieldFits(textLength, TextLengthWidth);
      FieldFits(|Postorder(t)| + 1, TreeSizeWidth);
    }
    PaddingAfterSizeFields(HeaderFields(textLength, t), fieldLength);
  }

  /** The two size fields are six whole bytes, so they do not change the padding. */
  lemma PaddingAfterSizeFields(fields: seq<Bit>, length: nat)
    requires |fields| == TreeStart + length
    ensures TreeStart + length + PaddingLength(length) == |Padded(fields)|
  {
    assert TreeStart + length == 8 * 6 + length;
    assert PaddingLength(TreeStart + length) == PaddingLength(length);
  }

  /** get_file_body: everything after the size fields and the tree field; empty when the stream is shorter. */
  function GetFileBody(bits: seq<Bit>, binaryTreeLength: nat): (body: seq<Bit>)
    ensures TreeStart + binaryTreeLength <= |bits| ==> bits == bits[..TreeStart + binaryTreeLength] + body
    ensures TreeStart + binaryTreeLength >= |bits| ==> body == []
  {
    bits[Min(TreeStart + binaryTreeLength, |bits|)..]
  }
}
