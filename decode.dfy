/**
 * The body decoder of HuffmanTools: decompress_bitstream walks the tree from
 * the root one bit at a time, emits a leaf's symbol and starts again at the
 * root, until text_length symbols are out.
 */
module Decode {
  import opened Wrappers
  import opened Bitstream
  import opened Trees
  import opened Codes

  /**
   * decompress_bitstream as a function, at node with remaining symbols still to
   * emit and bits the rest of the stream: running out of bits raises IndexError,
   * and a missing child (the right child of a wrapper, a child of a leaf) has no
   * symbol, which raises AttributeError.
   */
  function DecodeFrom(root: Tree, node: Tree, remaining: nat, bits: seq<Bit>): (r: Result<seq<char>>)
    ensures r.Ok? ==> |r.value| == remaining
    decreases |bits|
  {
    if remaining == 0 then Ok([])
    else if bits == [] then Err(IndexError)
    else match Step(node, bits[0])
      case None => Err(AttributeError)
      case Some(child) =>
        if child.Leaf? then PrefixWith([child.symbol], DecodeFrom(root, root, remaining - 1, bits[1..]))
        else DecodeFrom(root, child, remaining, bits[1..])
  }

  /**
   * decompress_bitstream: the text of text_length symbols read from the body
   * with the decompression tree.
   */
  method DecompressBitstream(decompressionTree: Tree, textLength: nat, bitstream: seq<Bit>)
    returns (r: Result<seq<char>>)
    ensures r == DecodeFrom(decompressionTree, decompressionTree, textLength, bitstream)
    ensures r.Ok? ==> |r.value| == textLength
  {
    ghost var whole := DecodeFrom(decompressionTree, decompressionTree, textLength, bitstream);
    var text: seq<char> := [];
    var currentChar: nat := 0;
    var currentBit: nat := 0;
    var currentNode := decompressionTree;
    PrefixWithNothing(whole);
    while currentChar < textLength
      invariant currentChar <= textLength && currentBit <= |bitstream|
      invariant PrefixWith(text, DecodeFrom(decompressionTree, currentNode, textLength - currentChar, bitstream[currentBit..])) == whole
      decreases |bitstream| - currentBit
    {
      if currentBit >= |bitstream| {
        return Err(IndexError);
      }
      ghost var rest := bitstream[currentBit..];
      assert rest[1..] == bitstream[currentBit + 1..];
      var next := Step(currentNode, bitstream[currentBit]);
      if next.None? {
        return Err(AttributeError);
      }
      currentNode := next.value;
      if currentNode.Leaf? {
        PrefixWithAssoc(text, [currentNode.symbol],
          DecodeFrom(decompressionTree, decompressionTree, textLength - currentChar - 1, bitstream[currentBit + 1..]));
        text := text + [currentNode.symbol];
        currentNode := decompressionTree;
        currentChar := currentChar + 1;
      }
      currentBit := currentBit + 1;
    }
    assert text + [] == text;
    return Ok(text);
  }

  /**
   * Reading one code: when the path code leads from node to the leaf of c, the
   * decoder consumes exactly that path, emits c and goes on from the root.
   */
  lemma {:induction false} DecodeCode(root: Tree, node: Tree, code: seq<Bit>, c: char, remaining: nat, rest: seq<Bit>)
    requires |code| >= 1
    requires Walk(node, code) == Some(Leaf(c))
    ensures DecodeFrom(root, node, remaining + 1, code + rest) == PrefixWith([c], DecodeFrom(root, root, remaining, rest))
    decreases |code|
  {
    var bits := code + rest;
    assert bits[0] == code[0];
    assert bits[1..] == code[1..] + rest;
    var child := Step(node, code[0]).value;
    if |code| > 1 {
      assert Step(child, code[1]).Some?;
      DecodeCode(root, child, code[1..], c, remaining, rest);
    } else {
      assert code[1..] == [];
    }
  }

  /**
   * Body round trip: the concatenated codes of a text, whatever bits follow them,
   * decode with the same tree to the text itself, provided the root is not a bare
   * leaf (whose code would be empty).
   */
  lemma {:induction false} DecodeText(t: Tree, text: seq<char>, rest: seq<Bit>)
    requires !t.Leaf?
    requires Encodable(CodeTable(t, []), text)
    ensures DecodeFrom(t, t, |text|, Encode(CodeTable(t, []), text) + rest) == Ok(text)
    decreases |text|
  {
    var codes := CodeTable(t, []);
    if text == [] {
    } else {
      var c, more := text[0], text[1..];
      assert Encodable(codes, more) by {
        forall i | 0 <= i < |more|
          ensures more[i] in codes
        {
          assert more[i] == text[i + 1];
        }
      }
      CodeIsLeafPath(t, c);
      var tail := Encode(codes, more) + rest;
      assert Encode(codes, text) + rest == codes[c] + tail;
      DecodeText(t, more, rest);
      DecodeCode(t, t, codes[c], c, |more|, tail);
      assert [c] + more == text;
    }
  }
}
