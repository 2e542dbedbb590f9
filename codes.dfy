/**
 * Compression codes: the root-to-leaf paths of the Huffman tree (0 for left, 1
 * for right), generated by HuffmanTools into its compression_codes table, and the
 * encoding of a text's body with that table.
 */
module Codes {
  import opened Wrappers
  import opened Bitstream
  import opened Trees

  /**
   * The code table of a subtree whose root is reached by path p: each leaf's
   * symbol maps to its path. On a repeated symbol the later (more rightward)
   * leaf wins, as a second dict assignment overwrites the first.
   */
  function CodeTable(t: Tree, p: seq<Bit>): map<char, seq<Bit>>
  {
    match t
    case Leaf(c) => map[c := p]
    case Node(l, r) => CodeTable(l, p + ['0']) + CodeTable(r, p + ['1'])
    case Wrap(l) => CodeTable(l, p + ['0'])
  }

  /** The table is defined exactly for the tree's leaf symbols. */
  lemma {:induction false} CodeTableKeys(t: Tree, p: seq<Bit>)
    ensures forall c :: c in CodeTable(t, p) <==> c in LeafSymbols(t)
  {
    match t
    case Leaf(_) =>
    case Node(l, r) => CodeTableKeys(l, p + ['0']); CodeTableKeys(r, p + ['1']);
    case Wrap(l) => CodeTableKeys(l, p + ['0']);
  }

  /** Every code extends the path to the subtree, and following the rest of it reaches that symbol's leaf. */
  lemma {:induction false} CodeTablePaths(t: Tree, p: seq<Bit>, c: char)
    requires c in CodeTable(t, p)
    ensures |p| <= |CodeTable(t, p)[c]|
    ensures CodeTable(t, p)[c][..|p|] == p
    ensures Walk(t, CodeTable(t, p)[c][|p|..]) == Some(Leaf(c))
  {
    var code := CodeTable(t, p)[c];
    match t
    case Leaf(_) =>
      assert code[|p|..] == [];
    case Node(l, r) =>
      if c in CodeTable(r, p + ['1']) {
        CodeTablePaths(r, p + ['1'], c);
        assert code[..|p| + 1][..|p|] == code[..|p|];
        assert code[|p|..][0] == '1';
        assert code[|p|..][1..] == code[|p| + 1..];
      } else {
        CodeTablePaths(l, p + ['0'], c);
        assert code[..|p| + 1][..|p|] == code[..|p|];
        assert code[|p|..][0] == '0';
        assert code[|p|..][1..] == code[|p| + 1..];
      }
    case Wrap(l) =>
      CodeTablePaths(l, p + ['0'], c);
      assert code[..|p| + 1][..|p|] == code[..|p|];
      assert code[|p|..][0] == '0';
      assert code[|p|..][1..] == code[|p| + 1..];
  }

  /**
   * generate_compression_codes maps every leaf symbol to its root-to-leaf path:
   * following the code from the root reaches that leaf, so the code's length is
   * the leaf's depth, which fits the tree_depth - 1 buffer; under a non-leaf
   * root no code is empty.
   */
  lemma CodeIsLeafPath(t: Tree, c: char)
    requires c in CodeTable(t, [])
    ensures Walk(t, CodeTable(t, [])[c]) == Some(Leaf(c))
    ensures |CodeTable(t, [])[c]| <= TreeDepth(t) - 1
    ensures !t.Leaf? ==> |CodeTable(t, [])[c]| >= 1
  {
    var code := CodeTable(t, [])[c];
    CodeTablePaths(t, [], c);
    assert code[0..] == code;
    WalkWithinDepth(t, code);
  }

  /** No code is a prefix of another symbol's code. */
  lemma PrefixFree(t: Tree)
    ensures forall a, b :: a in CodeTable(t, []) && b in CodeTable(t, []) && a != b ==>
      !(CodeTable(t, [])[a] <= CodeTable(t, [])[b])
  {
    var table := CodeTable(t, []);
    forall a, b | a in table && b in table && a != b
      ensures !(table[a] <= table[b])
    {
      if table[a] <= table[b] {
        CodeIsLeafPath(t, a);
        CodeIsLeafPath(t, b);
        var q := table[b][|table[a]|..];
        assert table[b] == table[a] + q;
        WalkAppend(t, table[a], q);
        assert false;
      }
    }
  }

  /** The single-symbol wrapper gives its symbol the one-bit code "0". */
  lemma SingleSymbolCode(c: char)
    ensures CodeTable(Wrap(Leaf(c)), []) == map[c := ['0']]
  {
    assert [] + ['0'] == ['0'];
  }

  // ---------------------------------------------------------------------------
  // The code buffer

  /** get_binary_code as a function: the bits of the list, skipping None entries. */
  function Present(list: seq<Option<Bit>>): seq<Bit>
  {
    if list == [] then []
    else (if list[0].Some? then [list[0].value] else []) + Present(list[1..])
  }

  lemma {:induction false} PresentConcat(a: seq<Option<Bit>>, b: seq<Option<Bit>>)
    ensures Present(a + b) == Present(a) + Present(b)
  {
    if a == [] {
      assert a + b == b;
    } else {
      var head := if a[0].Some? then [a[0].value] else [];
      var ab := a + b;
      assert ab[0] == a[0];
      assert ab[1..] == a[1..] + b;
      assert Present(ab) == head + Present(a[1..] + b);
      PresentConcat(a[1..], b);
      assert Present(a) == head + Present(a[1..]);
    }
  }

  lemma {:induction false} PresentOfNone(a: seq<Option<Bit>>)
    requires forall k :: 0 <= k < |a| ==> a[k] == None
    ensures Present(a) == []
  {
    if a != [] {
      PresentOfNone(a[1..]);
    }
  }

  /** get_binary_code: concatenates the entries that are not None. */
  method GetBinaryCode(binaryList: seq<Option<Bit>>) returns (bits: seq<Bit>)
    ensures bits == Present(binaryList)
    ensures |bits| <= |binaryList|
    ensures (forall k :: 0 <= k < |binaryList| ==> binaryList[k].Some?) ==>
      |bits| == |binaryList| && forall k :: 0 <= k < |bits| ==> bits[k] == binaryList[k].value
  {
    bits := "";
    for i := 0 to |binaryList|
      invariant bits == Present(binaryList[..i])
      invariant |bits| <= i
      invariant (forall k :: 0 <= k < i ==> binaryList[k].Some?) ==>
        |bits| == i && forall k :: 0 <= k < i ==> bits[k] == binaryList[k].value
    {
      assert binaryList[..i + 1] == binaryList[..i] + [binaryList[i]];
      PresentConcat(binaryList[..i], [binaryList[i]]);
      assert Present([binaryList[i]]) == (if binaryList[i].Some? then [binaryList[i].value] else []) + Present([]);
      if binaryList[i] != None {
        bits := bits + [binaryList[i].value];
      }
    }
    assert binaryList[..|binaryList|] == binaryList;
  }

  /**
   * The code buffer on entry to a call at depth top: the bits of the path in the
   * first top entries, None in the rest.
   */
  predicate BufferAt(buffer: seq<Option<Bit>>, top: nat)
  {
    top <= |buffer| && forall k :: 0 <= k < |buffer| ==> (buffer[k].Some? <==> k < top)
  }

  /** With None from top on, the buffer's bits are those of its first top entries. */
  lemma PresentOfPrefix(buffer: seq<Option<Bit>>, top: nat)
    requires BufferAt(buffer, top)
    ensures Present(buffer) == Present(buffer[..top])
  {
    assert buffer == buffer[..top] + buffer[top..];
    PresentConcat(buffer[..top], buffer[top..]);
    PresentOfNone(buffer[top..]);
  }

  /**
   * Writing bit b at top extends the path by b and gives the child's buffer; the
   * child's clearing of its code[top - 1] restores the buffer.
   */
  lemma BufferPush(buffer: seq<Option<Bit>>, top: nat, b: Bit)
    requires BufferAt(buffer, top) && top < |buffer|
    ensures BufferAt(buffer[top := Some(b)], top + 1)
    ensures Present(buffer[top := Some(b)][..top + 1]) == Present(buffer[..top]) + [b]
    ensures buffer[top := Some(b)][ClearedIndex(top + 1, |buffer|) := None] == buffer
  {
    assert buffer[top := Some(b)][..top + 1] == buffer[..top] + [Some(b)];
    PresentSnoc(buffer[..top], b);
  }

  /** At the root every entry is None, so clearing code[-1] leaves the buffer all None. */
  lemma BufferRootCleared(buffer: seq<Option<Bit>>)
    requires BufferAt(buffer, 0) && |buffer| > 0
    ensures AllNone(buffer[ClearedIndex(0, |buffer|) := None])
  {
  }

  lemma PresentSnoc(a: seq<Option<Bit>>, b: Bit)
    ensures Present(a + [Some(b)]) == Present(a) + [b]
  {
    PresentConcat(a, [Some(b)]);
    assert [Some(b)][1..] == [];
  }

  /** Map facts the method's frame reasoning needs, kept apart so each is proved on its own. */
  lemma MapUpdateIsUnion<K, V>(m: map<K, V>, k: K, v: V)
    ensures m[k := v] == m + map[k := v]
  {
  }

  lemma MapUnionAssoc<K, V>(a: map<K, V>, b: map<K, V>, c: map<K, V>)
    ensures (a + b) + c == a + (b + c)
  {
  }

  predicate AllNone(list: seq<Option<Bit>>)
  {
    forall k :: 0 <= k < |list| ==> list[k] == None
  }

  /** A buffer of None only, as compress allocates it, is a buffer at 0 with no bits yet. */
  lemma EmptyBuffer(buffer: seq<Option<Bit>>)
    requires AllNone(buffer)
    ensures BufferAt(buffer, 0)
    ensures Present(buffer[..0]) == []
  {
    assert buffer[..0] == [];
  }

  /** The index that `code[top - 1] = None` clears: Python's code[-1] is the last entry. */
  function ClearedIndex(top: nat, length: nat): int
  {
    if top == 0 then length - 1 else top - 1
  }

  // ---------------------------------------------------------------------------
  // Encoding the body

  /** Every character of the text has a code; otherwise compression_codes[char] raises KeyError. */
  predicate Encodable(codes: map<char, seq<Bit>>, text: seq<char>)
  {
    forall i :: 0 <= i < |text| ==> text[i] in codes
  }

  /** The text's codes concatenated in text order. */
  function Encode(codes: map<char, seq<Bit>>, text: seq<char>): seq<Bit>
    requires Encodable(codes, text)
  {
    if text == [] then [] else codes[text[0]] + Encode(codes, text[1..])
  }

  lemma {:induction false} EncodeSnoc(codes: map<char, seq<Bit>>, text: seq<char>, c: char)
    requires Encodable(codes, text) && c in codes
    ensures Encodable(codes, text + [c])
    ensures Encode(codes, text + [c]) == Encode(codes, text) + codes[c]
  {
    if text == [] {
      assert [] + [c] == [c];
    } else {
      assert (text + [c])[1..] == text[1..] + [c];
      EncodeSnoc(codes, text[1..], c);
    }
  }

  class HuffmanTools {
    /** compression_codes: symbol to code, filled in by GenerateCompressionCodes. */
    var compressionCodes: map<char, seq<Bit>>

    constructor ()
      ensures compressionCodes == map[]
    {
      compressionCodes := map[];
    }

    /**
     * generate_compression_codes: a depth-first walk that writes 0 into code[top]
     * before the left child and 1 before the right child, records the buffer's
     * bits at each leaf, and clears code[top - 1] on the way out. It adds the
     * subtree's code table to compression_codes, leaves the buffer as it found it
     * except for that one cleared entry, and returns the table once the whole
     * buffer is None again, which a call on the root (top = 0) always does.
     */
    method GenerateCompressionCodes(t: Tree, code: array<Option<Bit>>, top: nat)
      returns (result: Option<map<char, seq<Bit>>>)
      requires top + TreeDepth(t) - 1 <= code.Length
      requires top > 0 || code.Length > 0
      requires BufferAt(code[..], top)
      modifies this, code
      ensures compressionCodes == old(compressionCodes) + CodeTable(t, Present(old(code[..top])))
      ensures code[..] == old(code[..])[ClearedIndex(top, code.Length) := None]
      ensures result == if AllNone(code[..]) then Some(compressionCodes) else None
      ensures top == 0 ==> result == Some(compressionCodes)
      decreases t
    {
      ghost var path: seq<Bit> := Present(code[..top]);
      ghost var start: seq<Option<Bit>> := code[..];
      match t {
        case Leaf(c) =>
          PresentOfPrefix(start, top);
          var bits := GetBinaryCode(code[..]);
          MapUpdateIsUnion(compressionCodes, c, bits);
          compressionCodes := compressionCodes[c := bits];
        case Node(l, r) =>
          BufferPush(start, top, '0');
          code[top] := Some('0');
          assert code[..] == start[top := Some('0')];
          var _ := GenerateCompressionCodes(l, code, top + 1);
          assert code[..] == start;
          BufferPush(start, top, '1');
          code[top] := Some('1');
          assert code[..] == start[top := Some('1')];
          var _ := GenerateCompressionCodes(r, code, top + 1);
          assert code[..] == start;
          MapUnionAssoc(old(compressionCodes), CodeTable(l, path + ['0']), CodeTable(r, path + ['1']));
        case Wrap(l) =>
          BufferPush(start, top, '0');
          code[top] := Some('0');
          assert code[..] == start[top := Some('0')];
          var _ := GenerateCompressionCodes(l, code, top + 1);
          assert code[..] == start;
      }
      if top == 0 {
        BufferRootCleared(start);
      }
      code[ClearedIndex(top, code.Length)] := None;
      result := if AllNone(code[..]) then Some(compressionCodes) else None;
    }

    /**
     * generate_file_bytestream: the text's codes in order, padded and packed into
     * bytes; a character without a code raises KeyError.
     */
    method GenerateFileBytestream(text: seq<char>) returns (r: Result<seq<Byte>>)
      ensures r.Ok? <==> Encodable(compressionCodes, text)
      ensures r.Ok? ==> r.value == BytesOf(Padded(Encode(compressionCodes, text)))
      ensures r.Err? ==> r.error == KeyError
    {
      var bitstream: seq<Bit> := "";
      for i := 0 to |text|
        invariant Encodable(compressionCodes, text[..i])
        invariant bitstream == Encode(compressionCodes, text[..i])
      {
        if text[i] !in compressionCodes {
          return Err(KeyError);
        }
        assert text[..i + 1] == text[..i] + [text[i]];
        EncodeSnoc(compressionCodes, text[..i], text[i]);
        bitstream := bitstream + compressionCodes[text[i]];
      }
      assert text[..|text|] == text;
      bitstream := PadBitstream(bitstream);
      var bytestream := GetByteArray(bitstream);
      return Ok(bytestream);
    }
  }
}
