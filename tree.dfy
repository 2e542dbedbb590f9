/**
 * The Huffman tree of tree.py: the node type, its traversals, its depth, and
 * the stack-based reconstruction from a postorder token list.
 */
module Trees {
  import opened Wrappers

  /**
   * A node of the Huffman tree. A leaf holds a symbol; an internal node built by
   * a merge has two children; Wrap is the root that a single-symbol text gets,
   * an internal node with a left child and no right child.
   */
  datatype Tree =
    | Leaf(symbol: char)
    | Node(left: Tree, right: Tree)
    | Wrap(left: Tree)

  /** The multiset of symbols held by the leaves. */
  function LeafSymbols(t: Tree): multiset<char>
  {
    match t
    case Leaf(c) => multiset{c}
    case Node(l, r) => LeafSymbols(l) + LeafSymbols(r)
    case Wrap(l) => LeafSymbols(l)
  }

  function InternalCount(t: Tree): nat
  {
    match t
    case Leaf(_) => 0
    case Node(l, r) => 1 + InternalCount(l) + InternalCount(r)
    case Wrap(l) => 1 + InternalCount(l)
  }

  /** A tree built by merging only: every internal node has two children. */
  predicate Full(t: Tree)
  {
    match t
    case Leaf(_) => true
    case Node(l, r) => Full(l) && Full(r)
    case Wrap(_) => false
  }

  /**
   * get_tree_postorder: left subtree, right subtree, then "1" + symbol for a leaf
   * or "0" for an internal node; the missing right child of a Wrap adds nothing.
   */
  function Postorder(t: Tree): seq<char>
  {
    match t
    case Leaf(c) => ['1', c]
    case Node(l, r) => Postorder(l) + Postorder(r) + ['0']
    case Wrap(l) => Postorder(l) + ['0']
  }

  /**
   * get_tree_preorder, which despite its name is an in-order traversal: left
   * subtree, the node itself, right subtree.
   */
  function InOrder(t: Tree): (s: seq<char>)
    ensures |s| == |Postorder(t)| && s[0] == '1'
  {
    match t
    case Leaf(c) => ['1', c]
    case Node(l, r) => InOrder(l) + ['0'] + InOrder(r)
    case Wrap(l) => InOrder(l) + ['0']
  }

  /**
   * The postorder string starts with the leftmost leaf's "1", and an internal
   * node's string ends with that node's "0".
   */
  lemma {:induction false} PostorderShape(t: Tree)
    ensures |Postorder(t)| >= 2 && Postorder(t)[0] == '1'
    ensures !t.Leaf? ==> Postorder(t)[|Postorder(t)| - 1] == '0'
  {
    match t
    case Leaf(_) =>
    case Node(l, r) => PostorderShape(l);
    case Wrap(l) => PostorderShape(l);
  }

  /** A full tree has one internal node fewer than it has leaves. */
  lemma {:induction false} FullInternalCount(t: Tree)
    requires Full(t)
    ensures InternalCount(t) + 1 == |LeafSymbols(t)|
  {
    match t
    case Leaf(_) =>
    case Node(l, r) => FullInternalCount(l); FullInternalCount(r);
  }

  /** The postorder string holds one character per internal node and two per leaf. */
  lemma {:induction false} PostorderLength(t: Tree)
    ensures |Postorder(t)| == InternalCount(t) + 2 * |LeafSymbols(t)|
  {
    match t
    case Leaf(_) =>
    case Node(l, r) => PostorderLength(l); PostorderLength(r);
    case Wrap(l) => PostorderLength(l);
  }

  /** The two traversals emit the same characters, only in a different order. */
  lemma {:induction false} InOrderPermutesPostorder(t: Tree)
    ensures multiset(InOrder(t)) == multiset(Postorder(t))
  {
    match t
    case Leaf(_) =>
    case Node(l, r) =>
      InOrderPermutesPostorder(l);
      InOrderPermutesPostorder(r);
    case Wrap(l) => InOrderPermutesPostorder(l);
  }

  /** tree_depth: the number of node layers, 1 for a leaf; a missing child counts 0. */
  function TreeDepth(t: Tree): (d: nat)
    ensures d <= InternalCount(t) + 1
  {
    match t
    case Leaf(_) => 1
    case Node(l, r) =>
      var leftDepth, rightDepth := TreeDepth(l), TreeDepth(r);
      if leftDepth > rightDepth then leftDepth + 1 else rightDepth + 1
    case Wrap(l) =>
      var leftDepth := TreeDepth(l);
      if leftDepth > 0 then leftDepth + 1 else 1
  }

  /** Every tree has at least one layer, and a root with a child at least two. */
  lemma {:induction false} TreeDepthBounds(t: Tree)
    ensures TreeDepth(t) >= 1
    ensures !t.Leaf? ==> TreeDepth(t) >= 2
  {
    match t
    case Leaf(_) =>
    case Node(l, r) => TreeDepthBounds(l);
    case Wrap(l) => TreeDepthBounds(l);
  }

  /**
   * One step down the tree on one bit of a bitstream, as decompress_bitstream
   * takes it: '0' goes left and any other bit goes right. None is a missing child.
   */
  function Step(t: Tree, bit: char): Option<Tree>
  {
    match t
    case Leaf(_) => None
    case Node(l, r) => if bit == '0' then Some(l) else Some(r)
    case Wrap(l) => if bit == '0' then Some(l) else None
  }

  /** The node reached from t by following path, or None when a child is missing. */
  function Walk(t: Tree, path: seq<char>): Option<Tree>
    decreases |path|
  {
    if path == [] then Some(t)
    else match Step(t, path[0])
      case None => None
      case Some(child) => Walk(child, path[1..])
  }

  lemma {:induction false} WalkAppend(t: Tree, p: seq<char>, q: seq<char>)
    requires Walk(t, p).Some?
    ensures Walk(t, p + q) == Walk(Walk(t, p).value, q)
    decreases |p|
  {
    if p == [] {
      assert p + q == q;
    } else {
      assert (p + q)[0] == p[0];
      assert (p + q)[1..] == p[1..] + q;
      WalkAppend(Step(t, p[0]).value, p[1..], q);
    }
  }

  /** A path from the root is shorter than tree_depth: a buffer of depth - 1 bits holds any code. */
  lemma {:induction false} WalkWithinDepth(t: Tree, path: seq<char>)
    requires Walk(t, path).Some?
    ensures |path| + TreeDepth(Walk(t, path).value) <= TreeDepth(t)
    decreases |path|
  {
    if path != [] {
      WalkWithinDepth(Step(t, path[0]).value, path[1..]);
    }
  }

  // ---------------------------------------------------------------------------
  // Reconstruction from a postorder token list

  /** A postorder token read back from a header: Some(symbol) for a leaf, None for an internal node. */
  type Token = Option<char>

  /** The token list that corresponds to a tree's postorder string. */
  function PostTokens(t: Tree): seq<Token>
  {
    match t
    case Leaf(c) => [Some(c)]
    case Node(l, r) => PostTokens(l) + PostTokens(r) + [None]
    case Wrap(l) => PostTokens(l) + [None]
  }

  /** sum(isinstance(i, str) for i in postorder). */
  function CountSymbols(tokens: seq<Token>): nat
  {
    if tokens == [] then 0
    else (if tokens[0].Some? then 1 else 0) + CountSymbols(tokens[1..])
  }

  lemma {:induction false} CountSymbolsConcat(a: seq<Token>, b: seq<Token>)
    ensures CountSymbols(a + b) == CountSymbols(a) + CountSymbols(b)
  {
    if a == [] {
      assert a + b == b;
    } else {
      assert (a + b)[1..] == a[1..] + b;
      CountSymbolsConcat(a[1..], b);
    }
  }

  lemma {:induction false} CountSymbolsPostTokens(t: Tree)
    ensures CountSymbols(PostTokens(t)) == |LeafSymbols(t)|
  {
    match t
    case Leaf(_) =>
      assert CountSymbols(PostTokens(t)) == 1 + CountSymbols([]);
    case Node(l, r) =>
      CountSymbolsPostTokens(l);
      CountSymbolsPostTokens(r);
      CountSymbolsConcat(PostTokens(l) + PostTokens(r), [None]);
      CountSymbolsConcat(PostTokens(l), PostTokens(r));
      assert CountSymbols([None]) == 0 + CountSymbols([]);
    case Wrap(l) =>
      CountSymbolsPostTokens(l);
      CountSymbolsConcat(PostTokens(l), [None]);
      assert CountSymbols([None]) == 0 + CountSymbols([]);
  }

  /** A stack entry: a bare symbol string as pushed, or a node built by a merge. */
  datatype Item = Sym(c: char) | Sub(t: Tree)

  /** Tree(s) for a bare string s, the node itself otherwise. */
  function AsTree(item: Item): Tree
  {
    match item
    case Sym(c) => Leaf(c)
    case Sub(t) => t
  }

  /** How construct_tree_from_postorder ends. */
  datatype Rebuilt =
    | Returned(item: Item)  // return stack[0], or the single-leaf wrapper
    | FellThrough           // the loop ran out of tokens: the function returns None
    | StackUnderflow        // an internal marker met an empty stack: stack[-2] raises IndexError
    | BareLeaf              // the single-leaf branch found None at postorder[0]: a wrapper around a bare Tree(None)

  /** The for loop of construct_tree_from_postorder, from a given stack. */
  function RunStack(tokens: seq<Token>, stack: seq<Item>): Rebuilt
    decreases |tokens|
  {
    if tokens == [] then FellThrough
    else match tokens[0]
      case Some(c) => RunStack(tokens[1..], stack + [Sym(c)])
      case None =>
        if |stack| == 1 then Returned(stack[0])
        else if |stack| < 2 then StackUnderflow
        else
          var merged := Sub(Node(AsTree(stack[|stack| - 2]), AsTree(stack[|stack| - 1])));
          RunStack(tokens[1..], stack[..|stack| - 2] + [merged])
  }

  /** construct_tree_from_postorder as a function. */
  function Rebuild(tokens: seq<Token>): Rebuilt
  {
    if CountSymbols(tokens) == 1 then
      match tokens[0]
      case Some(c) => Returned(Sub(Wrap(Leaf(c))))
      case None => BareLeaf
    else RunStack(tokens, [])
  }

  /**
   * construct_tree_from_postorder: one string gives a wrapper with that leaf as
   * left child; otherwise strings are pushed and each None either returns the one
   * item on the stack or merges the top two (second from top left, top right).
   */
  method ConstructTreeFromPostorder(postorder: seq<Token>) returns (r: Rebuilt)
    ensures r == Rebuild(postorder)
  {
    var stack: seq<Item> := [];
    if CountSymbols(postorder) == 1 {
      match postorder[0]
      case Some(c) => return Returned(Sub(Wrap(Leaf(c))));
      case None => return BareLeaf;
    }
    for i := 0 to |postorder|
      invariant RunStack(postorder[i..], stack) == Rebuild(postorder)
    {
      assert postorder[i..][1..] == postorder[i + 1..];
      match postorder[i]
      case Some(c) =>
        stack := stack + [Sym(c)];
      case None =>
        if |stack| == 1 {
          return Returned(stack[0]);
        } else if |stack| < 2 {
          return StackUnderflow;
        }
        var newNode := Sub(Node(AsTree(stack[|stack| - 2]), AsTree(stack[|stack| - 1])));
        stack := stack[..|stack| - 2] + [newNode];
    }
    return FellThrough;
  }

  /** The stack item a fully processed subtree leaves behind. */
  function ItemOf(t: Tree): Item
  {
    if t.Leaf? then Sym(t.symbol) else Sub(t)
  }

  /**
   * Feeding a full subtree's postorder tokens pushes exactly one item, that
   * subtree: every internal marker finds at least two items above the stack's
   * old contents, so none of them returns early.
   */
  lemma {:induction false} RunStackPostTokens(t: Tree, stack: seq<Item>, rest: seq<Token>)
    requires Full(t)
    ensures RunStack(PostTokens(t) + rest, stack) == RunStack(rest, stack + [ItemOf(t)])
  {
    match t
    case Leaf(c) =>
      assert (PostTokens(t) + rest)[1..] == rest;
    case Node(l, r) =>
      var s2 := stack + [ItemOf(l)] + [ItemOf(r)];
      calc {
        RunStack(PostTokens(t) + rest, stack);
        { assert PostTokens(t) + rest == PostTokens(l) + (PostTokens(r) + ([None] + rest)); }
        RunStack(PostTokens(l) + (PostTokens(r) + ([None] + rest)), stack);
        { RunStackPostTokens(l, stack, PostTokens(r) + ([None] + rest)); }
        RunStack(PostTokens(r) + ([None] + rest), stack + [ItemOf(l)]);
        { RunStackPostTokens(r, stack + [ItemOf(l)], [None] + rest); }
        RunStack([None] + rest, s2);
        { assert ([None] + rest)[1..] == rest;
          assert s2[..|s2| - 2] == stack;
          assert AsTree(ItemOf(l)) == l && AsTree(ItemOf(r)) == r; }
        RunStack(rest, stack + [ItemOf(t)]);
      }
  }

  /**
   * Header round trip of the tree: a full tree with at least two leaves is rebuilt
   * from its postorder tokens followed by the one extra None that the header's
   * terminator bit produces; it is returned at that extra None.
   */
  lemma RebuildPostTokens(t: Tree)
    requires Full(t) && |LeafSymbols(t)| >= 2
    ensures Rebuild(PostTokens(t) + [None]) == Returned(Sub(t))
  {
    CountSymbolsPostTokens(t);
    CountSymbolsConcat(PostTokens(t), [None]);
    assert CountSymbols([None]) == 0 + CountSymbols([]);
    RunStackPostTokens(t, [], [None]);
    assert [] + [ItemOf(t)] == [ItemOf(t)];
  }

  /** Without the extra None the loop runs out of tokens and the function returns None. */
  lemma RebuildNeedsTerminator(t: Tree)
    requires Full(t) && |LeafSymbols(t)| >= 2
    ensures Rebuild(PostTokens(t)) == FellThrough
  {
    CountSymbolsPostTokens(t);
    RunStackPostTokens(t, [], []);
    assert PostTokens(t) + [] == PostTokens(t);
  }

  /** A single-symbol tree is rebuilt as the wrapper with that leaf as its left child. */
  lemma RebuildSingleLeaf(c: char, rest: seq<Token>)
    requires CountSymbols(rest) == 0
    ensures Rebuild([Some(c)] + rest) == Returned(Sub(Wrap(Leaf(c))))
  {
    assert ([Some(c)] + rest)[1..] == rest;
  }

  /**
   * A single string that is not the first token gives the wrapper around a bare
   * Tree(None), since the single-leaf branch reads postorder[0].
   */
  lemma RebuildLateSingleLeaf(rest: seq<Token>)
    requires CountSymbols(rest) == 1
    ensures Rebuild([None] + rest) == BareLeaf
  {
    assert ([None] + rest)[1..] == rest;
  }
}
