/**
 * Building the Huffman tree in HuffmanTools: the frequency table, the forest of
 * leaves sorted by frequency, and the merging of the forest into one tree.
 */
module Forest {
  import opened Wrappers
  import opened Trees

  // ---------------------------------------------------------------------------
  // Frequency table

  /** The number of occurrences of c in s. */
  function Count(s: seq<char>, c: char): nat
  {
    if s == [] then 0
    else Count(s[..|s| - 1], c) + (if s[|s| - 1] == c then 1 else 0)
  }

  /** The distinct characters of s in order of first occurrence. */
  function Distinct(s: seq<char>): seq<char>
  {
    if s == [] then []
    else
      var d := Distinct(s[..|s| - 1]);
      if s[|s| - 1] in d then d else d + [s[|s| - 1]]
  }

  predicate NoDuplicates(d: seq<char>)
  {
    forall i, j :: 0 <= i < j < |d| ==> d[i] != d[j]
  }

  /** A Python dict from characters to counts: its keys in insertion order, and the mapping. */
  datatype Dict = Dict(keys: seq<char>, values: map<char, nat>)

  predicate ValidDict(d: Dict)
  {
    NoDuplicates(d.keys) && (forall c :: c in d.keys <==> c in d.values)
  }

  /** The frequency table of a text, as a reference definition. */
  function FrequencyTableOf(text: seq<char>): Dict
  {
    Dict(Distinct(text), map c | c in text :: Count(text, c))
  }

  lemma {:induction false} DistinctProperties(s: seq<char>)
    ensures NoDuplicates(Distinct(s))
    ensures forall c :: c in Distinct(s) <==> c in s
  {
    if s != [] {
      var init := s[..|s| - 1];
      DistinctProperties(init);
      assert s == init + [s[|s| - 1]];
      forall c ensures c in s <==> c in init || c == s[|s| - 1] {
        assert c in s <==> c in init + [s[|s| - 1]];
      }
    }
  }

  lemma {:induction false} CountPositive(s: seq<char>, c: char)
    ensures Count(s, c) > 0 <==> c in s
  {
    if s != [] {
      var init := s[..|s| - 1];
      CountPositive(init, c);
      assert s == init + [s[|s| - 1]];
      assert c in s <==> c in init || c == s[|s| - 1];
    }
  }

  /** generate_frequency_table: keys in first-occurrence order, each value its character's count. */
  method GenerateFrequencyTable(text: seq<char>) returns (frequency: Dict)
    ensures frequency == FrequencyTableOf(text)
    ensures ValidDict(frequency)
    ensures forall c :: c in frequency.values <==> c in text
    ensures forall c :: c in frequency.values ==> frequency.values[c] == Count(text, c)
  {
    var keys: seq<char> := [];
    var values: map<char, nat> := map[];
    for i := 0 to |text|
      invariant keys == Distinct(text[..i])
      invariant forall c :: c in values <==> c in text[..i]
      invariant forall c :: c in values ==> values[c] == Count(text[..i], c)
    {
      var ch := text[i];
      assert text[..i + 1][..i] == text[..i];
      assert text[..i + 1] == text[..i] + [ch];
      assert forall c :: c in text[..i + 1] <==> c in text[..i] || c == ch;
      assert forall c :: Count(text[..i + 1], c) == Count(text[..i], c) + (if ch == c then 1 else 0);
      DistinctProperties(text[..i]);
      CountPositive(text[..i], ch);
      if ch !in values {
        keys := keys + [ch];
        values := values[ch := 0];
      }
      values := values[ch := values[ch] + 1];
    }
    assert text[..|text|] == text;
    DistinctProperties(text);
    frequency := Dict(keys, values);
    assert values == map c | c in text :: Count(text, c);
  }

  /** Sum of the mapped values over a list of keys. */
  function SumValues(keys: seq<char>, values: map<char, nat>): nat
    requires forall c :: c in keys ==> c in values
  {
    if keys == [] then 0 else values[keys[0]] + SumValues(keys[1..], values)
  }

  /** Sum of Count(s, k) over the keys. */
  function SumCounts(keys: seq<char>, s: seq<char>): nat
  {
    if keys == [] then 0 else Count(s, keys[0]) + SumCounts(keys[1..], s)
  }

  lemma {:induction false} SumValuesAreCounts(keys: seq<char>, values: map<char, nat>, s: seq<char>)
    requires forall c :: c in keys ==> c in values && values[c] == Count(s, c)
    ensures SumValues(keys, values) == SumCounts(keys, s)
  {
    if keys != [] {
      SumValuesAreCounts(keys[1..], values, s);
    }
  }

  /** Appending x to the text adds one to the sum exactly when x is one of the (distinct) keys. */
  lemma {:induction false} SumCountsSnoc(keys: seq<char>, s: seq<char>, x: char)
    requires NoDuplicates(keys)
    ensures SumCounts(keys, s + [x]) == SumCounts(keys, s) + (if x in keys then 1 else 0)
  {
    if keys != [] {
      assert (s + [x])[..|s + [x]| - 1] == s;
      SumCountsSnoc(keys[1..], s, x);
      assert x in keys <==> x == keys[0] || x in keys[1..];
      if x == keys[0] {
        assert x !in keys[1..];
      }
    }
  }

  lemma {:induction false} SumCountsAppendKey(keys: seq<char>, x: char, s: seq<char>)
    ensures SumCounts(keys + [x], s) == SumCounts(keys, s) + Count(s, x)
  {
    if keys == [] {
      assert ([x])[1..] == [];
    } else {
      assert (keys + [x])[1..] == keys[1..] + [x];
      SumCountsAppendKey(keys[1..], x, s);
    }
  }

  lemma {:induction false} SumCountsDistinct(s: seq<char>)
    ensures SumCounts(Distinct(s), s) == |s|
  {
    if s != [] {
      var init := s[..|s| - 1];
      var x := s[|s| - 1];
      assert s == init + [x];
      SumCountsDistinct(init);
      DistinctProperties(init);
      SumCountsSnoc(Distinct(init), init, x);
      if x !in Distinct(init) {
        SumCountsAppendKey(Distinct(init), x, s);
        CountPositive(init, x);
      }
    }
  }

  /**
   * The frequency table's keys are exactly the distinct characters of the text,
   * each value is that character's count, the values sum to the text's length,
   * and an empty text gives an empty table.
   */
  lemma FrequencyTableProperties(text: seq<char>)
    ensures ValidDict(FrequencyTableOf(text))
    ensures forall c :: c in FrequencyTableOf(text).values <==> c in text
    ensures forall c :: c in FrequencyTableOf(text).values ==> FrequencyTableOf(text).values[c] == Count(text, c) > 0
    ensures SumValues(FrequencyTableOf(text).keys, FrequencyTableOf(text).values) == |text|
    ensures text == [] ==> FrequencyTableOf(text).keys == [] && FrequencyTableOf(text).values == map[]
  {
    var d := FrequencyTableOf(text);
    DistinctProperties(text);
    forall c | c in text ensures Count(text, c) > 0 { CountPositive(text, c); }
    SumValuesAreCounts(d.keys, d.values, text);
    SumCountsDistinct(text);
  }

  // ---------------------------------------------------------------------------
  // Forest

  /** A tree of the forest with the frequency recorded at its root. */
  datatype Weighted = Weighted(tree: Tree, freq: nat)

  predicate SortedByFreq(s: seq<Weighted>)
  {
    forall i, j :: 0 <= i < j < |s| ==> s[i].freq <= s[j].freq
  }

  /** The insertion rule: before the first element of strictly greater frequency, or at the end. */
  function Insert(s: seq<Weighted>, w: Weighted): (r: seq<Weighted>)
    ensures |r| == |s| + 1
  {
    if s == [] then [w]
    else if w.freq < s[0].freq then [w] + s
    else [s[0]] + Insert(s[1..], w)
  }

  /** The index Insert places w at: the first with a strictly greater frequency, or |s|. */
  function InsertionPoint(s: seq<Weighted>, w: Weighted): (k: nat)
    ensures k <= |s|
  {
    if s == [] || w.freq < s[0].freq then 0 else 1 + InsertionPoint(s[1..], w)
  }

  lemma {:induction false} InsertAt(s: seq<Weighted>, w: Weighted)
    ensures Insert(s, w) == s[..InsertionPoint(s, w)] + [w] + s[InsertionPoint(s, w)..]
  {
    if s != [] && w.freq >= s[0].freq {
      var tail := s[1..];
      InsertAt(tail, w);
      var k := InsertionPoint(tail, w);
      assert s[..k + 1] == [s[0]] + tail[..k];
      assert s[k + 1..] == tail[k..];
    } else {
      assert s[..0] == [] && s[0..] == s;
    }
  }

  lemma {:induction false} InsertMultiset(s: seq<Weighted>, w: Weighted)
    ensures multiset(Insert(s, w)) == multiset(s) + multiset{w}
  {
    if s != [] && w.freq >= s[0].freq {
      InsertMultiset(s[1..], w);
      assert s == [s[0]] + s[1..];
    } else if s != [] {
      assert Insert(s, w) == [w] + s;
    }
  }

  lemma {:induction false} InsertLowerBound(s: seq<Weighted>, w: Weighted, bound: nat)
    requires forall i :: 0 <= i < |s| ==> bound <= s[i].freq
    requires bound <= w.freq
    ensures forall i :: 0 <= i < |Insert(s, w)| ==> bound <= Insert(s, w)[i].freq
  {
    if s != [] && w.freq >= s[0].freq {
      InsertLowerBound(s[1..], w, bound);
      var r := Insert(s, w);
      forall i | 0 < i < |r| ensures bound <= r[i].freq {
        assert r[i] == Insert(s[1..], w)[i - 1];
      }
    }
  }

  lemma {:induction false} InsertSorted(s: seq<Weighted>, w: Weighted)
    requires SortedByFreq(s)
    ensures SortedByFreq(Insert(s, w))
  {
    if s == [] {
    } else if w.freq < s[0].freq {
      var whole := Insert(s, w);
      forall i, j | 0 <= i < j < |whole| ensures whole[i].freq <= whole[j].freq {
        assert whole[j] == s[j - 1];
        if i > 0 {
          assert whole[i] == s[i - 1];
        }
      }
    } else {
      var tail := s[1..];
      InsertSorted(tail, w);
      InsertLowerBound(tail, w, s[0].freq);
      var r := Insert(tail, w);
      var whole := Insert(s, w);
      assert whole == [s[0]] + r;
      forall i, j | 0 <= i < j < |whole| ensures whole[i].freq <= whole[j].freq {
        assert whole[j] == r[j - 1];
        if i > 0 {
          assert whole[i] == r[i - 1];
        }
      }
    }
  }

  /** Frequencies sum and leaf multisets of a forest. */
  function TotalFreq(s: seq<Weighted>): nat
  {
    if s == [] then 0 else s[0].freq + TotalFreq(s[1..])
  }

  function ForestSymbols(s: seq<Weighted>): multiset<char>
  {
    if s == [] then multiset{} else LeafSymbols(s[0].tree) + ForestSymbols(s[1..])
  }

  predicate AllFull(s: seq<Weighted>)
  {
    forall i :: 0 <= i < |s| ==> Full(s[i].tree)
  }

  lemma {:induction false} InsertTotals(s: seq<Weighted>, w: Weighted)
    ensures TotalFreq(Insert(s, w)) == TotalFreq(s) + w.freq
    ensures ForestSymbols(Insert(s, w)) == ForestSymbols(s) + LeafSymbols(w.tree)
    ensures AllFull(s) && Full(w.tree) ==> AllFull(Insert(s, w))
  {
    if s != [] && w.freq >= s[0].freq {
      InsertTotals(s[1..], w);
      var r := Insert(s, w);
      assert r[1..] == Insert(s[1..], w);
      if AllFull(s) && Full(w.tree) {
        forall i | 0 <= i < |r| ensures Full(r[i].tree) {
          if i > 0 { assert r[i] == Insert(s[1..], w)[i - 1]; }
        }
      }
    } else {
      var r := Insert(s, w);
      if s != [] {
        assert r[1..] == s;
      }
    }
  }

  /** Filter(s, f): the elements of frequency f, in order; a stable sort keeps each such run. */
  function Filter(s: seq<Weighted>, f: nat): seq<Weighted>
  {
    if s == [] then [] else (if s[0].freq == f then [s[0]] else []) + Filter(s[1..], f)
  }

  lemma {:induction false} FilterConcat(a: seq<Weighted>, b: seq<Weighted>, f: nat)
    ensures Filter(a + b, f) == Filter(a, f) + Filter(b, f)
  {
    if a == [] {
      assert a + b == b;
    } else {
      var head := if a[0].freq == f then [a[0]] else [];
      var ab := a + b;
      assert ab[0] == a[0];
      assert ab[1..] == a[1..] + b;
      assert Filter(ab, f) == head + Filter(a[1..] + b, f);
      FilterConcat(a[1..], b, f);
      assert Filter(a, f) == head + Filter(a[1..], f);
    }
  }

  lemma {:induction false} FilterAbove(s: seq<Weighted>, f: nat)
    requires SortedByFreq(s) && (s != [] ==> f < s[0].freq)
    ensures Filter(s, f) == []
  {
    if s != [] {
      FilterAbove(s[1..], f);
    }
  }

  /** Insert puts w after every element of the same frequency. */
  lemma {:induction false} InsertStable(s: seq<Weighted>, w: Weighted, f: nat)
    requires SortedByFreq(s)
    ensures Filter(Insert(s, w), f) == Filter(s, f) + (if w.freq == f then [w] else [])
  {
    if s == [] {
    } else if w.freq < s[0].freq {
      if w.freq == f {
        FilterAbove(s, f);
      }
      FilterConcat([w], s, f);
    } else {
      InsertStable(s[1..], w, f);
      FilterConcat([s[0]], Insert(s[1..], w), f);
    }
  }

  /** A stable sort by ascending frequency, as Python's sorted(..., key=lambda item: item[1]). */
  function SortByFreq(s: seq<Weighted>): seq<Weighted>
  {
    if s == [] then [] else Insert(SortByFreq(s[..|s| - 1]), s[|s| - 1])
  }

  /** The sort is sorted, a permutation, and stable: each run of equal frequency keeps its order. */
  lemma SortByFreqProperties(s: seq<Weighted>)
    ensures SortedByFreq(SortByFreq(s))
    ensures multiset(SortByFreq(s)) == multiset(s)
    ensures forall f: nat :: Filter(SortByFreq(s), f) == Filter(s, f)
    ensures TotalFreq(SortByFreq(s)) == TotalFreq(s)
    ensures ForestSymbols(SortByFreq(s)) == ForestSymbols(s)
    ensures AllFull(s) ==> AllFull(SortByFreq(s))
  {
    SortSorted(s);
    SortPermutes(s);
    forall f: nat ensures Filter(SortByFreq(s), f) == Filter(s, f) {
      SortStable(s, f);
    }
    SortTotals(s);
  }

  lemma {:induction false} SortSorted(s: seq<Weighted>)
    ensures SortedByFreq(SortByFreq(s))
  {
    if s != [] {
      SortSorted(s[..|s| - 1]);
      InsertSorted(SortByFreq(s[..|s| - 1]), s[|s| - 1]);
    }
  }

  lemma {:induction false} SortPermutes(s: seq<Weighted>)
    ensures multiset(SortByFreq(s)) == multiset(s)
  {
    if s != [] {
      var init, x := s[..|s| - 1], s[|s| - 1];
      assert s == init + [x];
      SortPermutes(init);
      InsertMultiset(SortByFreq(init), x);
    }
  }

  lemma {:induction false} SortStable(s: seq<Weighted>, f: nat)
    ensures Filter(SortByFreq(s), f) == Filter(s, f)
  {
    if s != [] {
      var init, x := s[..|s| - 1], s[|s| - 1];
      assert s == init + [x];
      SortStable(init, f);
      SortSorted(init);
      InsertStable(SortByFreq(init), x, f);
      FilterConcat(init, [x], f);
    }
  }

  lemma {:induction false} SortTotals(s: seq<Weighted>)
    ensures TotalFreq(SortByFreq(s)) == TotalFreq(s)
    ensures ForestSymbols(SortByFreq(s)) == ForestSymbols(s)
    ensures AllFull(s) ==> AllFull(SortByFreq(s))
  {
    if s != [] {
      var init, x := s[..|s| - 1], s[|s| - 1];
      assert s == init + [x];
      SortTotals(init);
      InsertTotals(SortByFreq(init), x);
      TotalsSnoc(init, x);
      if AllFull(s) {
        assert AllFull(init);
      }
    }
  }

  lemma {:induction false} TotalsSnoc(s: seq<Weighted>, w: Weighted)
    ensures TotalFreq(s + [w]) == TotalFreq(s) + w.freq
    ensures ForestSymbols(s + [w]) == ForestSymbols(s) + LeafSymbols(w.tree)
  {
    if s == [] {
      assert [] + [w] == [w];
    } else {
      assert (s + [w])[1..] == s[1..] + [w];
      TotalsSnoc(s[1..], w);
    }
  }

  /** One leaf per key, in key order, weighted by the key's value. */
  function LeavesOf(keys: seq<char>, values: map<char, nat>): (leaves: seq<Weighted>)
    requires forall c :: c in keys ==> c in values
    ensures |leaves| == |keys|
    ensures forall i :: 0 <= i < |keys| ==> leaves[i] == Weighted(Leaf(keys[i]), values[keys[i]])
  {
    if keys == [] then [] else [Weighted(Leaf(keys[0]), values[keys[0]])] + LeavesOf(keys[1..], values)
  }

  /** The table's items as leaves, in the table's order. */
  function TableLeaves(d: Dict): seq<Weighted>
    requires ValidDict(d)
  {
    LeavesOf(d.keys, d.values)
  }

  /** plant_forest: one leaf per table entry, sorted stably by ascending frequency. */
  function PlantForest(d: Dict): (forest: seq<Weighted>)
    requires ValidDict(d)
    ensures SortedByFreq(forest)
    ensures multiset(forest) == multiset(TableLeaves(d))
  {
    SortByFreqProperties(TableLeaves(d));
    SortByFreq(TableLeaves(d))
  }

  lemma {:induction false} LeavesOfSymbols(keys: seq<char>, values: map<char, nat>)
    requires forall c :: c in keys ==> c in values
    ensures ForestSymbols(LeavesOf(keys, values)) == multiset(keys)
    ensures AllFull(LeavesOf(keys, values))
  {
    if keys != [] {
      var leaves, rest := LeavesOf(keys, values), LeavesOf(keys[1..], values);
      LeavesOfSymbols(keys[1..], values);
      assert leaves == [Weighted(Leaf(keys[0]), values[keys[0]])] + rest;
      assert leaves[1..] == rest;
      assert ForestSymbols(leaves) == multiset{keys[0]} + ForestSymbols(rest);
      assert keys == [keys[0]] + keys[1..];
      assert multiset(keys) == multiset{keys[0]} + multiset(keys[1..]);
    }
  }

  /**
   * plant_forest yields one leaf per table entry, in non-decreasing order of
   * frequency, and entries of equal frequency keep the table's order.
   */
  lemma PlantForestProperties(d: Dict)
    requires ValidDict(d)
    ensures |PlantForest(d)| == |d.keys|
    ensures multiset(PlantForest(d)) == multiset(TableLeaves(d))
    ensures forall i :: 0 <= i < |TableLeaves(d)| ==>
      TableLeaves(d)[i] == Weighted(Leaf(d.keys[i]), d.values[d.keys[i]])
    ensures SortedByFreq(PlantForest(d))
    ensures forall f: nat :: Filter(PlantForest(d), f) == Filter(TableLeaves(d), f)
    ensures ForestSymbols(PlantForest(d)) == multiset(d.keys)
    ensures AllFull(PlantForest(d))
  {
    SortByFreqProperties(TableLeaves(d));
    LeavesOfSymbols(d.keys, d.values);
    assert |multiset(PlantForest(d))| == |multiset(TableLeaves(d))|;
  }

  // ---------------------------------------------------------------------------
  // Merging

  /** The node a merge round builds from the two front trees. */
  function Combine(a: Weighted, b: Weighted): Weighted
  {
    Weighted(Node(a.tree, b.tree), a.freq + b.freq)
  }

  /**
   * The forest after one merge round: the two front trees are removed and their
   * combination inserted; when nothing else is left the list stays empty.
   */
  function MergeRound(forest: seq<Weighted>): seq<Weighted>
    requires |forest| >= 2
  {
    var rest := forest[2..];
    if rest == [] then [] else Insert(rest, Combine(forest[0], forest[1]))
  }

  /** The tree the while loop of merge_trees ends with. */
  function MergeRounds(forest: seq<Weighted>): Weighted
    requires |forest| >= 2
    decreases |forest|
  {
    if |forest| == 2 then Combine(forest[0], forest[1])
    else MergeRounds(MergeRound(forest))
  }

  /** merge_trees as a function: a one-tree forest gets the single-child wrapper. */
  function MergeAll(forest: seq<Weighted>): Weighted
    requires |forest| >= 1
  {
    if |forest| == 1 then Weighted(Wrap(forest[0].tree), forest[0].freq) else MergeRounds(forest)
  }

  /** Each round keeps the forest sorted and shrinks it by one. */
  lemma MergeRoundSorted(forest: seq<Weighted>)
    requires |forest| >= 3 && SortedByFreq(forest)
    ensures SortedByFreq(MergeRound(forest))
    ensures |MergeRound(forest)| == |forest| - 1
  {
    assert SortedByFreq(forest[2..]);
    InsertSorted(forest[2..], Combine(forest[0], forest[1]));
  }

  /** The totals of a forest of at least two trees, split at its two front trees. */
  lemma FrontTwo(forest: seq<Weighted>)
    requires |forest| >= 2
    ensures TotalFreq(forest) == forest[0].freq + forest[1].freq + TotalFreq(forest[2..])
    ensures ForestSymbols(forest) == LeafSymbols(forest[0].tree) + LeafSymbols(forest[1].tree) + ForestSymbols(forest[2..])
    ensures AllFull(forest) ==> Full(forest[0].tree) && Full(forest[1].tree) && AllFull(forest[2..])
  {
    assert forest[1..][1..] == forest[2..];
    if AllFull(forest) {
      assert Full(forest[0].tree) && Full(forest[1].tree);
      forall i | 0 <= i < |forest[2..]| ensures Full(forest[2..][i].tree) {
        assert forest[2..][i] == forest[i + 2];
      }
    }
  }

  /** A merge round keeps the total frequency, the leaf symbols and fullness of the forest. */
  lemma MergeRoundTotals(forest: seq<Weighted>)
    requires |forest| > 2
    ensures TotalFreq(MergeRound(forest)) == TotalFreq(forest)
    ensures ForestSymbols(MergeRound(forest)) == ForestSymbols(forest)
    ensures AllFull(forest) ==> AllFull(MergeRound(forest))
  {
    FrontTwo(forest);
    InsertTotals(forest[2..], Combine(forest[0], forest[1]));
  }

  lemma {:induction false} MergeRoundsProperties(forest: seq<Weighted>)
    requires |forest| >= 2
    ensures MergeRounds(forest).freq == TotalFreq(forest)
    ensures LeafSymbols(MergeRounds(forest).tree) == ForestSymbols(forest)
    ensures MergeRounds(forest).tree.Node?
    ensures AllFull(forest) ==> Full(MergeRounds(forest).tree)
    decreases |forest|
  {
    if |forest| > 2 {
      MergeRoundTotals(forest);
      MergeRoundsProperties(MergeRound(forest));
    } else {
      FrontTwo(forest);
      assert forest[2..] == [];
    }
  }

  lemma {:induction false} ForestSymbolsSize(s: seq<Weighted>)
    ensures |ForestSymbols(s)| >= |s|
  {
    if s != [] {
      ForestSymbolsSize(s[1..]);
      TreeHasLeaf(s[0].tree);
    }
  }

  lemma {:induction false} TreeHasLeaf(t: Tree)
    ensures |LeafSymbols(t)| >= 1
  {
    match t
    case Leaf(_) =>
    case Node(l, r) => TreeHasLeaf(l);
    case Wrap(l) => TreeHasLeaf(l);
  }

  /**
   * The root's frequency is the forest's total and it holds every leaf of the
   * forest; a one-tree forest gives the wrapper, a larger forest of full trees a
   * full tree with at least two leaves.
   */
  lemma MergeAllProperties(forest: seq<Weighted>)
    requires |forest| >= 1
    ensures MergeAll(forest).freq == TotalFreq(forest)
    ensures LeafSymbols(MergeAll(forest).tree) == ForestSymbols(forest)
    ensures |forest| == 1 ==> MergeAll(forest).tree == Wrap(forest[0].tree)
    ensures |forest| >= 2 && AllFull(forest) ==>
      Full(MergeAll(forest).tree) && |LeafSymbols(MergeAll(forest).tree)| >= 2
  {
    if |forest| >= 2 {
      MergeRoundsProperties(forest);
      ForestSymbolsSize(forest);
    } else {
      assert forest[1..] == [];
    }
  }

  /**
   * merge_trees: repeatedly joins the two front trees into a node (first left,
   * second right, frequencies added) and inserts it before the first tree of
   * strictly greater frequency, or at the end.
   */
  method MergeTrees(forest: seq<Weighted>) returns (root: Weighted)
    requires |forest| >= 1
    ensures root == MergeAll(forest)
    ensures root.freq == TotalFreq(forest)
    ensures LeafSymbols(root.tree) == ForestSymbols(forest)
  {
    var f := forest;
    // None while Python's new_tree is still unbound
    var newTree: Option<Weighted> := None;
    if |f| == 1 {
      newTree := Some(Weighted(Wrap(f[0].tree), f[0].freq));
    }
    while |f| > 1
      invariant |f| >= 2 ==> MergeRounds(f) == MergeAll(forest)
      invariant |f| < 2 ==> newTree == Some(MergeAll(forest))
      decreases |f|
    {
      var merged := Weighted(Node(f[0].tree, f[1].tree), f[0].freq + f[1].freq);
      newTree := Some(merged);
      ghost var before := f;
      f := f[2..];
      for index := 0 to |f|
        invariant before[2..] == f
        invariant f == [] || index < |f|
        invariant forall j :: 0 <= j < index ==> f[j].freq <= merged.freq
      {
        if merged.freq < f[index].freq {
          InsertionSplit(f, merged, index);
          f := f[..index] + [merged] + f[index..];
          break;
        } else if index == |f| - 1 {
          InsertionSplit(f, merged, |f|);
          assert f[..|f|] == f && f[|f|..] == [];
          f := f + [merged];
          break;
        }
      }
      assert |before| > 2 ==> f == MergeRound(before);
    }
    root := newTree.value;
    MergeAllProperties(forest);
  }

  /** Inserting at the first index of strictly greater frequency is what Insert does. */
  lemma InsertionSplit(s: seq<Weighted>, w: Weighted, k: nat)
    requires k <= |s|
    requires forall j :: 0 <= j < k ==> s[j].freq <= w.freq
    requires k < |s| ==> w.freq < s[k].freq
    ensures Insert(s, w) == s[..k] + [w] + s[k..]
  {
    InsertAt(s, w);
    InsertionPointIs(s, w, k);
  }

  /** InsertionPoint is the first index of strictly greater frequency. */
  lemma {:induction false} InsertionPointIs(s: seq<Weighted>, w: Weighted, k: nat)
    requires k <= |s|
    requires forall j :: 0 <= j < k ==> s[j].freq <= w.freq
    requires k < |s| ==> w.freq < s[k].freq
    ensures InsertionPoint(s, w) == k
  {
    if k > 0 {
      InsertionPointIs(s[1..], w, k - 1);
    }
  }
}
