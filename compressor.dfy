/** The forest builder and the tree compressor: `char_dictionary_to_node_dictionary`,
    `get_minimum_value` and `huffman_compress`. A forest is a map from node to
    the value stored beside it. */
module TreeCompressor {
  import opened WeightSums
  import opened HuffmanNode

  /** All leaves of all trees of the forest. */
  ghost function ForestLeaves(f: map<Node, int>): (ls: set<Node>)
  {
    TreesLeaves(f.Keys)
  }

  /** All leaves of all the trees in `trees`. */
  ghost function TreesLeaves(trees: set<Node>): (ls: set<Node>)
  {
    if trees == {} then {}
    else
      var n :| n in trees;
      Leaves(n) + TreesLeaves(trees - {n})
  }

  /** Taking any one tree out takes out its leaves. */
  lemma {:induction false} TreesLeavesRemove(trees: set<Node>, n: Node)
    requires n in trees
    ensures TreesLeaves(trees) == Leaves(n) + TreesLeaves(trees - {n})
    decreases |trees|
  {
    var j :| j in trees && TreesLeaves(trees) == Leaves(j) + TreesLeaves(trees - {j});
    if j != n {
      TreesLeavesRemove(trees - {j}, n);
      TreesLeavesRemove(trees - {n}, j);
      assert trees - {j} - {n} == trees - {n} - {j};
    }
  }

  /** Taking any one tree out of the forest takes out its leaves. */
  lemma ForestLeavesRemove(f: map<Node, int>, n: Node)
    requires n in f
    ensures ForestLeaves(f) == Leaves(n) + ForestLeaves(f - {n})
  {
    TreesLeavesRemove(f.Keys, n);
    assert (f - {n}).Keys == f.Keys - {n};
  }

  /** The forest invariant of the compressor: every tree is well formed with
      distinct leaves, every stored value is its node's (non-negative) value,
      and no character occurs in two trees. */
  ghost predicate ValidForest(f: map<Node, int>)
  {
    && (forall n :: n in f ==> WellFormed(n) && DistinctLeaves(n) && f[n] == n.value >= 0)
    && (forall n, m :: n in f && m in f && n != m ==> LeafChars(n) !! LeafChars(m))
  }

  /** `n` holds the smallest value of `f`. */
  ghost predicate IsMinimum(f: map<Node, int>, n: Node)
  {
    n in f && forall m :: m in f ==> f[n] <= f[m]
  }

  /** `char_dictionary_to_node_dictionary`: one leaf per character, stored
      with its count. */
  method CharDictionaryToNodeDictionary(dict: map<char, int>) returns (nodeDictionary: map<Node, int>)
    ensures forall n :: n in nodeDictionary ==> n.Leaf? && n.ch in dict && n.value == dict[n.ch]
    ensures forall c :: c in dict ==> Leaf(c, dict[c]) in nodeDictionary
    ensures forall n :: n in nodeDictionary ==> nodeDictionary[n] == n.value
    ensures MapSum(nodeDictionary) == MapSum(dict)
  {
    nodeDictionary := map[];
    var rest := dict;
    while rest != map[]
      invariant forall c :: c in rest ==> c in dict && rest[c] == dict[c]
      invariant forall n :: n in nodeDictionary <==>
        n.Leaf? && n.ch in dict && n.ch !in rest && n.value == dict[n.ch]
      invariant forall n :: n in nodeDictionary ==> nodeDictionary[n] == n.value
      invariant MapSum(nodeDictionary) + MapSum(rest) == MapSum(dict)
      decreases |rest|
    {
      var c :| c in rest;
      var value := rest[c];
      var node := NewLeaf(c, value);
      MapSumRemove(rest, c);
      MapSumUpdate(nodeDictionary, node, value);
      nodeDictionary := nodeDictionary[node := value];
      assert (rest - {c}).Keys == rest.Keys - {c};
      rest := rest - {c};
    }
  }

  /** The leaves of a forest of single leaves are its nodes. */
  lemma {:induction false} LeafForestLeaves(f: map<Node, int>)
    requires forall n :: n in f ==> n.Leaf?
    ensures ForestLeaves(f) == f.Keys
    decreases |f|
  {
    if |f| > 0 {
      var n := Pick(f);
      assert (f - {n}).Keys == f.Keys - {n};
      ForestLeavesRemove(f, n);
      LeafForestLeaves(f - {n});
    } else {
      assert f.Keys == {};
    }
  }

  /** A forest built from a table of non-negative counts satisfies the
      compressor's forest invariant. */
  lemma LeafForestIsValid(dict: map<char, int>, f: map<Node, int>)
    requires forall c :: c in dict ==> dict[c] >= 0
    requires forall n :: n in f ==> n.Leaf? && n.ch in dict && n.value == dict[n.ch]
    requires forall c :: c in dict ==> Leaf(c, dict[c]) in f
    requires forall n :: n in f ==> f[n] == n.value
    ensures ValidForest(f)
  {
  }

  /** `nodes` lists distinct nodes of `f` in increasing order of value. */
  ghost predicate AscendingNodes(f: map<Node, int>, nodes: seq<Node>)
  {
    && (forall i :: 0 <= i < |nodes| ==> nodes[i] in f)
    && (forall i, j :: 0 <= i < j < |nodes| ==> nodes[i] != nodes[j] && f[nodes[i]] <= f[nodes[j]])
  }

  /** `nodes` holds every node of `f` whose value is at most one it lists. */
  ghost predicate LowerClosed(f: map<Node, int>, nodes: seq<Node>)
    requires AscendingNodes(f, nodes)
  {
    forall n, i :: n in f && 0 <= i < |nodes| && f[n] <= f[nodes[i]] ==> n in nodes
  }

  /** `nodes` repeats no value but its last one, and covers all of `f` unless
      that last value is repeated. */
  ghost predicate StopsAtFirstTie(f: map<Node, int>, nodes: seq<Node>)
    requires AscendingNodes(f, nodes)
  {
    && (forall i, j :: 0 <= i < j < |nodes| && f[nodes[i]] == f[nodes[j]] ==>
          f[nodes[j]] == f[nodes[|nodes| - 1]])
    && ((|nodes| < 2 || f[nodes[|nodes| - 2]] < f[nodes[|nodes| - 1]]) ==>
          forall n :: n in f ==> n in nodes)
  }

  /** The nodes of `f`, in increasing order of value, up to the first value
      held by two or more nodes (all of `f` when there is no such value). */
  ghost predicate ListsLowestNodes(f: map<Node, int>, nodes: seq<Node>)
  {
    AscendingNodes(f, nodes) && LowerClosed(f, nodes) && StopsAtFirstTie(f, nodes)
  }

  /** `get_minimum_value`: a scan keeps the nodes holding the smallest value
      seen so far (starting from the sentinel `i32::MAX`); when exactly one
      node holds the minimum, the scan is repeated on the rest of the forest
      and its result appended. The result therefore lists, in increasing order
      of value, every node up to the first value held by two or more nodes (or
      the whole forest when there is no such value). */
  method GetMinimumValue(dict: map<Node, int>) returns (nodes: seq<Node>)
    requires forall n :: n in dict ==> dict[n] <= I32Max
    ensures ListsLowestNodes(dict, nodes)
    ensures |dict| >= 1 ==> |nodes| >= 1 && IsMinimum(dict, nodes[0])
    ensures |dict| >= 2 ==> |nodes| >= 2 && IsMinimum(dict - {nodes[0]}, nodes[1])
    decreases |dict|
  {
    var minimumValue := I32Max;
    nodes := [];
    var unseen := dict.Keys;
    while unseen != {}
      invariant Scanned(dict, unseen, minimumValue, nodes)
      decreases unseen
    {
      var node :| node in unseen;
      var value := dict[node];
      ScanStep(dict, unseen, minimumValue, nodes, node);
      if value < minimumValue {
        minimumValue := value;
        nodes := [node];
      } else if value == minimumValue {
        nodes := nodes + [node];
      }
      unseen := unseen - {node};
    }
    if |nodes| == 1 {
      var changedDict := dict - {nodes[0]};
      var nextMinNodes := GetMinimumValue(changedDict);
      AppendUniqueMinimum(dict, nodes, minimumValue, nextMinNodes);
      nodes := nodes + nextMinNodes;
    } else {
      AllMinimumHolders(dict, nodes, minimumValue);
    }
    LowestIsMinimum(dict, nodes);
  }

  /** The invariant of the scan in `get_minimum_value`: `minimumValue` is
      the smallest value among the nodes already seen (or the `i32::MAX`
      sentinel), and `nodes` lists, without repetition, the seen nodes that
      hold it. */
  ghost predicate Scanned(dict: map<Node, int>, unseen: set<Node>, minimumValue: int, nodes: seq<Node>)
  {
    && unseen <= dict.Keys
    && minimumValue <= I32Max
    && (forall n :: n in dict && n !in unseen ==> minimumValue <= dict[n])
    && (forall n :: n in nodes <==> n in dict && n !in unseen && dict[n] == minimumValue)
    && (forall i, j :: 0 <= i < j < |nodes| ==> nodes[i] != nodes[j])
    && (minimumValue < I32Max ==> nodes != [])
  }

  /** One node seen by the scan: a smaller value restarts the list with that
      node, an equal value appends it, a larger value changes nothing. */
  lemma ScanStep(dict: map<Node, int>, unseen: set<Node>, minimumValue: int, nodes: seq<Node>, node: Node)
    requires forall n :: n in dict ==> dict[n] <= I32Max
    requires Scanned(dict, unseen, minimumValue, nodes) && node in unseen
    ensures var value := dict[node];
      Scanned(dict, unseen - {node},
        if value < minimumValue then value else minimumValue,
        if value < minimumValue then [node] else if value == minimumValue then nodes + [node] else nodes)
  {
  }

  /** The first node of such a list holds the smallest value of the forest,
      and the second the smallest of the rest. */
  lemma LowestIsMinimum(f: map<Node, int>, nodes: seq<Node>)
    requires ListsLowestNodes(f, nodes)
    ensures |nodes| >= 1 ==> IsMinimum(f, nodes[0])
    ensures |nodes| >= 2 ==> IsMinimum(f - {nodes[0]}, nodes[1])
  {
    if |nodes| >= 1 {
      forall m | m in f ensures f[nodes[0]] <= f[m] {
        if m in nodes {
          var k :| 0 <= k < |nodes| && nodes[k] == m;
          assert k == 0 || f[nodes[0]] <= f[nodes[k]];
        }
      }
    }
    if |nodes| >= 2 {
      var g := f - {nodes[0]};
      assert nodes[1] in g;
      forall m | m in g ensures g[nodes[1]] <= g[m] {
        if m in nodes {
          var k :| 0 <= k < |nodes| && nodes[k] == m;
          assert k == 1 || f[nodes[1]] <= f[nodes[k]];
        }
      }
    }
  }

  /** The non-recursive case of `GetMinimumValue`: the holders of the minimum,
      when they are not exactly one, form a valid result. */
  lemma AllMinimumHolders(dict: map<Node, int>, nodes: seq<Node>, minimumValue: int)
    requires forall n :: n in dict ==> dict[n] <= I32Max
    requires minimumValue <= I32Max
    requires forall n :: n in dict ==> minimumValue <= dict[n]
    requires forall n :: n in nodes <==> n in dict && dict[n] == minimumValue
    requires forall i, j :: 0 <= i < j < |nodes| ==> nodes[i] != nodes[j]
    requires minimumValue < I32Max ==> nodes != []
    requires |nodes| != 1
    ensures ListsLowestNodes(dict, nodes)
    ensures |dict| >= 1 ==> |nodes| >= 2
  {
    if |dict| >= 1 {
      var n :| n in dict;
      assert nodes != [];
    }
    assert forall i :: 0 <= i < |nodes| ==> nodes[i] in nodes;
  }

  /** The recursive case of `GetMinimumValue`: the only holder of the
      minimum, put in front of a valid result for the rest of the forest,
      gives a valid result. */
  lemma AppendUniqueMinimum(dict: map<Node, int>, nodes: seq<Node>, minimumValue: int, rest: seq<Node>)
    requires forall n :: n in dict ==> minimumValue <= dict[n]
    requires forall n :: n in nodes <==> n in dict && dict[n] == minimumValue
    requires |nodes| == 1
    requires ListsLowestNodes(dict - {nodes[0]}, rest)
    requires |dict - {nodes[0]}| >= 1 ==> |rest| >= 1
    ensures ListsLowestNodes(dict, nodes + rest)
    ensures |dict| >= 1 ==> |nodes + rest| >= 1
    ensures |dict| >= 2 ==> |nodes + rest| >= 2
  {
    var first := nodes[0];
    assert nodes == [first];
    var d := dict - {first};
    assert d.Keys == dict.Keys - {first};
    AppendAscending(dict, first, rest);
    AppendLowerClosed(dict, first, rest);
    AppendStopsAtFirstTie(dict, first, rest);
    if |dict| >= 2 {
      assert |d| >= 1;
    }
  }

  lemma AppendAscending(dict: map<Node, int>, first: Node, rest: seq<Node>)
    requires first in dict
    requires forall n :: n in dict && n != first ==> dict[first] < dict[n]
    requires AscendingNodes(dict - {first}, rest)
    ensures AscendingNodes(dict, [first] + rest)
  {
    var nodes := [first] + rest;
    forall i | 0 <= i < |nodes| ensures nodes[i] in dict {
      if i > 0 {
        assert nodes[i] == rest[i - 1];
      }
    }
    forall i, j | 0 <= i < j < |nodes| ensures nodes[i] != nodes[j] && dict[nodes[i]] <= dict[nodes[j]] {
      assert nodes[j] == rest[j - 1];
      if i > 0 {
        assert nodes[i] == rest[i - 1];
      }
    }
  }

  lemma AppendLowerClosed(dict: map<Node, int>, first: Node, rest: seq<Node>)
    requires first in dict
    requires forall n :: n in dict && n != first ==> dict[first] < dict[n]
    requires AscendingNodes(dict - {first}, rest) && LowerClosed(dict - {first}, rest)
    requires AscendingNodes(dict, [first] + rest)
    ensures LowerClosed(dict, [first] + rest)
  {
    var nodes := [first] + rest;
    forall n, i | n in dict && 0 <= i < |nodes| && dict[n] <= dict[nodes[i]] ensures n in nodes {
      if n != first {
        assert n in dict - {first};
        assert i > 0 && nodes[i] == rest[i - 1];
        assert n in rest;
      }
    }
  }

  lemma AppendStopsAtFirstTie(dict: map<Node, int>, first: Node, rest: seq<Node>)
    requires first in dict
    requires forall n :: n in dict && n != first ==> dict[first] < dict[n]
    requires AscendingNodes(dict - {first}, rest) && StopsAtFirstTie(dict - {first}, rest)
    requires |dict - {first}| >= 1 ==> |rest| >= 1
    requires AscendingNodes(dict, [first] + rest)
    ensures StopsAtFirstTie(dict, [first] + rest)
  {
    var d := dict - {first};
    var nodes := [first] + rest;
    assert d.Keys == dict.Keys - {first};
    if |rest| >= 1 {
      assert nodes[|nodes| - 1] == rest[|rest| - 1];
    }
    forall i, j | 0 <= i < j < |nodes| && dict[nodes[i]] == dict[nodes[j]]
      ensures dict[nodes[j]] == dict[nodes[|nodes| - 1]]
    {
      assert nodes[j] == rest[j - 1];
      assert i > 0 && nodes[i] == rest[i - 1];
    }
    if |nodes| < 2 || dict[nodes[|nodes| - 2]] < dict[nodes[|nodes| - 1]] {
      if |rest| >= 2 {
        assert nodes[|nodes| - 2] == rest[|rest| - 2];
      }
      forall n | n in dict ensures n in nodes {
        if n != first {
          assert n in d;
          assert n in rest;
        }
      }
    }
  }

  /** `huffman_compress`: while more than one tree is left, the first two
      nodes of `GetMinimumValue` become the children of a new parent whose
      value is the sum of theirs; the two are removed and the parent stored.
      An empty forest makes the program panic (`nodes[0]`); non-negative
      values with a total of at most `i32::MAX` keep every `i32` sum in
      range. The merges taken are recorded by `GreedyMerges`. */
  method HuffmanCompress(dict: map<Node, int>) returns (root: Node)
    requires |dict| >= 1
    requires ValidForest(dict)
    requires MapSum(dict) <= I32Max
    ensures WellFormed(root) && DistinctLeaves(root)
    ensures root.value == MapSum(dict)
    ensures Leaves(root) == ForestLeaves(dict)
    ensures exists steps :: GreedyMerges(dict, steps, map[root := root.value])
  {
    var dictMut := dict;
    ghost var steps: seq<(Node, Node)> := [];
    while |dictMut| > 1
      invariant |dictMut| >= 1
      invariant ValidForest(dictMut)
      invariant MapSum(dictMut) == MapSum(dict)
      invariant ForestLeaves(dictMut) == ForestLeaves(dict)
      invariant GreedyMerges(dict, steps, dictMut)
      decreases |dictMut|
    {
      MapSumBounds(dictMut);
      var minValues := GetMinimumValue(dictMut);
      var nodes := minValues[0..2];
      var combinedValues := GetValue(nodes[0]) + GetValue(nodes[1]);
      var parentNode := NewParent(combinedValues, nodes);
      assert nodes[0] == minValues[0] && nodes[1] == minValues[1];
      assert parentNode == Merged(nodes[0], nodes[1]);
      MergeStep(dictMut, nodes[0], nodes[1]);
      ghost var merged := MergedForest(dictMut, nodes[0], nodes[1]);
      MapSumBounds(merged);
      assert combinedValues == merged[parentNode] <= I32Max;
      GreedyMergesSnoc(dict, steps, dictMut, nodes[0], nodes[1]);
      steps := steps + [(nodes[0], nodes[1])];
      dictMut := dictMut - {nodes[0]};
      dictMut := dictMut - {nodes[1]};
      dictMut := dictMut[parentNode := combinedValues];
      assert dictMut == merged;
    }
    root :| root in dictMut;
    SingletonForest(dictMut, root);
  }

  /** One merge of the compressor: `n0` holds the smallest value of `f` and
      `n1` the smallest value of the rest (ties in either order). */
  ghost predicate GreedyPair(f: map<Node, int>, n0: Node, n1: Node)
  {
    IsMinimum(f, n0) && IsMinimum(f - {n0}, n1)
  }

  /** The forest `f` becomes `g` by merging, in turn, the pairs of `steps`,
      each a minimum and a next minimum of the forest at that point. */
  ghost predicate GreedyMerges(f: map<Node, int>, steps: seq<(Node, Node)>, g: map<Node, int>)
    decreases |steps|
  {
    if steps == [] then f == g
    else
      && GreedyPair(f, steps[0].0, steps[0].1)
      && GreedyMerges(MergedForest(f, steps[0].0, steps[0].1), steps[1..], g)
  }

  /** A greedy merge of the last forest extends a run of greedy merges. */
  lemma {:induction false} GreedyMergesSnoc(f: map<Node, int>, steps: seq<(Node, Node)>, g: map<Node, int>, n0: Node, n1: Node)
    requires GreedyMerges(f, steps, g)
    requires GreedyPair(g, n0, n1)
    ensures GreedyMerges(f, steps + [(n0, n1)], MergedForest(g, n0, n1))
    decreases |steps|
  {
    var step := (n0, n1);
    if steps == [] {
      assert steps + [step] == [step] && [step][1..] == [];
    } else {
      GreedyMergesSnoc(MergedForest(f, steps[0].0, steps[0].1), steps[1..], g, n0, n1);
      assert (steps + [step])[1..] == steps[1..] + [step];
    }
  }

  /** The tree that merges `n0` and `n1` under a new parent. */
  function Merged(n0: Node, n1: Node): (p: Node)
    ensures p.Internal? && p.c0 == n0 && p.c1 == n1 && p.value == n0.value + n1.value
    ensures Leaves(p) == Leaves(n0) + Leaves(n1)
    ensures LeafChars(p) == LeafChars(n0) + LeafChars(n1)
  {
    NewParent(n0.value + n1.value, [n0, n1])
  }

  /** The forest after one merge of `n0` and `n1`. */
  ghost function MergedForest(f: map<Node, int>, n0: Node, n1: Node): (g: map<Node, int>)
  {
    (f - {n0} - {n1})[Merged(n0, n1) := n0.value + n1.value]
  }

  /** One merge keeps the forest invariant, the total value and the leaves,
      and leaves one tree fewer. */
  lemma MergeStep(f: map<Node, int>, n0: Node, n1: Node)
    requires ValidForest(f)
    requires n0 in f && n1 in f && n0 != n1
    ensures ValidForest(MergedForest(f, n0, n1))
    ensures |MergedForest(f, n0, n1)| == |f| - 1
    ensures MapSum(MergedForest(f, n0, n1)) == MapSum(f)
    ensures ForestLeaves(MergedForest(f, n0, n1)) == ForestLeaves(f)
  {
    MergedIsNew(f, n0, n1);
    MergeKeepsValid(f, n0, n1);
    MergeKeepsSum(f, n0, n1);
    MergeKeepsLeaves(f, n0, n1);
  }

  /** The merged tree is not already in the forest: it shares characters
      with `n0`, and trees of a valid forest share none. */
  lemma MergedIsNew(f: map<Node, int>, n0: Node, n1: Node)
    requires ValidForest(f)
    requires n0 in f && n1 in f && n0 != n1
    ensures Merged(n0, n1) !in f - {n0} - {n1}
    ensures |MergedForest(f, n0, n1)| == |f| - 1
  {
    var p := Merged(n0, n1);
    var h := f - {n0} - {n1};
    assert h.Keys == f.Keys - {n0, n1};
    assert p !in h;
  }

  lemma MergeKeepsValid(f: map<Node, int>, n0: Node, n1: Node)
    requires ValidForest(f)
    requires n0 in f && n1 in f && n0 != n1
    ensures ValidForest(MergedForest(f, n0, n1))
  {
    var p := Merged(n0, n1);
    var g := MergedForest(f, n0, n1);
    assert WellFormed(p) && DistinctLeaves(p) && g[p] == p.value >= 0;
    forall n, m | n in g && m in g && n != m ensures LeafChars(n) !! LeafChars(m) {
      if n != p && m != p {
        assert n in f && m in f;
      } else if n == p {
        assert m in f && m != n0 && m != n1;
      } else {
        assert n in f && n != n0 && n != n1;
      }
    }
  }

  lemma MergeKeepsSum(f: map<Node, int>, n0: Node, n1: Node)
    requires n0 in f && n1 in f && n0 != n1
    requires f[n0] == n0.value && f[n1] == n1.value
    requires Merged(n0, n1) !in f - {n0} - {n1}
    ensures MapSum(MergedForest(f, n0, n1)) == MapSum(f)
  {
    MapSumReplacePair(f, n0, n1, Merged(n0, n1), n0.value + n1.value);
  }

  lemma MergeKeepsLeaves(f: map<Node, int>, n0: Node, n1: Node)
    requires n0 in f && n1 in f && n0 != n1
    requires Merged(n0, n1) !in f - {n0} - {n1}
    ensures ForestLeaves(MergedForest(f, n0, n1)) == ForestLeaves(f)
  {
    var p := Merged(n0, n1);
    var h := f - {n0} - {n1};
    var g := MergedForest(f, n0, n1);
    ForestLeavesRemove(f, n0);
    assert n1 in f - {n0};
    ForestLeavesRemove(f - {n0}, n1);
    ForestLeavesRemove(g, p);
    assert g - {p} == h;
  }

  /** A forest of one tree: its total is that tree's value, its leaves are
      that tree's. */
  lemma SingletonForest(f: map<Node, int>, root: Node)
    requires ValidForest(f) && root in f && |f| == 1
    ensures MapSum(f) == root.value
    ensures ForestLeaves(f) == Leaves(root)
    ensures f == map[root := root.value]
  {
    assert f.Keys == {root} by {
      assert |f.Keys - {root}| == |f.Keys| - 1 == 0;
    }
    assert f == map[root := root.value] by {
      assert f[root] == root.value;
    }
    MapSumRemove(f, root);
    ForestLeavesRemove(f, root);
    assert |f - {root}| == 0 by {
      assert (f - {root}).Keys == {};
    }
  }
}
