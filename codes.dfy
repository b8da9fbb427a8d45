/** The code extractor: the table from character to bit string read off a
    tree (`iterate_tree`, `add_bit_0`, `add_bit_1`), and the properties of
    code tables that decoding relies on. */
module CodeExtractor {
  import opened WeightSums
  import opened HuffmanNode

  datatype Option<T> = None | Some(value: T)

  /** `add_bit_0`: the path extended by a '0' (the step to child 1). */
  function AddBit0(bits: string): (r: string)
    ensures |r| == |bits| + 1 && bits < r && r[|bits|] == '0'
  {
    bits + "0"
  }

  /** `add_bit_1`: the path extended by a '1' (the step to child 0). */
  function AddBit1(bits: string): (r: string)
    ensures |r| == |bits| + 1 && bits < r && r[|bits|] == '1'
  {
    bits + "1"
  }

  /** The code table of the tree `n` when `n` is reached by `prefix`: a leaf
      gets the path that reaches it, child 0 adds a '1' and child 1 a '0'. */
  function Codes(n: Node, prefix: string): (t: map<char, string>)
    ensures t.Keys == LeafChars(n)
    ensures forall c :: c in t ==> prefix <= t[c]
    ensures n.Internal? ==> forall c :: c in t ==> |t[c]| > |prefix|
  {
    match n
    case Leaf(c, _) => map[c := prefix]
    case Internal(_, c0, c1) => Codes(c0, AddBit1(prefix)) + Codes(c1, AddBit0(prefix))
  }

  /** Every code is a string of '0' and '1' bits when the prefix is. */
  lemma {:induction false} CodesAreBits(n: Node, prefix: string)
    requires forall i :: 0 <= i < |prefix| ==> prefix[i] in "01"
    ensures forall c, i :: c in Codes(n, prefix) && 0 <= i < |Codes(n, prefix)[c]| ==> Codes(n, prefix)[c][i] in "01"
  {
    match n
    case Leaf(_, _) =>
    case Internal(_, c0, c1) =>
      var p1, p0 := AddBit1(prefix), AddBit0(prefix);
      assert forall i :: 0 <= i < |p1| ==> p1[i] in "01";
      assert forall i :: 0 <= i < |p0| ==> p0[i] in "01";
      CodesAreBits(c0, p1);
      CodesAreBits(c1, p0);
  }

  /** No code is a proper prefix of another. */
  ghost predicate PrefixFree(t: map<char, string>)
  {
    forall a, b :: a in t && b in t && a != b ==> !(t[a] < t[b])
  }

  /** No two characters share a code. */
  ghost predicate Injective(t: map<char, string>)
  {
    forall a, b :: a in t && b in t && a != b ==> t[a] != t[b]
  }

  /** Every code has at least one bit. */
  ghost predicate NonEmptyCodes(t: map<char, string>)
  {
    forall c :: c in t ==> t[c] != []
  }

  /** The node reached from `n` by following `path` ('1' to child 0, '0' to
      child 1), if the path stays inside the tree. */
  function Walk(n: Node, path: string): (r: Option<Node>)
  {
    if path == [] then Some(n)
    else match n
      case Leaf(_, _) => None
      case Internal(_, c0, c1) =>
        if path[0] == '1' then Walk(c0, path[1..])
        else if path[0] == '0' then Walk(c1, path[1..])
        else None
  }

  /** Each character's code is its root-to-leaf path: following the bits
      after the prefix leads to the leaf of that character. */
  lemma {:induction false} CodeIsPath(n: Node, prefix: string, c: char)
    requires DistinctLeaves(n) && c in LeafChars(n)
    ensures prefix <= Codes(n, prefix)[c]
    ensures var w := Walk(n, Codes(n, prefix)[c][|prefix|..]);
      w.Some? && w.value.Leaf? && w.value.ch == c
  {
    match n
    case Leaf(_, _) =>
      assert Codes(n, prefix)[c][|prefix|..] == [];
    case Internal(_, c0, c1) =>
      var code := Codes(n, prefix)[c];
      if c in LeafChars(c0) {
        assert c !in LeafChars(c1);
        CodeIsPath(c0, AddBit1(prefix), c);
        assert code == Codes(c0, AddBit1(prefix))[c];
        assert code[|prefix|..][1..] == code[|prefix| + 1..];
      } else {
        CodeIsPath(c1, AddBit0(prefix), c);
        assert code == Codes(c1, AddBit0(prefix))[c];
        assert code[|prefix|..][1..] == code[|prefix| + 1..];
      }
  }

  /** The codes of a tree with distinct leaves are prefix-free and pairwise
      different. */
  lemma {:induction false} CodesPrefixFree(n: Node, prefix: string)
    requires DistinctLeaves(n)
    ensures PrefixFree(Codes(n, prefix)) && Injective(Codes(n, prefix))
  {
    match n
    case Leaf(_, _) =>
    case Internal(_, c0, c1) =>
      var p1, p0 := AddBit1(prefix), AddBit0(prefix);
      var t0, t1 := Codes(c0, p1), Codes(c1, p0);
      var t := Codes(n, prefix);
      CodesPrefixFree(c0, p1);
      CodesPrefixFree(c1, p0);
      forall a, b | a in t && b in t && a != b ensures !(t[a] < t[b]) && t[a] != t[b] {
        if a in t0 && b in t0 {
          assert a !in t1 && b !in t1;
        } else if a in t1 && b in t1 {
        } else if a in t0 {
          assert a !in t1;
          assert p1 <= t[a] && p0 <= t[b];
          assert t[a][|prefix|] == '1' && t[b][|prefix|] == '0';
        } else {
          assert b !in t1;
          assert p0 <= t[a] && p1 <= t[b];
          assert t[a][|prefix|] == '0' && t[b][|prefix|] == '1';
        }
      }
  }

  /** A tree of two or more leaves gives every character a non-empty code; a
      single leaf gets the empty code. */
  lemma CodesNonEmpty(n: Node)
    ensures n.Internal? ==> NonEmptyCodes(Codes(n, []))
    ensures n.Leaf? ==> Codes(n, []) == map[n.ch := []]
  {
  }

  /** The number of nodes of a tree. */
  function Size(n: Node): (s: nat)
    ensures s >= 1
  {
    match n
    case Leaf(_, _) => 1
    case Internal(_, c0, c1) => 1 + Size(c0) + Size(c1)
  }

  /** The characters below the nodes waiting in the worklist. */
  ghost function PendingChars(work: map<Node, string>): (cs: set<char>)
  {
    set n, c | n in work && c in LeafChars(n) :: c
  }

  /** The size of each node waiting in the worklist. */
  ghost function Sizes(work: map<Node, string>): (sizes: map<Node, int>)
    ensures sizes.Keys == work.Keys
    ensures forall n :: n in sizes ==> sizes[n] == Size(n)
  {
    map n | n in work :: Size(n)
  }

  /** The number of nodes below the nodes waiting in the worklist. */
  ghost function PendingSize(work: map<Node, string>): (size: nat)
  {
    MapSumBounds(Sizes(work));
    MapSum(Sizes(work))
  }

  /** Every entry of `a` is an entry of `b`. */
  ghost predicate IsSubMap(a: map<char, string>, b: map<char, string>)
  {
    forall c :: c in a ==> c in b && a[c] == b[c]
  }

  /** The invariant of `iterate_tree`'s loop, for the table `full` of the
      whole tree: each waiting node, with its path, accounts for part of
      `full`, the recorded codes are entries of `full`, and every character
      of `full` is recorded or below a waiting node. */
  ghost predicate Extracting(full: map<char, string>, charDict: map<char, string>, work: map<Node, string>)
  {
    && (forall n :: n in work ==> DistinctLeaves(n) && IsSubMap(Codes(n, work[n]), full))
    && IsSubMap(charDict, full)
    && full.Keys == charDict.Keys + PendingChars(work)
  }

  /** `iterate_tree`: a worklist from node to path starts with the root and
      the empty path; a leaf taken from it records its path for its
      character, an internal node is replaced by its children with the path
      extended by '1' (child 0) and '0' (child 1). The result is the code
      table of the tree. */
  method IterateTree(rootNode: Node) returns (charDict: map<char, string>)
    requires DistinctLeaves(rootNode)
    ensures charDict == Codes(rootNode, "")
  {
    ghost var full := Codes(rootNode, "");
    var dict: map<Node, string> := map[rootNode := ""];
    charDict := map[];
    ExtractStart(rootNode);
    while |dict| > 0
      invariant Extracting(full, charDict, dict)
      decreases PendingSize(dict)
    {
      var node :| node in dict;
      var value := dict[node];
      if node.Leaf? {
        var ch := node.ch;
        ExtractLeaf(full, charDict, dict, node);
        charDict := charDict[ch := value];
        dict := dict - {node};
        continue;
      }
      var children := [node.c0, node.c1];
      ExtractSplit(full, charDict, dict, node);
      dict := dict[children[0] := AddBit1(value)];
      dict := dict[children[1] := AddBit0(value)];
      dict := dict - {node};
    }
    ExtractDone(full, charDict, dict);
  }

  lemma ExtractStart(root: Node)
    requires DistinctLeaves(root)
    ensures Extracting(Codes(root, ""), map[], map[root := ""])
  {
    var full, work := Codes(root, ""), map[root := ""];
    PendingOfOne(root, "");
    assert IsSubMap(Codes(root, work[root]), full);
    assert forall n :: n in work ==> n == root;
  }

  /** The characters pending in a one-node worklist are those of its node. */
  lemma PendingOfOne(root: Node, path: string)
    ensures PendingChars(map[root := path]) == LeafChars(root)
  {
    var work := map[root := path];
    forall c | c in LeafChars(root) ensures c in PendingChars(work) {
      assert root in work;
    }
  }

  /** A leaf taken from the worklist records its path, which is its code. */
  lemma ExtractLeaf(full: map<char, string>, charDict: map<char, string>, work: map<Node, string>, leaf: Node)
    requires Extracting(full, charDict, work)
    requires leaf in work && leaf.Leaf?
    ensures Extracting(full, charDict[leaf.ch := work[leaf]], work - {leaf})
    ensures PendingSize(work - {leaf}) < PendingSize(work)
  {
    LeafRecorded(full, charDict, work, leaf);
    OthersWaiting(full, work, leaf);
    TakeLeaf(work, leaf);
    LeafKeys(full, charDict, work, leaf);
    PendingSizeRemove(work, leaf);
  }

  /** The path of a leaf in the worklist is its character's code. */
  lemma LeafRecorded(full: map<char, string>, charDict: map<char, string>, work: map<Node, string>, leaf: Node)
    requires IsSubMap(charDict, full)
    requires leaf in work && leaf.Leaf? && IsSubMap(Codes(leaf, work[leaf]), full)
    ensures IsSubMap(charDict[leaf.ch := work[leaf]], full)
  {
    assert leaf.ch in Codes(leaf, work[leaf]);
  }

  /** The nodes left in the worklist keep their paths. */
  lemma OthersWaiting(full: map<char, string>, work: map<Node, string>, leaf: Node)
    requires forall n :: n in work ==> DistinctLeaves(n) && IsSubMap(Codes(n, work[n]), full)
    ensures forall n :: n in work - {leaf} ==> DistinctLeaves(n) && IsSubMap(Codes(n, (work - {leaf})[n]), full)
  {
    var w := work - {leaf};
    forall n | n in w ensures DistinctLeaves(n) && IsSubMap(Codes(n, w[n]), full) {
      assert n in work && w[n] == work[n];
    }
  }

  /** After a leaf step every character of the table is still recorded or
      pending. */
  lemma LeafKeys(full: map<char, string>, charDict: map<char, string>, work: map<Node, string>, leaf: Node)
    requires full.Keys == charDict.Keys + PendingChars(work)
    requires leaf in work && leaf.Leaf?
    requires PendingChars(work) - {leaf.ch} <= PendingChars(work - {leaf}) <= PendingChars(work)
    ensures full.Keys == charDict[leaf.ch := work[leaf]].Keys + PendingChars(work - {leaf})
  {
    assert leaf.ch in PendingChars(work) by {
      assert leaf.ch in LeafChars(leaf);
    }
  }

  /** An internal node of the worklist replaced by its children. */
  lemma ExtractSplit(full: map<char, string>, charDict: map<char, string>, work: map<Node, string>, node: Node)
    requires Extracting(full, charDict, work)
    requires node in work && node.Internal?
    ensures Extracting(full, charDict, Split(work, node))
    ensures PendingSize(Split(work, node)) < PendingSize(work)
  {
    SplitNode(work, node, full);
  }

  /** With the worklist empty, the recorded codes are the whole table. */
  lemma ExtractDone(full: map<char, string>, charDict: map<char, string>, work: map<Node, string>)
    requires Extracting(full, charDict, work) && |work| == 0
    ensures charDict == full
  {
    assert PendingChars(work) == {};
  }

  /** Taking a leaf out of the worklist removes at most its character from
      the pending ones. */
  lemma TakeLeaf(work: map<Node, string>, leaf: Node)
    requires leaf in work && leaf.Leaf?
    ensures PendingChars(work) - {leaf.ch} <= PendingChars(work - {leaf}) <= PendingChars(work)
  {
    forall c | c in PendingChars(work) - {leaf.ch} ensures c in PendingChars(work - {leaf}) {
      var n :| n in work && c in LeafChars(n);
      assert n != leaf;
    }
  }

  /** The worklist after an internal node is replaced by its children. */
  function Split(work: map<Node, string>, node: Node): (next: map<Node, string>)
    requires node in work && node.Internal?
  {
    work[node.c0 := AddBit1(work[node])][node.c1 := AddBit0(work[node])] - {node}
  }

  /** Replacing an internal node of the worklist by its two children keeps
      the table invariant and the pending characters, and lowers the pending
      size. */
  lemma SplitNode(work: map<Node, string>, node: Node, full: map<char, string>)
    requires node in work && node.Internal?
    requires forall n :: n in work ==> DistinctLeaves(n) && IsSubMap(Codes(n, work[n]), full)
    ensures forall n :: n in Split(work, node) ==>
      DistinctLeaves(n) && IsSubMap(Codes(n, Split(work, node)[n]), full)
    ensures PendingChars(Split(work, node)) == PendingChars(work)
    ensures PendingSize(Split(work, node)) < PendingSize(work)
  {
    assert node.c0 != node && node.c1 != node by {
      assert Size(node.c0) < Size(node) && Size(node.c1) < Size(node);
    }
    SplitKeepsTables(work, node, full);
    SplitKeepsPending(work, node);
    SplitShrinks(work, node);
  }

  lemma SplitKeepsTables(work: map<Node, string>, node: Node, full: map<char, string>)
    requires node in work && node.Internal?
    requires forall n :: n in work ==> DistinctLeaves(n) && IsSubMap(Codes(n, work[n]), full)
    ensures forall n :: n in Split(work, node) ==>
      DistinctLeaves(n) && IsSubMap(Codes(n, Split(work, node)[n]), full)
  {
    var p := work[node];
    var c0, c1 := node.c0, node.c1;
    var w := Split(work, node);
    var t0, t1 := Codes(c0, AddBit1(p)), Codes(c1, AddBit0(p));
    assert Codes(node, p) == t0 + t1;
    assert IsSubMap(t0, full) by {
      forall c | c in t0 ensures c in full && t0[c] == full[c] {
        assert c !in t1;
      }
    }
    assert IsSubMap(t1, full);
    forall n | n in w ensures DistinctLeaves(n) && IsSubMap(Codes(n, w[n]), full) {
      if n == c1 {
        assert w[n] == AddBit0(p);
      } else if n == c0 {
        assert w[n] == AddBit1(p);
      } else {
        assert n in work && w[n] == work[n];
      }
    }
  }

  lemma SplitKeepsPending(work: map<Node, string>, node: Node)
    requires node in work && node.Internal?
    requires node.c0 != node && node.c1 != node
    ensures PendingChars(Split(work, node)) == PendingChars(work)
  {
    var c0, c1 := node.c0, node.c1;
    var w := Split(work, node);
    forall c | c in PendingChars(work) ensures c in PendingChars(w) {
      var n :| n in work && c in LeafChars(n);
      if n == node {
        if c in LeafChars(c0) {
          assert c0 in w && c in LeafChars(c0);
        } else {
          assert c1 in w && c in LeafChars(c1);
        }
      } else {
        assert n in w;
      }
    }
    forall c | c in PendingChars(w) ensures c in PendingChars(work) {
      var n :| n in w && c in LeafChars(n);
      if n == c0 || n == c1 {
        assert node in work && c in LeafChars(node);
      } else {
        assert n in work;
      }
    }
  }

  lemma SplitShrinks(work: map<Node, string>, node: Node)
    requires node in work && node.Internal?
    requires node.c0 != node && node.c1 != node
    ensures PendingSize(Split(work, node)) < PendingSize(work)
  {
    var p := work[node];
    var c0, c1 := node.c0, node.c1;
    var w1 := work[c0 := AddBit1(p)];
    var w2 := w1[c1 := AddBit0(p)];
    assert w2 - {node} == Split(work, node);
    PendingSizeUpdate(work, c0, AddBit1(p));
    PendingSizeUpdate(w1, c1, AddBit0(p));
    PendingSizeRemove(w2, node);
  }

  lemma PendingSizeUpdate(work: map<Node, string>, n: Node, path: string)
    ensures PendingSize(work[n := path]) <= PendingSize(work) + Size(n)
  {
    SizesUpdate(work, n, path);
    MapSumUpdate(Sizes(work), n, Size(n));
  }

  lemma SizesUpdate(work: map<Node, string>, n: Node, path: string)
    ensures Sizes(work[n := path]) == Sizes(work)[n := Size(n)]
  {
    var t, u := Sizes(work[n := path]), Sizes(work)[n := Size(n)];
    assert t.Keys == u.Keys;
    forall m | m in t ensures t[m] == u[m] {
    }
  }

  lemma PendingSizeRemove(work: map<Node, string>, n: Node)
    requires n in work
    ensures PendingSize(work - {n}) == PendingSize(work) - Size(n)
  {
    SizesRemove(work, n);
    MapSumRemove(Sizes(work), n);
  }

  lemma SizesRemove(work: map<Node, string>, n: Node)
    ensures Sizes(work - {n}) == Sizes(work) - {n}
  {
    var t, u := Sizes(work - {n}), Sizes(work) - {n};
    assert t.Keys == u.Keys;
    forall m | m in t ensures t[m] == u[m] {
    }
  }
}
