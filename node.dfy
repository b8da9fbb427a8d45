/** Nodes of the Huffman binary tree (struct `Node` and its constructors). */
module HuffmanNode {

  /** Largest `i32`; node values and counts are `i32` in the program. */
  const I32Max: int := 0x7fff_ffff

  /** A leaf holds a character and its number of appearances; an internal node
      holds a value and exactly two children, child 0 and child 1. */
  datatype Node =
    | Leaf(ch: char, value: int)
    | Internal(value: int, c0: Node, c1: Node)

  /** The characters of the leaves below `n`. */
  function LeafChars(n: Node): (cs: set<char>)
    ensures cs != {}
  {
    match n
    case Leaf(c, _) => {c}
    case Internal(_, c0, c1) => LeafChars(c0) + LeafChars(c1)
  }

  /** The leaves below `n`. */
  function Leaves(n: Node): (ls: set<Node>)
    ensures forall l :: l in ls ==> l.Leaf?
  {
    match n
    case Leaf(_, _) => {n}
    case Internal(_, c0, c1) => Leaves(c0) + Leaves(c1)
  }

  /** The leaf characters are the characters of the leaves. */
  lemma {:induction false} LeafCharsOfLeaves(n: Node)
    ensures LeafChars(n) == set l | l in Leaves(n) :: l.ch
  {
    match n
    case Leaf(_, _) =>
    case Internal(_, c0, c1) =>
      LeafCharsOfLeaves(c0);
      LeafCharsOfLeaves(c1);
  }

  /** The sum of the values of the leaves below `n` (one per leaf position). */
  function LeafWeight(n: Node): (w: int)
  {
    match n
    case Leaf(_, v) => v
    case Internal(_, c0, c1) => LeafWeight(c0) + LeafWeight(c1)
  }

  /** Every internal node's value is the sum of its two children's values. */
  predicate WellFormed(n: Node)
  {
    match n
    case Leaf(_, _) => true
    case Internal(v, c0, c1) => v == c0.value + c1.value && WellFormed(c0) && WellFormed(c1)
  }

  /** No character labels two leaves of `n`. */
  predicate DistinctLeaves(n: Node)
  {
    match n
    case Leaf(_, _) => true
    case Internal(_, c0, c1) =>
      DistinctLeaves(c0) && DistinctLeaves(c1) && LeafChars(c0) !! LeafChars(c1)
  }

  /** `Node::new_leaf`: a leaf for `leafValue` appearing `value` times. */
  function NewLeaf(leafValue: char, value: int): (n: Node)
    ensures n.Leaf? && n.ch == leafValue && n.value == value
    ensures WellFormed(n) && DistinctLeaves(n) && LeafChars(n) == {leafValue}
  {
    Leaf(leafValue, value)
  }

  /** `Node::new_parent`: the program panics unless exactly two children are
      given; child 0 and child 1 keep their order. */
  function NewParent(value: int, children: seq<Node>): (n: Node)
    requires |children| == 2
    ensures n.Internal? && n.value == value
    ensures n.c0 == children[0] && n.c1 == children[1]
    ensures Leaves(n) == Leaves(children[0]) + Leaves(children[1])
    ensures WellFormed(n) <==>
      value == children[0].value + children[1].value && WellFormed(children[0]) && WellFormed(children[1])
  {
    Internal(value, children[0], children[1])
  }

  /** `Node::get_value`: for a well-formed node this is the total weight of
      its leaves. */
  function GetValue(n: Node): (v: int)
    ensures WellFormed(n) ==> v == LeafWeight(n)
  {
    LeafWeightOfWellFormed(n);
    n.value
  }

  lemma {:induction false} LeafWeightOfWellFormed(n: Node)
    ensures WellFormed(n) ==> n.value == LeafWeight(n)
  {
    match n
    case Leaf(_, _) =>
    case Internal(_, c0, c1) =>
      LeafWeightOfWellFormed(c0);
      LeafWeightOfWellFormed(c1);
  }
}
