/**
  The tree node of the compressor and the priority-queue ordering on nodes.
  A node is a leaf exactly when both of its children are absent; internal
  nodes carry the character 0, as the builder creates them.
 */
module Nodes {
  import opened Wrappers

  /** The platform's `char`: a signed 8-bit value. */
  type Char = c: int | -128 <= c < 128

  /** The character stored in every node the builder creates itself. */
  const NUL: Char := 0

  datatype Node = Node(ch: Char, freq: int, left: Option<Node>, right: Option<Node>)

  predicate IsLeaf(n: Node) {
    n.left.None? && n.right.None?
  }

  /** The node built from a character and a count only, as the queue is seeded. */
  function MakeLeaf(c: Char, f: int): (n: Node)
    ensures IsLeaf(n)
    ensures n.ch == c && n.freq == f
  {
    Node(c, f, None, None)
  }

  /**
    The queue's comparator: `Compare(l, r)` means `l` has lower priority than
    `r`, so the queue top is a node no other node beats.
   */
  predicate Compare(l: Node, r: Node)
    ensures Compare(l, r) <==> KeyLess(r, l)
  {
    if l.freq != r.freq then l.freq > r.freq else l.ch > r.ch
  }

  /** Lexicographic order on the `(freq, ch)` key of a node. */
  predicate KeyLess(a: Node, b: Node) {
    a.freq < b.freq || (a.freq == b.freq && a.ch < b.ch)
  }

  lemma CompareIsStrictOrder(x: Node, y: Node, z: Node)
    ensures !Compare(x, x)
    ensures Compare(x, y) ==> !Compare(y, x)
    ensures Compare(x, y) && Compare(y, z) ==> Compare(x, z)
  {
  }

  /** Two nodes neither of which beats the other have the same key. */
  lemma CompareTiesShareKey(x: Node, y: Node)
    ensures !Compare(x, y) && !Compare(y, x) <==> x.freq == y.freq && x.ch == y.ch
  {
  }

  /** The child a bit selects: 0 goes left, 1 goes right. */
  function Child(n: Node, bit: bool): Option<Node> {
    if bit then n.right else n.left
  }

  /** The node reached from `n` along `path`, if every edge on it exists. */
  function Follow(n: Node, path: seq<bool>): Option<Node>
    decreases |path|
  {
    if |path| == 0 then Some(n)
    else
      match Child(n, path[0])
      case None => None
      case Some(c) => Follow(c, path[1..])
  }

  /** Following a concatenated path is following its two halves in turn. */
  lemma {:induction false} FollowAppend(n: Node, p: seq<bool>, q: seq<bool>)
    requires Follow(n, p).Some?
    ensures Follow(n, p + q) == Follow(Follow(n, p).value, q)
    decreases |p|
  {
    if |p| == 0 {
      assert p + q == q;
    } else {
      assert (p + q)[0] == p[0];
      assert (p + q)[1..] == p[1..] + q;
      FollowAppend(Child(n, p[0]).value, p[1..], q);
    }
  }

  /** A leaf has no outgoing edge, so no nonempty path leaves it. */
  lemma FollowFromLeaf(n: Node, p: seq<bool>)
    requires IsLeaf(n) && |p| > 0
    ensures Follow(n, p).None?
  {
  }

  /** The characters of the leaves below `n`. */
  function LeafChars(n: Node): set<Char>
    decreases n
  {
    (if IsLeaf(n) then {n.ch} else {})
    + (if n.left.Some? then LeafChars(n.left.value) else {})
    + (if n.right.Some? then LeafChars(n.right.value) else {})
  }

  /** The `(ch, freq)` pairs of the leaves below `n`, with multiplicity. */
  function LeafBag(n: Node): multiset<(Char, int)>
    decreases n
  {
    (if IsLeaf(n) then multiset{(n.ch, n.freq)} else multiset{})
    + (if n.left.Some? then LeafBag(n.left.value) else multiset{})
    + (if n.right.Some? then LeafBag(n.right.value) else multiset{})
  }

  /**
    A full Huffman tree: every internal node has both children and carries
    the sum of their frequencies.
   */
  predicate Full(n: Node)
    decreases n
  {
    if IsLeaf(n) then true
    else
      match n.left
      case None => false
      case Some(l) =>
        match n.right
        case None => false
        case Some(r) => Full(l) && Full(r) && n.freq == l.freq + r.freq
  }
}
