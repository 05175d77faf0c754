/**
  Greedy Huffman tree construction over a priority queue ordered by
  `Compare`. Nodes that tie under `Compare` are not ordered by it, so the
  queue may hand out any of them: every extraction takes a hint, used when
  it names a queue position holding a top node, and otherwise the first top
  node is taken. Each possible extraction order is thus one hint sequence,
  and every property below holds for all of them.
 */
module TreeBuilder {
  import opened Wrappers
  import opened Nodes
  import opened Frequencies

  /** The initial queue: one leaf per key of `ks`, pushed in that order. */
  function LeafQueue(m: FreqTable, ks: seq<Char>): (q: seq<Node>)
    requires forall k :: k in ks ==> k in m
    ensures |q| == |ks|
    ensures forall k :: 0 <= k < |ks| ==> q[k] == MakeLeaf(ks[k], m[ks[k]])
    decreases |ks|
  {
    if |ks| == 0 then [] else [MakeLeaf(ks[0], m[ks[0]])] + LeafQueue(m, ks[1..])
  }

  /** The queue after popping position `i`. */
  function Remove(q: seq<Node>, i: nat): (r: seq<Node>)
    requires i < |q|
    ensures |r| == |q| - 1
    ensures multiset(r) + multiset{q[i]} == multiset(q)
  {
    assert q == q[..i] + [q[i]] + q[i + 1..];
    q[..i] + q[i + 1..]
  }

  /** Every node left after a pop was in the queue before it. */
  lemma RemoveKeeps<T>(q: seq<T>, i: nat, r: seq<T>, p: T -> bool)
    requires i < |q| && r == q[..i] + q[i + 1..]
    requires forall k :: 0 <= k < |q| ==> p(q[k])
    ensures forall k :: 0 <= k < |r| ==> p(r[k])
  {
    forall k | 0 <= k < |r|
      ensures p(r[k])
    {
      if k < i {
        assert r[k] == q[k];
      } else {
        assert r[k] == q[k + 1];
      }
    }
  }

  /*
    The queue summaries below fold a per-tree summary over the queue; they
    are written generically so that their algebra is proved once, without
    unfolding the trees.
   */

  function SumBag<T>(q: seq<T>, f: T -> multiset<(Char, int)>): multiset<(Char, int)>
    decreases |q|
  {
    if |q| == 0 then multiset{} else f(q[0]) + SumBag(q[1..], f)
  }

  function SumSet<T>(q: seq<T>, f: T -> set<Char>): set<Char>
    decreases |q|
  {
    if |q| == 0 then {} else f(q[0]) + SumSet(q[1..], f)
  }

  function SumInt<T>(q: seq<T>, f: T -> int): int
    decreases |q|
  {
    if |q| == 0 then 0 else f(q[0]) + SumInt(q[1..], f)
  }

  lemma {:induction false} SumAppend<T>(a: seq<T>, b: seq<T>, fb: T -> multiset<(Char, int)>, fs: T -> set<Char>, fi: T -> int)
    ensures SumBag(a + b, fb) == SumBag(a, fb) + SumBag(b, fb)
    ensures SumSet(a + b, fs) == SumSet(a, fs) + SumSet(b, fs)
    ensures SumInt(a + b, fi) == SumInt(a, fi) + SumInt(b, fi)
    decreases |a|
  {
    if |a| == 0 {
      assert a + b == b;
    } else {
      assert (a + b)[1..] == a[1..] + b;
      SumAppend(a[1..], b, fb, fs, fi);
    }
  }

  lemma SumRemove<T>(q: seq<T>, i: nat, fb: T -> multiset<(Char, int)>, fs: T -> set<Char>, fi: T -> int)
    requires i < |q|
    ensures SumBag(q, fb) == SumBag(q[..i] + q[i + 1..], fb) + fb(q[i])
    ensures SumSet(q, fs) == SumSet(q[..i] + q[i + 1..], fs) + fs(q[i])
    ensures SumInt(q, fi) == SumInt(q[..i] + q[i + 1..], fi) + fi(q[i])
  {
    var front, tail, rest := q[..i], q[i..], q[i + 1..];
    assert q == front + tail;
    assert tail[0] == q[i] && tail[1..] == rest;
    SumAppend(front, tail, fb, fs, fi);
    SumAppend(front, rest, fb, fs, fi);
  }

  function Freq(n: Node): int {
    n.freq
  }

  /** The leaves held by the queue's trees, with multiplicity. */
  function QueueBag(q: seq<Node>): multiset<(Char, int)> {
    SumBag(q, LeafBag)
  }

  function QueueChars(q: seq<Node>): set<Char> {
    SumSet(q, LeafChars)
  }

  function QueueFreq(q: seq<Node>): int {
    SumInt(q, Freq)
  }

  /** Popping position `i` takes exactly the tree at `i` out of the queue. */
  lemma QueueRemove(q: seq<Node>, i: nat)
    requires i < |q|
    ensures QueueBag(q) == QueueBag(Remove(q, i)) + LeafBag(q[i])
    ensures QueueChars(q) == QueueChars(Remove(q, i)) + LeafChars(q[i])
    ensures QueueFreq(q) == QueueFreq(Remove(q, i)) + q[i].freq
  {
    SumRemove(q, i, LeafBag, LeafChars, Freq);
  }

  lemma QueueAppend(a: seq<Node>, b: seq<Node>)
    ensures QueueBag(a + b) == QueueBag(a) + QueueBag(b)
    ensures QueueChars(a + b) == QueueChars(a) + QueueChars(b)
    ensures QueueFreq(a + b) == QueueFreq(a) + QueueFreq(b)
  {
    SumAppend(a, b, LeafBag, LeafChars, Freq);
  }

  lemma QueueSingle(x: Node)
    ensures QueueBag([x]) == LeafBag(x)
    ensures QueueChars([x]) == LeafChars(x)
    ensures QueueFreq([x]) == x.freq
  {
    assert [x][1..] == [];
    assert SumBag([x][1..], LeafBag) == multiset{};
    assert SumSet([x][1..], LeafChars) == {};
    assert SumInt([x][1..], Freq) == 0;
  }

  /** Position `i` holds a node that no node of the queue beats: a legal top. */
  predicate IsTopAt(q: seq<Node>, i: int) {
    0 <= i < |q| && forall j :: 0 <= j < |q| ==> !Compare(q[i], q[j])
  }

  /** A top node among the first `n` positions, the earliest on ties. */
  function BestOf(q: seq<Node>, n: nat): (i: nat)
    requires 0 < n <= |q|
    ensures i < n
    ensures forall j :: 0 <= j < n ==> !Compare(q[i], q[j])
    decreases n
  {
    if n == 1 then 0
    else
      var b := BestOf(q, n - 1);
      if Compare(q[b], q[n - 1]) then n - 1 else b
  }

  /** `pq.top()`: a node of least `(freq, ch)`; any such node may be chosen. */
  function PickTop(q: seq<Node>, hint: nat): (i: nat)
    requires |q| > 0
    ensures IsTopAt(q, i)
    ensures forall j :: 0 <= j < |q| ==> KeyLess(q[i], q[j]) || (q[i].freq == q[j].freq && q[i].ch == q[j].ch)
    ensures IsTopAt(q, hint) ==> i == hint
  {
    if hint < |q| && IsTopAt(q, hint) then hint else BestOf(q, |q|)
  }

  function Hint(hints: seq<nat>, k: nat): nat {
    if k < |hints| then hints[k] else 0
  }

  /** The parent of two popped nodes; internal nodes carry character 0. */
  function Parent(left: Node, right: Node): (p: Node)
    ensures !IsLeaf(p)
    ensures LeafBag(p) == LeafBag(left) + LeafBag(right)
    ensures LeafChars(p) == LeafChars(left) + LeafChars(right)
    ensures Full(left) && Full(right) ==> Full(p)
  {
    Node(NUL, left.freq + right.freq, Some(left), Some(right))
  }

  /** One round of the merge loop: pop the tops at `i` and then `j`, push their parent. */
  function MergeStep(q: seq<Node>, i: nat, j: nat): (q': seq<Node>)
    requires i < |q| && j < |q| - 1
    ensures |q'| == |q| - 1
    ensures multiset(q') + multiset{q[i], Remove(q, i)[j]} == multiset(q) + multiset{Parent(q[i], Remove(q, i)[j])}
  {
    var q1 := Remove(q, i);
    Remove(q1, j) + [Parent(q[i], q1[j])]
  }

  lemma MergeStepFull(q: seq<Node>, i: nat, j: nat)
    requires i < |q| && j < |q| - 1
    requires forall k :: 0 <= k < |q| ==> Full(q[k])
    ensures |MergeStep(q, i, j)| == |q| - 1
    ensures forall k :: 0 <= k < |q| - 1 ==> Full(MergeStep(q, i, j)[k])
    ensures MergeStep(q, i, j)[|q| - 2] == Parent(q[i], Remove(q, i)[j])
  {
    var q1 := Remove(q, i);
    RemoveKeeps(q, i, q1, Full);
    RemoveKeeps(q1, j, Remove(q1, j), Full);
  }

  lemma MergeStepSums(q: seq<Node>, i: nat, j: nat)
    requires i < |q| && j < |q| - 1
    ensures QueueBag(MergeStep(q, i, j)) == QueueBag(q)
    ensures QueueChars(MergeStep(q, i, j)) == QueueChars(q)
    ensures QueueFreq(MergeStep(q, i, j)) == QueueFreq(q)
  {
    var q1 := Remove(q, i);
    var q2 := Remove(q1, j);
    var parent := Parent(q[i], q1[j]);
    QueueRemove(q, i);
    QueueRemove(q1, j);
    QueueAppend(q2, [parent]);
    QueueSingle(parent);
  }

  /**
    The merge loop: while more than one node is queued, pop two tops and push
    their parent, whose frequency is the sum of theirs.
   */
  function Combine(q: seq<Node>, hints: seq<nat>): (root: Node)
    requires |q| > 0
    requires forall k :: 0 <= k < |q| ==> Full(q[k])
    ensures Full(root)
    ensures LeafBag(root) == QueueBag(q)
    ensures LeafChars(root) == QueueChars(q)
    ensures root.freq == QueueFreq(q)
    ensures |q| > 1 ==> root.left.Some? && root.right.Some?
    decreases |q|
  {
    if |q| == 1 then
      QueueSingle(q[0]);
      assert q == [q[0]];
      q[0]
    else
      var i := PickTop(q, Hint(hints, 0));
      var j := PickTop(Remove(q, i), Hint(hints, 1));
      MergeStepFull(q, i, j);
      MergeStepSums(q, i, j);
      Combine(MergeStep(q, i, j), if |hints| >= 2 then hints[2..] else [])
  }

  lemma {:induction false} LeafQueueSummary(m: FreqTable, ks: seq<Char>)
    requires forall k :: k in ks ==> k in m
    requires Distinct(ks)
    ensures forall c, f :: QueueBag(LeafQueue(m, ks))[(c, f)] == (if c in ks && m[c] == f then 1 else 0)
    ensures forall c :: c in QueueChars(LeafQueue(m, ks)) <==> c in ks
    ensures QueueFreq(LeafQueue(m, ks)) == WeightedSum(m, ks, Unit)
    decreases |ks|
  {
    if |ks| > 0 {
      var rest := ks[1..];
      assert Distinct(rest);
      assert forall k :: k in rest ==> k in ks;
      LeafQueueSummary(m, rest);
      var q := LeafQueue(m, ks);
      assert q[1..] == LeafQueue(m, rest);
      assert ks[0] !in rest;
      assert forall c :: c in ks <==> c == ks[0] || c in rest;
    }
  }

  /** The seeded queue holds one full leaf per table entry. */
  lemma SeedQueue(m: FreqTable)
    ensures |LeafQueue(m, Keys(m))| == |m|
    ensures forall k :: 0 <= k < |m| ==> Full(LeafQueue(m, Keys(m))[k])
    ensures forall c, f :: QueueBag(LeafQueue(m, Keys(m)))[(c, f)] == (if c in m && m[c] == f then 1 else 0)
    ensures QueueChars(LeafQueue(m, Keys(m))) == m.Keys
    ensures QueueFreq(LeafQueue(m, Keys(m))) == Total(m)
  {
    SeedLeaves(m);
    SeedContents(m);
  }

  lemma SeedLeaves(m: FreqTable)
    ensures |LeafQueue(m, Keys(m))| == |m|
    ensures forall k :: 0 <= k < |m| ==> Full(LeafQueue(m, Keys(m))[k])
  {
    var ks := Keys(m);
    KeysCount(m);
    LeafQueueSummary(m, ks);
    var q := LeafQueue(m, ks);
    forall k | 0 <= k < |m|
      ensures Full(q[k])
    {
      assert IsLeaf(q[k]);
    }
  }

  lemma SeedContents(m: FreqTable)
    ensures forall c, f :: QueueBag(LeafQueue(m, Keys(m)))[(c, f)] == (if c in m && m[c] == f then 1 else 0)
    ensures QueueChars(LeafQueue(m, Keys(m))) == m.Keys
    ensures QueueFreq(LeafQueue(m, Keys(m))) == Total(m)
  {
    var ks := Keys(m);
    LeafQueueSummary(m, ks);
    assert forall c :: c in ks <==> c in m;
  }

  /** The single-symbol case: the lone leaf under a parent of its own. */
  lemma SeedSingle(m: FreqTable)
    requires |m| == 1
    ensures forall c :: c in m ==> LeafQueue(m, Keys(m))[0] == MakeLeaf(c, m[c])
    ensures forall c :: c in m ==> Total(m) == m[c]
  {
    var ks := Keys(m);
    KeysCount(m);
    LeafQueueSummary(m, ks);
    assert forall c :: c in m ==> c == ks[0] by {
      assert forall c :: c in m ==> c in ks;
    }
    assert ks[1..] == [];
    assert WeightedSum(m, ks[1..], Unit) == 0;
  }

  /**
    `buildTree`: seed the queue with the table's leaves in map order; a lone
    leaf gets a parent of its own (left child only) so that its code is one
    bit long; otherwise merge until one node is left.
   */
  function BuildTree(m: FreqTable, hints: seq<nat>): (root: Node)
    requires |m| > 0
    ensures !IsLeaf(root)
    ensures LeafChars(root) == m.Keys
    ensures root.freq == Total(m)
    ensures |m| == 1 ==> forall c :: c in m ==> root == Node(NUL, m[c], Some(MakeLeaf(c, m[c])), None)
    ensures |m| >= 2 ==> Full(root)
    ensures |m| >= 2 ==> forall c, f :: LeafBag(root)[(c, f)] == (if c in m && m[c] == f then 1 else 0)
  {
    SeedQueue(m);
    var q := LeafQueue(m, Keys(m));
    if |q| == 1 then
      SeedSingle(m);
      Node(NUL, q[0].freq, Some(q[0]), None)
    else
      Combine(q, hints)
  }
}
