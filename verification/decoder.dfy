/**
  The decoding walk of `decompress`: starting at the root, each bit moves to
  the right child (1) or the left child (0); arriving at a leaf emits its
  character and returns to the root. The walk stops once the root's count of
  characters has been emitted, so that padding bits are never walked.
 */
module Decoder {
  import opened Wrappers
  import opened Nodes
  import opened Codes
  import opened Bits

  /** `c` in front of a successful output; a failure passes through. */
  function Prepend(c: Char, r: Result<seq<Char>>): (r': Result<seq<Char>>)
    ensures r'.Success? <==> r.Success?
    ensures r'.Success? ==> r'.value == [c] + r.value
  {
    if r.Success? then Success([c] + r.value) else r
  }

  /**
    The walk from `curr` over `bits` while `remaining` characters are still
    owed. An edge that does not exist is reported as a corrupt payload, and
    bits that run out while characters are owed as a truncated one.
   */
  function Walk(root: Node, curr: Node, bits: seq<bool>, remaining: nat): (r: Result<seq<Char>>)
    ensures r.Success? ==> |r.value| == remaining
    ensures r.Success? ==> remaining <= |bits|
    decreases |bits|
  {
    if remaining == 0 then Success([])
    else if |bits| == 0 then Failure(TruncatedPayload)
    else
      var next := Child(curr, bits[0]);
      if next.None? then Failure(CorruptPayload)
      else if IsLeaf(next.value) then Prepend(next.value.ch, Walk(root, root, bits[1..], remaining - 1))
      else Walk(root, next.value, bits[1..], remaining)
  }

  /** The characters the walk owes: the root's count, read as at least zero. */
  function Owed(root: Node): nat {
    if root.freq > 0 then root.freq else 0
  }

  /** Step 3 of `decompress`: the payload's bits walked from the root. */
  function DecodePayload(root: Node, payload: seq<bv8>): (r: Result<seq<Char>>)
    ensures r.Success? ==> |r.value| == Owed(root)
  {
    Walk(root, root, BytesToBits(payload), Owed(root))
  }

  /**
    Walking a path from `curr` to a leaf emits that leaf's character and
    continues from the root with the bits after the path.
   */
  lemma {:induction false} WalkThroughPath(root: Node, curr: Node, path: seq<bool>, rest: seq<bool>, remaining: nat)
    requires |path| > 0 && remaining > 0
    requires Follow(curr, path).Some? && IsLeaf(Follow(curr, path).value)
    ensures Walk(root, curr, path + rest, remaining)
         == Prepend(Follow(curr, path).value.ch, Walk(root, root, rest, remaining - 1))
    decreases |path|
  {
    var bits := path + rest;
    assert bits[0] == path[0];
    assert bits[1..] == path[1..] + rest;
    var next := Child(curr, path[0]).value;
    if |path| == 1 {
      assert path[1..] == [];
      assert bits[1..] == rest;
    } else {
      assert Follow(curr, path) == Follow(next, path[1..]);
      if IsLeaf(next) {
        FollowFromLeaf(next, path[1..]);
        assert false;
      }
      WalkThroughPath(root, next, path[1..], rest, remaining);
    }
  }

  /** `s` in front of a successful output; a failure passes through. */
  function PrependAll(s: seq<Char>, r: Result<seq<Char>>): (r': Result<seq<Char>>)
    ensures r'.Success? <==> r.Success?
    ensures r'.Success? ==> r'.value == s + r.value
  {
    if r.Success? then Success(s + r.value) else r
  }

  /**
    The bits of `s` under the tree's own codes walk back to `s`, and the walk
    then goes on from the root over whatever follows them.
   */
  lemma {:induction false} WalkEncodedThen(root: Node, s: seq<Char>, extra: seq<bool>, more: nat)
    requires !IsLeaf(root)
    requires forall c :: c in s ==> c in LeafChars(root)
    ensures Walk(root, root, Encode(s, GenerateCodes(root)) + extra, |s| + more)
         == PrependAll(s, Walk(root, root, extra, more))
    decreases |s|
  {
    var codes := GenerateCodes(root);
    if |s| == 0 {
      assert Encode(s, codes) + extra == extra;
      var w := Walk(root, root, extra, more);
      if w.Success? {
        assert s + w.value == w.value;
      }
    } else {
      var code := codes[s[0]];
      var tail := Encode(s[1..], codes) + extra;
      assert Encode(s, codes) + extra == code + tail;
      CodeReachesLeaf(root, s[0]);
      GeneratedCodesNonEmpty(root);
      WalkThroughPath(root, root, code, tail, |s| + more);
      assert forall c :: c in s[1..] ==> c in s;
      WalkEncodedThen(root, s[1..], extra, more);
      var w := Walk(root, root, extra, more);
      assert Prepend(s[0], PrependAll(s[1..], w)) == PrependAll(s, w) by {
        if w.Success? {
          assert [s[0]] + (s[1..] + w.value) == s + w.value;
        }
      }
    }
  }

  /** The bits of `s`, followed by anything, walk back to exactly `s`. */
  lemma WalkEncoded(root: Node, s: seq<Char>, extra: seq<bool>)
    requires !IsLeaf(root)
    requires forall c :: c in s ==> c in LeafChars(root)
    ensures Walk(root, root, Encode(s, GenerateCodes(root)) + extra, |s|) == Success(s)
  {
    WalkEncodedThen(root, s, extra, 0);
    assert s + [] == s;
  }

  /**
    The bits of `s` alone, when more characters than `|s|` are owed, are
    reported as truncated instead of yielding a shorter output.
   */
  lemma WalkTruncated(root: Node, s: seq<Char>, more: nat)
    requires !IsLeaf(root)
    requires forall c :: c in s ==> c in LeafChars(root)
    requires more > 0
    ensures Walk(root, root, Encode(s, GenerateCodes(root)), |s| + more) == Failure(TruncatedPayload)
  {
    var bits := Encode(s, GenerateCodes(root));
    WalkEncodedThen(root, s, [], more);
    assert bits + [] == bits;
  }

  /**
    A walk over a proper prefix of a path to a leaf runs out of bits before
    it reaches the leaf.
   */
  lemma {:induction false} WalkPathPrefix(root: Node, curr: Node, path: seq<bool>, k: nat, remaining: nat)
    requires k < |path| && remaining > 0
    requires Follow(curr, path).Some? && IsLeaf(Follow(curr, path).value)
    ensures Walk(root, curr, path[..k], remaining) == Failure(TruncatedPayload)
    decreases k
  {
    if k > 0 {
      var next := Child(curr, path[0]).value;
      assert Follow(curr, path) == Follow(next, path[1..]);
      if IsLeaf(next) {
        FollowFromLeaf(next, path[1..]);
        assert false;
      }
      assert path[..k][0] == path[0];
      assert path[..k][1..] == path[1..][..k - 1];
      WalkPathPrefix(root, next, path[1..], k - 1, remaining);
    }
  }

  /**
    The bits of `s` cut anywhere before their end, even inside a code, are
    reported as truncated when `s` is owed.
   */
  lemma {:induction false} WalkCutEncoded(root: Node, s: seq<Char>, k: nat)
    requires !IsLeaf(root)
    requires forall c :: c in s ==> c in LeafChars(root)
    requires k < |Encode(s, GenerateCodes(root))|
    ensures Walk(root, root, Encode(s, GenerateCodes(root))[..k], |s|) == Failure(TruncatedPayload)
    decreases |s|
  {
    var codes := GenerateCodes(root);
    var bits := Encode(s, codes);
    var code := codes[s[0]];
    var tail := Encode(s[1..], codes);
    assert bits == code + tail;
    CodeReachesLeaf(root, s[0]);
    GeneratedCodesNonEmpty(root);
    if k < |code| {
      assert bits[..k] == code[..k];
      WalkPathPrefix(root, root, code, k, |s|);
    } else {
      assert bits[..k] == code + tail[..k - |code|];
      WalkThroughPath(root, root, code, tail[..k - |code|], |s|);
      assert forall c :: c in s[1..] ==> c in s;
      WalkCutEncoded(root, s[1..], k - |code|);
    }
  }
}
