/**
  Code generation: each leaf's character is bound to its root-to-leaf path,
  a left edge written as `false` (the source's '0') and a right edge as
  `true` ('1'), and the encoding of a character stream under those codes.
 */
module Codes {
  import opened Wrappers
  import opened Nodes
  import opened Frequencies

  type Code = seq<bool>
  type CodeTable = map<Char, Code>

  /**
    `generateCodes(node, str)`: a leaf binds its path, then both subtrees are
    visited, left before right; a later binding for the same character
    overwrites an earlier one.
   */
  function CodesFrom(n: Node, prefix: Code): (t: CodeTable)
    ensures AllExtend(prefix, t)
    decreases n
  {
    var own := if IsLeaf(n) then map[n.ch := prefix] else map[];
    var leftCodes := if n.left.Some? then CodesFrom(n.left.value, prefix + [false]) else map[];
    var rightCodes := if n.right.Some? then CodesFrom(n.right.value, prefix + [true]) else map[];
    ExtendedPrefix(prefix, false, leftCodes);
    ExtendedPrefix(prefix, true, rightCodes);
    UnionKeepsPrefix(prefix, own, leftCodes, rightCodes);
    own + leftCodes + rightCodes
  }

  /** A code table all of whose codes start with `prefix`. */
  predicate AllExtend(prefix: Code, t: CodeTable) {
    forall c :: c in t ==> prefix <= t[c]
  }

  lemma UnionKeepsPrefix(prefix: Code, a: CodeTable, b: CodeTable, c: CodeTable)
    requires AllExtend(prefix, a) && AllExtend(prefix, b) && AllExtend(prefix, c)
    ensures AllExtend(prefix, a + b + c)
  {
  }

  lemma ExtendedPrefix(prefix: Code, bit: bool, t: CodeTable)
    requires AllExtend(prefix + [bit], t)
    ensures AllExtend(prefix, t)
  {
    forall c | c in t
      ensures prefix <= t[c]
    {
      assert t[c][..|prefix|] == (prefix + [bit])[..|prefix|];
    }
  }

  /** Exactly the characters of the leaves get a code. */
  lemma {:induction false} CodesFromKeys(n: Node, prefix: Code)
    ensures CodesFrom(n, prefix).Keys == LeafChars(n)
    decreases n
  {
    if n.left.Some? {
      CodesFromKeys(n.left.value, prefix + [false]);
    }
    if n.right.Some? {
      CodesFromKeys(n.right.value, prefix + [true]);
    }
  }

  /** The code table of a tree, generated from the root with the empty path. */
  function GenerateCodes(root: Node): (codes: CodeTable)
    ensures codes.Keys == LeafChars(root)
  {
    CodesFromKeys(root, []);
    CodesFrom(root, [])
  }

  /** Each code extends the prefix by a path from `n` to a leaf of its own character. */
  lemma {:induction false} CodesFromPaths(n: Node, prefix: Code, c: Char)
    requires c in CodesFrom(n, prefix)
    ensures prefix <= CodesFrom(n, prefix)[c]
    ensures Follow(n, CodesFrom(n, prefix)[c][|prefix|..]).Some?
    ensures IsLeaf(Follow(n, CodesFrom(n, prefix)[c][|prefix|..]).value)
    ensures Follow(n, CodesFrom(n, prefix)[c][|prefix|..]).value.ch == c
    decreases n
  {
    var code := CodesFrom(n, prefix)[c];
    var path := code[|prefix|..];
    var rightCodes := if n.right.Some? then CodesFrom(n.right.value, prefix + [true]) else map[];
    var leftCodes := if n.left.Some? then CodesFrom(n.left.value, prefix + [false]) else map[];
    if c in rightCodes {
      var r := n.right.value;
      CodesFromPaths(r, prefix + [true], c);
      assert code == rightCodes[c];
      assert code[|prefix|] == true;
      assert path[1..] == code[|prefix| + 1..];
    } else if c in leftCodes {
      var l := n.left.value;
      CodesFromPaths(l, prefix + [false], c);
      assert code == leftCodes[c];
      assert code[|prefix|] == false;
      assert path[1..] == code[|prefix| + 1..];
    } else {
      assert IsLeaf(n) && n.ch == c && code == prefix;
      assert path == [];
    }
  }

  /** The code of `c` leads from the root to a leaf holding `c`. */
  lemma CodeReachesLeaf(root: Node, c: Char)
    requires c in GenerateCodes(root)
    ensures Follow(root, GenerateCodes(root)[c]).Some?
    ensures IsLeaf(Follow(root, GenerateCodes(root)[c]).value)
    ensures Follow(root, GenerateCodes(root)[c]).value.ch == c
  {
    CodesFromPaths(root, [], c);
    assert GenerateCodes(root)[c][0..] == GenerateCodes(root)[c];
  }

  /** No code is a prefix of a different character's code. */
  ghost predicate PrefixFree(codes: CodeTable) {
    forall c, d :: c in codes && d in codes && c != d ==> !(codes[c] <= codes[d])
  }

  lemma GeneratedCodesArePrefixFree(root: Node)
    ensures PrefixFree(GenerateCodes(root))
  {
    var codes := GenerateCodes(root);
    forall c, d | c in codes && d in codes && c != d
      ensures !(codes[c] <= codes[d])
    {
      CodeReachesLeaf(root, c);
      CodeReachesLeaf(root, d);
      if codes[c] <= codes[d] {
        var rest := codes[d][|codes[c]|..];
        assert codes[d] == codes[c] + rest;
        FollowAppend(root, codes[c], rest);
        if |rest| > 0 {
          FollowFromLeaf(Follow(root, codes[c]).value, rest);
        }
        assert false;
      }
    }
  }

  /** Below a root that is not a leaf every code has at least one bit. */
  lemma GeneratedCodesNonEmpty(root: Node)
    requires !IsLeaf(root)
    ensures forall c :: c in GenerateCodes(root) ==> |GenerateCodes(root)[c]| > 0
  {
    forall c | c in GenerateCodes(root)
      ensures |GenerateCodes(root)[c]| > 0
    {
      CodeReachesLeaf(root, c);
    }
  }

  /** The single-symbol tree gives its character the one-bit code "0". */
  lemma SingleSymbolCode(c: Char, f: int)
    ensures GenerateCodes(Node(NUL, f, Some(MakeLeaf(c, f)), None)) == map[c := [false]]
  {
    var leaf := MakeLeaf(c, f);
    assert [] + [false] == [false];
    assert CodesFrom(leaf, [false]) == map[c := [false]];
  }

  /** `huffmanCodes[ch]`: a character without a code reads as the empty code. */
  function CodeOf(codes: CodeTable, c: Char): Code {
    if c in codes then codes[c] else []
  }

  /** The bit stream of `s`: the codes of its characters, one after another. */
  function Encode(s: seq<Char>, codes: CodeTable): (bits: Code)
    ensures (forall c :: c in s ==> |CodeOf(codes, c)| > 0) ==> |bits| >= |s|
    decreases |s|
  {
    if |s| == 0 then [] else CodeOf(codes, s[0]) + Encode(s[1..], codes)
  }

  lemma {:induction false} EncodeAppend(s: seq<Char>, c: Char, codes: CodeTable)
    ensures Encode(s + [c], codes) == Encode(s, codes) + CodeOf(codes, c)
    decreases |s|
  {
    if |s| == 0 {
      assert [c][1..] == [];
    } else {
      assert (s + [c])[1..] == s[1..] + [c];
      EncodeAppend(s[1..], c, codes);
    }
  }

  /** The length of each character's code, as a weight. */
  function CodeLengths(codes: CodeTable): Char -> int {
    (c: Char) => |CodeOf(codes, c)|
  }

  /** The stream is as long as the code lengths of the input added up. */
  lemma {:induction false} EncodeLength(s: seq<Char>, codes: CodeTable)
    ensures |Encode(s, codes)| == SumOfWeights(s, CodeLengths(codes))
    decreases |s|
  {
    if |s| > 0 {
      var init := s[..|s| - 1];
      assert s == init + [s[|s| - 1]];
      EncodeAppend(init, s[|s| - 1], codes);
      EncodeLength(init, codes);
    }
  }
}
