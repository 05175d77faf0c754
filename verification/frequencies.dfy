/**
  The frequency table of the compressor: an ordered map from `char` to the
  number of times it occurs, iterated in ascending `char` order.
 */
module Frequencies {
  import opened Nodes

  type FreqTable = map<Char, int>

  /** The least `char`, where the ascending iteration starts. */
  const CharMin: int := -128

  /** `m[c]`, with a missing key reading as 0 (what `operator[]` inserts). */
  function Get(m: FreqTable, c: Char): int {
    if c in m then m[c] else 0
  }

  /** `freqMap[ch]++` */
  function Bump(m: FreqTable, c: Char): (m': FreqTable)
    ensures m'.Keys == m.Keys + {c}
    ensures Get(m', c) == Get(m, c) + 1
    ensures forall d :: d != c ==> Get(m', d) == Get(m, d)
  {
    m[c := Get(m, c) + 1]
  }

  /** One increment per input character, in input order. */
  function Tally(s: seq<Char>): (m: FreqTable)
    ensures forall c :: c in m <==> c in s
    ensures forall c :: c in m ==> m[c] == multiset(s)[c]
    decreases |s|
  {
    if |s| == 0 then map[]
    else
      var init := s[..|s| - 1];
      assert s == init + [s[|s| - 1]];
      Bump(Tally(init), s[|s| - 1])
  }

  predicate Distinct(ks: seq<Char>) {
    forall i, j :: 0 <= i < j < |ks| ==> ks[i] != ks[j]
  }

  /** The keys of `m` that are at least `lo`, in ascending order. */
  function KeysFrom(m: FreqTable, lo: int): (ks: seq<Char>)
    requires -128 <= lo <= 128
    ensures |ks| <= 128 - lo
    ensures forall i :: 0 <= i < |ks| ==> lo <= ks[i]
    ensures forall i, j :: 0 <= i < j < |ks| ==> ks[i] < ks[j]
    ensures forall c :: c in ks <==> c in m && lo <= c
    decreases 128 - lo
  {
    if lo == 128 then []
    else if lo in m then [lo as Char] + KeysFrom(m, lo + 1)
    else KeysFrom(m, lo + 1)
  }

  /** The iteration order of the ordered map: every key once, ascending. */
  function Keys(m: FreqTable): (ks: seq<Char>)
    ensures forall i, j :: 0 <= i < j < |ks| ==> ks[i] < ks[j]
    ensures Distinct(ks)
    ensures forall c :: c in ks <==> c in m
    ensures |ks| <= 256
  {
    KeysFrom(m, CharMin)
  }

  /** The keys of `m` that are at least `lo`. */
  function KeysAbove(m: FreqTable, lo: int): set<Char> {
    set c | c in m && lo <= c
  }

  lemma KeysAboveStep(m: FreqTable, lo: int)
    requires -128 <= lo < 128
    ensures KeysAbove(m, lo) == (if lo in m then {lo as Char} else {}) + KeysAbove(m, lo + 1)
  {
    var next := (if lo in m then {lo as Char} else {}) + KeysAbove(m, lo + 1);
    forall c | c in KeysAbove(m, lo)
      ensures c in next
    {
      if c != lo {
        assert c in KeysAbove(m, lo + 1);
      }
    }
  }

  lemma {:induction false} KeysFromCount(m: FreqTable, lo: int)
    requires -128 <= lo <= 128
    ensures |KeysFrom(m, lo)| == |KeysAbove(m, lo)|
    decreases 128 - lo
  {
    if lo < 128 {
      KeysFromCount(m, lo + 1);
      KeysAboveStep(m, lo);
      assert lo !in KeysAbove(m, lo + 1);
    } else {
      assert KeysAbove(m, lo) == {};
    }
  }

  /** The map holds as many entries as its iteration visits. */
  lemma KeysCount(m: FreqTable)
    ensures |Keys(m)| == |m|
  {
    KeysFromCount(m, CharMin);
    assert KeysAbove(m, CharMin) == m.Keys;
  }

  /** The sum over the keys `ks` of `m[k] * w(k)`. */
  function WeightedSum(m: FreqTable, ks: seq<Char>, w: Char -> int): int
    decreases |ks|
  {
    if |ks| == 0 then 0 else Get(m, ks[0]) * w(ks[0]) + WeightedSum(m, ks[1..], w)
  }

  /** The sum over the positions of `s` of `w(s[i])`. */
  function SumOfWeights(s: seq<Char>, w: Char -> int): int
    decreases |s|
  {
    if |s| == 0 then 0 else SumOfWeights(s[..|s| - 1], w) + w(s[|s| - 1])
  }

  function Unit(c: Char): int {
    1
  }

  /** The sum of all counts of the table. */
  function Total(m: FreqTable): int {
    WeightedSum(m, Keys(m), Unit)
  }

  lemma {:induction false} WeightedSumBump(m: FreqTable, ks: seq<Char>, w: Char -> int, c: Char)
    requires Distinct(ks)
    ensures WeightedSum(Bump(m, c), ks, w) == WeightedSum(m, ks, w) + (if c in ks then w(c) else 0)
    decreases |ks|
  {
    if |ks| > 0 {
      assert Distinct(ks[1..]);
      WeightedSumBump(m, ks[1..], w, c);
      if ks[0] == c {
        assert c !in ks[1..];
        assert Get(Bump(m, c), c) * w(c) == Get(m, c) * w(c) + w(c);
      } else {
        assert c in ks <==> c in ks[1..];
      }
    }
  }

  /**
    Summing a weight over the counted table is summing it over the input:
    every input character was counted exactly once.
   */
  lemma {:induction false} TallyWeighted(s: seq<Char>, ks: seq<Char>, w: Char -> int)
    requires Distinct(ks)
    requires forall c :: c in s ==> c in ks
    ensures WeightedSum(Tally(s), ks, w) == SumOfWeights(s, w)
    decreases |s|
  {
    if |s| == 0 {
      ZeroTable(ks, w);
    } else {
      var init := s[..|s| - 1];
      assert forall c :: c in init ==> c in s;
      TallyWeighted(init, ks, w);
      WeightedSumBump(Tally(init), ks, w, s[|s| - 1]);
    }
  }

  lemma {:induction false} ZeroTable(ks: seq<Char>, w: Char -> int)
    ensures WeightedSum(map[], ks, w) == 0
    decreases |ks|
  {
    if |ks| > 0 {
      ZeroTable(ks[1..], w);
    }
  }

  lemma {:induction false} SumOfUnits(s: seq<Char>)
    ensures SumOfWeights(s, Unit) == |s|
    decreases |s|
  {
    if |s| > 0 {
      SumOfUnits(s[..|s| - 1]);
    }
  }

  /** The counts add up to the input length. */
  lemma TallyTotal(s: seq<Char>)
    ensures Total(Tally(s)) == |s|
  {
    TallyWeighted(s, Keys(Tally(s)), Unit);
    SumOfUnits(s);
  }

  /** Empty input gives an empty table; any other input a nonempty one. */
  lemma TallyEmpty(s: seq<Char>)
    ensures |Tally(s)| == 0 <==> |s| == 0
  {
    if |s| > 0 {
      assert s[0] in Tally(s);
    }
  }
}
