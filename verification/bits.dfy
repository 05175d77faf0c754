/**
  Bit packing of the payload: bits enter an 8-bit buffer most significant
  first, every full buffer becomes one byte, and a final partial buffer is
  shifted left so that its bits lead and zero bits pad the low positions.
  The decoder reads a byte's bits as `(byte >> i) & 1` for `i` from 7 down
  to 0.
 */
module Bits {

  /** Bit `i` of a byte, as `(byte >> i) & 1` reads it. */
  function BitOf(b: bv8, i: nat): bool
    requires i < 8
  {
    (b >> i) & 1 == 1
  }

  /** The low `k` bits of `b`, most significant first. */
  function LowBits(b: bv8, k: nat): seq<bool>
    requires k <= 8
  {
    seq(k, j requires 0 <= j < k => BitOf(b, k - 1 - j))
  }

  /** The eight bits of a byte in the order the decoder visits them. */
  function ByteBits(b: bv8): seq<bool> {
    LowBits(b, 8)
  }

  /** The bit stream the decoder walks: each byte's bits, byte after byte. */
  function BytesToBits(bytes: seq<bv8>): (bits: seq<bool>)
    ensures |bits| == 8 * |bytes|
    decreases |bytes|
  {
    if |bytes| == 0 then [] else ByteBits(bytes[0]) + BytesToBits(bytes[1..])
  }

  /** The first `8 * n` bits read from bytes are the bits of their first `n` bytes. */
  lemma {:induction false} BytesToBitsPrefix(bytes: seq<bv8>, n: nat)
    requires n <= |bytes|
    ensures BytesToBits(bytes[..n]) == BytesToBits(bytes)[..8 * n]
    decreases n
  {
    if n > 0 {
      assert bytes[..n][1..] == bytes[1..][..n - 1];
      BytesToBitsPrefix(bytes[1..], n - 1);
      var head := ByteBits(bytes[0]);
      assert BytesToBits(bytes)[..8 * n] == head + BytesToBits(bytes[1..])[..8 * (n - 1)];
    }
  }

  /** Bit `j` of the stream is bit `7 - j % 8` of byte `j / 8`. */
  lemma {:induction false} BytesToBitsAt(bytes: seq<bv8>, j: nat)
    requires j < 8 * |bytes|
    ensures BytesToBits(bytes)[j] == BitOf(bytes[j / 8], 7 - j % 8)
    decreases |bytes|
  {
    if j >= 8 {
      BytesToBitsAt(bytes[1..], j - 8);
      assert (j - 8) / 8 == j / 8 - 1 && (j - 8) % 8 == j % 8;
    }
  }

  function Zeros(n: nat): seq<bool> {
    seq(n, _ => false)
  }

  /** The number of padding bits after a stream of `n` bits. */
  function PadLength(n: nat): nat {
    (8 - n % 8) % 8
  }

  /** `buffer = buffer << 1`, then `buffer = buffer | 1` for a '1' bit. */
  function Shift(buffer: bv8, bit: bool): (shifted: bv8)
    ensures BitOf(shifted, 0) == bit
  {
    (buffer << 1) | (if bit then 1 else 0)
  }

  lemma ShiftBits(b: bv8, x: bool, i: nat)
    requires i < 7
    ensures BitOf(Shift(b, x), 0) == x
    ensures BitOf(Shift(b, x), i + 1) == BitOf(b, i)
  {
  }

  lemma ShiftLeftBits(b: bv8, m: nat, i: nat)
    requires m <= 8 && i < 8
    ensures BitOf(b << m, i) == (i >= m && BitOf(b, i - m))
  {
  }

  /** Shifting a bit into the buffer appends it to the pending bits. */
  lemma ShiftAppends(b: bv8, x: bool, k: nat)
    requires k < 8
    ensures LowBits(Shift(b, x), k + 1) == LowBits(b, k) + [x]
  {
    forall j | 0 <= j < k
      ensures LowBits(Shift(b, x), k + 1)[j] == LowBits(b, k)[j]
    {
      ShiftBits(b, x, k - 1 - j);
    }
    ShiftBits(b, x, 0);
  }

  /** The final partial buffer, shifted left, holds its bits then zeros. */
  lemma PaddedByte(b: bv8, k: nat)
    requires 0 < k < 8
    ensures ByteBits(b << (8 - k)) == LowBits(b, k) + Zeros(8 - k)
  {
    var shifted := b << (8 - k);
    var lhs := ByteBits(shifted);
    var rhs := LowBits(b, k) + Zeros(8 - k);
    forall j | 0 <= j < 8
      ensures lhs[j] == rhs[j]
    {
      ShiftLeftBits(b, 8 - k, 7 - j);
      assert lhs[j] == BitOf(shifted, 7 - j);
      if j < k {
        assert rhs[j] == BitOf(b, k - 1 - j);
      } else {
        assert rhs[j] == false;
      }
    }
    assert lhs == rhs;
  }

  lemma PadLengthPeriodic(n: nat)
    ensures PadLength(n + 8) == PadLength(n)
  {
    assert (n + 8) % 8 == n % 8;
  }

  lemma BytesToBitsCons(b: bv8, rest: seq<bv8>)
    ensures BytesToBits([b] + rest) == ByteBits(b) + BytesToBits(rest)
  {
    assert ([b] + rest)[1..] == rest;
  }

  /** What `PackFrom` promises: its bytes spell the pending bits, the input, then padding. */
  predicate Spells(out: seq<bv8>, buffer: bv8, count: nat, bits: seq<bool>)
    requires count <= 8
  {
    BytesToBits(out) == LowBits(buffer, count) + bits + Zeros(PadLength(count + |bits|))
  }

  lemma FlushSpells(buffer: bv8, count: nat)
    requires 0 < count < 8
    ensures Spells([buffer << (8 - count)], buffer, count, [])
  {
    PaddedByte(buffer, count);
    BytesToBitsCons(buffer << (8 - count), []);
  }

  lemma EmitSpells(buffer: bv8, bits: seq<bool>, rest: seq<bv8>)
    requires |bits| > 0
    requires Spells(rest, 0, 0, bits[1..])
    ensures Spells([Shift(buffer, bits[0])] + rest, buffer, 7, bits)
  {
    var next := Shift(buffer, bits[0]);
    ShiftAppends(buffer, bits[0], 7);
    BytesToBitsCons(next, rest);
    assert LowBits(0, 0) == [];
    PadLengthPeriodic(|bits| - 1);
    assert bits == [bits[0]] + bits[1..];
  }

  lemma PendingSpells(buffer: bv8, count: nat, bits: seq<bool>, out: seq<bv8>)
    requires count < 7 && |bits| > 0
    requires Spells(out, Shift(buffer, bits[0]), count + 1, bits[1..])
    ensures Spells(out, buffer, count, bits)
  {
    ShiftAppends(buffer, bits[0], count);
    assert bits == [bits[0]] + bits[1..];
  }

  /**
    The packing loop, continued from a buffer holding `count` pending bits:
    a byte is emitted whenever eight bits have accumulated, and the rest is
    flushed left-justified at the end.
   */
  function PackFrom(bits: seq<bool>, buffer: bv8, count: nat): (out: seq<bv8>)
    requires count < 8
    ensures |out| == (count + |bits| + 7) / 8
    ensures Spells(out, buffer, count, bits)
    decreases |bits|
  {
    if |bits| == 0 then
      if count > 0 then
        FlushSpells(buffer, count);
        [buffer << (8 - count)]
      else
        assert LowBits(buffer, 0) == [];
        []
    else
      var next := Shift(buffer, bits[0]);
      if count + 1 == 8 then
        var rest := PackFrom(bits[1..], 0, 0);
        EmitSpells(buffer, bits, rest);
        [next] + rest
      else
        var out := PackFrom(bits[1..], next, count + 1);
        PendingSpells(buffer, count, bits, out);
        out
  }

  /** The payload of a bit stream: `ceil(|bits| / 8)` bytes, zero-padded. */
  function Pack(bits: seq<bool>): (out: seq<bv8>)
    ensures |out| == (|bits| + 7) / 8
    ensures BytesToBits(out) == bits + Zeros(PadLength(|bits|))
  {
    var out := PackFrom(bits, 0, 0);
    assert LowBits(0, 0) == [];
    out
  }
}
