/**
  `compress` and `decompress` as functions from plaintext to container and
  back. The container is the header followed by the packed payload; an empty
  plaintext gives an empty container.

  Both directions take the same `hints`: the choice among equally ranked
  nodes that the priority queue makes at each extraction. The queue is
  deterministic, so compressing and decompressing the same table make the
  same choices, which is what passing the same hints expresses.
 */
module Compressor {
  import opened Wrappers
  import opened Nodes
  import opened Frequencies
  import opened TreeBuilder
  import opened Codes
  import opened Bits
  import opened Header
  import opened Decoder

  /** The payload of `s`: its bit stream under the tree's codes, packed. */
  function Payload(s: seq<Char>, root: Node): (payload: seq<bv8>)
    ensures var bits := Encode(s, GenerateCodes(root));
            |payload| == (|bits| + 7) / 8 && BytesToBits(payload) == bits + Zeros(PadLength(|bits|))
  {
    Pack(Encode(s, GenerateCodes(root)))
  }

  /** `compress`: count, build the tree and codes, write the header, pack the bits. */
  function Compress(s: seq<Char>, hints: seq<nat>): (out: seq<bv8>)
    ensures |out| == 0 <==> |s| == 0
  {
    var freq := Tally(s);
    TallyEmpty(s);
    if |freq| == 0 then []
    else WriteHeader(freq) + Payload(s, BuildTree(freq, hints))
  }

  /**
    `decompress`: read the header, rebuild the tree, walk the payload. An
    empty container and an empty table both give empty output.
   */
  function Decompress(container: seq<bv8>, hints: seq<nat>): (r: Result<seq<Char>>)
    ensures |container| == 0 ==> r == Success([])
    ensures 0 < |container| < 8 ==> r == Failure(MalformedHeader)
    ensures r.Success? && |container| > 0 ==> ReadHeader(container).Success?
  {
    if |container| == 0 then Success([])
    else
      var header :- ReadHeader(container);
      var (freq, payload) := header;
      if |freq| == 0 then Success([])
      else DecodePayload(BuildTree(freq, hints), payload)
  }

  /** The counts of a plaintext shorter than 2^31 fit the header's `int` field. */
  lemma TallyFitsInt(s: seq<Char>)
    requires |s| <= IntMax
    ensures FitsInt(Tally(s))
  {
  }

  /**
    Decompressing what was compressed, with the same tie choices, gives the
    plaintext back.
   */
  lemma RoundTrip(s: seq<Char>, hints: seq<nat>)
    requires |s| <= IntMax
    ensures Decompress(Compress(s, hints), hints) == Success(s)
  {
    var freq := Tally(s);
    TallyEmpty(s);
    if |freq| > 0 {
      var root := BuildTree(freq, hints);
      var payload := Payload(s, root);
      assert Compress(s, hints) == WriteHeader(freq) + payload;
      TallyFitsInt(s);
      DecompressWritten(freq, payload, hints);
      TallyTotal(s);
      DecodeOwnPayload(s, root);
    }
  }

  /** A container made of a written header and any payload decodes that payload with the table's tree. */
  lemma DecompressWritten(freq: FreqTable, payload: seq<bv8>, hints: seq<nat>)
    requires |freq| > 0 && FitsInt(freq)
    ensures Decompress(WriteHeader(freq) + payload, hints) == DecodePayload(BuildTree(freq, hints), payload)
  {
    HeaderRoundTrip(freq, payload);
  }

  /** The payload of `s` under a tree owing `|s|` characters decodes to `s`. */
  lemma DecodeOwnPayload(s: seq<Char>, root: Node)
    requires !IsLeaf(root)
    requires forall c :: c in s ==> c in LeafChars(root)
    requires Owed(root) == |s|
    ensures DecodePayload(root, Payload(s, root)) == Success(s)
  {
    var bits := Encode(s, GenerateCodes(root));
    WalkEncoded(root, s, Zeros(PadLength(|bits|)));
  }

  /**
    The container of a nonempty plaintext is the 8-byte count, five bytes per
    distinct character, and one byte per started group of eight code bits,
    the code bits being each character's count times its code length.
   */
  lemma CompressedSize(s: seq<Char>, hints: seq<nat>)
    requires |s| > 0
    ensures var freq := Tally(s);
            var codes := GenerateCodes(BuildTree(freq, hints));
            |Compress(s, hints)| == 8 + 5 * |freq| + (WeightedSum(freq, Keys(freq), CodeLengths(codes)) + 7) / 8
  {
    var freq := Tally(s);
    TallyEmpty(s);
    var codes := GenerateCodes(BuildTree(freq, hints));
    EncodeLength(s, codes);
    TallyWeighted(s, Keys(freq), CodeLengths(codes));
  }

  /** The payload's bits are the plaintext's codes, then zero padding to a whole byte. */
  lemma PayloadBits(s: seq<Char>, hints: seq<nat>)
    requires |s| > 0
    ensures var freq := Tally(s);
            var codes := GenerateCodes(BuildTree(freq, hints));
            var bits := Encode(s, codes);
            Compress(s, hints)[8 + 5 * |freq|..] == Pack(bits) &&
            BytesToBits(Pack(bits)) == bits + Zeros(PadLength(|bits|))
  {
    var freq := Tally(s);
    TallyEmpty(s);
  }

  /**
    A payload that lost its last byte is reported as truncated: the missing
    bits always hold part of the last code.
   */
  lemma DecodeLostByte(root: Node, s: seq<Char>)
    requires !IsLeaf(root)
    requires forall c :: c in s ==> c in LeafChars(root)
    requires |s| > 0 && Owed(root) == |s|
    ensures |Payload(s, root)| > 0
    ensures DecodePayload(root, Payload(s, root)[..|Payload(s, root)| - 1]) == Failure(TruncatedPayload)
  {
    var bits := Encode(s, GenerateCodes(root));
    var payload := Payload(s, root);
    var n := |payload| - 1;
    GeneratedCodesNonEmpty(root);
    assert |bits| >= |s|;
    BytesToBitsPrefix(payload, n);
    assert BytesToBits(payload[..n]) == bits[..8 * n];
    WalkCutEncoded(root, s, 8 * n);
  }
}
