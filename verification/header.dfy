/**
  The container header: the number of table entries as an 8-byte `size_t`,
  then, in map order, each entry's `char` as one byte and its count as a
  4-byte `int`. Multi-byte integers are little-endian throughout.
 */
module Header {
  import opened Wrappers
  import opened Nodes
  import opened Frequencies


  const IntMin: int := -0x8000_0000
  const IntMax: int := 0x7FFF_FFFF

  /** The widths of `size_t` and `int` on the platform the container is written on. */
  const SizeWidth: nat := 8
  const IntWidth: nat := 4

  function Pow256(n: nat): nat
    decreases n
  {
    if n == 0 then 1 else 256 * Pow256(n - 1)
  }

  /** A value below 256 as a byte. */
  function ToByte(x: int): (b: bv8)
    requires 0 <= x < 256
    ensures b as int == x
  {
    x as bv8
  }

  /** `v` modulo `256^width`, as `width` bytes, least significant first. */
  function LittleEndian(v: nat, width: nat): (bytes: seq<bv8>)
    ensures |bytes| == width
    decreases width
  {
    if width == 0 then [] else [ToByte(v % 256)] + LittleEndian(v / 256, width - 1)
  }

  function FromLittleEndian(bytes: seq<bv8>): nat
    decreases |bytes|
  {
    if |bytes| == 0 then 0 else bytes[0] as nat + 256 * FromLittleEndian(bytes[1..])
  }

  lemma {:induction false} LittleEndianRoundTrip(v: nat, width: nat)
    requires v < Pow256(width)
    ensures FromLittleEndian(LittleEndian(v, width)) == v
    decreases width
  {
    if width > 0 {
      var bytes := LittleEndian(v, width);
      assert v / 256 < Pow256(width - 1);
      LittleEndianRoundTrip(v / 256, width - 1);
      assert bytes[1..] == LittleEndian(v / 256, width - 1);
      assert bytes[0] as nat == v % 256;
    }
  }

  /** The byte pattern of a signed `char`. */
  function CharByte(c: Char): bv8 {
    (if c < 0 then c + 256 else c) as bv8
  }

  /** A byte read back into a signed `char`. */
  function ByteChar(b: bv8): Char {
    if b < 128 then b as int else b as int - 256
  }

  lemma CharByteRoundTrip(c: Char)
    ensures ByteChar(CharByte(c)) == c
  {
  }

  /** A 32-bit two's-complement `int`: the value modulo 2^32. */
  function IntBytes(v: int): (bytes: seq<bv8>)
    ensures |bytes| == 4
  {
    LittleEndian(v % 0x1_0000_0000, IntWidth)
  }

  /** Four bytes read back as a signed 32-bit `int`. */
  function BytesInt(bytes: seq<bv8>): (v: int)
    requires |bytes| == 4
  {
    var u := FromLittleEndian(bytes);
    if u >= 0x8000_0000 then u - 0x1_0000_0000 else u
  }

  lemma IntBytesRoundTrip(v: int)
    requires IntMin <= v <= IntMax
    ensures BytesInt(IntBytes(v)) == v
  {
    assert Pow256(IntWidth) == 0x1_0000_0000;
    LittleEndianRoundTrip(v % 0x1_0000_0000, IntWidth);
  }

  /** The entries for the keys `ks`, in that order. */
  function WriteEntries(m: FreqTable, ks: seq<Char>): (bytes: seq<bv8>)
    requires forall k :: k in ks ==> k in m
    ensures |bytes| == 5 * |ks|
    decreases |ks|
  {
    if |ks| == 0 then []
    else [CharByte(ks[0])] + IntBytes(m[ks[0]]) + WriteEntries(m, ks[1..])
  }

  /** The `size_t` count field: `n` in eight little-endian bytes. */
  function CountField(n: nat): (bytes: seq<bv8>)
    requires n < 0x1_0000_0000_0000_0000
    ensures |bytes| == 8
    ensures FromLittleEndian(bytes) == n
  {
    assert Pow256(SizeWidth) == 0x1_0000_0000_0000_0000;
    LittleEndianRoundTrip(n, SizeWidth);
    LittleEndian(n, SizeWidth)
  }

  /** `writeHeader`: the entry count, then every entry in map order. */
  function WriteHeader(m: FreqTable): (bytes: seq<bv8>)
    ensures |bytes| == 8 + 5 * |m|
    ensures FromLittleEndian(bytes[..8]) == |m|
  {
    KeysCount(m);
    var bytes := CountField(|m|) + WriteEntries(m, Keys(m));
    assert bytes[..8] == CountField(|m|);
    bytes
  }

  /**
    The entry loop of `readHeader`: `n` entries, each assigned into the table
    (a repeated character keeps its last count). Running out of bytes is
    reported rather than read past.
   */
  function ReadEntries(bytes: seq<bv8>, n: nat, acc: FreqTable): (r: Result<(FreqTable, seq<bv8>)>)
    ensures r.Failure? ==> r.error == MalformedHeader
    ensures r.Success? ==> acc.Keys <= r.value.0.Keys
    ensures r.Success? ==> |r.value.1| <= |bytes|
    decreases n
  {
    if n == 0 then Success((acc, bytes))
    else if |bytes| < 5 then Failure(MalformedHeader)
    else ReadEntries(bytes[5..], n - 1, acc[ByteChar(bytes[0]) := BytesInt(bytes[1..5])])
  }

  /**
    The entry loop succeeds exactly when the bytes hold all `n` entries; it
    then leaves the bytes after them.
   */
  lemma {:induction false} ReadEntriesSucceeds(bytes: seq<bv8>, n: nat, acc: FreqTable)
    ensures ReadEntries(bytes, n, acc).Success? <==> |bytes| >= 5 * n
    ensures ReadEntries(bytes, n, acc).Success? ==> ReadEntries(bytes, n, acc).value.1 == bytes[5 * n..]
    decreases n
  {
    if n > 0 && |bytes| >= 5 {
      var next := acc[ByteChar(bytes[0]) := BytesInt(bytes[1..5])];
      ReadEntriesSucceeds(bytes[5..], n - 1, next);
      if |bytes| >= 5 * n {
        assert bytes[5..][5 * (n - 1)..] == bytes[5 * n..];
      }
    }
  }

  /**
    `readHeader`: the entry count, then the entries. A container too short
    for the count or for the entries it announces is malformed.
   */
  function ReadHeader(bytes: seq<bv8>): (r: Result<(FreqTable, seq<bv8>)>)
    ensures r.Failure? ==> r.error == MalformedHeader
    ensures r.Success? ==> |bytes| >= 8 && |r.value.1| <= |bytes| - 8
  {
    if |bytes| < 8 then Failure(MalformedHeader)
    else ReadEntries(bytes[8..], FromLittleEndian(bytes[..8]), map[])
  }

  /** Reading `n` entries adds at most `n` keys: a repeated character overwrites its entry. */
  lemma {:induction false} ReadEntriesSize(bytes: seq<bv8>, n: nat, acc: FreqTable)
    ensures ReadEntries(bytes, n, acc).Success? ==> |ReadEntries(bytes, n, acc).value.0| <= |acc| + n
    decreases n
  {
    if n > 0 && |bytes| >= 5 {
      var k := ByteChar(bytes[0]);
      var next := acc[k := BytesInt(bytes[1..5])];
      ReadEntriesSize(bytes[5..], n - 1, next);
      assert next.Keys == acc.Keys + {k};
    }
  }

  /** The table read back never has more entries than the count field announces. */
  lemma ReadHeaderSize(bytes: seq<bv8>)
    ensures ReadHeader(bytes).Success? ==> |ReadHeader(bytes).value.0| <= FromLittleEndian(bytes[..8])
  {
    if |bytes| >= 8 {
      ReadEntriesSize(bytes[8..], FromLittleEndian(bytes[..8]), map[]);
    }
  }

  /**
    `readHeader` succeeds exactly when the container holds the count field and
    every entry it announces, and then leaves the bytes after the last entry.
   */
  lemma ReadHeaderSucceeds(bytes: seq<bv8>)
    ensures ReadHeader(bytes).Success? <==>
      |bytes| >= 8 && |bytes| >= 8 + 5 * FromLittleEndian(bytes[..8])
    ensures ReadHeader(bytes).Success? ==>
      ReadHeader(bytes).value.1 == bytes[8 + 5 * FromLittleEndian(bytes[..8])..]
  {
    if |bytes| >= 8 {
      ReadEntriesSucceeds(bytes[8..], FromLittleEndian(bytes[..8]), map[]);
    }
  }

  /** The part of `m` on the keys `ks`. */
  function Restrict(m: FreqTable, ks: seq<Char>): FreqTable
    requires forall k :: k in ks ==> k in m
  {
    map k | k in ks :: m[k]
  }

  predicate FitsInt(m: FreqTable) {
    forall c :: c in m ==> IntMin <= m[c] <= IntMax
  }

  /** One entry of `readHeader` reads back what `writeHeader` wrote for it. */
  lemma ReadEntriesStep(k: Char, v: int, more: seq<bv8>, n: nat, acc: FreqTable)
    requires IntMin <= v <= IntMax
    ensures ReadEntries([CharByte(k)] + IntBytes(v) + more, n + 1, acc) == ReadEntries(more, n, acc[k := v])
  {
    var bytes := [CharByte(k)] + IntBytes(v) + more;
    CharByteRoundTrip(k);
    IntBytesRoundTrip(v);
    assert bytes[0] == CharByte(k);
    assert bytes[1..5] == IntBytes(v);
    assert bytes[5..] == more;
  }

  lemma RestrictCons(m: FreqTable, ks: seq<Char>, acc: FreqTable)
    requires |ks| > 0
    requires forall k :: k in ks ==> k in m
    ensures acc[ks[0] := m[ks[0]]] + Restrict(m, ks[1..]) == acc + Restrict(m, ks)
  {
    assert forall j :: j in ks <==> j == ks[0] || j in ks[1..];
  }

  lemma {:induction false} ReadWrittenEntries(m: FreqTable, ks: seq<Char>, acc: FreqTable, rest: seq<bv8>)
    requires forall k :: k in ks ==> k in m
    requires FitsInt(m)
    ensures ReadEntries(WriteEntries(m, ks) + rest, |ks|, acc) == Success((acc + Restrict(m, ks), rest))
    decreases |ks|
  {
    if |ks| == 0 {
      assert WriteEntries(m, ks) + rest == rest;
      assert acc + Restrict(m, ks) == acc;
    } else {
      var k, tail := ks[0], ks[1..];
      var head := [CharByte(k)] + IntBytes(m[k]);
      assert WriteEntries(m, ks) == head + WriteEntries(m, tail);
      AppendAssoc(head, WriteEntries(m, tail), rest);
      ReadEntriesStep(k, m[k], WriteEntries(m, tail) + rest, |tail|, acc);
      ReadWrittenEntries(m, tail, acc[k := m[k]], rest);
      RestrictCons(m, ks, acc);
    }
  }

  /** The count field of a written header, followed by anything, announces its entries. */
  lemma WrittenCount(m: FreqTable, payload: seq<bv8>)
    ensures |WriteHeader(m) + payload| >= 8
    ensures FromLittleEndian((WriteHeader(m) + payload)[..8]) == |Keys(m)|
  {
    var header := WriteHeader(m);
    KeysCount(m);
    assert (header + payload)[..8] == header[..8];
  }

  /** After the count field come the entries, then whatever followed the header. */
  lemma WrittenEntries(m: FreqTable, payload: seq<bv8>)
    ensures |WriteHeader(m) + payload| >= 8
    ensures (WriteHeader(m) + payload)[8..] == WriteEntries(m, Keys(m)) + payload
  {
    KeysCount(m);
    var count, entries := CountField(|m|), WriteEntries(m, Keys(m));
    assert WriteHeader(m) == count + entries;
    DropFront(count, entries, payload);
  }

  lemma AppendAssoc<T>(a: seq<T>, b: seq<T>, c: seq<T>)
    ensures a + b + c == a + (b + c)
  {
  }

  lemma DropFront<T>(a: seq<T>, b: seq<T>, c: seq<T>)
    ensures (a + b + c)[|a|..] == b + c
  {
  }

  lemma ReadHeaderUnfold(bytes: seq<bv8>)
    requires |bytes| >= 8
    ensures ReadHeader(bytes) == ReadEntries(bytes[8..], FromLittleEndian(bytes[..8]), map[])
  {
  }

  /** Reading a written header reads the count it wrote, then its entries. */
  lemma ReadHeaderOfWritten(m: FreqTable, payload: seq<bv8>)
    ensures ReadHeader(WriteHeader(m) + payload) == ReadEntries(WriteEntries(m, Keys(m)) + payload, |Keys(m)|, map[])
  {
    WrittenCount(m, payload);
    WrittenEntries(m, payload);
    ReadHeaderUnfold(WriteHeader(m) + payload);
  }

  lemma RestrictAll(m: FreqTable)
    ensures map[] + Restrict(m, Keys(m)) == m
  {
  }

  /** Reading back a written header gives the same table and leaves the payload. */
  lemma HeaderRoundTrip(m: FreqTable, payload: seq<bv8>)
    requires FitsInt(m)
    ensures ReadHeader(WriteHeader(m) + payload) == Success((m, payload))
  {
    ReadHeaderOfWritten(m, payload);
    ReadWrittenEntries(m, Keys(m), map[], payload);
    RestrictAll(m);
  }
}
