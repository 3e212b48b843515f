/**
 SHA-256 on byte strings with padding, parsing and initial state as in sections 5.1.1, 5.2.1,
 5.3.3 and 6.2.2 of FIPS 180-4.  The compression function is a parameter: what is proved with
 this definition holds for every compression function.
 */
module Sha256 {
  import opened Prelude

  type Word = x: int | 0 <= x < 0x1_0000_0000
  type HashState = s: seq<Word> | |s| == 8 witness [0, 0, 0, 0, 0, 0, 0, 0]
  type Compression = (HashState, seq<Byte>) -> HashState

  const INITIAL_STATE: HashState := [
    0x6a09e667, 0xbb67ae85, 0x3c6ef372, 0xa54ff53a, 0x510e527f, 0x9b05688c, 0x1f83d9ab, 0x5be0cd19]

  function BigEndian(w: Word): (b: seq<Byte>)
    ensures |b| == 4
  {
    [w / 0x1000000, w / 0x10000 % 0x100, w / 0x100 % 0x100, w % 0x100]
  }

  function LittleEndian(w: Word): (b: seq<Byte>)
    ensures |b| == 4
  {
    [w % 0x100, w / 0x100 % 0x100, w / 0x10000 % 0x100, w / 0x1000000]
  }

  /** The 64-bit message length that ends the padding. */
  function LengthField(bits: nat): (b: seq<Byte>)
    requires bits < 0x1_0000_0000_0000_0000
    ensures |b| == 8
  {
    BigEndian(bits / 0x1_0000_0000) + BigEndian(bits % 0x1_0000_0000)
  }

  function Zeros(n: nat): (z: seq<Byte>)
    ensures |z| == n
  {
    seq(n, _ => 0)
  }

  lemma PaddedLength(length: nat)
    ensures (length + 9 + (55 - length) % 64) % 64 == 0
  {
    var q, z := (55 - length) / 64, (55 - length) % 64;
    assert 55 - length == 64 * q + z;
    assert length + 9 + z == 64 * (1 - q);
  }

  function PaddingOf(length: nat): (p: seq<Byte>)
    requires 8 * length < 0x1_0000_0000_0000_0000
    ensures |p| == 9 + (55 - length) % 64
  {
    [0x80] + Zeros((55 - length) % 64) + LengthField(8 * length)
  }

  function Pad(m: seq<Byte>): (p: seq<Byte>)
    requires 8 * |m| < 0x1_0000_0000_0000_0000
    ensures |p| % 64 == 0
  {
    PaddedLength(|m|);
    m + PaddingOf(|m|)
  }

  function Process(compress: Compression, state: HashState, blocks: seq<Byte>): HashState
    requires |blocks| % 64 == 0
    decreases |blocks|
  {
    if blocks == [] then state else Process(compress, compress(state, blocks[..64]), blocks[64..])
  }

  /** The state as bytes, each word big-endian. */
  function Output(state: HashState): (b: seq<Byte>)
    ensures |b| == 32
  {
    seq(32, i requires 0 <= i < 32 => BigEndian(state[i / 4])[i % 4])
  }

  function Hash(compress: Compression, m: seq<Byte>): (d: seq<Byte>)
    requires 8 * |m| < 0x1_0000_0000_0000_0000
    ensures |d| == 32
  {
    Output(Process(compress, INITIAL_STATE, Pad(m)))
  }

  function DoubleHash(compress: Compression, m: seq<Byte>): (d: seq<Byte>)
    requires 8 * |m| < 0x1_0000_0000_0000_0000
    ensures |d| == 32
  {
    Hash(compress, Hash(compress, m))
  }

  lemma ProcessBlock(compress: Compression, state: HashState, block: seq<Byte>, rest: seq<Byte>)
    requires |block| == 64 && |rest| % 64 == 0
    ensures Process(compress, state, block + rest) == Process(compress, compress(state, block), rest)
  {
    assert (block + rest)[..64] == block && (block + rest)[64..] == rest;
  }

  /** An 80-byte message takes two blocks, of which the second holds its last 16 bytes. */
  lemma HashOfHeader(compress: Compression, m: seq<Byte>)
    requires |m| == 80
    ensures |m[64..] + PaddingOf(80)| == 64
    ensures Hash(compress, m) ==
            Output(compress(compress(INITIAL_STATE, m[..64]), m[64..] + PaddingOf(80)))
  {
    var last := m[64..] + PaddingOf(80);
    assert Pad(m) == m[..64] + last && last == last + [];
    ProcessBlock(compress, INITIAL_STATE, m[..64], last);
    ProcessBlock(compress, compress(INITIAL_STATE, m[..64]), last, []);
  }

  /** A digest fits one block with its padding. */
  lemma HashOfDigest(compress: Compression, m: seq<Byte>)
    requires |m| == 32
    ensures |m + PaddingOf(32)| == 64
    ensures Hash(compress, m) == Output(compress(INITIAL_STATE, m + PaddingOf(32)))
  {
    assert Pad(m) == Pad(m) + [];
    ProcessBlock(compress, INITIAL_STATE, Pad(m), []);
  }
}
