/** The midstate hasher for block headers, with its two buffers overwritten in place. */
module FastHasher {
  import opened Sha256
  import opened Prelude

  type Bytes32 = b: seq<Byte> | |b| == 32 witness Zeros(32)

  datatype Header = Header(
    version: Word, prevBlock: Bytes32, merkleRoot: Bytes32, time: Word, bits: Word, nonce: Word)

  /** Consensus serialization: integers little-endian, 80 bytes in all. */
  function Serialize(h: Header): (b: seq<Byte>)
    ensures |b| == 80
  {
    LittleEndian(h.version) + h.prevBlock + h.merkleRoot
    + LittleEndian(h.time) + LittleEndian(h.bits) + LittleEndian(h.nonce)
  }

  /** The plain form the fast one has to agree with. */
  function BlockHash(compress: Compression, h: Header): (d: seq<Byte>)
    ensures |d| == 32
  {
    DoubleHash(compress, Serialize(h))
  }

  /** `s` with `bytes` written over it from position `at` on. */
  function Splice(s: seq<Byte>, at: nat, bytes: seq<Byte>): seq<Byte>
    requires at + |bytes| <= |s|
  {
    s[..at] + bytes + s[at + |bytes|..]
  }

  method CopyFromSlice(a: array<Byte>, at: nat, bytes: seq<Byte>)
    requires at + |bytes| <= a.Length
    modifies a
    ensures a[..] == Splice(old(a[..]), at, bytes)
  {
    forall k | 0 <= k < |bytes| {
      a[at + k] := bytes[k];
    }
  }

  lemma SpliceExtend(s: seq<Byte>, x: seq<Byte>, y: seq<Byte>)
    requires |x| + |y| <= |s|
    ensures Splice(Splice(s, 0, x), |x|, y) == Splice(s, 0, x + y)
  {
  }

  lemma OutputStep(state: HashState, i: nat)
    requires i < 8
    ensures Output(state)[..4 * i] + BigEndian(state[i]) == Output(state)[..4 * (i + 1)]
  {
    hide BigEndian;
    forall k | 4 * i <= k < 4 * i + 4 ensures Output(state)[k] == BigEndian(state[i])[k - 4 * i] {
    }
  }

  /** The loop that writes a state big-endian over the first 32 bytes of a buffer. */
  method StoreState(a: array<Byte>, state: HashState)
    requires a.Length >= 32
    modifies a
    ensures a[..] == Splice(old(a[..]), 0, Output(state))
  {
    hide BigEndian, Output;
    ghost var was := a[..];
    for i := 0 to 8
      invariant a[..] == Splice(was, 0, Output(state)[..4 * i])
    {
      CopyFromSlice(a, 4 * i, BigEndian(state[i]));
      SpliceExtend(was, Output(state)[..4 * i], BigEndian(state[i]));
      OutputStep(state, i);
    }
    assert Output(state)[..32] == Output(state);
  }

  /** The second block of the first hash, for a header with this time and nonce. */
  function SecondChunk(h: Header): (b: seq<Byte>)
    ensures |b| == 64
  {
    Serialize(h)[64..] + PaddingOf(80)
  }

  lemma Last16(front: seq<Byte>, version: seq<Byte>, prev: seq<Byte>, root: seq<Byte>, time: seq<Byte>, bits: seq<Byte>,
               nonce: seq<Byte>)
    requires |version| == 4 && |prev| == 32 && |root| == 32 && |time| == |bits| == |nonce| == 4
    requires front == version + prev + root + time + bits + nonce
    ensures front[64..] == root[28..] + time + bits + nonce
    ensures front[..64] == version + prev + root[..28]
  {
  }

  lemma SecondChunkLayout(h: Header)
    ensures SecondChunk(h) ==
            h.merkleRoot[28..] + LittleEndian(h.time) + LittleEndian(h.bits) + LittleEndian(h.nonce) + PaddingOf(80)
    ensures PaddingOf(80) == [0x80] + Zeros(39) + LengthField(640)
  {
    hide LittleEndian, BigEndian, LengthField;
    Last16(Serialize(h), LittleEndian(h.version), h.prevBlock, h.merkleRoot, LittleEndian(h.time), LittleEndian(h.bits),
           LittleEndian(h.nonce));
  }

  /** Time and nonce live in the second chunk only. */
  lemma FirstChunkFixed(h: Header, time: Word, nonce: Word)
    ensures Serialize(h.(time := time, nonce := nonce))[..64] == Serialize(h)[..64]
  {
    hide LittleEndian;
    var g := h.(time := time, nonce := nonce);
    Last16(Serialize(h), LittleEndian(h.version), h.prevBlock, h.merkleRoot, LittleEndian(h.time), LittleEndian(h.bits),
           LittleEndian(h.nonce));
    Last16(Serialize(g), LittleEndian(g.version), g.prevBlock, g.merkleRoot, LittleEndian(time), LittleEndian(g.bits),
           LittleEndian(nonce));
  }

  /** Four words of four bytes, the second and the fourth written anew. */
  lemma SpliceWords(tail: seq<Byte>, time: seq<Byte>, bits: seq<Byte>, nonce: seq<Byte>, rest: seq<Byte>,
                    time': seq<Byte>, nonce': seq<Byte>)
    requires |tail| == |time| == |bits| == |nonce| == |time'| == |nonce'| == 4
    ensures Splice(Splice(tail + time + bits + nonce + rest, 4, time'), 12, nonce')
            == tail + time' + bits + nonce' + rest
  {
    var s := tail + time + bits + nonce + rest;
    assert Splice(s, 4, time') == tail + time' + bits + nonce + rest;
  }

  /** Overwriting bytes 4..8 and 12..16 turns one second chunk into the other. */
  lemma RewriteSecondChunk(h: Header, time: Word, nonce: Word)
    ensures Splice(Splice(SecondChunk(h), 4, LittleEndian(time)), 12, LittleEndian(nonce))
            == SecondChunk(h.(time := time, nonce := nonce))
  {
    hide LittleEndian, BigEndian, Splice, PaddingOf, SecondChunk;
    SecondChunkLayout(h);
    SecondChunkLayout(h.(time := time, nonce := nonce));
    SpliceWords(h.merkleRoot[28..], LittleEndian(h.time), LittleEndian(h.bits), LittleEndian(h.nonce), PaddingOf(80),
                LittleEndian(time), LittleEndian(nonce));
  }

  /** Sixteen or thirty-two bytes of message, the marker, and the length at the end of a block of zeros. */
  lemma BlockOfZeros(message: seq<Byte>, length: seq<Byte>)
    requires |message| <= 55 && |length| == 8
    ensures Splice(Splice(Zeros(64), 0, message)[|message| := 0x80], 56, length)
            == message + ([0x80] + Zeros(55 - |message|) + length)
  {
  }

  lemma AllZeros(s: seq<Byte>)
    requires forall k :: 0 <= k < |s| ==> s[k] == 0
    ensures s == Zeros(|s|)
  {
  }

  /** The two buffers as they are filled in. */
  lemma TemplateBlocks(h: Header)
    ensures Splice(Splice(Zeros(64), 0, Serialize(h)[64..])[16 := 0x80], 56, LengthField(640)) == SecondChunk(h)
    ensures Splice(Zeros(64)[32 := 0x80], 56, LengthField(256)) == Zeros(32) + PaddingOf(32)
  {
    hide LengthField, Serialize;
    BlockOfZeros(Serialize(h)[64..], LengthField(640));
    BlockOfZeros(Zeros(32), LengthField(256));
    assert Splice(Zeros(64), 0, Zeros(32)) == Zeros(64);
  }

  class FastSha256d {
    const compress: Compression
    const state0: HashState
    const block1: array<Byte>
    const secondBlock: array<Byte>

    /** Prepared for headers that agree with `h` except in time and nonce. */
    ghost predicate Valid(h: Header)
      reads block1, secondBlock
    {
      && block1 != secondBlock && block1.Length == 64 && secondBlock.Length == 64
      && state0 == compress(INITIAL_STATE, Serialize(h)[..64])
      && (exists time: Word, nonce: Word :: block1[..] == SecondChunk(h.(time := time, nonce := nonce)))
      && secondBlock[32..] == PaddingOf(32)
    }

    constructor (compress: Compression, h: Header)
      ensures Valid(h) && this.compress == compress
      ensures fresh(block1) && fresh(secondBlock)
    {
      hide LittleEndian, BigEndian, Splice, Zeros, LengthField, PaddingOf, Serialize, SecondChunk;
      var bytes := Serialize(h);
      this.compress := compress;
      state0 := compress(INITIAL_STATE, bytes[..64]);
      var b1 := new Byte[64](_ => 0);
      var b2 := new Byte[64](_ => 0);
      AllZeros(b1[..]);
      AllZeros(b2[..]);
      TemplateBlocks(h);
      CopyFromSlice(b1, 0, bytes[64..]);
      b1[16] := 0x80;
      CopyFromSlice(b1, 56, LengthField(640));
      b2[32] := 0x80;
      CopyFromSlice(b2, 56, LengthField(256));
      assert b1[..] == SecondChunk(h);
      assert b2[..] == Zeros(32) + PaddingOf(32);
      assert h == h.(time := h.time, nonce := h.nonce);
      block1 := b1;
      secondBlock := b2;
    }

    /** `clone`: buffers of its own with the same contents. */
    constructor Clone(other: FastSha256d, ghost h: Header)
      requires other.Valid(h)
      ensures Valid(h) && compress == other.compress
      ensures fresh(block1) && fresh(secondBlock)
    {
      hide LittleEndian, BigEndian, SecondChunk, PaddingOf, Serialize;
      var b1 := new Byte[64](_ => 0);
      var b2 := new Byte[64](_ => 0);
      CopyFromSlice(b1, 0, other.block1[..]);
      CopyFromSlice(b2, 0, other.secondBlock[..]);
      assert b1[..] == other.block1[..] && b2[..] == other.secondBlock[..];
      compress, state0, block1, secondBlock := other.compress, other.state0, b1, b2;
    }

    /** Every call, whatever the earlier ones left in the buffers, returns the plain double hash
        and changes only bytes 4..8 and 12..16 of one buffer and 0..32 of the other. */
    method HashWithNonceTime(nonce: Word, time: Word, ghost h: Header) returns (out: seq<Byte>)
      requires Valid(h)
      modifies block1, secondBlock
      ensures Valid(h)
      ensures out == BlockHash(compress, h.(time := time, nonce := nonce))
      ensures forall k :: 0 <= k < 64 && !(4 <= k < 8) && !(12 <= k < 16) ==> block1[k] == old(block1[k])
      ensures secondBlock[32..] == old(secondBlock[32..])
    {
      hide LittleEndian, BigEndian;
      ghost var time0: Word, nonce0: Word :| block1[..] == SecondChunk(h.(time := time0, nonce := nonce0));
      ghost var now := h.(time := time, nonce := nonce);
      ghost var padding := secondBlock[32..];
      CopyFromSlice(block1, 4, LittleEndian(time));
      CopyFromSlice(block1, 12, LittleEndian(nonce));
      RewriteSecondChunk(h.(time := time0, nonce := nonce0), time, nonce);
      assert block1[..] == SecondChunk(now);

      var state1 := compress(state0, block1[..]);
      StoreState(secondBlock, state1);
      assert secondBlock[..] == Output(state1) + padding;

      var state2 := compress(INITIAL_STATE, secondBlock[..]);
      var buffer := new Byte[32](_ => 0);
      StoreState(buffer, state2);
      out := buffer[..];

      FirstChunkFixed(h, time, nonce);
      HashOfHeader(compress, Serialize(now));
      HashOfDigest(compress, Output(state1));
    }
  }
}
