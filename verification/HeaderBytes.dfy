/** What the bytes that are hashed stand for: integers, fields, padding and digest words read back as numbers. */
module HeaderBytes {
  import opened Sha256
  import opened FastHasher
  import opened Prelude
  import T = Target

  function Reversed(b: seq<Byte>): (r: seq<Byte>)
    ensures |r| == |b| && forall k :: 0 <= k < |b| ==> r[k] == b[|b| - 1 - k]
  {
    seq(|b|, k requires 0 <= k < |b| => b[|b| - 1 - k])
  }

  /** The number a big-endian byte string stands for. */
  function BigValue(b: seq<Byte>): nat {
    T.Value(Reversed(b))
  }

  lemma ValueOfFour(b: seq<Byte>)
    requires |b| == 4
    ensures T.Value(b) == T.WordAt(b, 0)
  {
    T.AboveSplits(b, 0);
    assert b[0..] == b && b[4..] == [];
  }

  lemma FourBytes(w: Word)
    ensures w % 0x100 + 0x100 * (w / 0x100 % 0x100) + 0x1_0000 * (w / 0x10000 % 0x100) + 0x100_0000 * (w / 0x1000000)
            == w
  {
    assert w / 0x100 / 0x100 == w / 0x10000 && w / 0x10000 / 0x100 == w / 0x1000000;
  }

  /** Both byte orders stand for the word, and one is the other reversed. */
  lemma ByteOrders(w: Word)
    ensures T.Value(LittleEndian(w)) == w && BigValue(BigEndian(w)) == w
    ensures BigEndian(w) == Reversed(LittleEndian(w))
  {
    ValueOfFour(LittleEndian(w));
    FourBytes(w);
    assert BigEndian(w) == Reversed(LittleEndian(w));
    assert Reversed(BigEndian(w)) == LittleEndian(w);
  }

  lemma Sections(a: seq<Byte>, b: seq<Byte>, c: seq<Byte>, d: seq<Byte>, e: seq<Byte>, f: seq<Byte>)
    requires |a| == 4 && |b| == |c| == 32 && |d| == |e| == |f| == 4
    ensures var s := a + b + c + d + e + f;
            s[..4] == a && s[4..36] == b && s[36..68] == c && s[68..72] == d && s[72..76] == e && s[76..80] == f
  {
  }

  /** The 80 bytes of a header, field by field. */
  lemma SerializeLayout(h: Header)
    ensures var b := Serialize(h);
            && T.Value(b[..4]) == h.version
            && b[4..36] == h.prevBlock
            && b[36..68] == h.merkleRoot
            && T.Value(b[68..72]) == h.time
            && T.Value(b[72..76]) == h.bits
            && T.Value(b[76..80]) == h.nonce
  {
    hide LittleEndian, BigEndian, T.Value;
    ByteOrders(h.version);
    ByteOrders(h.time);
    ByteOrders(h.bits);
    ByteOrders(h.nonce);
    Sections(LittleEndian(h.version), h.prevBlock, h.merkleRoot, LittleEndian(h.time), LittleEndian(h.bits),
             LittleEndian(h.nonce));
  }

  /** So no two headers are hashed from the same bytes. */
  lemma SerializeIsInjective(g: Header, h: Header)
    ensures Serialize(g) == Serialize(h) <==> g == h
  {
    hide Serialize;
    SerializeLayout(g);
    SerializeLayout(h);
  }

  lemma {:induction false} ValueJoins(a: seq<Byte>, b: seq<Byte>)
    ensures T.Value(a + b) == T.Value(a) + T.Pow256(|a|) * T.Value(b)
  {
    if a == [] {
      assert a + b == b;
    } else {
      ValueJoins(a[1..], b);
      assert (a + b)[1..] == a[1..] + b;
      Distribute(T.Pow256(|a| - 1), T.Value(b));
    }
  }

  lemma Distribute(x: nat, y: nat)
    ensures 0x100 * (x * y) == (0x100 * x) * y
  {
  }

  lemma BigValueJoins(a: seq<Byte>, b: seq<Byte>)
    requires |b| == 4
    ensures BigValue(a + b) == BigValue(b) + 0x1_0000_0000 * BigValue(a)
  {
    assert Reversed(a + b) == Reversed(b) + Reversed(a);
    ValueJoins(Reversed(b), Reversed(a));
    assert T.Pow256(4) == 0x1_0000_0000;
  }

  /** The padding of section 5.1.1 of FIPS 180-4: the marker, zeros up to eight bytes short of a block, and
      the number of bits of the message, big-endian. */
  lemma PaddingMeans(length: nat)
    requires 8 * length < 0x1_0000_0000_0000_0000
    ensures var p := PaddingOf(length);
            && 9 <= |p| < 9 + 64 && (length + |p|) % 64 == 0
            && p[0] == 0x80 && (forall k :: 1 <= k < |p| - 8 ==> p[k] == 0)
            && BigValue(p[|p| - 8..]) == 8 * length
  {
    hide BigEndian, BigValue;
    PaddedLength(length);
    var bits := 8 * length;
    var high: Word, low: Word := bits / 0x1_0000_0000, bits % 0x1_0000_0000;
    ByteOrders(high);
    ByteOrders(low);
    BigValueJoins(BigEndian(high), BigEndian(low));
    var p := PaddingOf(length);
    assert p[|p| - 8..] == LengthField(bits);
  }

  /** The digest is the eight state words, each big-endian, in order. */
  lemma OutputWords(state: HashState, i: nat)
    requires i < 8
    ensures BigValue(Output(state)[4 * i..4 * i + 4]) == state[i]
  {
    hide BigEndian, BigValue;
    ByteOrders(state[i]);
    assert Output(state)[4 * i..4 * i + 4] == BigEndian(state[i]);
  }

  const FIRST_PRIMES: seq<nat> := [2, 3, 5, 7, 11, 13, 17, 19]
  const ROOTS: seq<nat> := [1, 1, 2, 2, 3, 3, 4, 4]

  /** Section 5.3.3: the initial words are the first 32 bits of the fractional parts of the square roots of
      the first eight primes. */
  lemma InitialWords(i: nat)
    requires i < 8
    ensures var scale := 0x1_0000_0000;
            var r := ROOTS[i] * scale + INITIAL_STATE[i];
            r * r <= FIRST_PRIMES[i] * scale * scale < (r + 1) * (r + 1)
  {
  }
}
