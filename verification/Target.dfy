/** 256-bit target comparison on little-endian bytes, word by word from the top. */
module Target {
  import opened Sha256
  import opened Prelude

  /** The number a little-endian byte string stands for. */
  function Value(b: seq<Byte>): nat {
    if b == [] then 0 else b[0] + 0x100 * Value(b[1..])
  }

  /** `u32::from_le_bytes` at a word index. */
  function WordAt(b: seq<Byte>, i: nat): Word
    requires 4 * i + 4 <= |b|
  {
    var w0: int, w1: int, w2: int, w3: int := b[4 * i], b[4 * i + 1], b[4 * i + 2], b[4 * i + 3];
    w0 + 0x100 * w1 + 0x1_0000 * w2 + 0x100_0000 * w3
  }

  /** The number made of the words from index `i` up. */
  function Above(b: seq<Byte>, i: nat): nat
    requires 4 * i <= |b|
  {
    Value(b[4 * i..])
  }

  lemma {:induction false} AboveSplits(b: seq<Byte>, i: nat)
    requires 4 * i + 4 <= |b|
    ensures Above(b, i) == WordAt(b, i) + 0x1_0000_0000 * Above(b, i + 1)
  {
    var s := b[4 * i..];
    assert s[1..][1..][1..][1..] == b[4 * (i + 1)..];
    assert Value(s) == s[0] + 0x100 * Value(s[1..]);
    assert Value(s[1..]) == s[1] + 0x100 * Value(s[1..][1..]);
    assert Value(s[1..][1..]) == s[2] + 0x100 * Value(s[1..][1..][1..]);
    assert Value(s[1..][1..][1..]) == s[3] + 0x100 * Value(s[1..][1..][1..][1..]);
  }

  /** A difference in the words from `i` up decides the whole comparison. */
  lemma {:induction false} TopDecides(a: seq<Byte>, b: seq<Byte>, i: nat)
    requires |a| == |b| && 4 * i <= |a| && Above(a, i) < Above(b, i)
    ensures Value(a) < Value(b)
  {
    if i == 0 {
      assert a[0..] == a && b[0..] == b;
    } else {
      AboveSplits(a, i - 1);
      AboveSplits(b, i - 1);
      TopDecides(a, b, i - 1);
    }
  }

  /** The early-exit loop is the numeric comparison. */
  method HashMeetsTarget(hash: seq<Byte>, target: seq<Byte>) returns (meets: bool)
    requires |hash| == 32 && |target| == 32
    ensures meets <==> Value(hash) <= Value(target)
  {
    var isBelow, isEqual := false, true;
    var i := 8;
    while i > 0
      invariant 0 <= i <= 8
      invariant isEqual && !isBelow && Above(hash, i) == Above(target, i)
    {
      i := i - 1;
      var hw, tw := WordAt(hash, i), WordAt(target, i);
      AboveSplits(hash, i);
      AboveSplits(target, i);
      if hw < tw {
        isBelow, isEqual := true, false;
        TopDecides(hash, target, i);
        break;
      } else if hw > tw {
        isBelow, isEqual := false, false;
        TopDecides(target, hash, i);
        break;
      }
    }
    if isEqual {
      assert hash[0..] == hash && target[0..] == target;
    }
    meets := isBelow || isEqual;
  }

  function Pow256(n: nat): nat {
    if n == 0 then 1 else 0x100 * Pow256(n - 1)
  }

  /** The low `width` bytes of a number. */
  function Bytes(v: nat, width: nat): (b: seq<Byte>)
    ensures |b| == width
  {
    if width == 0 then [] else [v % 0x100] + Bytes(v / 0x100, width - 1)
  }

  lemma {:induction false} BytesRoundTrip(v: nat, width: nat)
    requires v < Pow256(width)
    ensures Value(Bytes(v, width)) == v
  {
    if width > 0 {
      BytesRoundTrip(v / 0x100, width - 1);
      assert Bytes(v, width)[1..] == Bytes(v / 0x100, width - 1);
    }
  }

  lemma LowByte(low: Byte, rest: nat)
    ensures (low + 0x100 * rest) % 0x100 == low && (low + 0x100 * rest) / 0x100 == rest
  {
  }

  /** And back, so a stored target is the number that was received. */
  lemma {:induction false} ValueFits(b: seq<Byte>)
    ensures Value(b) < Pow256(|b|)
    ensures Bytes(Value(b), |b|) == b
  {
    if b != [] {
      ValueFits(b[1..]);
      var rest := Value(b[1..]);
      assert Value(b) == b[0] + 0x100 * rest;
      LowByte(b[0], rest);
      assert Bytes(Value(b), |b|) == [b[0]] + Bytes(rest, |b| - 1);
    }
  }

  const U256_END: nat := 0x1_0000_0000_0000_0000_0000_0000_0000_0000_0000_0000_0000_0000_0000_0000_0000_0000

  lemma Pow256Is(n: nat)
    requires n == 32
    ensures Pow256(n) == U256_END
  {
    assert Pow256(4) == 0x1_0000_0000;
    PowAdd(4, 4);
    PowAdd(8, 8);
    PowAdd(16, 16);
  }

  lemma {:induction false} PowAdd(a: nat, b: nat)
    ensures Pow256(a + b) == Pow256(a) * Pow256(b)
  {
    if a > 0 {
      PowAdd(a - 1, b);
    }
  }

  lemma {:induction false} PowGrows(a: nat, b: nat)
    requires a <= b
    ensures Pow256(a) <= Pow256(b)
    decreases b
  {
    if a < b {
      PowGrows(a, b - 1);
    }
  }

  /** `U256::from_little_endian`, which takes up to 32 bytes and panics on more. */
  method FromLittleEndian(b: seq<Byte>) returns (v: Option<nat>)
    ensures v == if |b| <= 32 then Some(Value(b)) else None
    ensures v.Some? ==> v.value < U256_END
  {
    var width := 8 * 4;
    if |b| > width {
      return None;
    }
    ValueFits(b);
    PowGrows(|b|, width);
    Pow256Is(width);
    v := Some(Value(b));
  }

  /** `U256::to_little_endian`. */
  method ToLittleEndian(v: nat) returns (b: seq<Byte>)
    requires v < U256_END
    ensures |b| == 32 && Value(b) == v
  {
    var width := 8 * 4;
    Pow256Is(width);
    b := Bytes(v, width);
    BytesRoundTrip(v, width);
  }
}
