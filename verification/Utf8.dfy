/** Cutting a user name down to 32 bytes without cutting a character, over UTF-8 as in RFC 3629. */
module Utf8 {
  import opened Prelude

  const MAX_USER_IDENTITY_BYTES: nat := 32

  predicate IsContinuation(b: Byte) {
    0x80 <= b <= 0xBF
  }

  /** How many bytes a character with this first byte has, and 0 if no character starts with it. */
  function Width(first: Byte): nat {
    if first <= 0x7F then 1
    else if 0xC2 <= first <= 0xDF then 2
    else if 0xE0 <= first <= 0xEF then 3
    else if 0xF0 <= first <= 0xF4 then 4
    else 0
  }

  /** No overlong forms, no surrogates, nothing beyond U+10FFFF: all decided by the second byte. */
  predicate SecondByteFits(first: Byte, second: Byte) {
    && IsContinuation(second)
    && (first == 0xE0 ==> second >= 0xA0)
    && (first == 0xED ==> second <= 0x9F)
    && (first == 0xF0 ==> second >= 0x90)
    && (first == 0xF4 ==> second <= 0x8F)
  }

  predicate StartsWithCharacter(s: seq<Byte>)
    requires s != []
  {
    var n := Width(s[0]);
    && 1 <= n <= |s|
    && (n > 1 ==> SecondByteFits(s[0], s[1]))
    && forall i :: 2 <= i < n ==> IsContinuation(s[i])
  }

  /** A sequence of whole characters. */
  predicate Valid(s: seq<Byte>) {
    s == [] || (StartsWithCharacter(s) && Valid(s[Width(s[0])..]))
  }

  // ---- What is valid, by the table of section 3 of RFC 3629 ------------------------------------

  /** A character number that is no surrogate. */
  type Scalar = c: nat | c < 0xD800 || 0xE000 <= c < 0x11_0000

  /** The low six bits after dropping `drop` groups of six. */
  function Six(c: nat, drop: nat): (b: Byte)
    ensures IsContinuation(b)
  {
    var rest := if drop == 0 then c else if drop == 1 then c / 0x40 else c / 0x1000;
    0x80 + rest % 0x40
  }

  function Encode(c: Scalar): (s: seq<Byte>)
    ensures s != []
  {
    if c < 0x80 then [c]
    else if c < 0x800 then [0xC0 + c / 0x40, Six(c, 0)]
    else if c < 0x1_0000 then [0xE0 + c / 0x1000, Six(c, 1), Six(c, 0)]
    else [0xF0 + c / 0x4_0000, Six(c, 2), Six(c, 1), Six(c, 0)]
  }

  function EncodeAll(text: seq<Scalar>): seq<Byte> {
    if text == [] then [] else Encode(text[0]) + EncodeAll(text[1..])
  }

  lemma EncodingFits(c: Scalar)
    ensures Width(Encode(c)[0]) == |Encode(c)| && StartsWithCharacter(Encode(c))
  {
    hide Six;
    var s := Encode(c);
    assert c >= 0x1_0000 ==> IsContinuation(s[3]);
    assert c >= 0x800 ==> IsContinuation(s[2]);
    if c >= 0x80 {
      SecondByte(c);
    }
  }

  lemma SecondByte(c: Scalar)
    requires c >= 0x80
    ensures SecondByteFits(Encode(c)[0], Encode(c)[1])
  {
  }

  lemma EncodingStarts(c: Scalar, rest: seq<Byte>)
    ensures StartsWithCharacter(Encode(c) + rest) && Width((Encode(c) + rest)[0]) == |Encode(c)|
  {
    EncodingFits(c);
    hide Encode;
    var s := Encode(c) + rest;
    assert forall i :: 0 <= i < |Encode(c)| ==> s[i] == Encode(c)[i];
  }

  lemma Groups(high: nat, low: nat)
    requires low < 0x40
    ensures (high * 0x40 + low) / 0x40 == high && (high * 0x40 + low) % 0x40 == low
  {
  }

  lemma TwoBytes(a: nat, b: nat) returns (c: Scalar)
    requires 2 <= a < 0x20 && b < 0x40
    ensures Encode(c) == [0xC0 + a, 0x80 + b]
  {
    c := a * 0x40 + b;
    Groups(a, b);
  }

  lemma ThreeBytes(a: nat, b: nat, d: nat) returns (c: Scalar)
    requires a < 0x10 && b < 0x40 && d < 0x40
    requires (a == 0 ==> b >= 0x20) && (a == 0xD ==> b < 0x20)
    ensures Encode(c) == [0xE0 + a, 0x80 + b, 0x80 + d]
  {
    var n := (a * 0x40 + b) * 0x40 + d;
    c := n;
    Groups(a, b);
    Groups(a * 0x40 + b, d);
    assert n / 0x1000 == n / 0x40 / 0x40;
  }

  lemma FourBytes(a: nat, b: nat, d: nat, e: nat) returns (c: Scalar)
    requires a < 5 && b < 0x40 && d < 0x40 && e < 0x40
    requires (a == 0 ==> b >= 0x10) && (a == 4 ==> b < 0x10)
    ensures Encode(c) == [0xF0 + a, 0x80 + b, 0x80 + d, 0x80 + e]
  {
    var n := ((a * 0x40 + b) * 0x40 + d) * 0x40 + e;
    c := n;
    Groups(a, b);
    Groups(a * 0x40 + b, d);
    Groups((a * 0x40 + b) * 0x40 + d, e);
    assert n / 0x1000 == n / 0x40 / 0x40 && n / 0x4_0000 == n / 0x1000 / 0x40;
  }

  lemma StartIsEncoding(s: seq<Byte>) returns (c: Scalar)
    requires s != [] && StartsWithCharacter(s)
    ensures Encode(c) == s[..Width(s[0])]
  {
    hide Encode;
    match Width(s[0])
    case 1 =>
      c := s[0];
      OneByte(s[0]);
    case 2 =>
      c := TwoBytes(s[0] - 0xC0, s[1] - 0x80);
    case 3 =>
      c := ThreeBytes(s[0] - 0xE0, s[1] - 0x80, s[2] - 0x80);
    case _ =>
      c := FourBytes(s[0] - 0xF0, s[1] - 0x80, s[2] - 0x80, s[3] - 0x80);
  }

  lemma OneByte(b: Byte)
    requires b < 0x80
    ensures Encode(b) == [b]
  {
  }

  /** A byte string is valid exactly if it is the encoding of some text. */
  lemma ValidExactly(s: seq<Byte>)
    ensures Valid(s) <==> exists text :: s == EncodeAll(text)
  {
    if Valid(s) {
      var text := Decoded(s);
    }
    if text :| s == EncodeAll(text) {
      EncodedIsValid(text);
    }
  }

  lemma {:induction false} EncodedIsValid(text: seq<Scalar>)
    ensures Valid(EncodeAll(text))
  {
    hide Encode, Width, StartsWithCharacter;
    if text != [] {
      var rest := EncodeAll(text[1..]);
      EncodedIsValid(text[1..]);
      EncodingStarts(text[0], rest);
      assert (Encode(text[0]) + rest)[|Encode(text[0])|..] == rest;
    }
  }

  lemma {:induction false} Decoded(s: seq<Byte>) returns (text: seq<Scalar>)
    requires Valid(s)
    ensures s == EncodeAll(text)
    decreases |s|
  {
    if s == [] {
      text := [];
    } else {
      var n := Width(s[0]);
      var c := StartIsEncoding(s);
      var rest := Decoded(s[n..]);
      text := [c] + rest;
      assert text[1..] == rest && s == s[..n] + s[n..];
    }
  }

  /** `str::is_char_boundary`, which looks at one byte only. */
  predicate IsCharBoundary(s: seq<Byte>, i: nat) {
    i == 0 || i == |s| || (i < |s| && !IsContinuation(s[i]))
  }

  lemma SliceOfSlice(s: seq<Byte>, n: nat, i: nat)
    requires n <= i <= |s|
    ensures s[..i][n..] == s[n..][..i - n]
  {
  }

  /** A prefix that holds the first character starts with it. */
  lemma PrefixStarts(s: seq<Byte>, i: nat)
    requires s != [] && StartsWithCharacter(s) && Width(s[0]) <= i <= |s|
    ensures s[..i][0] == s[0] && StartsWithCharacter(s[..i])
  {
    var p := s[..i];
    assert forall k :: 0 <= k < Width(s[0]) ==> p[k] == s[k];
  }

  /** Looking at one byte is enough: in valid text a boundary is where a valid prefix ends. */
  lemma {:induction false} BoundaryEndsValidPrefix(s: seq<Byte>, i: nat)
    requires Valid(s) && i <= |s|
    ensures IsCharBoundary(s, i) <==> Valid(s[..i])
    decreases |s|
  {
    if 0 < i {
      var n := Width(s[0]);
      if i < n {
        assert IsContinuation(s[i]);
        assert s[..i][0] == s[0];
      } else {
        BoundaryEndsValidPrefix(s[n..], i - n);
        SliceOfSlice(s, n, i);
        PrefixStarts(s, i);
        assert i < |s| ==> s[i] == s[n..][i - n];
        if i == n < |s| {
          assert StartsWithCharacter(s[n..]) && !IsContinuation(s[n..][0]);
        }
      }
    }
  }

  /** A character has at most four bytes, so a boundary is never far. */
  lemma {:induction false} BoundaryWithinThree(s: seq<Byte>, i: nat) returns (j: nat)
    requires Valid(s) && i <= |s|
    ensures j <= i <= j + 3 && IsCharBoundary(s, j)
    decreases |s|
  {
    if i == 0 || i < Width(s[0]) {
      j := 0;
    } else {
      var n := Width(s[0]);
      var k := BoundaryWithinThree(s[n..], i - n);
      j := k + n;
      if j < |s| {
        assert s[j] == s[n..][k];
        if k == 0 {
          assert StartsWithCharacter(s[n..]);
        }
      }
    }
  }

  /** The longest valid prefix that fits; the loop goes back three bytes at most. */
  method TlvCompatibleUsername(s: seq<Byte>) returns (r: seq<Byte>)
    requires Valid(s)
    ensures r <= s && Valid(r) && |r| <= 32
    ensures forall n :: |r| < n <= |s| && n <= 32 ==> !Valid(s[..n])
    ensures if |s| <= 32 then r == s else |r| >= 29
  {
    if |s| <= MAX_USER_IDENTITY_BYTES {
      return s;
    }
    var end := MAX_USER_IDENTITY_BYTES;
    ghost var near := BoundaryWithinThree(s, end);
    while end > 0 && !IsCharBoundary(s, end)
      invariant near <= end <= MAX_USER_IDENTITY_BYTES
      invariant forall n :: end < n <= MAX_USER_IDENTITY_BYTES ==> !Valid(s[..n])
    {
      BoundaryEndsValidPrefix(s, end);
      end := end - 1;
    }
    BoundaryEndsValidPrefix(s, end);
    r := s[..end];
  }
}
