/** Machine bytes and words as ranges of `int`, byte orders, and bitwise exclusive or.
    Everything that wraps around in the firmware wraps explicitly in this model. */
module Bytes {
  type byte = x: int | 0 <= x < 0x100
  type u16 = x: int | 0 <= x < 0x1_0000
  type u32 = x: int | 0 <= x < 0x1_0000_0000

  const U32_RANGE := 0x1_0000_0000

  /** Hardware (MAC) and IPv4 addresses are byte strings of fixed length. */
  type Mac = s: seq<byte> | |s| == 6 witness [0, 0, 0, 0, 0, 0]
  type Ip = s: seq<byte> | |s| == 4 witness [0, 0, 0, 0]

  const ZERO_IP: Ip := [0, 0, 0, 0]

  /** Wrapping around twice is wrapping around once. */
  lemma WrapsAround(x: int, y: int)
    ensures (x % U32_RANGE + y) % U32_RANGE == (x + y) % U32_RANGE
  {
    var q := x / U32_RANGE;
    assert x + y == q * U32_RANGE + (x % U32_RANGE + y);
  }

  function Repeat(b: byte, n: nat): (s: seq<byte>)
    ensures |s| == n && forall i :: 0 <= i < n ==> s[i] == b
  {
    seq(n, _ => b)
  }

  function Le16(n: u16): (s: seq<byte>)
    ensures |s| == 2
  {
    [n % 256, n / 256]
  }

  function Be16(n: u16): (s: seq<byte>)
    ensures |s| == 2
  {
    [n / 256, n % 256]
  }

  function Le32(n: u32): (s: seq<byte>)
    ensures |s| == 4
  {
    [n % 256, n / 256 % 256, n / 65536 % 256, n / 16777216]
  }

  function Be32(n: u32): (s: seq<byte>)
    ensures |s| == 4
  {
    [n / 16777216, n / 65536 % 256, n / 256 % 256, n % 256]
  }

  function FromLe16(lo: byte, hi: byte): u16 {
    lo + 256 * hi
  }

  function FromBe16(hi: byte, lo: byte): u16 {
    256 * hi + lo
  }

  function FromLe32(a: byte, b: byte, c: byte, d: byte): u32 {
    a + 256 * b + 65536 * c + 16777216 * d
  }

  function FromBe32(a: byte, b: byte, c: byte, d: byte): u32 {
    FromLe32(d, c, b, a)
  }

  /** The four digits of a word in base 256. */
  lemma Le32Digits(a: byte, b: byte, c: byte, d: byte)
    ensures var m := FromLe32(a, b, c, d);
            m % 256 == a && m / 256 % 256 == b && m / 65536 % 256 == c && m / 16777216 == d
  {
    var m := FromLe32(a, b, c, d);
    assert m / 256 == b + 256 * c + 65536 * d;
    assert m / 65536 == c + 256 * d;
  }

  /** Reading back a little-endian word. */
  lemma Le32RoundTrip(n: u32)
    ensures var s := Le32(n); FromLe32(s[0], s[1], s[2], s[3]) == n
  {
    assert n / 256 / 256 == n / 65536 && n / 65536 / 256 == n / 16777216;
  }

  function Pow2(k: nat): (p: nat)
    ensures p > 0
  {
    if k == 0 then 1 else 2 * Pow2(k - 1)
  }

  lemma WordRange()
    ensures Pow2(32) == U32_RANGE
  {
    assert Pow2(8) == 256;
    assert Pow2(16) == 65536;
    assert Pow2(24) == 16777216;
  }

  /** Exclusive or, bit by bit. */
  function Xor(a: nat, b: nat): nat {
    if a == 0 then b else 2 * Xor(a / 2, b / 2) + (a % 2 + b % 2) % 2
  }

  lemma {:induction false} XorHalves(a: nat, b: nat)
    ensures Xor(a, b) / 2 == Xor(a / 2, b / 2)
    ensures Xor(a, b) % 2 == (a % 2 + b % 2) % 2
  {
  }

  lemma {:induction false} XorBound(a: nat, b: nat, k: nat)
    requires a < Pow2(k) && b < Pow2(k)
    ensures Xor(a, b) < Pow2(k)
  {
    if k > 0 && a > 0 {
      XorBound(a / 2, b / 2, k - 1);
    }
  }

  /** Exclusive or loses no information about its right operand... */
  lemma {:induction false} XorInjectiveRight(a: nat, b: nat, c: nat)
    requires Xor(a, b) == Xor(a, c)
    ensures b == c
  {
    if a > 0 {
      XorHalves(a, b);
      XorHalves(a, c);
      XorInjectiveRight(a / 2, b / 2, c / 2);
      SameParity(a, b, c);
      SameHalves(b, c);
    }
  }

  lemma SameParity(a: nat, b: nat, c: nat)
    requires (a % 2 + b % 2) % 2 == (a % 2 + c % 2) % 2
    ensures b % 2 == c % 2
  {
  }

  lemma SameHalves(a: nat, b: nat)
    requires a / 2 == b / 2 && a % 2 == b % 2
    ensures a == b
  {
  }

  /** ... nor about its left operand. */
  lemma {:induction false} XorInjectiveLeft(a: nat, b: nat, c: nat)
    requires Xor(a, c) == Xor(b, c)
    ensures a == b
    decreases a + b
  {
    if a > 0 || b > 0 {
      XorHalves(a, c);
      XorHalves(b, c);
      XorInjectiveLeft(a / 2, b / 2, c / 2);
      SameParity(c, a, b);
      SameHalves(a, b);
    }
  }

  function Xor32(a: u32, b: u32): (r: u32) {
    WordRange();
    XorBound(a, b, 32);
    Xor(a, b)
  }

  /** Writes `src` over the bytes of `a` that start at `at`. */
  method CopyInto(a: array<byte>, at: nat, src: seq<byte>)
    requires at + |src| <= a.Length
    modifies a
    ensures forall k :: at <= k < at + |src| ==> a[k] == src[k - at]
    ensures forall k :: 0 <= k < at || at + |src| <= k < a.Length ==> a[k] == old(a[k])
  {
    for i := 0 to |src|
      invariant forall k :: at <= k < at + i ==> a[k] == src[k - at]
      invariant forall k :: 0 <= k < at || at + i <= k < a.Length ==> a[k] == old(a[k])
    {
      a[at + i] := src[i];
    }
  }
}
