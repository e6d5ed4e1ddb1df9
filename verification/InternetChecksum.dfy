/** The Internet checksum of src/protocol/dhcp_probe.rs: 16-bit big-endian words are added
    up in a 32-bit accumulator, carries are folded back in, and the result is complemented. */
module InternetChecksum {
  import opened Bytes

  /** The sum of the big-endian words of `bytes`; a last odd byte is a high byte. */
  function Words(bytes: seq<byte>): nat {
    if |bytes| == 0 then 0
    else if |bytes| == 1 then FromBe16(bytes[0], 0)
    else FromBe16(bytes[0], bytes[1]) + Words(bytes[2..])
  }

  /** The accumulator is 32 bits wide, and its wrap-around is part of the model. */
  method Sum(bytes: seq<byte>, initial: u32) returns (value: u32)
    ensures value == (initial + Words(bytes)) % U32_RANGE
  {
    value := initial;
    ghost var exact: nat := initial;
    var i := 0;
    while i + 1 < |bytes|
      invariant 0 <= i <= |bytes|
      invariant exact + Words(bytes[i..]) == initial + Words(bytes) && value == exact % U32_RANGE
    {
      assert bytes[i..][2..] == bytes[i + 2..];
      WrapsAround(exact, FromBe16(bytes[i], bytes[i + 1]));
      exact := exact + FromBe16(bytes[i], bytes[i + 1]);
      value := (value + FromBe16(bytes[i], bytes[i + 1])) % U32_RANGE;
      i := i + 2;
    }
    if i < |bytes| {
      WrapsAround(exact, FromBe16(bytes[i], 0));
      value := (value + FromBe16(bytes[i], 0)) % U32_RANGE;
    }
  }

  /** Folding carries back in until the value fits 16 bits. */
  function Fold(value: nat): u16 {
    if value > 0xffff then Fold(value % 0x1_0000 + value / 0x1_0000) else value
  }

  function Finished(value: nat): u16 {
    0xffff - Fold(value)
  }

  method Finish(initial: u32) returns (checksum: u16)
    ensures checksum == Finished(initial)
  {
    var value := initial;
    while value > 0xffff
      invariant Fold(value) == Fold(initial)
    {
      value := value % 0x1_0000 + value / 0x1_0000;
    }
    checksum := 0xffff - value;
  }

  /** `finish(sum(bytes, initial))`, free of wrap-around for every length the frames here can have. */
  method Checksum(bytes: seq<byte>, initial: u32) returns (checksum: u16)
    requires initial <= 0x10_0000 && |bytes| <= 0xffff
    ensures checksum == Finished(initial + Words(bytes))
  {
    var value := Sum(bytes, initial);
    WordsBound(bytes);
    assert value == initial + Words(bytes);
    checksum := Finish(value);
  }

  /** Folding is reduction modulo 65535, with 65535 itself standing for any nonzero multiple. */
  lemma {:induction false} FoldIsResidue(value: nat)
    ensures Fold(value) == if value == 0 then 0 else 1 + (value - 1) % 0xffff
  {
    if value > 0xffff {
      var high := value / 0x1_0000;
      var next := value % 0x1_0000 + high;
      FoldIsResidue(next);
      assert value - 1 == next - 1 + high * 0xffff;
      ModuloShift(next - 1, high);
    }
  }

  lemma {:induction false} ModuloShift(x: nat, k: nat)
    ensures (x + k * 0xffff) % 0xffff == x % 0xffff
  {
    if k > 0 {
      ModuloShift(x, k - 1);
    }
  }

  /** A sum verifies exactly when it is a nonzero multiple of 65535. */
  lemma VerifiesIff(value: nat)
    ensures Finished(value) == 0 <==> value > 0 && value % 0xffff == 0
  {
    FoldIsResidue(value);
    if value > 0 {
      LastResidue(value);
    }
  }

  lemma LastResidue(value: nat)
    requires value > 0
    ensures (value - 1) % 0xffff == 0xfffe <==> value % 0xffff == 0
  {
    var q, r := (value - 1) / 0xffff, (value - 1) % 0xffff;
    assert value == r + 1 + q * 0xffff;
    ModuloShift(r + 1, q);
  }

  /** The accumulator of at most 65535 bytes plus a pseudo-header cannot overflow. */
  lemma {:induction false} WordsBound(bytes: seq<byte>)
    ensures Words(bytes) <= 0xffff * ((|bytes| + 1) / 2)
  {
    if |bytes| >= 2 {
      WordsBound(bytes[2..]);
    }
  }

  lemma {:induction false} WordsUpdate(bytes: seq<byte>, i: nat, b: byte)
    requires i < |bytes|
    ensures i % 2 == 0 ==> Words(bytes[i := b]) == Words(bytes) + 256 * (b - bytes[i]) as int
    ensures i % 2 == 1 ==> Words(bytes[i := b]) == Words(bytes) + (b - bytes[i]) as int
  {
    if i >= 2 {
      assert bytes[i := b][2..] == bytes[2..][i - 2 := b];
      WordsUpdate(bytes[2..], i - 2, b);
    } else if |bytes| >= 2 {
      assert bytes[i := b][2..] == bytes[2..];
    }
  }

  /** Regions of even length add up. */
  lemma {:induction false} WordsSplit(a: seq<byte>, b: seq<byte>)
    requires |a| % 2 == 0
    ensures Words(a + b) == Words(a) + Words(b)
  {
    if a == [] {
      assert a + b == b;
    } else {
      assert (a + b)[2..] == a[2..] + b;
      WordsSplit(a[2..], b);
    }
  }

  /** Adding to a sum that verifies keeps it verifying exactly for multiples of 65535. */
  lemma StillVerifiesIff(value: nat, other: nat, change: nat)
    requires Finished(value) == 0 && other > 0 && (other == value + change || value == other + change)
    ensures Finished(other) == 0 <==> change % 0xffff == 0
  {
    VerifiesIff(value);
    VerifiesIff(other);
    var q, r := change / 0xffff, other / 0xffff;
    assert change == change % 0xffff + q * 0xffff && other == other % 0xffff + r * 0xffff;
    if other == value + change {
      ModuloShift(value + change % 0xffff, q);
      ModuloShift(change % 0xffff, value / 0xffff);
      assert value == value / 0xffff * 0xffff;
    } else {
      ModuloShift(other % 0xffff + change % 0xffff, q + r);
      assert value == other % 0xffff + change % 0xffff + (q + r) * 0xffff;
    }
  }

  /** Storing a word in a zeroed, aligned field adds it to the sum. */
  lemma FilledWords(bytes: seq<byte>, k: nat, c: u16)
    requires k + 1 < |bytes| && k % 2 == 0 && bytes[k] == bytes[k + 1] == 0
    ensures Words(bytes[k := c / 256][k + 1 := c % 256]) == Words(bytes) + c
  {
    var high: byte, low: byte := c / 256, c % 256;
    WordsUpdate(bytes, k, high);
    var half: seq<byte> := bytes[k := high];
    WordsUpdate(half, k + 1, low);
  }

  /** Storing the complement of the sum in a zeroed, aligned field makes the region verify. */
  lemma FilledRegionVerifies(initial: nat, bytes: seq<byte>, k: nat)
    requires k + 1 < |bytes| && k % 2 == 0 && bytes[k] == bytes[k + 1] == 0
    ensures var c := Finished(initial + Words(bytes));
            Finished(initial + Words(bytes[k := c / 256][k + 1 := c % 256])) == 0
  {
    FilledWords(bytes, k, Finished(initial + Words(bytes)));
    ComplementVerifies(initial + Words(bytes));
  }

  lemma ComplementVerifies(value: nat)
    ensures Finished(value + Finished(value)) == 0
  {
    FoldIsResidue(value);
    VerifiesIff(value + Finished(value));
    if value > 0 {
      var q := (value - 1) / 0xffff;
      assert value - 1 == q * 0xffff + (value - 1) % 0xffff;
      assert value + Finished(value) == (q + 1) * 0xffff;
    }
  }

  /** Two sums that verify are a multiple of 65535 apart. */
  lemma VerifyingSumsApart(x: nat, y: nat)
    requires Finished(x) == 0 && Finished(y) == 0 && x - 0xffff < y < x + 0xffff
    ensures x == y
  {
    VerifiesIff(x);
    VerifiesIff(y);
    assert x == x / 0xffff * 0xffff && y == y / 0xffff * 0xffff;
  }

  /** Within a region of fixed extent, every change of one byte is noticed. */
  lemma OneByteChangeDetected(initial: nat, bytes: seq<byte>, i: nat, b: byte)
    requires Finished(initial + Words(bytes)) == 0
    requires i < |bytes| && b != bytes[i]
    ensures Finished(initial + Words(bytes[i := b])) != 0
  {
    WordsUpdate(bytes, i, b);
    if Finished(initial + Words(bytes[i := b])) == 0 {
      VerifyingSumsApart(initial + Words(bytes), initial + Words(bytes[i := b]));
    }
  }
}
