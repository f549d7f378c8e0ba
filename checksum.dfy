/** The 16-bit checksum of checksum.cc: the bytes are added into an
    `unsigned long`, the carries above bit 16 are folded back into the low
    16 bits until none is left (the end-around carry of section 4.1 of
    RFC 1071, here applied to single bytes), and the result is complemented.

    The buffer is a `char *`, and `char` is signed on the usual ABIs, so a
    byte 0x80..0xFF is sign-extended before it is added: it contributes
    `b - 256` modulo 2^64 to the sum. The model keeps that behaviour. */
module ChecksumTool {

  /** An octet of a buffer, as the unsigned value of its bits. */
  type Byte = x: int | 0 <= x < 256

  /** The range of an `unsigned long` accumulator. */
  const Word64: int := 0x1_0000_0000_0000_0000
  /** The range of an `unsigned short`. */
  const Word16: int := 0x1_0000
  /** The modulus of ones'-complement arithmetic on 16 bits. */
  const OnesModulus: int := 0xFFFF

  /** The value a `char` read through a signed `char *` has. */
  function ToSigned(b: Byte): (v: int)
    ensures -128 <= v < 128
    ensures v % 256 == b
  {
    if b < 128 then b else b - 256
  }

  /** The exact sum of the sign-extended bytes. */
  function SignedSum(bs: seq<Byte>): int
  {
    if bs == [] then 0 else SignedSum(bs[..|bs| - 1]) + ToSigned(bs[|bs| - 1])
  }

  /** The content of the `unsigned long` accumulator once every byte is
      added, each addition wrapping around modulo 2^64. */
  function Accumulated(bs: seq<Byte>): (acc: int)
    ensures 0 <= acc < Word64
  {
    if bs == [] then 0 else (Accumulated(bs[..|bs| - 1]) + ToSigned(bs[|bs| - 1])) % Word64
  }

  /** What end-around-carry folding leaves of `x`: the representative of
      `x` modulo 0xFFFF in 1..0xFFFF, and 0 only for 0. */
  function EndAroundFold(x: nat): (r: nat)
  {
    if x == 0 then 0 else (x - 1) % OnesModulus + 1
  }

  /** The checksum `gen_checksum` returns for the bytes `bs`. */
  function Checksum(bs: seq<Byte>): (c: int)
    ensures 0 <= c < Word16
  {
    OnesModulus - EndAroundFold(Accumulated(bs))
  }

  /** The checksum is the ones'-complement of the byte sum reduced modulo
      0xFFFF, and it is 0xFFFF exactly when the accumulator is zero. */
  lemma ChecksumResidue(bs: seq<Byte>)
    ensures (OnesModulus - Checksum(bs)) % OnesModulus == Accumulated(bs) % OnesModulus
    ensures Checksum(bs) == OnesModulus <==> Accumulated(bs) == 0
  {
    var x := Accumulated(bs);
    if x != 0 {
      var r := (x - 1) % OnesModulus;
      assert x - 1 == OnesModulus * ((x - 1) / OnesModulus) + r;
      ModMultiple(r + 1, -((x - 1) / OnesModulus));
    }
  }

  /** One fold step strictly decreases a sum that has bits above bit 15,
      keeps it positive, and keeps its residue modulo 0xFFFF. */
  lemma FoldStep(x: int)
    requires x >= Word16
    ensures 0 < x % Word16 + x / Word16 < x
    ensures (x % Word16 + x / Word16) % OnesModulus == x % OnesModulus
  {
    var q, r := x / Word16, x % Word16;
    assert x == Word16 * q + r;
    assert r + q == x - OnesModulus * q;
    ModMultiple(x, q);
  }

  lemma ModMultiple(x: int, q: int)
    ensures (x - OnesModulus * q) % OnesModulus == x % OnesModulus
  {
    var a := x - OnesModulus * q;
    assert a == OnesModulus * (a / OnesModulus) + a % OnesModulus;
    assert x == OnesModulus * (a / OnesModulus + q) + a % OnesModulus;
  }

  /** A sum below 2^16 that agrees with `x` modulo 0xFFFF, and is zero
      exactly when `x` is, is the fold of `x`. */
  lemma FoldedIsEndAroundFold(x: nat, s: nat)
    requires s < Word16
    requires s % OnesModulus == x % OnesModulus
    requires s == 0 <==> x == 0
    ensures s == EndAroundFold(x)
  {
    if x != 0 {
      ModMultiple(x - 1, (x - 1) / OnesModulus - (s - 1) / OnesModulus);
      assert (s - 1) % OnesModulus == s - 1;
      assert x - 1 == OnesModulus * ((x - 1) / OnesModulus) + (x - 1) % OnesModulus;
      assert s == OnesModulus * (s / OnesModulus) + s % OnesModulus;
      assert x == OnesModulus * (x / OnesModulus) + x % OnesModulus;
    }
  }

  /** Wrapping after every addition leaves what wrapping the exact sum once
      leaves. */
  lemma {:induction false} AccumulatedIsSignedSum(bs: seq<Byte>)
    ensures Accumulated(bs) == SignedSum(bs) % Word64
  {
    if bs != [] {
      var init := bs[..|bs| - 1];
      AccumulatedIsSignedSum(init);
      var a := SignedSum(init);
      assert a == Word64 * (a / Word64) + a % Word64;
      ModMultiple64(a + ToSigned(bs[|bs| - 1]), a / Word64);
    }
  }

  lemma ModMultiple64(x: int, q: int)
    ensures (x - Word64 * q) % Word64 == x % Word64
  {
    var a := x - Word64 * q;
    assert a == Word64 * (a / Word64) + a % Word64;
    assert x == Word64 * (a / Word64 + q) + a % Word64;
  }

  /** checksum_tool::gen_checksum: sum the first `n` bytes into an
      `unsigned long`, fold the carries, return the complement truncated to
      an `unsigned short`. No byte past the first `n` is read, and `n <= 0`
      sums nothing. */
  method GenChecksum(buf: seq<Byte>, n: int) returns (c: int)
    requires n <= |buf|
    ensures n <= 0 ==> c == 0xFFFF
    ensures c == Checksum(buf[..if n > 0 then n else 0])
  {
    var count := if n > 0 then n else 0;
    var sum := 0;
    var i := 0;
    while i < count
      invariant 0 <= i <= count
      invariant sum == Accumulated(buf[..i])
    {
      assert buf[..i + 1][..i] == buf[..i];
      sum := (sum + ToSigned(buf[i])) % Word64;
      i := i + 1;
    }
    assert buf[..count] == buf[..i];
    ghost var total := sum;
    while sum / Word16 != 0
      invariant 0 <= sum < Word64
      invariant sum % OnesModulus == total % OnesModulus
      invariant sum == 0 <==> total == 0
      decreases sum
    {
      FoldStep(sum);
      sum := sum % Word16 + sum / Word16;
    }
    FoldedIsEndAroundFold(total, sum);
    c := (Word64 - 1 - sum) % Word16;
    assert Word64 - 1 - sum == Word16 * (Word64 / Word16 - 1) + (OnesModulus - sum);
    ModMultiple16(OnesModulus - sum, Word64 / Word16 - 1);
  }

  lemma ModMultiple16(x: int, q: int)
    requires 0 <= x < Word16
    ensures (x + Word16 * q) % Word16 == x
  {
    var a := x + Word16 * q;
    assert a == Word16 * (a / Word16) + a % Word16;
    assert Word16 * (q - a / Word16) == a % Word16 - x;
  }

  /** checksum_tool::verify_checksum: accept exactly when the supplied
      checksum equals the one generated over the same bytes, so the
      checksum of a range always verifies against that range. */
  method VerifyChecksum(buf: seq<Byte>, n: int, checksum: int) returns (ok: bool)
    requires n <= |buf|
    ensures ok <==> checksum == Checksum(buf[..if n > 0 then n else 0])
  {
    var sum := GenChecksum(buf, n);
    ok := sum == checksum;
  }

  /** The sum of a concatenation is the sum of the parts. */
  lemma {:induction false} SignedSumAppend(a: seq<Byte>, b: seq<Byte>)
    ensures SignedSum(a + b) == SignedSum(a) + SignedSum(b)
    decreases |b|
  {
    if b == [] {
      assert a + b == a;
    } else {
      var b' := b[..|b| - 1];
      assert (a + b)[..|a + b| - 1] == a + b';
      SignedSumAppend(a, b');
    }
  }

  /** A sequence is the part before position `j`, the element there and
      the part after. */
  lemma SplitAt<T>(b: seq<T>, j: int)
    requires 0 <= j < |b|
    ensures b == (b[..j] + [b[j]]) + b[j + 1..]
  {
    assert b[j..] == [b[j]] + b[j + 1..];
    assert b == b[..j] + b[j..];
  }

  /** Removing one byte from the middle removes its value from the sum. */
  lemma RemoveAtSum(l: seq<Byte>, x: Byte, r: seq<Byte>)
    ensures SignedSum((l + [x]) + r) == SignedSum(l + r) + ToSigned(x)
  {
    SignedSumAppend(l + [x], r);
    SignedSumAppend(l, [x]);
    SignedSumAppend(l, r);
    assert SignedSum([x]) == ToSigned(x) by {
      assert [x][..0] == [];
    }
  }

  /** Taking the last byte of `a` out of `a`, and one copy of it out of a
      reordering `b` of `a`, leaves a reordering. */
  lemma RemoveMatching(a: seq<Byte>, b: seq<Byte>, j: int)
    requires multiset(a) == multiset(b) && a != []
    requires 0 <= j < |b| && b[j] == a[|a| - 1]
    ensures multiset(a[..|a| - 1]) == multiset(b[..j] + b[j + 1..])
  {
    var a', x, l, r := a[..|a| - 1], a[|a| - 1], b[..j], b[j + 1..];
    assert a == a' + [x];
    SplitAt(b, j);
    assert multiset(b) == multiset(l + [x]) + multiset(r);
    assert multiset(l + [x]) == multiset(l) + multiset{x};
    assert multiset(l + r) == multiset(l) + multiset(r);
    assert multiset(a) == multiset(a') + multiset{x};
    assert multiset(a') == multiset(a) - multiset{x};
    assert multiset(l + r) == multiset(b) - multiset{x};
  }

  /** Reordering the bytes leaves the sum unchanged. */
  lemma {:induction false} SignedSumPermutation(a: seq<Byte>, b: seq<Byte>)
    requires multiset(a) == multiset(b)
    ensures SignedSum(a) == SignedSum(b)
    decreases |a|
  {
    if a != [] {
      var x := a[|a| - 1];
      assert x in multiset(b) by {
        assert x in a;
      }
      var j :| 0 <= j < |b| && b[j] == x;
      SplitAt(b, j);
      RemoveAtSum(b[..j], x, b[j + 1..]);
      RemoveMatching(a, b, j);
      SignedSumPermutation(a[..|a| - 1], b[..j] + b[j + 1..]);
    }
  }

  /** The checksum does not depend on the order of the bytes. */
  lemma ChecksumPermutation(a: seq<Byte>, b: seq<Byte>)
    requires multiset(a) == multiset(b)
    ensures Checksum(a) == Checksum(b)
  {
    SignedSumPermutation(a, b);
    AccumulatedIsSignedSum(a);
    AccumulatedIsSignedSum(b);
  }
}
