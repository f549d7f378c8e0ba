/** The packet of rdt_struct.h: a fixed 128-byte buffer whose first seven
    bytes are a header written and read with `memcpy` and pointer casts.

      bytes [0, 2)    checksum, an `unsigned short`
      byte  2         payload length, a (signed) `char`
      bytes [3, 7)    sequence number, an `int`
      bytes [7, 128)  payload

    The multi-byte fields are taken as little-endian. The layout is
    captured by a record, `Fields`, with an encoder and a decoder that are
    inverse bijections between well-formed records and packets. */
module RdtStruct {
  import opened ChecksumTool

  const PktSize: int := 128       // RDT_PKTSIZE
  const CheckSumSize: int := 2    // CHECK_SUMSIZE
  const PayLoadSize: int := 1     // PAY_LOADSIZE: the width of the length field
  const SeqNumSize: int := 4      // SEQ_NUMSIZE
  const HeadSize: int := CheckSumSize + PayLoadSize + SeqNumSize   // HEAD_SIZE
  /** The largest payload a packet carries. */
  const MaxPayload: int := PktSize - HeadSize
  const WindowSize: int := 10     // WINDOW_SIZE

  const Int32Min: int := -0x8000_0000
  const Int32Max: int := 0x7FFF_FFFF

  /** `struct packet`: exactly `RDT_PKTSIZE` bytes. */
  type Packet = p: seq<Byte> | |p| == PktSize witness seq(128, _ => 0)

  /** `n` zero bytes. */
  function Zeros(n: nat): (z: seq<Byte>)
    ensures |z| == n
    ensures forall i :: 0 <= i < n ==> z[i] == 0
  {
    seq(n, _ => 0)
  }

  /** A packet whose every byte is zero: what `resize` value-initialises. */
  const Blank: Packet := Zeros(PktSize)

  /** The header is seven bytes, a full payload is 121 bytes, and 121 is a
      non-negative `char`, so the length field can hold every payload size. */
  lemma HeaderLayout()
    ensures HeadSize == 7 && MaxPayload == 121
    ensures 0 < MaxPayload < 128 && MaxPayload + HeadSize == PktSize
    ensures WindowSize > 0
  {
  }

  /** The decoded header and payload of a packet. */
  datatype Fields = Fields(checksum: int, len: int, seqNum: int, payload: seq<Byte>)

  /** Every field within the range of its C type, and a full-width payload. */
  predicate WellFormed(f: Fields)
  {
    0 <= f.checksum < Word16 && -128 <= f.len < 128 &&
    Int32Min <= f.seqNum <= Int32Max && |f.payload| == MaxPayload
  }

  /** An `unsigned short` as it lies in memory. */
  function Le16(v: int): (b: seq<Byte>)
    requires 0 <= v < Word16
    ensures |b| == 2
  {
    [v % 256, v / 256]
  }

  function FromLe16(b: seq<Byte>): (v: int)
    requires |b| == 2
    ensures 0 <= v < Word16
  {
    b[0] + 256 * (b[1] as int)
  }

  lemma Le16Inverse(b: seq<Byte>)
    requires |b| == 2
    ensures Le16(FromLe16(b)) == b
  {
  }

  /** A two's-complement `int` as it lies in memory. */
  function Le32(v: int): (b: seq<Byte>)
    requires Int32Min <= v <= Int32Max
    ensures |b| == 4
  {
    var u := v % 0x1_0000_0000;
    [u % 0x100, u / 0x100 % 0x100, u / 0x100 / 0x100 % 0x100, u / 0x100 / 0x100 / 0x100]
  }

  lemma Le16RoundTrip(v: int)
    requires 0 <= v < Word16
    ensures FromLe16(Le16(v)) == v
  {
  }

  lemma Le32RoundTrip(v: int)
    requires Int32Min <= v <= Int32Max
    ensures FromLe32(Le32(v)) == v
  {
    var u := v % 0x1_0000_0000;
    var u1 := u / 0x100;
    var u2 := u1 / 0x100;
    var u3 := u2 / 0x100;
    Split256(u);
    Split256(u1);
    Split256(u2);
    assert u3 < 0x100;
    assert Le32(v) == [u % 0x100, u1 % 0x100, u2 % 0x100, u3];
    assert u == Unsigned32(Le32(v));
  }

  /** The four bytes read as an `unsigned int`. */
  function Unsigned32(b: seq<Byte>): (u: int)
    requires |b| == 4
    ensures 0 <= u < 0x1_0000_0000
  {
    b[0] + 0x100 * ((b[1] as int) + 0x100 * ((b[2] as int) + 0x100 * (b[3] as int)))
  }

  function FromLe32(b: seq<Byte>): (v: int)
    requires |b| == 4
    ensures Int32Min <= v <= Int32Max
  {
    var u := Unsigned32(b);
    if u <= Int32Max then u else u - 0x1_0000_0000
  }

  lemma Le32Inverse(b: seq<Byte>)
    requires |b| == 4
    ensures Le32(FromLe32(b)) == b
  {
    var u := Unsigned32(b);
    var v := FromLe32(b);
    assert v % 0x1_0000_0000 == u;
    var t1 := (b[1] as int) + 0x100 * ((b[2] as int) + 0x100 * (b[3] as int));
    var t2 := (b[2] as int) + 0x100 * (b[3] as int);
    DivMod256(b[0], t1);
    DivMod256(b[1], t2);
    DivMod256(b[2], b[3]);
  }

  lemma Split256(x: int)
    requires 0 <= x
    ensures x == x % 0x100 + 0x100 * (x / 0x100)
  {
  }

  lemma DivMod256(r: int, q: int)
    requires 0 <= r < 0x100
    ensures (r + 0x100 * q) % 0x100 == r && (r + 0x100 * q) / 0x100 == q
  {
  }

  /** Lay the fields out in a packet. */
  function Encode(f: Fields): (p: Packet)
    requires WellFormed(f)
  {
    Le16(f.checksum) + [f.len % 256] + Le32(f.seqNum) + f.payload
  }

  /** Decoding an encoded well-formed record gives the record back. */
  lemma DecodeEncode(f: Fields)
    requires WellFormed(f)
    ensures Decode(Encode(f)) == f
  {
    var p := Encode(f);
    assert p[..CheckSumSize] == Le16(f.checksum);
    assert p[CheckSumSize + PayLoadSize..HeadSize] == Le32(f.seqNum);
    assert p[HeadSize..] == f.payload;
    Le16RoundTrip(f.checksum);
    Le32RoundTrip(f.seqNum);
  }

  /** `*(unsigned short *)pkt->data`: the stored checksum. */
  function StoredChecksum(p: Packet): int { FromLe16(p[..CheckSumSize]) }
  /** `pkt->data[CHECK_SUMSIZE]`: the length byte, read as a `char`. */
  function LenOf(p: Packet): int { ToSigned(p[CheckSumSize]) }
  /** `*(int *)(pkt->data + CHECK_SUMSIZE + PAY_LOADSIZE)`: the sequence number. */
  function SeqOf(p: Packet): int { FromLe32(p[CheckSumSize + PayLoadSize..HeadSize]) }

  /** Read the fields of any packet, as the handlers' casts do. */
  function Decode(p: Packet): (f: Fields)
    ensures WellFormed(f)
  {
    Fields(StoredChecksum(p), LenOf(p), SeqOf(p), p[HeadSize..])
  }

  /** Every packet is the encoding of its fields: no two packets decode alike. */
  lemma EncodeDecode(p: Packet)
    ensures Encode(Decode(p)) == p
  {
    var f := Decode(p);
    Le16Inverse(p[..CheckSumSize]);
    Le32Inverse(p[CheckSumSize + PayLoadSize..HeadSize]);
    assert p == p[..CheckSumSize] + [p[CheckSumSize]] + p[CheckSumSize + PayLoadSize..HeadSize] + p[HeadSize..];
  }

  /** The bytes after the checksum field, through the payload, are the
      length byte, the sequence number and the first `len` payload bytes. */
  lemma CoveredBytes(p: Packet)
    requires 0 <= LenOf(p) <= MaxPayload
    ensures p[CheckSumSize..HeadSize + LenOf(p)]
         == [LenOf(p)] + Le32(SeqOf(p)) + p[HeadSize..HeadSize + LenOf(p)]
  {
    Le32Inverse(p[CheckSumSize + PayLoadSize..HeadSize]);
  }

  /** `buf_size` in both handlers: the length byte read as a `char`, plus
      the widths of the length and sequence fields. As written this may
      exceed the 126 bytes that follow the checksum field. */
  function CoveredLength(p: Packet): (n: int)
    ensures -123 <= n <= 132
  {
    LenOf(p) + PayLoadSize + SeqNumSize
  }

  /** A packet whose length byte is 0x7F makes the handlers checksum 132
      bytes starting at byte 2, six bytes beyond the end of the packet. */
  lemma CoveredLengthOverrunsPacket()
    ensures exists p: Packet :: CheckSumSize + CoveredLength(p) > PktSize
  {
    var p: Packet := seq(PktSize, i => if i == CheckSumSize then 0x7F else 0);
    assert CheckSumSize + CoveredLength(p) == 134;
  }

  /** The packet passes the checksum check: the covered bytes lie inside it
      and their checksum is the one stored in its first two bytes. */
  predicate Intact(p: Packet)
  {
    var n := CoveredLength(p);
    CheckSumSize + n <= PktSize &&
    StoredChecksum(p) == Checksum(p[CheckSumSize..CheckSumSize + (if n > 0 then n else 0)])
  }

  /** `memcpy(pkt.data, &checksum, CHECK_SUMSIZE)`: store a checksum in the
      first two bytes. When it is the checksum of the covered bytes, the
      packet passes the check. */
  function Seal(p: Packet, checksum: int): (q: Packet)
    requires 0 <= checksum < Word16
    ensures forall i :: CheckSumSize <= i < PktSize ==> q[i] == p[i]
    ensures StoredChecksum(q) == checksum
    ensures (0 <= CoveredLength(p) <= PktSize - CheckSumSize &&
             checksum == Checksum(p[CheckSumSize..][..CoveredLength(p)])) ==> Intact(q)
  {
    var q := Le16(checksum) + p[CheckSumSize..];
    assert q[..CheckSumSize] == Le16(checksum);
    Le16RoundTrip(checksum);
    assert q[CheckSumSize] == p[CheckSumSize];
    var n := CoveredLength(p);
    assert 0 <= n <= PktSize - CheckSumSize ==>
      q[CheckSumSize..CheckSumSize + n] == p[CheckSumSize..][..n];
    q
  }

  /** The checksum check both handlers run on an arriving packet
      (rdt_sender.cc, rdt_receiver.cc): read the stored checksum and the
      length byte, and verify the header-and-payload bytes. A length byte
      that would make the check read past the packet fails it. */
  method CheckPacket(p: Packet) returns (ok: bool)
    ensures ok ==> CheckSumSize + CoveredLength(p) <= PktSize
    ensures ok <==> Intact(p)
  {
    var checksum := FromLe16(p[..CheckSumSize]);
    var bufSize := ToSigned(p[CheckSumSize]) + PayLoadSize + SeqNumSize;
    if CheckSumSize + bufSize > PktSize {
      ok := false;
    } else {
      ok := VerifyChecksum(p[CheckSumSize..], bufSize, checksum);
      assert p[CheckSumSize..][..if bufSize > 0 then bufSize else 0]
          == p[CheckSumSize..CheckSumSize + (if bufSize > 0 then bufSize else 0)];
    }
  }

  /** Packet `i` of `ps` passes the checksum check and carries sequence
      number `base + i`. */
  ghost predicate Numbered(ps: seq<Packet>, base: int, i: int)
    requires 0 <= i < |ps|
  {
    Intact(ps[i]) && SeqOf(ps[i]) == base + i
  }

  /** Packets `ps` carry consecutive sequence numbers from `base` on, and
      each passes the checksum check. */
  ghost predicate Consecutive(ps: seq<Packet>, base: int)
  {
    forall i {:trigger Numbered(ps, base, i)} :: 0 <= i < |ps| ==> Numbered(ps, base, i)
  }

  lemma ConsecutiveAt(ps: seq<Packet>, base: int, i: int)
    requires Consecutive(ps, base) && 0 <= i < |ps|
    ensures Intact(ps[i]) && SeqOf(ps[i]) == base + i
  {
    assert Numbered(ps, base, i);
  }

  lemma ConsecutiveSingle(p: Packet, n: int)
    requires Intact(p) && SeqOf(p) == n
    ensures Consecutive([p], n)
  {
    assert Numbered([p], n, 0);
  }

  lemma ConsecutiveAppend(a: seq<Packet>, b: seq<Packet>, base: int)
    requires Consecutive(a, base) && Consecutive(b, base + |a|)
    ensures Consecutive(a + b, base)
  {
    forall i | 0 <= i < |a + b|
      ensures Numbered(a + b, base, i)
    {
      if i < |a| {
        assert Numbered(a, base, i);
      } else {
        assert Numbered(b, base + |a|, i - |a|);
      }
    }
  }

  lemma ConsecutiveDrop(ps: seq<Packet>, base: int, k: nat)
    requires Consecutive(ps, base) && k <= |ps|
    ensures Consecutive(ps[k..], base + k)
  {
    var rest, restBase := ps[k..], base + k;
    forall i | 0 <= i < |rest|
      ensures Numbered(rest, restBase, i)
    {
      assert Numbered(ps, base, k + i);
    }
  }
}
