/** The sender of rdt_sender.cc. A message from the upper layer is cut
    into packets of at most 121 payload bytes with consecutive sequence
    numbers and queued in `buffer`; `SendPacket` moves queued packets into
    the window of at most `WINDOW_SIZE` in-flight packets and hands each to
    the lower layer; acknowledgments slide the window; a timeout resends the
    oldest in-flight packet.

    The simulator calls are modelled as state: `Sender_ToLowerLayer`
    appends to the ghost log `sent`, and the retransmission timer is the
    flag `timerSet` (`Sender_StartTimer` sets it, `Sender_StopTimer` clears
    it, `Sender_isTimerSet` reads it). */
module RdtSender {
  import opened ChecksumTool
  import opened RdtStruct
  import opened AckTable

  /** The number of packets a message of `size` bytes is cut into. */
  function SegmentCount(size: nat): nat
  {
    (size + MaxPayload - 1) / MaxPayload
  }

  lemma SegmentCountStep(size: nat)
    requires size > MaxPayload
    ensures SegmentCount(size) == 1 + SegmentCount(size - MaxPayload)
  {
    assert size + MaxPayload - 1 == (size - MaxPayload + MaxPayload - 1) + MaxPayload;
  }

  /** The payloads `Sender_FromUpperLayer` cuts a message into: full
      121-byte chunks while more than 121 bytes remain, then the rest if
      any is left. */
  function Chunks(data: seq<Byte>): seq<seq<Byte>>
    decreases |data|
  {
    if |data| > MaxPayload then [data[..MaxPayload]] + Chunks(data[MaxPayload..])
    else if |data| > 0 then [data]
    else []
  }

  /** A message of `S` bytes is cut into `ceil(S / 121)` chunks, and an
      empty message into none. */
  lemma {:induction false} ChunksCount(data: seq<Byte>)
    ensures |Chunks(data)| == SegmentCount(|data|)
    ensures |data| == 0 <==> Chunks(data) == []
    decreases |data|
  {
    if |data| > MaxPayload {
      SegmentCountStep(|data|);
      ChunksCount(data[MaxPayload..]);
    }
  }

  /** Every chunk holds 1 to 121 bytes, and every chunk but the last
      exactly 121: no empty final packet is produced. */
  lemma {:induction false} ChunksSizes(data: seq<Byte>)
    ensures forall i :: 0 <= i < |Chunks(data)| ==> 0 < |Chunks(data)[i]| <= MaxPayload
    ensures forall i :: 0 <= i < |Chunks(data)| - 1 ==> |Chunks(data)[i]| == MaxPayload
    decreases |data|
  {
    if |data| > MaxPayload {
      ChunksSizes(data[MaxPayload..]);
    }
  }

  /** When more than `n + 1` full chunks' worth of bytes are there, chunk
      `n` is full, is not the last, and holds bytes `121 * n` on. */
  lemma {:induction false} ChunkAt(data: seq<Byte>, n: nat)
    requires MaxPayload * (n + 1) < |data|
    ensures n + 1 < |Chunks(data)|
    ensures Chunks(data)[n] == data[MaxPayload * n..MaxPayload * n + MaxPayload]
    decreases n
  {
    var rest := data[MaxPayload..];
    if n == 0 {
      assert Chunks(rest) != [];
    } else {
      ChunkAt(rest, n - 1);
      assert rest[MaxPayload * (n - 1)..MaxPayload * (n - 1) + MaxPayload]
          == data[MaxPayload * n..MaxPayload * n + MaxPayload];
    }
  }

  /** When 1 to 121 bytes are left after `n` full chunks, they form the
      last chunk. */
  lemma {:induction false} ChunksLast(data: seq<Byte>, n: nat)
    requires MaxPayload * n < |data| <= MaxPayload * n + MaxPayload
    ensures |Chunks(data)| == n + 1 && Chunks(data)[n] == data[MaxPayload * n..]
    decreases n
  {
    if n > 0 {
      var rest := data[MaxPayload..];
      ChunksLast(rest, n - 1);
      assert rest[MaxPayload * (n - 1)..] == data[MaxPayload * n..];
    }
  }

  /** The bytes of a sequence of chunks, laid end to end. */
  function Concat(cs: seq<seq<Byte>>): (bs: seq<Byte>)
  {
    if cs == [] then [] else cs[0] + Concat(cs[1..])
  }

  /** The chunks laid end to end are the message again. */
  lemma {:induction false} ChunksConcat(data: seq<Byte>)
    ensures Concat(Chunks(data)) == data
    decreases |data|
  {
    if |data| > MaxPayload {
      var cs := Chunks(data);
      assert cs[1..] == Chunks(data[MaxPayload..]);
      ChunksConcat(data[MaxPayload..]);
      assert data == data[..MaxPayload] + data[MaxPayload..];
    } else if |data| > 0 {
      assert Chunks(data)[1..] == [];
    }
  }

  /** Packet `p` carries `chunk`: its length byte is the chunk's size and
      its payload starts with the chunk. */
  predicate Carries(p: Packet, chunk: seq<Byte>)
  {
    |chunk| <= MaxPayload && LenOf(p) == |chunk| && p[HeadSize..HeadSize + |chunk|] == chunk
  }

  /** Packet `i` of `segs` carries chunk `i` of `cs`. */
  predicate CarriesAt(segs: seq<Packet>, cs: seq<seq<Byte>>, i: int)
    requires 0 <= i < |segs| && i < |cs|
  {
    Carries(segs[i], cs[i])
  }

  /** The packets `segs` carry the first `|segs|` chunks of `cs`, one each,
      in order. */
  predicate CarryPrefix(segs: seq<Packet>, cs: seq<seq<Byte>>)
  {
    |segs| <= |cs| &&
    forall i {:trigger CarriesAt(segs, cs, i)} :: 0 <= i < |segs| ==> CarriesAt(segs, cs, i)
  }

  lemma CarryPrefixAppend(segs: seq<Packet>, p: Packet, cs: seq<seq<Byte>>)
    requires CarryPrefix(segs, cs) && |segs| < |cs| && Carries(p, cs[|segs|])
    ensures CarryPrefix(segs + [p], cs)
  {
    var segs' := segs + [p];
    forall i | 0 <= i < |segs'|
      ensures CarriesAt(segs', cs, i)
    {
      if i < |segs| {
        assert CarriesAt(segs, cs, i);
      }
    }
  }

  /** `segs` are numbered consecutively from `base` on and carry the chunks `cs`, one
      each, in order. */
  ghost predicate Queued(segs: seq<Packet>, cs: seq<seq<Byte>>, base: int)
  {
    |segs| == |cs| && Consecutive(segs, base) && CarryPrefix(segs, cs)
  }

  /** `segs` are the packets of message `data` numbered from `base`: one
      per chunk, in order, each intact and carrying its chunk. */
  ghost predicate Segmentation(segs: seq<Packet>, data: seq<Byte>, base: int)
  {
    Queued(segs, Chunks(data), base)
  }

  /** How many queued packets `SendPacket` admits: all of them, or as many
      as the window has room for. */
  function Admitted(pending: int, capacity: int): int
  {
    if pending < WindowSize - capacity then pending else WindowSize - capacity
  }

  /** One packet of `Sender_FromUpperLayer`, written into its reused
      buffer `pkt`: the length byte, the sequence number, the payload, and
      last the checksum of the `covered` bytes after the checksum field
      (126 for a full chunk, the chunk size plus 5 for the last one: the
      same count). The packet passes the receiving check and carries
      `chunk` and `seqNum`; bytes past the payload keep what `pkt` held. */
  method WritePacket(pkt: Packet, seqNum: int, chunk: seq<Byte>, covered: int) returns (p: Packet)
    requires 0 < |chunk| <= MaxPayload && Int32Min <= seqNum <= Int32Max
    requires covered == |chunk| + PayLoadSize + SeqNumSize
    ensures Intact(p) && Carries(p, chunk) && SeqOf(p) == seqNum
    ensures p[HeadSize + |chunk|..] == pkt[HeadSize + |chunk|..]
  {
    p := pkt[CheckSumSize := |chunk|];
    p := p[..CheckSumSize + PayLoadSize] + Le32(seqNum) + p[HeadSize..];
    p := p[..HeadSize] + chunk + p[HeadSize + |chunk|..];
    var checksum := GenChecksum(p[CheckSumSize..], covered);
    ghost var body := p;
    assert body[CheckSumSize] == |chunk|;
    assert body[CheckSumSize + PayLoadSize..HeadSize] == Le32(seqNum);
    assert body[HeadSize..HeadSize + |chunk|] == chunk;
    assert body[HeadSize + |chunk|..] == pkt[HeadSize + |chunk|..];
    p := Seal(p, checksum);
    assert p[CheckSumSize] == body[CheckSumSize];
    assert p[CheckSumSize + PayLoadSize..HeadSize] == body[CheckSumSize + PayLoadSize..HeadSize];
    assert p[HeadSize..HeadSize + |chunk|] == body[HeadSize..HeadSize + |chunk|];
    assert p[HeadSize + |chunk|..] == body[HeadSize + |chunk|..];
    Le32RoundTrip(seqNum);
  }

  class Sender {
    var nowSeqNumber: int     // the next sequence number to assign
    var nowAck: int           // the oldest unacknowledged sequence number
    var capacity: int         // sender_current_capacity
    var window: seq<Packet>   // sender_window: sent, not yet acknowledged
    var ackTable: seq<bool>   // sender_ack_table, WINDOW_SIZE + 1 slots
    var buffer: seq<Packet>   // packets waiting for room in the window
    var timerSet: bool        // the retransmission timer is armed
    ghost var sent: seq<Packet>   // every packet handed to the lower layer

    /** What holds whenever the window has just been filled or slid. */
    ghost predicate Consistent()
      reads this
    {
      |ackTable| == WindowSize + 1 && !ackTable[0] && !ackTable[WindowSize] &&
      capacity == |window| <= WindowSize &&
      0 <= nowAck && nowAck + capacity + |buffer| == nowSeqNumber <= Int32Max &&
      Consecutive(window + buffer, nowAck)
    }

    /** What holds between events: packets wait only behind a full window,
        and the timer is armed only while something is in flight. */
    ghost predicate Valid()
      reads this
    {
      Consistent() &&
      (buffer != [] ==> capacity == WindowSize) &&
      (timerSet ==> window != [])
    }

    /** The state `Sender_Init` leaves: no packet, an ack table of
        `WINDOW_SIZE + 1` unmarked slots, no timer. */
    constructor ()
      ensures Valid()
      ensures nowSeqNumber == 0 && nowAck == 0 && capacity == 0
      ensures window == [] && buffer == [] && ackTable == Falses(WindowSize + 1)
      ensures !timerSet && sent == []
    {
      nowSeqNumber, nowAck, capacity := 0, 0, 0;
      window, buffer := [], [];
      ackTable := Falses(WindowSize + 1);
      timerSet := false;
      sent := [];
    }

    /** sendPacket: move packets from the front of the queue to the back of
        the window, sending each once, until the queue is empty or the
        window full; then arm the timer if the window is full, or stop it if
        nothing is left at all. */
    method SendPacket()
      requires Consistent()
      modifies this
      ensures Valid()
      ensures var m := Admitted(|old(buffer)|, old(capacity));
        window == old(window) + old(buffer)[..m] && buffer == old(buffer)[m..] &&
        sent == old(sent) + old(buffer)[..m]
      ensures timerSet == if capacity == WindowSize then true
                          else if capacity == 0 && buffer == [] then false
                          else old(timerSet)
      ensures nowSeqNumber == old(nowSeqNumber) && nowAck == old(nowAck) && ackTable == old(ackTable)
    {
      ghost var m := Admitted(|buffer|, capacity);
      while buffer != [] && capacity < WindowSize
        invariant capacity == |window| <= WindowSize
        invariant |old(window)| <= |window| <= |old(window)| + m
        invariant window + buffer == old(window) + old(buffer)
        invariant window == old(window) + old(buffer)[..|window| - |old(window)|]
        invariant buffer == old(buffer)[|window| - |old(window)|..]
        invariant sent == old(sent) + old(buffer)[..|window| - |old(window)|]
        invariant timerSet == old(timerSet) && nowSeqNumber == old(nowSeqNumber)
        invariant nowAck == old(nowAck) && ackTable == old(ackTable)
        decreases |buffer|
      {
        var pkt := buffer[0];
        window := window + [pkt];
        buffer := buffer[1..];
        capacity := capacity + 1;
        sent := sent + [pkt];
      }
      if capacity == WindowSize && !timerSet {
        timerSet := true;
      }
      if capacity == 0 && buffer == [] {
        timerSet := false;
      }
    }

    /** The body shared by the segmentation loop and the tail of
        Sender_FromUpperLayer: write `chunk` into the reused packet `pkt`
        under the next sequence number, advance `now_seqNumber`, and push
        the packet onto `buffer`. */
    method PushSegment(pkt: Packet, chunk: seq<Byte>, covered: int) returns (p: Packet)
      requires 0 < |chunk| <= MaxPayload && covered == |chunk| + PayLoadSize + SeqNumSize
      requires Int32Min <= nowSeqNumber < Int32Max
      modifies this
      ensures Intact(p) && Carries(p, chunk) && SeqOf(p) == old(nowSeqNumber)
      ensures p[HeadSize + |chunk|..] == pkt[HeadSize + |chunk|..]
      ensures nowSeqNumber == old(nowSeqNumber) + 1 && buffer == old(buffer) + [p]
      ensures window == old(window) && capacity == old(capacity) && nowAck == old(nowAck)
      ensures ackTable == old(ackTable) && timerSet == old(timerSet) && sent == old(sent)
    {
      p := WritePacket(pkt, nowSeqNumber, chunk, covered);
      nowSeqNumber := nowSeqNumber + 1;
      buffer := buffer + [p];
    }

    /** The segmentation loop and tail of Sender_FromUpperLayer: append
        one packet per chunk of the message `data` to `buffer`, numbered on
        from `nowSeqNumber`. `scratch` is what the reused packet buffer
        holds before the first packet is written; `segs` are the packets
        appended. */
    method Enqueue(data: seq<Byte>, scratch: Packet) returns (ghost segs: seq<Packet>)
      requires 0 <= nowSeqNumber && nowSeqNumber + |Chunks(data)| <= Int32Max
      modifies this
      ensures Segmentation(segs, data, old(nowSeqNumber))
      ensures buffer == old(buffer) + segs && nowSeqNumber == old(nowSeqNumber) + |segs|
      ensures window == old(window) && capacity == old(capacity) && nowAck == old(nowAck)
      ensures ackTable == old(ackTable) && timerSet == old(timerSet) && sent == old(sent)
    {
      ghost var base := nowSeqNumber;
      segs := [];
      var pkt := scratch;
      var cursor := 0;
      while |data| - cursor > MaxPayload
        invariant cursor == MaxPayload * |segs| && (cursor == 0 || cursor < |data|)
        invariant |segs| <= |Chunks(data)| && Consecutive(segs, base)
        invariant CarryPrefix(segs, Chunks(data))
        invariant buffer == old(buffer) + segs && nowSeqNumber == base + |segs|
        invariant window == old(window) && capacity == old(capacity) && nowAck == old(nowAck)
        invariant ackTable == old(ackTable) && timerSet == old(timerSet) && sent == old(sent)
        decreases |data| - cursor
      {
        ChunkAt(data, |segs|);
        var chunk := data[cursor..cursor + MaxPayload];
        pkt := PushSegment(pkt, chunk, PktSize - CheckSumSize);
        ConsecutiveSingle(pkt, base + |segs|);
        ConsecutiveAppend(segs, [pkt], base);
        CarryPrefixAppend(segs, pkt, Chunks(data));
        segs := segs + [pkt];
        cursor := cursor + MaxPayload;
      }
      if |data| > cursor {
        ChunksLast(data, |segs|);
        var chunk := data[cursor..];
        pkt := PushSegment(pkt, chunk, |chunk| + PayLoadSize + SeqNumSize);
        ConsecutiveSingle(pkt, base + |segs|);
        ConsecutiveAppend(segs, [pkt], base);
        CarryPrefixAppend(segs, pkt, Chunks(data));
        segs := segs + [pkt];
      } else {
        assert Chunks(data) == [];
      }
    }

    /** Sender_FromUpperLayer: queue the packets of the message `data`,
        then send what the window admits. */
    method FromUpperLayer(data: seq<Byte>, scratch: Packet) returns (ghost segs: seq<Packet>)
      requires Valid()
      requires nowSeqNumber + SegmentCount(|data|) <= Int32Max
      modifies this
      ensures Valid()
      ensures Segmentation(segs, data, old(nowSeqNumber))
      ensures nowSeqNumber == old(nowSeqNumber) + SegmentCount(|data|)
      ensures var queued := old(buffer) + segs;
        var m := Admitted(|queued|, old(capacity));
        window == old(window) + queued[..m] && buffer == queued[m..] &&
        sent == old(sent) + queued[..m]
      ensures nowAck == old(nowAck) && ackTable == old(ackTable)
      ensures timerSet == if capacity == WindowSize then true
                          else if capacity == 0 && buffer == [] then false
                          else old(timerSet)
    {
      ChunksCount(data);
      segs := Enqueue(data, scratch);
      ConsecutiveAppend(old(window) + old(buffer), segs, nowAck);
      assert window + buffer == old(window) + old(buffer) + segs;
      SendPacket();
    }

    /** The slide loop of Sender_FromLowerLayer: while the front slot is
        marked (at most `WINDOW_SIZE + 1` times), drop the front packet and
        the front slot, append an unmarked slot, and lower the capacity.
        It removes exactly the leading run of marked slots and returns its
        length. The requirement keeps the erase off an empty window. */
    method SlideWindow() returns (i: int)
      requires |ackTable| == WindowSize + 1 && capacity == |window|
      requires LeadingRun(ackTable) <= |window|
      modifies this
      ensures i == LeadingRun(old(ackTable))
      ensures ackTable == old(ackTable)[i..] + Falses(i)
      ensures window == old(window)[i..] && capacity == |window|
      ensures nowSeqNumber == old(nowSeqNumber) && nowAck == old(nowAck)
      ensures buffer == old(buffer) && timerSet == old(timerSet) && sent == old(sent)
    {
      ghost var t0 := ackTable;
      ghost var k := LeadingRun(t0);
      i := 0;
      while i <= WindowSize
        invariant 0 <= i <= k
        invariant ackTable == t0[i..] + Falses(i)
        invariant window == old(window)[i..] && capacity == |window|
        invariant nowSeqNumber == old(nowSeqNumber) && nowAck == old(nowAck)
        invariant buffer == old(buffer) && timerSet == old(timerSet) && sent == old(sent)
      {
        if ackTable[0] {
          window := window[1..];
          ackTable := ackTable[1..] + [false];
          capacity := capacity - 1;
        } else {
          break;
        }
        i := i + 1;
      }
    }

    /** The cumulative acknowledgment of Sender_FromLowerLayer, for the
        oldest in-flight number: mark the front slot, slide the window past
        the leading run of marked slots, and advance `now_ack` by the
        number of packets slid off. */
    method AckFront() returns (i: int)
      requires Consistent()
      requires LeadingRun(ackTable[0 := true]) <= |window|
      modifies this
      ensures Consistent()
      ensures i == LeadingRun(old(ackTable)[0 := true]) && 0 < i
      ensures nowAck == old(nowAck) + i && ackTable == old(ackTable)[0 := true][i..] + Falses(i)
      ensures window == old(window)[i..] && buffer == old(buffer)
      ensures nowSeqNumber == old(nowSeqNumber) && timerSet == old(timerSet) && sent == old(sent)
    {
      ackTable := ackTable[0 := true];
      ghost var w0 := window;
      i := SlideWindow();
      nowAck := nowAck + i;
      ConsecutiveDrop(w0 + buffer, old(nowAck), i);
      assert (w0 + buffer)[i..] == window + buffer;
    }

    /** The change an ack for `seqNum` that passed the checksum check makes
        (see `Acknowledge`). */
    twostate predicate Acknowledged(seqNum: int)
      requires old(Valid())
      requires seqNum == old(nowAck) ==> LeadingRun(old(ackTable)[0 := true]) <= |old(window)|
      reads this
    {
      nowSeqNumber == old(nowSeqNumber) && timerSet == (window != []) &&
      (seqNum == old(nowAck) ==>
        var k := LeadingRun(old(ackTable)[0 := true]);
        var m := Admitted(|old(buffer)|, old(capacity) - k);
        nowAck == old(nowAck) + k && ackTable == old(ackTable)[k..] + Falses(k) &&
        window == old(window)[k..] + old(buffer)[..m] && buffer == old(buffer)[m..] &&
        sent == old(sent) + old(buffer)[..m]) &&
      (old(nowAck) < seqNum < old(nowAck) + WindowSize ==>
        ackTable == old(ackTable)[seqNum - old(nowAck) := true] &&
        nowAck == old(nowAck) && window == old(window) && buffer == old(buffer) && sent == old(sent)) &&
      (seqNum < old(nowAck) || seqNum >= old(nowAck) + WindowSize ==>
        ackTable == old(ackTable) && nowAck == old(nowAck) &&
        window == old(window) && buffer == old(buffer) && sent == old(sent))
    }

    /** What Sender_FromLowerLayer does with the sequence number `seqNum`
        of an ack that passed the checksum check. An ack for the oldest
        in-flight number marks the front slot and slides the window past
        the run of marked slots at its front, then sends what the window
        admits; an ack inside the window only marks its slot; any other
        number changes no slot. Afterwards the timer is armed exactly when
        something is in flight. The requirement is the one the slide needs:
        it never erases from an empty window. */
    method Acknowledge(seqNum: int)
      requires Valid()
      requires seqNum == nowAck ==> LeadingRun(ackTable[0 := true]) <= |window|
      modifies this
      ensures Valid() && Acknowledged(seqNum)
    {
      if seqNum == nowAck {
        var i := AckFront();
        SendPacket();
      } else if nowAck < seqNum < nowAck + WindowSize {
        var index := (seqNum - nowAck) % WindowSize;
        if !ackTable[index] {
          ackTable := ackTable[index := true];
        }
      }
      if buffer == [] && capacity == 0 {
        return;
      } else if !timerSet {
        timerSet := true;
      }
    }

    /** Sender_FromLowerLayer: an acknowledgment arrives. A packet that
        fails the checksum check changes nothing, the timer included; one
        that passes is handled by its sequence number. */
    method FromLowerLayer(pkt: Packet)
      requires Valid()
      requires Intact(pkt) && SeqOf(pkt) == nowAck ==> LeadingRun(ackTable[0 := true]) <= |window|
      modifies this
      ensures Valid()
      ensures !Intact(pkt) ==> unchanged(this)
      ensures Intact(pkt) ==> Acknowledged(SeqOf(pkt))
    {
      var ok := CheckPacket(pkt);
      if !ok {
        return;
      }
      var seqNum := FromLe32(pkt[CheckSumSize + PayLoadSize..HeadSize]);
      Acknowledge(seqNum);
    }

    /** Sender_Timeout: resend the oldest in-flight packet and re-arm the
        timer; nothing else changes. Reading the front of an empty window
        is undefined, hence the requirement; while the timer is armed the
        window is never empty (`Valid`). */
    method Timeout()
      requires Valid()
      requires window != []
      modifies this
      ensures Valid()
      ensures sent == old(sent) + [old(window)[0]] && timerSet
      ensures window == old(window) && buffer == old(buffer) && ackTable == old(ackTable)
      ensures nowSeqNumber == old(nowSeqNumber) && nowAck == old(nowAck) && capacity == old(capacity)
    {
      var pkt := window[0];
      sent := sent + [pkt];
      timerSet := true;
    }
  }
}
