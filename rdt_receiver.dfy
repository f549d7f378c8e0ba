/** The receiver of rdt_receiver.cc: a selective-repeat window of
    `WINDOW_SIZE` slots, each holding the packet that arrived for sequence
    number `now_ackNumber + slot`, and an ack table marking the filled
    slots. Arriving packets that pass the checksum check are stored in
    their slot; the run of filled slots at the front is handed to the upper
    layer in order, each packet echoed to the lower layer as its ack, and
    the window slides past it. */
module RdtReceiver {
  import opened ChecksumTool
  import opened RdtStruct
  import opened AckTable

  /** `n` value-initialised packets, as `resize(WINDOW_SIZE)` appends them. */
  function Blanks(n: nat): (w: seq<Packet>)
    ensures |w| == n
  {
    Pad(n, Blank)
  }

  /** `msg->size` in submitPakage: the length byte read as a `char`,
      clamped to the payload room of a packet. */
  function MessageSize(p: Packet): (n: int)
    ensures 0 <= n <= MaxPayload
    ensures 0 <= LenOf(p) <= MaxPayload <==> n == LenOf(p)
    ensures LenOf(p) < 0 ==> n == 0
    ensures LenOf(p) > MaxPayload ==> n == MaxPayload
  {
    var size := LenOf(p);
    if size < 0 then 0 else if size > PktSize - HeadSize then PktSize - HeadSize else size
  }

  /** The message delivered for packet `p`: `MessageSize(p)` bytes from
      the end of the header on. */
  function MessageOf(p: Packet): (m: seq<Byte>)
    ensures |m| <= MaxPayload
    ensures m == p[HeadSize..HeadSize + |m|]
    ensures 0 <= LenOf(p) <= MaxPayload ==> |m| == LenOf(p)
  {
    p[HeadSize..HeadSize + MessageSize(p)]
  }

  /** The messages delivered for packets `ps`, in order. */
  function Messages(ps: seq<Packet>): (ms: seq<seq<Byte>>)
    ensures |ms| == |ps|
  {
    seq(|ps|, i requires 0 <= i < |ps| => MessageOf(ps[i]))
  }

  lemma MessagesAppend(a: seq<Packet>, b: seq<Packet>)
    ensures Messages(a + b) == Messages(a) + Messages(b)
  {
    assert forall i :: 0 <= i < |a + b| ==>
      Messages(a + b)[i] == (Messages(a) + Messages(b))[i];
  }

  lemma MessagesSnoc(a: seq<Packet>, p: Packet)
    ensures Messages(a + [p]) == Messages(a) + [MessageOf(p)]
  {
    MessagesAppend(a, [p]);
    assert Messages([p]) == [MessageOf(p)];
  }

  /** The slot `i` of a window starting at `base` holds, when marked, a
      packet that passed the checksum check and carries `base + i`. */
  ghost predicate Held(window: seq<Packet>, ackTable: seq<bool>, base: int, i: int)
    requires 0 <= i < |window| == |ackTable|
  {
    ackTable[i] ==> Intact(window[i]) && SeqOf(window[i]) == base + i
  }

  ghost predicate Holding(window: seq<Packet>, ackTable: seq<bool>, base: int)
    requires |window| == |ackTable|
  {
    forall i {:trigger Held(window, ackTable, base, i)} :: 0 <= i < |window| ==>
      Held(window, ackTable, base, i)
  }

  /** Storing a packet numbered `base + i` in slot `i` and marking it keeps
      every marked slot in place. */
  lemma HoldingMark(w: seq<Packet>, t: seq<bool>, base: int, i: int, p: Packet)
    requires |w| == |t| && Holding(w, t, base)
    requires 0 <= i < |w| && Intact(p) && SeqOf(p) == base + i
    ensures Holding(w[i := p], t[i := true], base)
  {
    var w', t' := w[i := p], t[i := true];
    forall j | 0 <= j < |w'|
      ensures Held(w', t', base, j)
    {
      if j != i {
        assert Held(w, t, base, j);
      }
    }
  }

  /** The front run of a window holds consecutive packets, and sliding the
      window past it keeps every marked slot in place. */
  lemma HoldingSlide(w: seq<Packet>, t: seq<bool>, base: int, k: nat)
    requires |w| == |t| && Holding(w, t, base) && k <= LeadingRun(t)
    ensures Consecutive(w[..k], base)
    ensures Holding(w[k..] + Blanks(k), t[k..] + Falses(k), base + k)
  {
    var front := w[..k];
    forall j | 0 <= j < k
      ensures Numbered(front, base, j)
    {
      assert Held(w, t, base, j);
    }
    var w', t', base' := w[k..] + Blanks(k), t[k..] + Falses(k), base + k;
    forall j | 0 <= j < |w'|
      ensures Held(w', t', base', j)
    {
      if j < |w| - k {
        assert Held(w, t, base, k + j);
      }
    }
  }

  /** `w` after `n` single-step slides, each dropping the front element
    and appending `fill`. */
  function Slid<T>(w: seq<T>, n: nat, fill: T): (s: seq<T>)
    ensures |s| == |w|
  {
    (w + Pad(n, fill))[n..]
  }

  /** The elements those `n` slides dropped, front first. */
  function Passed<T>(w: seq<T>, n: nat, fill: T): (s: seq<T>)
    ensures |s| == n
  {
    (w + Pad(n, fill))[..n]
  }

  /** One more slide drops the current front and appends `fill`. */
  lemma SlideStep<T>(w: seq<T>, n: nat, fill: T)
    requires |w| > 0
    ensures Slid(w, n + 1, fill) == Slid(w, n, fill)[1..] + [fill]
    ensures Passed(w, n + 1, fill) == Passed(w, n, fill) + [Slid(w, n, fill)[0]]
  {
    assert w + Pad(n + 1, fill) == (w + Pad(n, fill)) + [fill];
  }

  /** Sliding no more than the whole window: the dropped elements are its
      front, and what is left is its back followed by `n` fill values. */
  lemma SlideWithin<T>(w: seq<T>, n: nat, fill: T)
    requires n <= |w|
    ensures Slid(w, n, fill) == w[n..] + Pad(n, fill)
    ensures Passed(w, n, fill) == w[..n]
  {
  }

  /** Storing the packet numbered `base + i` in slot `i` of an in-order
      window, then delivering the front run and sliding past it, leaves
      the window (`w1`, `t1`, starting at `base1`) in order and the
      deliveries `d1` consecutive. */
  lemma StaysInOrder(w: seq<Packet>, t: seq<bool>, base: int, d: seq<Packet>, i: int, p: Packet,
                     w1: seq<Packet>, t1: seq<bool>, base1: int, d1: seq<Packet>)
    requires |w| == |t| && Holding(w, t, base)
    requires Consecutive(d, 0) && |d| == base
    requires 0 <= i < |w| && Intact(p) && SeqOf(p) == base + i
    requires var w', t' := w[i := p], t[i := true];
      var k := LeadingRun(t');
      w1 == w'[k..] + Blanks(k) && t1 == t'[k..] + Falses(k) &&
      base1 == base + k && d1 == d + w'[..k]
    ensures |w1| == |t1| && Holding(w1, t1, base1) && Consecutive(d1, 0)
  {
    var w', t' := w[i := p], t[i := true];
    HoldingMark(w, t, base, i, p);
    HoldingSlide(w', t', base, LeadingRun(t'));
    ConsecutiveAppend(d, w'[..LeadingRun(t')], 0);
  }

  class Receiver {
    var nowAckNumber: int            // now_ackNumber: the next number to deliver
    var capacity: int                // receiver_current_capacity
    var window: seq<Packet>          // receiver_window, WINDOW_SIZE slots
    var ackTable: seq<bool>          // receiver_ack_table, WINDOW_SIZE slots
    ghost var delivered: seq<Packet> // every packet handed upwards, in order
    ghost var toUpper: seq<seq<Byte>> // every message handed to the upper layer
    ghost var toLower: seq<Packet>   // every packet echoed to the lower layer

    /** The shape every event keeps: full-size window and table, the
        capacity counting the marked slots, the front slot empty, and one
        delivered packet per sequence number passed. */
    ghost predicate Valid()
      reads this
    {
      |window| == WindowSize && |ackTable| == WindowSize &&
      capacity == Count(ackTable) && !ackTable[0] &&
      |delivered| == nowAckNumber && toUpper == Messages(delivered)
    }

    /** The receiver has delivered sequence numbers 0, 1, ... in order, each
        once and each from a packet that passed the checksum check, and
        each marked slot holds the packet for its own number. */
    ghost predicate InOrder()
      requires Valid()
      reads this
    {
      Holding(window, ackTable, nowAckNumber) && Consecutive(delivered, 0)
    }

    /** The state `Receiver_Init` leaves. */
    constructor ()
      ensures Valid() && InOrder()
      ensures nowAckNumber == 0 && capacity == 0
      ensures window == Blanks(WindowSize) && ackTable == Falses(WindowSize)
      ensures delivered == [] && toUpper == [] && toLower == []
    {
      nowAckNumber, capacity := 0, 0;
      window := Blanks(WindowSize);
      ackTable := Falses(WindowSize);
      delivered, toUpper, toLower := [], [], [];
      CountFalses(WindowSize);
      new;
      forall i | 0 <= i < WindowSize
        ensures Held(window, ackTable, nowAckNumber, i)
      {
      }
    }

    /** One round of submitPakage's loop: echo the front packet to the
        lower layer, slide window and table by one (a blank packet and an
        unmarked slot come in at the back), and deliver the front packet's
        message. */
    method SubmitOne()
      requires |window| == WindowSize && |ackTable| == WindowSize
      modifies this
      ensures window == old(window)[1..] + [Blank] && ackTable == old(ackTable)[1..] + [false]
      ensures capacity == old(capacity) - 1 && nowAckNumber == old(nowAckNumber) + 1
      ensures delivered == old(delivered) + [old(window)[0]]
      ensures toUpper == old(toUpper) + [MessageOf(old(window)[0])]
      ensures toLower == old(toLower) + [old(window)[0]]
    {
      var front := window[0];
      toLower := toLower + [front];
      window := window[1..] + [Blank];
      ackTable := ackTable[1..] + [false];
      capacity := capacity - 1;
      nowAckNumber := nowAckNumber + 1;
      var size := ToSigned(front[CheckSumSize]);
      if size < 0 {
        size := 0;
      }
      if size > PktSize - HeadSize {
        size := PktSize - HeadSize;
      }
      toUpper := toUpper + [front[HeadSize..HeadSize + size]];
      delivered := delivered + [front];
    }

    /** submitPakage: `number` rounds (none when `number` is not positive). */
    method SubmitPackage(number: int)
      requires |window| == WindowSize && |ackTable| == WindowSize
      modifies this
      ensures var n := if number > 0 then number else 0;
        window == Slid(old(window), n, Blank) && ackTable == Slid(old(ackTable), n, false) &&
        capacity == old(capacity) - n && nowAckNumber == old(nowAckNumber) + n &&
        delivered == old(delivered) + Passed(old(window), n, Blank) &&
        toUpper == old(toUpper) + Messages(Passed(old(window), n, Blank)) &&
        toLower == old(toLower) + Passed(old(window), n, Blank)
    {
      ghost var w0, t0, c0, a0 := window, ackTable, capacity, nowAckNumber;
      ghost var d0, u0, l0 := delivered, toUpper, toLower;
      ghost var n := if number > 0 then number else 0;
      var left := number;
      ghost var done: nat := 0;
      while left > 0
        invariant done <= n && (number > 0 ==> left == number - done)
        invariant number <= 0 ==> left == number
        invariant window == Slid(w0, done, Blank) && ackTable == Slid(t0, done, false)
        invariant capacity == c0 - done && nowAckNumber == a0 + done
        invariant delivered == d0 + Passed(w0, done, Blank)
        invariant toUpper == u0 + Messages(Passed(w0, done, Blank))
        invariant toLower == l0 + Passed(w0, done, Blank)
      {
        SlideStep(w0, done, Blank);
        SlideStep(t0, done, false);
        MessagesSnoc(Passed(w0, done, Blank), window[0]);
        SubmitOne();
        left, done := left - 1, done + 1;
      }
    }

    /** The loop of Receiver_FromLowerLayer that counts the marked slots at
        the front, looking no further than `capacity` slots. Since the
        capacity counts every marked slot, the count is the whole run. */
    method FrontRun() returns (i: int)
      requires capacity == Count(ackTable) < |ackTable|
      ensures i == LeadingRun(ackTable)
    {
      LeadingRunBelowCount(ackTable);
      i := 0;
      while i < capacity
        invariant 0 <= i <= LeadingRun(ackTable)
      {
        if !ackTable[i] {
          break;
        }
        i := i + 1;
      }
    }

    /** Store the packet numbered `seqNum` in its slot and mark the slot,
        counting it if it was empty. */
    method Store(seqNum: int, pkt: Packet)
      requires Valid() && nowAckNumber <= seqNum
      modifies this
      ensures var i := (seqNum - old(nowAckNumber)) % WindowSize;
        window == old(window)[i := pkt] && ackTable == old(ackTable)[i := true]
      ensures capacity == Count(ackTable) <= WindowSize
      ensures nowAckNumber == old(nowAckNumber) && delivered == old(delivered)
      ensures toUpper == old(toUpper) && toLower == old(toLower)
    {
      var index := (seqNum - nowAckNumber) % WindowSize;
      window := window[index := pkt];
      CountMark(ackTable, index);
      if !ackTable[index] {
        ackTable := ackTable[index := true];
        capacity := capacity + 1;
      } else {
        assert ackTable[index := true] == ackTable;
      }
    }

    /** Lines 75-97 of Receiver_FromLowerLayer: store the packet, then count
        the front run: the whole window when every slot is filled,
        otherwise with the loop. */
    method StoreAndCount(seqNum: int, pkt: Packet) returns (run: int)
      requires Valid() && nowAckNumber <= seqNum
      modifies this
      ensures var i := (seqNum - old(nowAckNumber)) % WindowSize;
        window == old(window)[i := pkt] && ackTable == old(ackTable)[i := true]
      ensures |ackTable| == WindowSize && capacity == Count(ackTable)
      ensures run == LeadingRun(ackTable)
      ensures nowAckNumber == old(nowAckNumber) && delivered == old(delivered)
      ensures toUpper == old(toUpper) && toLower == old(toLower)
    {
      Store(seqNum, pkt);
      if capacity == WindowSize {
        CountFull(ackTable);
        run := WindowSize;
      } else {
        run := FrontRun();
      }
    }

    /** What Receiver_FromLowerLayer does with a packet numbered `s`, not
        below the window, that passed the checksum check: store it in the
        slot its distance from the window's start gives, modulo the window
        size, and mark the slot; then deliver and echo the run of filled
        slots at the front (all of them when the window is full) and slide
        the window past it. */
    twostate predicate Accepted(s: int, pkt: Packet)
      requires old(Valid()) && old(nowAckNumber) <= s
      reads this
    {
      var i := (s - old(nowAckNumber)) % WindowSize;
      var w, t := old(window)[i := pkt], old(ackTable)[i := true];
      var k := LeadingRun(t);
      nowAckNumber == old(nowAckNumber) + k &&
      window == w[k..] + Blanks(k) && ackTable == t[k..] + Falses(k) &&
      capacity == Count(t) - k &&
      delivered == old(delivered) + w[..k] &&
      toUpper == old(toUpper) + Messages(w[..k]) &&
      toLower == old(toLower) + w[..k]
    }

    /** What Receiver_FromLowerLayer does with a packet that passed the
        checksum check: one numbered below the window is echoed as a
        repeated ack and nothing else changes; any other is accepted. */
    twostate predicate Received(pkt: Packet)
      requires old(Valid()) && Intact(pkt)
      reads this
    {
      var s := SeqOf(pkt);
      if s < old(nowAckNumber) then
        toLower == old(toLower) + [pkt] &&
        nowAckNumber == old(nowAckNumber) && capacity == old(capacity) &&
        window == old(window) && ackTable == old(ackTable) &&
        delivered == old(delivered) && toUpper == old(toUpper)
      else
        Accepted(s, pkt)
    }

    /** Lines 75-99 of Receiver_FromLowerLayer: store, count the front run,
        submit it. The receiver stays in order when the packet is the one
        numbered `seqNum` and lies inside the window. */
    method Accept(seqNum: int, pkt: Packet)
      requires Valid() && nowAckNumber <= seqNum
      modifies this
      ensures Valid() && Accepted(seqNum, pkt)
      ensures (old(InOrder()) && Intact(pkt) && SeqOf(pkt) == seqNum &&
               seqNum < old(nowAckNumber) + WindowSize) ==> InOrder()
    {
      StoreAndSubmit(seqNum, pkt);
      if old(InOrder()) && Intact(pkt) && SeqOf(pkt) == seqNum &&
         seqNum < old(nowAckNumber) + WindowSize {
        StaysInOrder(old(window), old(ackTable), old(nowAckNumber), old(delivered),
                     seqNum - old(nowAckNumber), pkt, window, ackTable, nowAckNumber, delivered);
      }
    }

    /** The state changes of `Accept`. */
    method StoreAndSubmit(seqNum: int, pkt: Packet)
      requires Valid() && nowAckNumber <= seqNum
      modifies this
      ensures Valid() && Accepted(seqNum, pkt)
    {
      ghost var d0 := delivered;
      ghost var index := (seqNum - nowAckNumber) % WindowSize;
      ghost var w, t := window[index := pkt], ackTable[index := true];
      var run := StoreAndCount(seqNum, pkt);
      CountSlide(t, run);
      SubmitPackage(run);
      SlideWithin(w, run, Blank);
      SlideWithin(t, run, false);
      MessagesAppend(d0, w[..run]);
    }

    /** Receiver_FromLowerLayer. A packet that fails the checksum check is
        dropped. The receiver stays in order as long as no packet numbered
        a whole window or more ahead arrives: such a packet would land in a
        slot meant for another number. */
    method FromLowerLayer(pkt: Packet)
      requires Valid()
      modifies this
      ensures Valid()
      ensures !Intact(pkt) ==> unchanged(this)
      ensures Intact(pkt) ==> Received(pkt)
      ensures (old(InOrder()) &&
               (Intact(pkt) && SeqOf(pkt) >= old(nowAckNumber) ==>
                  SeqOf(pkt) < old(nowAckNumber) + WindowSize)) ==> InOrder()
    {
      var ok := CheckPacket(pkt);
      if !ok {
        return;
      }
      var seqNum := FromLe32(pkt[CheckSumSize + PayLoadSize..HeadSize]);
      if seqNum < nowAckNumber {
        toLower := toLower + [pkt];
        return;
      }
      Accept(seqNum, pkt);
    }
  }
}
