/** Ack tables: the `std::vector<int>` of 0/1 marks that the sender and the
    receiver keep beside their windows (rdt_sender.cc `sender_ack_table`,
    rdt_receiver.cc `receiver_ack_table`). Only 0 and 1 are ever stored, so
    a mark is a `bool`. */
module AckTable {

  /** `n` copies of `fill`. */
  function Pad<T>(n: nat, fill: T): (s: seq<T>)
    ensures |s| == n
  {
    seq(n, _ => fill)
  }

  /** `n` fresh unmarked slots, as `push_back(0)` appends them. */
  function Falses(n: nat): (t: seq<bool>)
    ensures |t| == n
    ensures forall i :: 0 <= i < n ==> !t[i]
  {
    Pad(n, false)
  }

  /** The length of the run of marked slots at the front of `t`. */
  function LeadingRun(t: seq<bool>): (k: nat)
    ensures k <= |t|
    ensures forall j :: 0 <= j < k ==> t[j]
    ensures k < |t| ==> !t[k]
  {
    if t == [] || !t[0] then 0 else 1 + LeadingRun(t[1..])
  }

  /** The number of marked slots. */
  function Count(t: seq<bool>): (c: nat)
    ensures c <= |t|
  {
    if t == [] then 0 else (if t[0] then 1 else 0) + Count(t[1..])
  }

  lemma {:induction false} CountAppend(a: seq<bool>, b: seq<bool>)
    ensures Count(a + b) == Count(a) + Count(b)
  {
    if a == [] {
      assert a + b == b;
    } else {
      assert (a + b)[1..] == a[1..] + b;
      CountAppend(a[1..], b);
    }
  }

  lemma {:induction false} CountFalses(n: nat)
    ensures Count(Falses(n)) == 0
  {
    if n > 0 {
      assert Falses(n)[1..] == Falses(n - 1);
      CountFalses(n - 1);
    }
  }

  /** Marking slot `i` adds one to the count exactly when it was unmarked. */
  lemma {:induction false} CountMark(t: seq<bool>, i: int)
    requires 0 <= i < |t|
    ensures Count(t[i := true]) == Count(t) + (if t[i] then 0 else 1)
  {
    if i > 0 {
      assert t[i := true][1..] == t[1..][i - 1 := true];
      CountMark(t[1..], i - 1);
    }
  }

  /** Every slot of the front run is marked, so the run is no longer than the count. */
  lemma {:induction false} LeadingRunBelowCount(t: seq<bool>)
    ensures LeadingRun(t) <= Count(t)
  {
    if t != [] {
      LeadingRunBelowCount(t[1..]);
    }
  }

  /** A table whose every slot is marked is one front run. */
  lemma {:induction false} CountFull(t: seq<bool>)
    requires Count(t) == |t|
    ensures LeadingRun(t) == |t|
  {
    if t != [] {
      assert Count(t[1..]) <= |t| - 1;
      CountFull(t[1..]);
    }
  }

  /** Dropping `k` marked front slots and appending `k` unmarked ones
      lowers the count by `k`. */
  lemma {:induction false} CountSlide(t: seq<bool>, k: nat)
    requires k <= LeadingRun(t)
    ensures Count(t[k..] + Falses(k)) == Count(t) - k
  {
    CountAppend(t[k..], Falses(k));
    CountFalses(k);
    CountDrop(t, k);
  }

  lemma {:induction false} CountDrop(t: seq<bool>, k: nat)
    requires k <= LeadingRun(t)
    ensures Count(t[k..]) == Count(t) - k
  {
    if k > 0 {
      assert t[k..] == t[1..][k - 1..];
      CountDrop(t[1..], k - 1);
    }
  }
}
