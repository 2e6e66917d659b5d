/** linksim/link_sim.c: damage, delay and delivery of forward datagrams, and the
    untouched relay of the reverse direction. */
module LinkSim {
  import opened Bytes
  import opened Options
  import Codec
  import opened Heap

  datatype TimeVal = TimeVal(sec: int, usec: int)

  const MILLION := 1_000_000

  function Micros(t: TimeVal): int {
    t.sec * MILLION + t.usec
  }

  predicate Normal(t: TimeVal) {
    0 <= t.usec < MILLION
  }

  /** left > right, seconds first; microseconds are compared as they stand. */
  predicate TimevalCmp(left: TimeVal, right: TimeVal) {
    if left.sec == right.sec then left.usec > right.usec else left.sec > right.sec
  }

  /** One entry of the delay queue; the size is that of `buf`. */
  datatype PktSlot = PktSlot(ts: TimeVal, buf: seq<byte>)

  predicate PktSlotCmp(a: PktSlot, b: PktSlot) {
    TimevalCmp(a.ts, b.ts)
  }

  lemma SlotOrder()
    ensures StrictWeakOrder(PktSlotCmp)
  {}

  /** The expiration date: the microseconds may pass one million. */
  function SlotTime(now: TimeVal, delay: nat): TimeVal {
    TimeVal(now.sec + delay / 1000, now.usec + delay % 1000 * 1000)
  }

  /** What the link does to a datagram it does not drop. */
  function Damaged(data: seq<byte>, cut: bool, corrupt: bool): seq<byte>
    requires |data| >= 4
  {
    if cut then data[..4] else if corrupt then Codec.InvertLast(data) else data
  }

  /** A slot queued at `now` for `delay` ms and found expired at `clock` is
      strictly past due if its microseconds did not overflow, and otherwise at
      most 998999 us early. */
  lemma DeliveryTiming(now: TimeVal, delay: nat, clock: TimeVal)
    requires Normal(now) && Normal(clock) && delay < 10_000
    requires TimevalCmp(clock, SlotTime(now, delay))
    ensures Micros(SlotTime(now, delay)) == Micros(now) + 1000 * delay
    ensures Normal(SlotTime(now, delay)) ==> Micros(clock) > Micros(now) + 1000 * delay
    ensures Micros(clock) >= Micros(now) + 1000 * delay - 998_999
  {
    var ts := SlotTime(now, delay);
    assert 1000 * delay == delay / 1000 * MILLION + delay % 1000 * 1000;
    assert ts.usec <= 1_998_999;
    if clock.sec > ts.sec {
      assert Micros(clock) >= (ts.sec + 1) * MILLION;
    }
  }

  /** No clock finds a slot expired before it is due if and only if adding the
      milliseconds did not overflow the microseconds. */
  lemma NeverEarlyExactly(now: TimeVal, delay: nat)
    requires Normal(now) && delay < 10_000
    ensures (forall clock :: Normal(clock) && TimevalCmp(clock, SlotTime(now, delay)) ==>
               Micros(clock) > Micros(now) + 1000 * delay)
      <==> now.usec + delay % 1000 * 1000 < MILLION
  {
    var ts := SlotTime(now, delay);
    assert Micros(ts) == Micros(now) + 1000 * delay;
    if Normal(ts) {
      forall clock | Normal(clock) && TimevalCmp(clock, ts) ensures Micros(clock) > Micros(ts) {
        DeliveryTiming(now, delay, clock);
      }
    } else {
      var early := TimeVal(ts.sec + 1, 0);
      assert Normal(early) && TimevalCmp(early, ts) && Micros(early) <= Micros(ts);
    }
  }

  /** The early bound is reached. */
  lemma EarlyBoundIsTight() returns (now: TimeVal, delay: nat, clock: TimeVal)
    ensures Normal(now) && Normal(clock) && delay < 10_000 && TimevalCmp(clock, SlotTime(now, delay))
    ensures Micros(clock) == Micros(now) + 1000 * delay - 998_999
  {
    now, delay, clock := TimeVal(0, 999_999), 999, TimeVal(1, 0);
  }

  /** timeval_diff: the borrow is skipped when it would leave zero seconds, and
      the result is then one second short. */
  method TimevalDiff(a: TimeVal, b: TimeVal) returns (c: TimeVal)
    ensures Micros(c) == Micros(a) - Micros(b)
                         - if a.usec < b.usec && a.sec == b.sec + 1 then MILLION else 0
    ensures c.sec == a.sec - b.sec - if a.usec < b.usec then 1 else 0
  {
    var sec, usec := a.sec - b.sec, a.usec - b.usec;
    if usec < 0 {
      sec := sec - 1;
      if sec != 0 {
        usec := usec + MILLION;
      }
    }
    return TimeVal(sec, usec);
  }

  function Max(a: int, b: int): int {
    if a > b then a else b
  }

  /** d is the time to wait for a slot due at `ts`: until it is due, but 1 ms if it
      is due already, or within the second that the skipped borrow loses. */
  predicate Waits(d: TimeVal, ts: TimeVal, clock: TimeVal) {
    if !TimevalCmp(ts, clock) || (ts.sec == clock.sec + 1 && ts.usec < clock.usec) then d == TimeVal(0, 1000)
    else Micros(d) == Micros(ts) - Micros(clock)
         && d.sec == ts.sec - clock.sec - if ts.usec < clock.usec then 1 else 0
  }

  lemma WaitBounded(d: TimeVal, ts: TimeVal, clock: TimeVal)
    requires 0 <= ts.usec && Normal(clock) && Waits(d, ts, clock)
    ensures 0 < Micros(d) <= Max(1000, Micros(ts) - Micros(clock))
  {}

  /** The arithmetic of get_queue_timeout. */
  method TimeoutFor(ts: TimeVal, clock: TimeVal) returns (d: TimeVal)
    requires 0 <= ts.usec && Normal(clock)
    ensures Waits(d, ts, clock)
  {
    d := TimevalDiff(ts, clock);
    if d.sec < 0 || (d.sec == 0 && d.usec <= 0) {
      d := TimeVal(0, 1000);
    }
  }

  datatype WriteResult = Written | Retry | Fatal

  type Addr = int

  function Bufs(slots: seq<PktSlot>): (s: seq<seq<byte>>)
    ensures |s| == |slots|
  {
    seq(|slots|, i requires 0 <= i < |slots| => slots[i].buf)
  }

  ghost predicate InOrder(slots: seq<PktSlot>) {
    forall i, j :: 0 <= i < j < |slots| ==> !PktSlotCmp(slots[i], slots[j])
  }

  /** No slot's microseconds exceed one overflow. */
  ghost predicate Bounded(pending: multiset<PktSlot>) {
    forall p :: p in pending ==> 0 <= p.ts.usec <= 1_998_999
  }

  ghost predicate NoneExpired(clock: TimeVal, pending: multiset<PktSlot>) {
    forall r :: r in pending ==> !TimevalCmp(clock, r.ts)
  }

  /** From `before`, `delivered` was sent and `pending` is left: nothing is lost
      or sent twice; the delivered slots had expired, went out in (sec, usec)
      order, before everything that stays, and only on successful writes. */
  ghost predicate Drained(before: multiset<PktSlot>, delivered: seq<PktSlot>, pending: multiset<PktSlot>,
                          clock: TimeVal, results: nat -> WriteResult) {
    && multiset(delivered) + pending == before
    && InOrder(delivered)
    && (forall d :: d in delivered ==> TimevalCmp(clock, d.ts))
    && (forall d, r :: d in delivered && r in pending ==> !PktSlotCmp(d, r))
    && forall k :: 0 <= k < |delivered| ==> results(k) == Written
  }

  class Link {
    const delay: nat
    const dest: Addr
    const queue: MinQueue<PktSlot>
    var lastClock: TimeVal
    var source: Option<Addr>
    /** Datagrams sent to the receiver, and back to the source. */
    var forwarded: seq<seq<byte>>
    var returned: seq<seq<byte>>

    ghost predicate Valid()
      reads this, queue, queue.e
    {
      && queue.Valid() && queue.gt == PktSlotCmp && Normal(lastClock)
      && Bounded(queue.Elements())
    }

    ghost function Pending(): multiset<PktSlot>
      reads this, queue, queue.e
      requires Valid()
    {
      queue.Elements()
    }

    constructor (delay: nat, dest: Addr, clock: TimeVal)
      requires Normal(clock)
      ensures Valid() && fresh(queue) && fresh(queue.e) && Pending() == multiset{}
      ensures this.delay == delay && this.dest == dest && lastClock == clock
      ensures source == None && forwarded == [] && returned == []
    {
      SlotOrder();
      this.delay, this.dest, lastClock := delay, dest, clock;
      source, forwarded, returned := None, [], [];
      queue := new MinQueue<PktSlot>(PktSlotCmp);
    }

    /** simulate_link: the random draws are the Boolean arguments and the applied
        delay; `result` is the outcome of an immediate write. */
    method SimulateLink(buf: array<byte>, len: nat, lose: bool, cut: bool, corrupt: bool,
                        appliedDelay: nat, result: WriteResult)
      returns (ok: bool)
      requires Valid() && 4 <= len <= buf.Length && appliedDelay < 10_000
      requires buf != queue.e as object
      modifies this`forwarded, queue, queue.e, buf
      ensures Valid()
      ensures lose ==> ok && forwarded == old(forwarded) && Pending() == old(Pending())
      ensures !lose && delay > 0 ==> ok && forwarded == old(forwarded)
      ensures !lose && delay > 0 ==>
        Pending() == old(Pending())
           + multiset{PktSlot(SlotTime(lastClock, appliedDelay), Damaged(old(buf[..len]), cut, corrupt))}
      ensures !lose && delay == 0 ==> Pending() == old(Pending()) && (ok <==> result == Written)
      ensures !lose && delay == 0 ==>
        forwarded == old(forwarded) + if ok then [Damaged(old(buf[..len]), cut, corrupt)] else []
    {
      hide StrictWeakOrder, IsHeap, Bounded, TimevalCmp;
      if lose {
        return true;
      }
      ghost var data := buf[..len];
      var n := len;
      if cut {
        n := 4;
      } else if corrupt {
        buf[n - 1] := 255 - buf[n - 1];
      }
      assert buf[..n] == Damaged(data, cut, corrupt);
      if delay > 0 {
        BoundedWith(Pending(), lastClock, appliedDelay, buf[..n]);
        ghost var moves := queue.Push(PktSlot(SlotTime(lastClock, appliedDelay), buf[..n]));
        ok := true;
      } else if result == Written {
        forwarded := forwarded + [buf[..n]];
        ok := true;
      } else {
        ok := false;
      }
    }

    /** A successful turn of the drain loop: the head p is sent, then popped. */
    method SendHead(p: PktSlot, delivered: seq<PktSlot>,
                    ghost before: multiset<PktSlot>, ghost results: nat -> WriteResult)
      requires Valid() && queue.size > 0 && p == queue.e[0] && IsNext(p) && TimevalCmp(lastClock, p.ts)
      requires Drained(before, delivered, Pending(), lastClock, results) && results(|delivered|) == Written
      modifies this`forwarded, queue`size, queue.e
      ensures Valid() && queue.size == old(queue.size) - 1
      ensures forwarded == old(forwarded) + [p.buf]
      ensures Drained(before, delivered + [p], Pending(), lastClock, results)
      ensures Bufs(delivered + [p]) == Bufs(delivered) + [p.buf]
    {
      hide StrictWeakOrder, IsHeap, Drained, Bufs, TimevalCmp, Bounded;
      DrainedStep(before, delivered, p, Pending(), lastClock, results);
      BoundedRest(Pending(), p);
      forwarded := forwarded + [p.buf];
      ghost var moves := queue.Pop();
    }

    /** deliver_delayed_pkt: `results(k)` is the outcome of the k-th write. */
    method DeliverDelayed(results: nat -> WriteResult) returns (ok: bool, delivered: seq<PktSlot>)
      requires Valid()
      modifies this`forwarded, queue`size, queue.e
      ensures Valid()
      ensures forwarded == old(forwarded) + Bufs(delivered)
      ensures Drained(old(Pending()), delivered, Pending(), lastClock, results)
      // it stops at the first unexpired slot or at a failed write
      ensures results(|delivered|) == Written ==> NoneExpired(lastClock, Pending())
      ensures NoneExpired(lastClock, Pending()) ==> ok
      ensures !NoneExpired(lastClock, Pending()) ==> (ok <==> results(|delivered|) == Retry)
    {
      hide StrictWeakOrder, IsHeap, Drained, NoneExpired, Bufs, TimevalCmp, Bounded;
      delivered := [];
      DrainedStart(Pending(), lastClock, results);
      while queue.size > 0
        invariant Valid()
        invariant forwarded == old(forwarded) + Bufs(delivered)
        invariant Drained(old(Pending()), delivered, Pending(), lastClock, results)
        decreases queue.size
      {
        var p := queue.Peek();
        if !TimevalCmp(lastClock, p.ts) {
          LaterUnexpired(lastClock, p, Pending());
          return true, delivered;
        }
        ExpiredExists(lastClock, p, Pending());
        var result := results(|delivered|);
        if result != Written {
          return result == Retry, delivered;
        }
        SendHead(p, delivered, old(Pending()), results);
        delivered := delivered + [p];
      }
      assert Pending() == multiset{};
      EmptyUnexpired(lastClock);
      return true, delivered;
    }

    /** A slot no other slot is due before. */
    ghost predicate IsNext(p: PktSlot)
      reads this, queue, queue.e
      requires Valid()
    {
      p in Pending() && forall r :: r in Pending() ==> !PktSlotCmp(p, r)
    }

    /** get_queue_timeout: how long select may wait. */
    method GetQueueTimeout() returns (timeout: Option<TimeVal>)
      requires Valid()
      ensures timeout == None <==> |Pending()| == 0
      ensures timeout.Some? ==> exists p :: IsNext(p)
      ensures timeout.Some? ==> forall p :: IsNext(p) ==>
        && Waits(timeout.value, p.ts, lastClock)
        && 0 < Micros(timeout.value) <= Max(1000, Micros(p.ts) - Micros(lastClock))
    {
      hide StrictWeakOrder, IsHeap, Waits, TimevalCmp, PktSlotCmp, Bounded, Max;
      if queue.size == 0 {
        assert Pending() == multiset{};
        return None;
      }
      var p := queue.Peek();
      assert IsNext(p);
      BoundedSlot(Pending(), p);
      var d := TimeoutFor(p.ts, lastClock);
      AnyNextWaits(p, d);
      timeout := Some(d);
    }

    /** Waiting for one head is waiting for any. */
    lemma AnyNextWaits(p: PktSlot, d: TimeVal)
      requires Valid() && IsNext(p) && Waits(d, p.ts, lastClock)
      ensures forall q :: IsNext(q) ==>
        Waits(d, q.ts, lastClock) && 0 < Micros(d) <= Max(1000, Micros(q.ts) - Micros(lastClock))
    {
      hide StrictWeakOrder, IsHeap, Waits, TimevalCmp, PktSlotCmp, Bounded, Max;
      BoundedSlot(Pending(), p);
      WaitBounded(d, p.ts, lastClock);
      forall q | IsNext(q) ensures q.ts == p.ts {
        SameDue(p, q);
      }
    }

    ghost predicate Forward(len: nat, from: Addr)
      reads this
    {
      len >= 4 && from != dest && source == Some(from)
    }

    /** process_incoming_pkt on `len` received bytes: reverse traffic is relayed
        as it came, forward traffic goes through the simulated link, strangers
        are ignored. */
    method ProcessIncoming(buf: array<byte>, len: nat, from: Addr, lose: bool, cut: bool, corrupt: bool,
                           appliedDelay: nat, result: WriteResult)
      returns (ok: bool)
      requires Valid() && len <= buf.Length && appliedDelay < 10_000
      requires buf != queue.e as object
      modifies this, queue, queue.e, buf
      ensures Valid()
      ensures len < 4 ==> !ok && source == old(source) && returned == old(returned)
      ensures !Forward(len, from) ==> forwarded == old(forwarded)
      ensures !Forward(len, from) ==> Pending() == old(Pending())
      ensures len >= 4 ==> source == if old(source) == None then Some(from) else old(source)
      ensures len >= 4 && from == dest ==> (ok <==> result == Written)
      ensures len >= 4 && from == dest ==> returned == old(returned) + if ok then [old(buf[..len])] else []
      ensures from != dest ==> returned == old(returned)
      ensures len >= 4 && from != dest && source != Some(from) ==> ok
      // forward traffic of the known source: what `SimulateLink` does to it
      ensures Forward(len, from) && lose ==> ok && forwarded == old(forwarded) && Pending() == old(Pending())
      ensures Forward(len, from) && !lose && delay > 0 ==> ok && forwarded == old(forwarded)
      ensures Forward(len, from) && !lose && delay > 0 ==>
        Pending() == old(Pending())
           + multiset{PktSlot(SlotTime(lastClock, appliedDelay), Damaged(old(buf[..len]), cut, corrupt))}
      ensures Forward(len, from) && !lose && delay == 0 ==> Pending() == old(Pending()) && (ok <==> result == Written)
      ensures Forward(len, from) && !lose && delay == 0 ==>
        forwarded == old(forwarded) + if ok then [Damaged(old(buf[..len]), cut, corrupt)] else []
      ensures lastClock == old(lastClock)
    {
      hide StrictWeakOrder, IsHeap, Bounded, TimevalCmp, Damaged, SlotTime;
      if len < 4 {
        return false;
      }
      if source == None {
        source := Some(from);
      }
      if from == dest {
        if result != Written {
          return false;
        }
        returned := returned + [buf[..len]];
        return true;
      } else if source != Some(from) {
        return true;
      }
      ok := SimulateLink(buf, len, lose, cut, corrupt, appliedDelay, result);
    }
  }

  lemma LaterUnexpired(clock: TimeVal, p: PktSlot, pending: multiset<PktSlot>)
    requires !TimevalCmp(clock, p.ts) && forall r :: r in pending ==> !PktSlotCmp(p, r)
    ensures NoneExpired(clock, pending)
  {}

  lemma ExpiredExists(clock: TimeVal, p: PktSlot, pending: multiset<PktSlot>)
    requires TimevalCmp(clock, p.ts) && p in pending
    ensures !NoneExpired(clock, pending)
  {}

  lemma BoundedRest(pending: multiset<PktSlot>, p: PktSlot)
    requires Bounded(pending)
    ensures Bounded(pending - multiset{p})
  {}

  lemma BoundedSlot(pending: multiset<PktSlot>, p: PktSlot)
    requires Bounded(pending) && p in pending
    ensures 0 <= p.ts.usec
  {}

  /** Slots of which neither is due before the other are due together. */
  lemma SameDue(p: PktSlot, q: PktSlot)
    requires !PktSlotCmp(p, q) && !PktSlotCmp(q, p)
    ensures p.ts == q.ts
  {}

  lemma BoundedWith(pending: multiset<PktSlot>, now: TimeVal, delay: nat, buf: seq<byte>)
    requires Bounded(pending) && Normal(now) && delay < 10_000
    ensures Bounded(pending + multiset{PktSlot(SlotTime(now, delay), buf)})
  {}

  lemma EmptyUnexpired(clock: TimeVal)
    ensures NoneExpired(clock, multiset{})
  {}

  lemma DrainedStart(before: multiset<PktSlot>, clock: TimeVal, results: nat -> WriteResult)
    ensures Drained(before, [], before, clock, results) && Bufs([]) == []
  {}

  /** Delivering a minimum that has expired keeps the drain invariant. */
  lemma DrainedStep(before: multiset<PktSlot>, delivered: seq<PktSlot>, p: PktSlot, pending: multiset<PktSlot>,
                    clock: TimeVal, results: nat -> WriteResult)
    requires Drained(before, delivered, pending, clock, results)
    requires p in pending && (forall r :: r in pending ==> !PktSlotCmp(p, r))
    requires TimevalCmp(clock, p.ts) && results(|delivered|) == Written
    ensures Drained(before, delivered + [p], pending - multiset{p}, clock, results)
    ensures Bufs(delivered + [p]) == Bufs(delivered) + [p.buf]
  {}
}
