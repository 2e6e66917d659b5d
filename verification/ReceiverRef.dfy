/** The receiver refines a map from absolute packet index to payload: no
    sequence numbers, no array, no wrap-around. */
module ReceiverRef {
  import opened Bytes
  import opened Codec
  import opened Options
  import opened SeqNum
  import opened Receiver

  /** `output` is what was delivered; `ahead` the accepted packets beyond it. */
  datatype Ref = Ref(output: seq<seq<byte>>, ahead: map<nat, seq<byte>>)

  function RefFlush(f: Ref): Ref
    decreases |f.ahead|
  {
    var n := |f.output|;
    if n in f.ahead then
      assert f.ahead.Keys == (f.ahead - {n}).Keys + {n};
      RefFlush(Ref(f.output + [f.ahead[n]], f.ahead - {n}))
    else f
  }

  /** A packet of absolute index k arrives: kept once if it is in the window,
      then everything that became contiguous is delivered. */
  function RefReceive(f: Ref, k: nat, payload: seq<byte>): Ref {
    if |f.output| <= k < |f.output| + MAX_WINDOW_SIZE && k !in f.ahead
    then RefFlush(f.(ahead := f.ahead[k := payload]))
    else f
  }

  /** No packet of the receive window other than k carries k's number. */
  predicate NoAlias(expected: nat, k: nat) {
    forall j :: expected <= j < expected + MAX_WINDOW_SIZE && Number(j) == Number(k) ==> j == k
  }

  /** The number of k falls in the receive window only if k itself does. */
  lemma AliasByOffset(expected: nat, k: nat)
    ensures NoAlias(expected, k)
      <==> ((k - expected) % 256 < MAX_WINDOW_SIZE ==> expected <= k < expected + MAX_WINDOW_SIZE)
  {
    var j := expected + (k - expected) % 256;
    SameNumber(expected, k);
    assert forall i :: expected <= i < expected + 256 ==> (Number(i) == Number(k) <==> i == j) by {
      hide NoAlias;
      forall i | expected <= i < expected + 256 ensures Number(i) == Number(j) <==> i == j {
        NumberInjective(i, j);
      }
    }
  }

  /** For a packet inside the sender's window, being at most 225 packets late is
      enough; up to one full turn of the numbers it is also necessary. */
  lemma AgeBound(expected: nat, k: nat)
    requires k < expected + MAX_WINDOW_SIZE
    ensures expected - k <= 225 ==> NoAlias(expected, k)
    ensures 225 < expected - k <= 256 ==> !NoAlias(expected, k)
  {
    AliasByOffset(expected, k);
  }

  /** What the buffer holds under a sequence number. */
  function Find(held: seq<Packet>, s: int): Option<seq<byte>>
    requires AllWellFormed(held)
  {
    if held == [] then None
    else if held[0].seqnum == s then Some(Content(held[0]))
    else Find(held[1..], s)
  }

  ghost function Abs(r: Rcv): (f: Ref)
    requires Consistent(r, 0)
    ensures f.output == r.output
  {
    var n := |r.output|;
    Ref(r.output, map j: nat | n <= j < n + MAX_WINDOW_SIZE && Find(r.held, Number(j)).Some?
                  :: Find(r.held, Number(j)).value)
  }

  lemma {:induction false} FindNone(held: seq<Packet>, s: int)
    requires AllWellFormed(held) && forall i :: 0 <= i < |held| ==> held[i].seqnum != s
    ensures Find(held, s) == None
  {
    if held != [] { FindNone(held[1..], s); }
  }

  /** Insertion adds the packet's number unless it was there, and nothing else. */
  lemma {:induction false} FindInsert(lastack: int, held: seq<Packet>, p: Packet, s: int)
    requires 0 <= lastack < 256
    requires Ascending(lastack, held, 0) && WellFormed(p) && AllWellFormed(held)
    requires AllWellFormed(Insert(lastack, held, p))
    ensures Find(Insert(lastack, held, p), s)
         == if s == p.seqnum && Find(held, s) == None then Some(Content(p)) else Find(held, s)
  {
    if held == [] {
    } else if Offset(lastack, p.seqnum) == Offset(lastack, held[0].seqnum) {
    } else if Offset(lastack, p.seqnum) < Offset(lastack, held[0].seqnum) {
      assert ([p] + held)[1..] == held;
      if s == p.seqnum { FindNone(held, s); }
    } else {
      assert forall i :: 0 <= i < |held[1..]| ==> held[1..][i] == held[i + 1];
      var t := Insert(lastack, held[1..], p);
      assert ([held[0]] + t)[1..] == t;
      FindInsert(lastack, held[1..], p, s);
    }
  }

  /** The number just past the window is never buffered. */
  lemma BeyondWindow(r: Rcv)
    requires Consistent(r, 0)
    ensures Find(r.held, Number(|r.output| + MAX_WINDOW_SIZE)) == None
    ensures Valid(r) ==> Find(r.held, Number(|r.output|)) == None
  {
    var n := |r.output|;
    OffsetOfIndex(n, n + MAX_WINDOW_SIZE);
    OffsetOfIndex(n, n);
    FindNone(r.held, Number(n + MAX_WINDOW_SIZE));
    if Valid(r) { FindNone(r.held, Number(n)); }
  }

  lemma AdvanceRefines(r: Rcv, p: Packet)
    requires Valid(r) && WellFormed(p)
    ensures Consistent(Advance(r, p), 0)
    ensures Abs(Advance(r, p)) == Ref(r.output + [Content(p)], Abs(r).ahead)
  {
    AdvanceConsistent(r, p);
    BeyondWindow(r);
    assert Abs(Advance(r, p)).ahead == Abs(r).ahead;
  }

  lemma FlushStepRefines(r: Rcv)
    requires Consistent(r, 0) && r.held != [] && r.held[0].seqnum == Expected(r)
    ensures WellFormed(r.held[0]) && Consistent(Advance(PopHeld(r), r.held[0]), 0)
    ensures var n := |r.output|; var f := Abs(r);
      n in f.ahead && Abs(Advance(PopHeld(r), r.held[0])) == Ref(f.output + [f.ahead[n]], f.ahead - {n})
  {
    FlushStepConsistent(r);
    var n := |r.output|;
    var f := Abs(r);
    var g := Abs(Advance(PopHeld(r), r.held[0]));
    ExpectedIs(r);
    BeyondWindow(r);
    forall j: nat | n < j <= n + MAX_WINDOW_SIZE
      ensures Find(r.held[1..], Number(j)) == Find(r.held, Number(j))
    {
      NumberInjective(n, j);
    }
    assert g.ahead == f.ahead - {n};
  }

  lemma {:induction false} FlushRefines(crc: Checksum, r: Rcv)
    requires Consistent(r, 0)
    ensures Consistent(Flush(crc, r).next, 0)
    ensures Abs(Flush(crc, r).next) == RefFlush(Abs(r))
    decreases |r.held|
  {
    FlushValid(crc, r);
    if r.held == [] || r.held[0].seqnum != Expected(r) {
      BeyondWindow(Flush(crc, r).next);
    } else {
      FlushStepRefines(r);
      FlushRefines(crc, Advance(PopHeld(r), r.held[0]));
    }
  }

  /** Buffering packet k adds key k, if it was not there, and no other. */
  lemma BufferedFind(r: Rcv, p: Packet, k: nat, j: nat)
    requires Valid(r) && WellFormed(p) && p.seqnum == Number(k) && Valid(Buffered(r, p))
    requires |r.output| < k < |r.output| + MAX_WINDOW_SIZE
    requires |r.output| <= j < |r.output| + MAX_WINDOW_SIZE
    ensures Find(Buffered(r, p).held, Number(j))
         == if j == k && Find(r.held, Number(j)) == None then Some(Content(p)) else Find(r.held, Number(j))
  {
    FindInsert(r.lastack, r.held, p, Number(j));
    NumberInjective(j, k);
  }

  lemma BufferedRefines(r: Rcv, p: Packet, k: nat)
    requires Valid(r) && WellFormed(p) && p.seqnum == Number(k)
    requires |r.output| < k < |r.output| + MAX_WINDOW_SIZE
    ensures Valid(Buffered(r, p)) && Abs(Buffered(r, p)) == RefReceive(Abs(r), k, Content(p))
  {
    OffsetOfIndex(|r.output|, k);
    BufferedValid(r, p);
    var r' := Buffered(r, p);
    forall j: nat | |r.output| <= j < |r.output| + MAX_WINDOW_SIZE
      ensures Find(r'.held, Number(j))
           == if j == k && Find(r.held, Number(j)) == None then Some(Content(p)) else Find(r.held, Number(j))
    {
      BufferedFind(r, p, k, j);
    }
    hide Buffered, Number, Find;
    BeyondWindow(r);
    var f := Abs(r);
    assert Abs(r').ahead == if k in f.ahead then f.ahead else f.ahead[k := Content(p)];
  }

  /** Accepting packet k is the reference's step, whenever k does not alias. */
  lemma AcceptRefines(crc: Checksum, r: Rcv, p: Packet, k: nat)
    requires Valid(r) && WellFormed(p) && p.seqnum == Number(k)
    requires NoAlias(|r.output|, k)
    ensures Valid(Accept(crc, r, p).next)
    ensures Abs(Accept(crc, r, p).next) == RefReceive(Abs(r), k, Content(p))
  {
    AcceptValid(crc, r, p);
    var n := |r.output|;
    OffsetOfIndex(n, k);
    AliasByOffset(n, k);
    ExpectedIs(r);
    CompareToExpected(r.lastack, p.seqnum);
    if (k - n) % 256 >= MAX_WINDOW_SIZE {
    } else if k == n {
      BeyondWindow(r);
      AdvanceRefines(r, p);
      FlushRefines(crc, Advance(r, p));
      var f := Abs(r);
      assert f.ahead[n := Content(p)] - {n} == f.ahead;
    } else {
      BufferedRefines(r, p, k);
    }
  }

  /** The receiver's answer to an intact datagram is the reference's, whenever
      the index does not alias into the window. */
  lemma ReceiveRefines(crc: Checksum, r: Rcv, k: nat, chunk: seq<byte>)
    requires Valid(r) && |chunk| <= MAX_PAYLOAD_SIZE
    requires NoAlias(|r.output|, k)
    ensures var next := Receive(crc, r, Encode(crc, DataPacket(Number(k), chunk))).next;
      Valid(next) && Abs(next) == RefReceive(Abs(r), k, chunk)
  {
    var q := IntactIsAccepted(crc, r, DataPacket(Number(k), chunk));
    AcceptRefines(crc, r, q, k);
  }

  // ------------------------------------------------------- whole arrival lists

  datatype Arrival = Arrival(index: nat, chunk: seq<byte>)

  predicate Sized(arrivals: seq<Arrival>) {
    forall i :: 0 <= i < |arrivals| ==> |arrivals[i].chunk| <= MAX_PAYLOAD_SIZE
  }

  /** The receive loop on intact datagrams, in any order and multiplicity. */
  function ReceiveAll(crc: Checksum, r: Rcv, arrivals: seq<Arrival>): Rcv
    requires Valid(r) && Sized(arrivals)
    decreases |arrivals|
  {
    if arrivals == [] then r
    else
      var data := Encode(crc, DataPacket(Number(arrivals[0].index), arrivals[0].chunk));
      ReceiveValid(crc, r, data);
      ReceiveAll(crc, Receive(crc, r, data).next, arrivals[1..])
  }

  function RefReceiveAll(f: Ref, arrivals: seq<Arrival>): Ref
    decreases |arrivals|
  {
    if arrivals == [] then f
    else RefReceiveAll(RefReceive(f, arrivals[0].index, arrivals[0].chunk), arrivals[1..])
  }

  /** No arrival aliases into the window it meets. */
  predicate Punctual(f: Ref, arrivals: seq<Arrival>)
    decreases |arrivals|
  {
    arrivals == []
    || (NoAlias(|f.output|, arrivals[0].index)
        && Punctual(RefReceive(f, arrivals[0].index, arrivals[0].chunk), arrivals[1..]))
  }

  /** Run by run, the array receiver is the map reference. */
  lemma {:induction false} ReceiveAllRefines(crc: Checksum, r: Rcv, arrivals: seq<Arrival>)
    requires Valid(r) && Sized(arrivals) && Punctual(Abs(r), arrivals)
    ensures Valid(ReceiveAll(crc, r, arrivals))
    ensures Abs(ReceiveAll(crc, r, arrivals)) == RefReceiveAll(Abs(r), arrivals)
    decreases |arrivals|
  {
    hide Abs, Receive, Valid, NoAlias, RefReceive, Encode, DataPacket;
    if arrivals != [] {
      ReceiveRefines(crc, r, arrivals[0].index, arrivals[0].chunk);
      var data := Encode(crc, DataPacket(Number(arrivals[0].index), arrivals[0].chunk));
      ReceiveAllRefines(crc, Receive(crc, r, data).next, arrivals[1..]);
    }
  }

  /** Accepted: delivered, or kept for later. */
  predicate Has(f: Ref, k: nat) {
    k < |f.output| || k in f.ahead
  }

  /** Nothing deliverable is left, and nothing is kept beyond the window. */
  predicate Settled(f: Ref) {
    |f.output| !in f.ahead && forall j :: j in f.ahead ==> |f.output| < j
  }

  lemma {:induction false} FlushSettles(f: Ref)
    requires forall j :: j in f.ahead ==> |f.output| <= j
    ensures Settled(RefFlush(f)) && forall j: nat :: Has(RefFlush(f), j) <==> Has(f, j)
    decreases |f.ahead|
  {
    var n := |f.output|;
    if n in f.ahead {
      assert f.ahead.Keys == (f.ahead - {n}).Keys + {n};
      var g := Ref(f.output + [f.ahead[n]], f.ahead - {n});
      FlushSettles(g);
      assert forall j: nat :: Has(g, j) <==> Has(f, j);
    }
  }

  /** The reference accepts exactly the packets of its window, each once; the
      expected index stays the least one not accepted. */
  lemma ReferenceAccepts(f: Ref, k: nat, payload: seq<byte>)
    requires Settled(f)
    ensures Settled(RefReceive(f, k, payload))
    ensures forall j: nat ::
      Has(RefReceive(f, k, payload), j) <==> Has(f, j) || (j == k && k < |f.output| + MAX_WINDOW_SIZE)
  {
    if |f.output| <= k < |f.output| + MAX_WINDOW_SIZE && k !in f.ahead {
      var g := f.(ahead := f.ahead[k := payload]);
      FlushSettles(g);
      assert forall j: nat :: Has(g, j) <==> Has(f, j) || j == k;
    }
  }

  lemma ReceiverSettled(r: Rcv)
    requires Valid(r)
    ensures Settled(Abs(r))
  {
    BeyondWindow(r);
  }

  // ------------------------------------------------------------- late arrivals

  /** A packet whose number is buffered changes nothing; any other grows the
      buffer. */
  lemma {:induction false} InsertKnown(lastack: int, held: seq<Packet>, p: Packet)
    requires 0 <= lastack < 256 && Ascending(lastack, held, 0) && AllWellFormed(held)
    ensures Insert(lastack, held, p) == held <==> Find(held, p.seqnum).Some?
    ensures |Insert(lastack, held, p)| == |held| + if Find(held, p.seqnum).Some? then 0 else 1
  {
    if held != [] {
      if Offset(lastack, p.seqnum) < Offset(lastack, held[0].seqnum) {
        FindNone(held, p.seqnum);
      } else if Offset(lastack, p.seqnum) > Offset(lastack, held[0].seqnum) {
        assert forall i :: 0 <= i < |held[1..]| ==> held[1..][i] == held[i + 1];
        InsertKnown(lastack, held[1..], p);
      }
    }
  }

  /** An old duplicate is ignored exactly when its number falls outside the
      receive window, or on a packet that is already buffered. */
  lemma StaleIgnoredExactly(crc: Checksum, r: Rcv, k: nat, chunk: seq<byte>)
    requires Valid(r) && |chunk| <= MAX_PAYLOAD_SIZE && k < |r.output|
    ensures Receive(crc, r, Encode(crc, DataPacket(Number(k), chunk))) == Reaction(r, [])
      <==> NoAlias(|r.output|, k) || Find(r.held, Number(k)).Some?
  {
    hide Encode, Decode, Receive;
    var q := IntactIsAccepted(crc, r, DataPacket(Number(k), chunk));
    OffsetOfIndex(|r.output|, k);
    AliasByOffset(|r.output|, k);
    CompareToExpected(r.lastack, q.seqnum);
    InsertKnown(r.lastack, r.held, q);
    if q.seqnum == Expected(r) {
      BeyondWindow(r);
      AdvanceRefines(r, q);
      FlushRefines(crc, Advance(r, q));
      FlushGrows(crc, Advance(r, q));
    } else if !NoAlias(|r.output|, k) {
    } else {
      OutsideNotHeld(r, k);
    }
  }

  lemma {:induction false} FlushGrows(crc: Checksum, r: Rcv)
    requires Consistent(r, 0)
    ensures |Flush(crc, r).next.output| >= |r.output|
    decreases |r.held|
  {
    hide SendAck;
    if r.held != [] && r.held[0].seqnum == Expected(r) {
      FlushStepConsistent(r);
      FlushGrows(crc, Advance(PopHeld(r), r.held[0]));
    }
  }

  lemma OutsideNotHeld(r: Rcv, k: nat)
    requires Valid(r) && (k - |r.output|) % 256 >= MAX_WINDOW_SIZE
    ensures Find(r.held, Number(k)) == None
  {
    OffsetOfIndex(|r.output|, k);
    FindNone(r.held, Number(k));
  }
}
