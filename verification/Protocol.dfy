/** The whole transfer as one state machine: sender, lossy forward link,
    receiver, first-in first-out reverse path. */
module Protocol {
  import opened Bytes
  import opened Codec
  import S = Sender
  import R = Receiver
  import opened ReceiverRef
  import LinkSim
  import opened SeqNum

  /** A forward datagram. `idx` (the absolute index of its packet) and `stamp`
      (how many packets had been sent when it left) are history only. */
  datatype Datagram = Datagram(idx: nat, stamp: nat, bytes: seq<byte>)

  /** `sent` is the history of chunks read; `wire` leads from the sender to the
      link, `air` from the link to the receiver, `back` from the receiver to
      the sender. */
  datatype State = State(snd: S.Snd, unread: seq<byte>, sent: seq<seq<byte>>,
                         wire: seq<Datagram>, air: seq<Datagram>,
                         rcv: R.Rcv, back: seq<seq<byte>>)

  datatype Fate = Drop | Pass | Cut | Invert

  datatype Action =
    | Read(size: nat)          // the sender reads a chunk and sends it
    | Resend(entry: nat)       // a timer of the window expires
    | Link(fate: Fate)         // the link handles the oldest datagram on the wire
    | Deliver(position: nat)   // a datagram reaches the receiver
    | Reply                    // the sender handles the oldest reply

  /** InOrder: no delay configured, the link forwards in order. AnyOrder: it
      delays, so any pending datagram may come next. NoMistake: it delays, but
      no datagram comes so late that the receiver takes it for another packet. */
  datatype Mode = InOrder | NoMistake | AnyOrder

  const RECEIVE_BUFFER := MAX_PAYLOAD_SIZE + 8
  const REPLY_BUFFER := 8

  /** A read into a buffer of n bytes cuts off the rest of a datagram. */
  function ReadUpTo(data: seq<byte>, n: nat): seq<byte> {
    if |data| <= n then data else data[..n]
  }

  function Heard(d: Datagram): seq<byte> {
    ReadUpTo(d.bytes, RECEIVE_BUFFER)
  }

  function Init(input: seq<byte>): State {
    State(S.START, input, [], [], [], R.START, [])
  }

  /** Index of the oldest unacknowledged packet. */
  function Base(s: State): int {
    |s.sent| - |s.snd.window|
  }

  /** What every step needs in order to be defined. */
  predicate Typed(s: State) {
    && S.Ready(s.snd) && R.Valid(s.rcv) && Base(s) >= 0
    && (forall i :: 0 <= i < |s.wire| ==> |s.wire[i].bytes| >= 4)
  }

  /** The least index at or above `lo` with number `s`. */
  function AbsIndex(lo: nat, s: byte): (k: nat)
    ensures lo <= k && Number(k) == s
    decreases (s - lo) % 256
  {
    if Number(lo) == s then lo
    else
      NumberIsResidue(lo);
      AbsIndex(lo + 1, s)
  }

  predicate Intact(crc: Checksum, d: Datagram, sent: seq<seq<byte>>) {
    d.idx < |sent| && |sent[d.idx]| <= MAX_PAYLOAD_SIZE
    && d.bytes == Encode(crc, DataPacket(Number(d.idx), sent[d.idx]))
  }

  /** The receiver does not take d for another packet: d's number lies outside
      the receive window, or first occurs there at an index k whose chunk is
      buffered already or is the very chunk d carries. A bare header only asks
      for k again, so k need only have been sent; an inverted datagram is never
      taken for anything. */
  predicate Unmistaken(crc: Checksum, r: R.Rcv, d: Datagram, sent: seq<seq<byte>>)
    requires R.Valid(r)
  {
    var k := AbsIndex(|r.output|, Number(d.idx));
    k < |r.output| + MAX_WINDOW_SIZE ==>
      && (|d.bytes| == 4 ==> k < |sent|)
      && (Intact(crc, d, sent) ==> Find(r.held, Number(d.idx)).Some? || (k < |sent| && sent[k] == sent[d.idx]))
  }

  predicate Enabled(crc: Checksum, mode: Mode, s: State, a: Action)
    requires Typed(s)
  {
    match a
    case Read(n) => s.snd.phase == S.Running && S.CanRead(s.snd)
      && n <= MAX_PAYLOAD_SIZE && n <= |s.unread| && (n == 0 <==> s.unread == [])
    case Resend(i) => s.snd.phase == S.Running && i < |s.snd.window|
    case Link(_) => s.wire != []
    case Deliver(i) => i < |s.air| && (mode == InOrder ==> i == 0)
      && (mode == NoMistake ==> Unmistaken(crc, s.rcv, s.air[i], s.sent))
    case Reply => s.snd.phase == S.Running && s.back != []
  }

  function NextReply(s: State): seq<byte>
    requires s.back != []
  {
    ReadUpTo(s.back[0], REPLY_BUFFER)
  }

  /** The index of the packet a reply asks for again. */
  function AskedIndex(crc: Checksum, s: State): nat
    requires Typed(s) && s.back != []
  {
    var k := S.NackPosition(s.snd, Decode(crc, BLANK, NextReply(s)).1.seqnum);
    if k >= 0 then Base(s) + k else 0
  }

  function Tag(idx: nat, stamp: nat, datagrams: seq<seq<byte>>): (t: seq<Datagram>)
    ensures |t| == |datagrams|
  {
    seq(|datagrams|, i requires 0 <= i < |datagrams| => Datagram(idx, stamp, datagrams[i]))
  }

  function Apply(crc: Checksum, s: State, a: Action): State
    requires Typed(s) && Enabled(crc, AnyOrder, s, a)
  {
    match a
    case Read(n) =>
      var r := S.SendChunk(crc, s.snd, s.unread[..n]);
      s.(snd := r.next, unread := s.unread[n..], sent := s.sent + [s.unread[..n]],
         wire := s.wire + Tag(|s.sent|, |s.sent| + 1, r.datagrams))
    case Resend(i) =>
      s.(wire := s.wire + [Datagram(Base(s) + i, |s.sent|, Encode(crc, s.snd.window[i]))])
    case Link(fate) =>
      var d := s.wire[0];
      s.(wire := s.wire[1..],
         air := if fate == Drop then s.air
                else s.air + [d.(bytes := LinkSim.Damaged(d.bytes, fate == Cut, fate == Invert))])
    case Deliver(i) =>
      var r := R.Receive(crc, s.rcv, Heard(s.air[i]));
      s.(air := s.air[..i] + s.air[i + 1..], rcv := r.next, back := s.back + r.replies)
    case Reply =>
      var r := S.HandleReply(crc, s.snd, NextReply(s));
      s.(snd := r.next, back := s.back[1..],
         wire := s.wire + Tag(AskedIndex(crc, s), |s.sent|, r.datagrams))
  }

  // ---------------------------------------------------------------- invariant

  function Flatten(chunks: seq<seq<byte>>): seq<byte> {
    if chunks == [] then [] else Flatten(chunks[..|chunks| - 1]) + chunks[|chunks| - 1]
  }

  /** The window holds exactly packets Base .. |sent| - 1. */
  predicate SenderInv(s: State) {
    && S.Ready(s.snd) && s.snd.limited >= 1
    && 0 <= Base(s) && S.Holds(s.snd, Base(s), |s.sent|)
    && (forall i :: 0 <= i < |s.sent| ==> |s.sent[i]| <= MAX_PAYLOAD_SIZE)
    && forall i :: 0 <= i < |s.snd.window| ==>
         s.snd.window[i] == DataPacket(Number(Base(s) + i), s.sent[Base(s) + i])
  }

  /** The chunks sent make up what was read; the empty one ends the file; the
      sender has left exactly when it finished and nothing is outstanding. */
  predicate InputInv(input: seq<byte>, s: State) {
    && Flatten(s.sent) + s.unread == input
    && (forall i :: 0 <= i < |s.sent| ==> (s.sent[i] == [] <==> s.snd.finish && i == |s.sent| - 1))
    && (s.snd.finish ==> s.unread == [] && s.sent != [])
    && s.snd.phase == if s.snd.finish && s.snd.window == [] then S.Exited else S.Running
  }

  /** Delivered and early packets are the chunks of their index. */
  predicate Faithful(f: Ref, sent: seq<seq<byte>>) {
    f.output <= sent && forall j :: j in f.ahead ==> j < |sent| && f.ahead[j] == sent[j]
  }

  ghost predicate ReceiverInv(s: State) {
    R.Valid(s.rcv) && Faithful(Abs(s.rcv), s.sent)
  }

  /** A datagram is the encoding of its packet, intact or damaged once. */
  predicate Genuine(crc: Checksum, d: Datagram, sent: seq<seq<byte>>) {
    d.idx < |sent| && |sent[d.idx]| <= MAX_PAYLOAD_SIZE
    && var e := Encode(crc, DataPacket(Number(d.idx), sent[d.idx]));
       d.bytes == e || d.bytes == e[..4] || d.bytes == InvertLast(e)
  }

  predicate AllGenuine(crc: Checksum, ds: seq<Datagram>, sent: seq<seq<byte>>) {
    forall i :: 0 <= i < |ds| ==> Genuine(crc, ds[i], sent)
  }

  predicate AllIntact(crc: Checksum, ds: seq<Datagram>, sent: seq<seq<byte>>) {
    forall i :: 0 <= i < |ds| ==> Intact(crc, ds[i], sent)
  }

  /** The reverse queue, read by a sender whose oldest packet is `lo`: ACKs
      never go back, the last one is `hi`, NACKs ask for packets not yet
      acknowledged and already sent; every advertised window is positive. */
  predicate QueueOK(crc: Checksum, lo: nat, hi: nat, n: nat, q: seq<seq<byte>>)
    decreases |q|
  {
    if q == [] then lo == hi
    else
      var (status, p) := Decode(crc, BLANK, ReadUpTo(q[0], REPLY_BUFFER));
      status == PktOk && p.window >= 1
      && if p.ptype == PTYPE_ACK
         then AbsIndex(lo, p.seqnum) <= hi && QueueOK(crc, AbsIndex(lo, p.seqnum), hi, n, q[1..])
         else p.ptype == PTYPE_NACK && AbsIndex(lo, p.seqnum) < n && QueueOK(crc, lo, hi, n, q[1..])
  }

  ghost predicate Inv(crc: Checksum, input: seq<byte>, s: State) {
    && SenderInv(s) && InputInv(input, s) && ReceiverInv(s)
    && AllIntact(crc, s.wire, s.sent) && AllGenuine(crc, s.air, s.sent)
    && Base(s) <= |s.rcv.output| <= |s.sent|
    && QueueOK(crc, Base(s), |s.rcv.output|, |s.sent|, s.back)
  }

  /** Neither buffer ever cuts off anything. */
  lemma GenuineFits(crc: Checksum, d: Datagram, sent: seq<seq<byte>>)
    requires Genuine(crc, d, sent)
    ensures Heard(d) == d.bytes
  {
    hide Decode;
    RoundTrip(crc, BLANK, DataPacket(Number(d.idx), sent[d.idx]));
  }

  /** Both are as long as the longest datagram that can come. */
  lemma BuffersAreTight(crc: Checksum, w: bits5, s: byte)
    ensures |Encode(crc, DataPacket(s, Zeros(512)))| == RECEIVE_BUFFER == 520
    ensures |Encode(crc, R.ReplyPacket(PTYPE_ACK, w, s))| == |Encode(crc, R.ReplyPacket(PTYPE_NACK, w, s))|
      == REPLY_BUFFER == 8
  {}

  lemma InitInv(crc: Checksum, input: seq<byte>)
    ensures Inv(crc, input, Init(input))
  {
    assert Abs(R.START).ahead == map[];
  }

  // ------------------------------------------------------------ reverse queue

  lemma {:induction false} AbsIndexExact(lo: nat, k: nat)
    requires lo <= k < lo + 256
    ensures AbsIndex(lo, Number(k)) == k
    decreases k - lo
  {
    NumberInjective(lo, k);
    if lo < k { AbsIndexExact(lo + 1, k); }
  }

  lemma {:induction false} QueueSpan(crc: Checksum, lo: nat, hi: nat, n: nat, q: seq<seq<byte>>)
    requires QueueOK(crc, lo, hi, n, q)
    ensures lo <= hi
    decreases |q|
  {
    hide Decode, AbsIndex;
    if q != [] {
      var p := Decode(crc, BLANK, ReadUpTo(q[0], REPLY_BUFFER)).1;
      QueueSpan(crc, if p.ptype == PTYPE_ACK then AbsIndex(lo, p.seqnum) else lo, hi, n, q[1..]);
    }
  }

  /** Sending more packets leaves the queue in order. */
  lemma {:induction false} QueueGrows(crc: Checksum, lo: nat, hi: nat, n: nat, n': nat, q: seq<seq<byte>>)
    requires QueueOK(crc, lo, hi, n, q) && n <= n'
    ensures QueueOK(crc, lo, hi, n', q)
    decreases |q|
  {
    hide Decode, AbsIndex;
    if q != [] {
      var p := Decode(crc, BLANK, ReadUpTo(q[0], REPLY_BUFFER)).1;
      QueueGrows(crc, if p.ptype == PTYPE_ACK then AbsIndex(lo, p.seqnum) else lo, hi, n, n', q[1..]);
    }
  }

  /** Replies of the next reaction continue the queue where it ended. */
  lemma {:induction false} QueueExtends(crc: Checksum, lo: nat, mid: nat, hi: nat, n: nat,
                                        q: seq<seq<byte>>, more: seq<seq<byte>>)
    requires QueueOK(crc, lo, mid, n, q) && QueueOK(crc, mid, hi, n, more)
    ensures QueueOK(crc, lo, hi, n, q + more)
    decreases |q|
  {
    hide Decode, AbsIndex;
    QueueSpan(crc, mid, hi, n, more);
    if q == [] {
      assert q + more == more;
    } else {
      var p := Decode(crc, BLANK, ReadUpTo(q[0], REPLY_BUFFER)).1;
      assert (q + more)[0] == q[0] && (q + more)[1..] == q[1..] + more;
      QueueExtends(crc, if p.ptype == PTYPE_ACK then AbsIndex(lo, p.seqnum) else lo, mid, hi, n, q[1..], more);
    }
  }

  lemma ReplyDecodes(crc: Checksum, t: bits3, w: bits5, s: byte)
    requires t == PTYPE_ACK || t == PTYPE_NACK
    ensures var (status, p) := Decode(crc, BLANK, ReadUpTo(Encode(crc, R.ReplyPacket(t, w, s)), REPLY_BUFFER));
      status == PktOk && p.ptype == t && p.window == w && p.seqnum == s
  {
    RoundTrip(crc, BLANK, R.ReplyPacket(t, w, s));
  }

  /** An ACK for `a` at the head of a queue. */
  lemma AckContinues(crc: Checksum, lo: nat, a: nat, hi: nat, n: nat, w: bits5, rest: seq<seq<byte>>)
    requires lo <= a < lo + 256 && 1 <= w && a <= hi && QueueOK(crc, a, hi, n, rest)
    ensures QueueOK(crc, lo, hi, n, [Encode(crc, R.ReplyPacket(PTYPE_ACK, w, Number(a)))] + rest)
  {
    hide Decode, Encode, AbsIndex;
    ReplyDecodes(crc, PTYPE_ACK, w, Number(a));
    AbsIndexExact(lo, a);
    var q := [Encode(crc, R.ReplyPacket(PTYPE_ACK, w, Number(a)))] + rest;
    assert q[1..] == rest;
  }

  lemma NackQueue(crc: Checksum, lo: nat, k: nat, n: nat, w: bits5)
    requires lo <= k < lo + 256 && 1 <= w && k < n
    ensures QueueOK(crc, lo, lo, n, [Encode(crc, R.ReplyPacket(PTYPE_NACK, w, Number(k)))])
  {
    hide Decode, Encode, AbsIndex;
    ReplyDecodes(crc, PTYPE_NACK, w, Number(k));
    AbsIndexExact(lo, k);
    var q := [Encode(crc, R.ReplyPacket(PTYPE_NACK, w, Number(k)))];
    assert q[1..] == [];
  }

  lemma SendAckContinues(crc: Checksum, lo: nat, r: R.Rcv, hi: nat, n: nat, rest: seq<seq<byte>>)
    requires R.Consistent(r, 0) && |r.held| < MAX_WINDOW_SIZE
    requires lo <= |r.output| < lo + 256 && |r.output| <= hi && QueueOK(crc, |r.output|, hi, n, rest)
    ensures QueueOK(crc, lo, hi, n, [R.SendAck(crc, r)] + rest)
  {
    hide QueueOK, Encode;
    R.ExpectedIs(r);
    AckContinues(crc, lo, |r.output|, hi, n, r.windowSize, rest);
  }

  lemma EmptyQueue(crc: Checksum, lo: nat, n: nat)
    ensures QueueOK(crc, lo, lo, n, [])
  {}

  /** The flush acknowledges in order and ends on the new expected packet. */
  lemma {:induction false} FlushQueue(crc: Checksum, r: R.Rcv, lo: nat, n: nat)
    requires R.Consistent(r, 0) && |r.held| < MAX_WINDOW_SIZE && lo <= |r.output| <= lo + 1
    ensures var f := R.Flush(crc, r);
      |f.next.output| >= |r.output| && QueueOK(crc, lo, |f.next.output|, n, f.replies)
    decreases |r.held|
  {
    hide QueueOK, R.SendAck, R.Consistent;
    if r.held == [] || r.held[0].seqnum != R.Expected(r) {
      EmptyQueue(crc, |r.output|, n);
      SendAckContinues(crc, lo, r, |r.output|, n, []);
      assert [R.SendAck(crc, r)] + [] == [R.SendAck(crc, r)];
    } else {
      R.FlushStepConsistent(r);
      var r1 := R.Advance(R.PopHeld(r), r.held[0]);
      FlushQueue(crc, r1, |r1.output|, n);
      var rest := R.Flush(crc, r1);
      SendAckContinues(crc, lo, r1, |rest.next.output|, n, rest.replies);
    }
  }

  lemma AcceptQueue(crc: Checksum, r: R.Rcv, q: Packet, n: nat)
    requires R.Valid(r) && R.WellFormed(q)
    ensures var f := R.Accept(crc, r, q);
      |f.next.output| >= |r.output| && QueueOK(crc, |r.output|, |f.next.output|, n, f.replies)
  {
    hide QueueOK, R.SendAck;
    EmptyQueue(crc, |r.output|, n);
    R.AdvanceConsistent(r, q);
    FlushQueue(crc, R.Advance(r, q), |r.output|, n);
  }

  lemma {:induction false} FlushFaithful(f: Ref, sent: seq<seq<byte>>)
    requires Faithful(f, sent)
    ensures Faithful(RefFlush(f), sent)
    decreases |f.ahead|
  {
    var n := |f.output|;
    if n in f.ahead {
      assert f.ahead.Keys == (f.ahead - {n}).Keys + {n};
      FlushFaithful(Ref(f.output + [f.ahead[n]], f.ahead - {n}), sent);
    }
  }

  /** The reference only ever delivers the chunk of the index it was given. */
  lemma ReferenceFaithful(f: Ref, k: nat, sent: seq<seq<byte>>)
    requires Faithful(f, sent) && k < |sent|
    ensures Faithful(RefReceive(f, k, sent[k]), sent)
  {
    if |f.output| <= k < |f.output| + MAX_WINDOW_SIZE && k !in f.ahead {
      FlushFaithful(f.(ahead := f.ahead[k := sent[k]]), sent);
    }
  }

  lemma IntactQueue(crc: Checksum, r: R.Rcv, d: Datagram, sent: seq<seq<byte>>)
    requires R.Valid(r) && Intact(crc, d, sent) && NoAlias(|r.output|, d.idx)
    requires Faithful(Abs(r), sent)
    ensures var f := R.Receive(crc, r, Heard(d));
      && R.Valid(f.next) && Faithful(Abs(f.next), sent)
      && QueueOK(crc, |r.output|, |f.next.output|, |sent|, f.replies)
      && |r.output| <= |f.next.output|
      && Abs(f.next) == RefReceive(Abs(r), d.idx, sent[d.idx])
  {
    hide QueueOK, Decode, Encode, R.Accept, R.Receive, Abs, Faithful, RefReceive, NoAlias;
    GenuineFits(crc, d, sent);
    var q := R.IntactIsAccepted(crc, r, DataPacket(Number(d.idx), sent[d.idx]));
    AcceptRefines(crc, r, q, d.idx);
    ReferenceFaithful(Abs(r), d.idx, sent);
    AcceptQueue(crc, r, q, |sent|);
  }

  /** What one datagram makes the receiver say, and do to its output. */
  lemma ReceiveQueue(crc: Checksum, r: R.Rcv, d: Datagram, sent: seq<seq<byte>>)
    requires R.Valid(r) && Genuine(crc, d, sent) && NoAlias(|r.output|, d.idx)
    requires Faithful(Abs(r), sent)
    ensures var f := R.Receive(crc, r, Heard(d));
      && R.Valid(f.next) && Faithful(Abs(f.next), sent)
      && QueueOK(crc, |r.output|, |f.next.output|, |sent|, f.replies)
      && |r.output| <= |f.next.output|
      && (f.next == r || (Intact(crc, d, sent) && Abs(f.next) == RefReceive(Abs(r), d.idx, sent[d.idx])))
  {
    hide QueueOK, Encode, R.Receive, Abs, Faithful, RefReceive, NoAlias, Unmistaken, R.Valid;
    if Intact(crc, d, sent) {
      IntactQueue(crc, r, d, sent);
    } else {
      NoAliasUnmistaken(crc, r, d, sent);
      DamagedQueue(crc, r, d, sent);
    }
  }

  /** What the receiver answers to a bare header or an inverted datagram. */
  lemma DamagedReplies(crc: Checksum, r: R.Rcv, d: Datagram, sent: seq<seq<byte>>)
    requires R.Valid(r) && Genuine(crc, d, sent) && !Intact(crc, d, sent)
    ensures var k := AbsIndex(|r.output|, Number(d.idx));
      R.Receive(crc, r, Heard(d))
        == R.Reaction(r, if |d.bytes| == 4 && k < |r.output| + MAX_WINDOW_SIZE
                         then [Encode(crc, R.ReplyPacket(PTYPE_NACK, r.windowSize, Number(d.idx)))] else [])
  {
    hide Decode, Encode, R.Receive, InvertLast, R.SendNack, AbsIndex;
    var p := DataPacket(Number(d.idx), sent[d.idx]);
    GenuineFits(crc, d, sent);
    R.DamageIsHarmless(crc, r, p);
    R.CutSize(crc, p);
    InvertedSize(crc, p);
    OffsetOfIndex(|r.output|, AbsIndex(|r.output|, Number(d.idx)));
    AbsIndexNear(|r.output|, Number(d.idx));
    SendNackIs(crc, r, Number(d.idx));
  }

  lemma InvertedSize(crc: Checksum, p: Packet)
    requires Sendable(p)
    ensures |InvertLast(Encode(crc, p))| >= 8
  {}

  lemma {:induction false} AbsIndexNear(lo: nat, s: byte)
    ensures AbsIndex(lo, s) < lo + 256
  {
    AbsIndexExact(lo, lo + (s - lo) % 256);
    NumberIsResidue(lo + (s - lo) % 256);
  }

  lemma DamagedQueue(crc: Checksum, r: R.Rcv, d: Datagram, sent: seq<seq<byte>>)
    requires R.Valid(r) && Genuine(crc, d, sent) && !Intact(crc, d, sent) && Unmistaken(crc, r, d, sent)
    ensures var f := R.Receive(crc, r, Heard(d));
      f.next == r && QueueOK(crc, |r.output|, |r.output|, |sent|, f.replies)
  {
    hide QueueOK, Decode, Encode, R.Receive, InvertLast, AbsIndex, Genuine, Intact;
    DamagedReplies(crc, r, d, sent);
    EmptyQueue(crc, |r.output|, |sent|);
    var k := AbsIndex(|r.output|, Number(d.idx));
    if |d.bytes| == 4 && k < |r.output| + MAX_WINDOW_SIZE {
      NackQueue(crc, |r.output|, k, |sent|, r.windowSize);
    }
  }

  // ---------------------------------------------------- datagrams that are late

  /** A packet that does not alias is not mistaken. */
  lemma NoAliasUnmistaken(crc: Checksum, r: R.Rcv, d: Datagram, sent: seq<seq<byte>>)
    requires R.Valid(r) && d.idx < |sent| && NoAlias(|r.output|, d.idx)
    ensures Unmistaken(crc, r, d, sent)
  {
    hide Intact, Find, AbsIndex, R.Valid;
  }

  /** Every packet of the receive window keeps its number to itself. */
  lemma InWindowNeverAliases(n: nat, k: nat)
    requires n <= k < n + MAX_WINDOW_SIZE
    ensures NoAlias(n, k)
  {
    AliasByOffset(n, k);
  }

  /** An intact datagram is ignored if its number is outside the window or
      buffered. */
  lemma OutsideOrHeldIgnored(crc: Checksum, r: R.Rcv, d: Datagram, sent: seq<seq<byte>>)
    requires R.Valid(r) && Intact(crc, d, sent)
    requires AbsIndex(|r.output|, Number(d.idx)) >= |r.output| + MAX_WINDOW_SIZE || Find(r.held, Number(d.idx)).Some?
    ensures R.Receive(crc, r, Heard(d)) == R.Reaction(r, [])
  {
    hide Decode, Encode, R.Receive, AbsIndex;
    GenuineFits(crc, d, sent);
    var q := R.IntactIsAccepted(crc, r, DataPacket(Number(d.idx), sent[d.idx]));
    var k := AbsIndex(|r.output|, Number(d.idx));
    OffsetOfIndex(|r.output|, k);
    AbsIndexNear(|r.output|, Number(d.idx));
    CompareToExpected(r.lastack, q.seqnum);
    InsertKnown(r.lastack, r.held, q);
    R.ExpectedIs(r);
    BeyondWindow(r);
  }

  /** Otherwise it is handled as packet k, whatever packet it was. */
  lemma TakenAs(crc: Checksum, r: R.Rcv, d: Datagram, k: nat, sent: seq<seq<byte>>)
    requires R.Valid(r) && Intact(crc, d, sent)
    requires |r.output| <= k < |r.output| + MAX_WINDOW_SIZE && Number(k) == Number(d.idx)
    ensures var next := R.Receive(crc, r, Heard(d)).next;
      R.Valid(next) && Abs(next) == RefReceive(Abs(r), k, sent[d.idx])
  {
    hide Decode, Encode, R.Receive, Abs, RefReceive, NoAlias, R.Valid;
    GenuineFits(crc, d, sent);
    InWindowNeverAliases(|r.output|, k);
    ReceiveRefines(crc, r, k, sent[d.idx]);
  }

  lemma HeldAhead(r: R.Rcv, k: nat)
    requires R.Valid(r) && |r.output| <= k < |r.output| + MAX_WINDOW_SIZE
    ensures Find(r.held, Number(k)).Some? <==> k in Abs(r).ahead
  {}

  /** Any datagram that is not mistaken keeps the receiver faithful and answers in
      order. */
  lemma UnmistakenQueue(crc: Checksum, r: R.Rcv, d: Datagram, sent: seq<seq<byte>>)
    requires R.Valid(r) && Genuine(crc, d, sent) && Unmistaken(crc, r, d, sent)
    requires Faithful(Abs(r), sent)
    ensures var f := R.Receive(crc, r, Heard(d));
      && R.Valid(f.next) && Faithful(Abs(f.next), sent)
      && QueueOK(crc, |r.output|, |f.next.output|, |sent|, f.replies)
      && |r.output| <= |f.next.output|
  {
    hide QueueOK, Decode, Encode, R.Receive, Abs, Faithful, RefReceive, NoAlias, AbsIndex, Find, R.Valid;
    var k := AbsIndex(|r.output|, Number(d.idx));
    if !Intact(crc, d, sent) {
      DamagedQueue(crc, r, d, sent);
    } else if k >= |r.output| + MAX_WINDOW_SIZE || Find(r.held, Number(d.idx)).Some? {
      OutsideOrHeldIgnored(crc, r, d, sent);
      EmptyQueue(crc, |r.output|, |sent|);
    } else {
      InWindowNeverAliases(|r.output|, k);
      IntactQueue(crc, r, d.(idx := k), sent);
    }
  }

  /** The converse of `FlushFaithful`. */
  lemma {:induction false} FlushUnfaithful(f: Ref, sent: seq<seq<byte>>)
    requires Faithful(RefFlush(f), sent) && f.output <= sent
    ensures Faithful(f, sent)
    decreases |f.ahead|
  {
    var n := |f.output|;
    if n in f.ahead {
      assert f.ahead.Keys == (f.ahead - {n}).Keys + {n};
      var g := Ref(f.output + [f.ahead[n]], f.ahead - {n});
      FlushPrefix(g);
      assert RefFlush(g).output[n] == g.output[n];
      FlushUnfaithful(g, sent);
      assert forall j :: j in f.ahead && j != n ==> j in g.ahead;
    }
  }

  lemma {:induction false} FlushPrefix(f: Ref)
    ensures f.output <= RefFlush(f).output
    decreases |f.ahead|
  {
    var n := |f.output|;
    if n in f.ahead {
      assert f.ahead.Keys == (f.ahead - {n}).Keys + {n};
      FlushPrefix(Ref(f.output + [f.ahead[n]], f.ahead - {n}));
    }
  }

  /** An intact datagram leaves the receiver faithful to what was sent if and only
      if it is not mistaken. */
  lemma FaithfulExactly(crc: Checksum, r: R.Rcv, d: Datagram, sent: seq<seq<byte>>)
    requires R.Valid(r) && Intact(crc, d, sent) && Faithful(Abs(r), sent)
    ensures var next := R.Receive(crc, r, Heard(d)).next;
      R.Valid(next) && (Faithful(Abs(next), sent) <==> Unmistaken(crc, r, d, sent))
  {
    hide QueueOK, Decode, Encode, R.Receive, Abs, RefReceive, NoAlias, AbsIndex, Find, R.Valid;
    var k := AbsIndex(|r.output|, Number(d.idx));
    if Unmistaken(crc, r, d, sent) {
      UnmistakenQueue(crc, r, d, sent);
    } else {
      IntactSize(crc, d, sent);
      TakenAs(crc, r, d, k, sent);
      HeldAhead(r, k);
      if Faithful(Abs(R.Receive(crc, r, Heard(d)).next), sent) {
        FaithfulTaking(Abs(r), k, sent[d.idx], sent);
      }
    }
  }

  lemma IntactSize(crc: Checksum, d: Datagram, sent: seq<seq<byte>>)
    requires Intact(crc, d, sent)
    ensures |d.bytes| >= 8
  {}

  lemma FaithfulTaking(f: Ref, k: nat, payload: seq<byte>, sent: seq<seq<byte>>)
    requires |f.output| <= k < |f.output| + MAX_WINDOW_SIZE && k !in f.ahead && f.output <= sent
    requires Faithful(RefReceive(f, k, payload), sent)
    ensures k < |sent| && sent[k] == payload
  {
    var g := f.(ahead := f.ahead[k := payload]);
    FlushUnfaithful(g, sent);
    assert k in g.ahead;
  }

  /** What follows the replies already queued must continue them. */
  lemma {:induction false} QueueSuffix(crc: Checksum, lo: nat, mid: nat, hi: nat, n: nat,
                                       q: seq<seq<byte>>, more: seq<seq<byte>>)
    requires QueueOK(crc, lo, mid, n, q) && QueueOK(crc, lo, hi, n, q + more)
    ensures QueueOK(crc, mid, hi, n, more)
    decreases |q|
  {
    hide Decode, AbsIndex;
    if q == [] {
      assert q + more == more;
    } else {
      var p := Decode(crc, BLANK, ReadUpTo(q[0], REPLY_BUFFER)).1;
      assert (q + more)[0] == q[0] && (q + more)[1..] == q[1..] + more;
      QueueSuffix(crc, if p.ptype == PTYPE_ACK then AbsIndex(lo, p.seqnum) else lo, mid, hi, n, q[1..], more);
    }
  }

  /** A damaged datagram leaves the reverse queue in order if and only if it is
      not mistaken. */
  lemma InOrderExactly(crc: Checksum, r: R.Rcv, d: Datagram, sent: seq<seq<byte>>, lo: nat, q: seq<seq<byte>>)
    requires R.Valid(r) && Genuine(crc, d, sent) && !Intact(crc, d, sent)
    requires QueueOK(crc, lo, |r.output|, |sent|, q)
    ensures var f := R.Receive(crc, r, Heard(d));
      f.next == r
      && (QueueOK(crc, lo, |r.output|, |sent|, q + f.replies) <==> Unmistaken(crc, r, d, sent))
  {
    hide QueueOK, Decode, Encode, R.Receive, AbsIndex, Find, R.Valid, Genuine, Intact;
    var f := R.Receive(crc, r, Heard(d));
    var n := |r.output|;
    DamagedReplies(crc, r, d, sent);
    if Unmistaken(crc, r, d, sent) {
      DamagedQueue(crc, r, d, sent);
      QueueExtends(crc, lo, n, n, |sent|, q, f.replies);
    } else if QueueOK(crc, lo, n, |sent|, q + f.replies) {
      QueueSuffix(crc, lo, n, n, |sent|, q, f.replies);
      NackAsksBelow(crc, n, Number(d.idx), |sent|, r.windowSize);
    }
  }

  /** A queued NACK asks for a packet that was sent. */
  lemma NackAsksBelow(crc: Checksum, lo: nat, s: byte, n: nat, w: bits5)
    requires QueueOK(crc, lo, lo, n, [Encode(crc, R.ReplyPacket(PTYPE_NACK, w, s))])
    ensures AbsIndex(lo, s) < n
  {
    hide Decode, Encode, AbsIndex;
    ReplyDecodes(crc, PTYPE_NACK, w, s);
  }

  lemma SendNackIs(crc: Checksum, r: R.Rcv, s: byte)
    requires R.Consistent(r, 0)
    ensures R.SendNack(crc, r, s) == Encode(crc, R.ReplyPacket(PTYPE_NACK, r.windowSize, s))
  {}
}
