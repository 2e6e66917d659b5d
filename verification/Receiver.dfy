/** sel_repeat_read.c on values: how the receiver reacts to one datagram. */
module Receiver {
  import opened Bytes
  import opened Codec
  import opened SeqNum

  /** `held` is the non-NULL prefix of receive_buffer; `output` the payloads
      written so far, one entry a packet. */
  datatype Rcv = Rcv(lastack: int, windowSize: int, held: seq<Packet>, output: seq<seq<byte>>)

  datatype Reaction = Reaction(next: Rcv, replies: seq<seq<byte>>)

  const START := Rcv(255, MAX_WINDOW_SIZE, [], [])

  function Expected(r: Rcv): int {
    (r.lastack + 1) % 256
  }

  /** Offsets from the expected number strictly increase within low .. 30. */
  predicate Ascending(lastack: int, held: seq<Packet>, low: int) {
    (forall i :: 0 <= i < |held| ==> low <= Offset(lastack, held[i].seqnum) < MAX_WINDOW_SIZE)
    && forall i, j :: 0 <= i < j < |held| ==> Offset(lastack, held[i].seqnum) < Offset(lastack, held[j].seqnum)
  }

  predicate WellFormed(p: Packet) {
    p.length <= |p.payload|
  }

  predicate AllWellFormed(held: seq<Packet>) {
    forall i :: 0 <= i < |held| ==> WellFormed(held[i])
  }

  /** The representation invariant; `low` is 1 at the head of the receive loop
      and 0 while the flush is under way. */
  predicate Consistent(r: Rcv, low: int) {
    && r.lastack == Number(|r.output| + 255)
    && Ascending(r.lastack, r.held, low)
    && |r.held| <= MAX_WINDOW_SIZE - low
    && r.windowSize == MAX_WINDOW_SIZE - |r.held|
    && AllWellFormed(r.held)
  }

  predicate Valid(r: Rcv): (v: bool)
    ensures v ==> Consistent(r, 0)
  {
    Consistent(r, 1)
  }

  function ReplyPacket(t: bits3, w: bits5, s: byte): Packet {
    BLANK.(ptype := t, window := w, seqnum := s)
  }

  function SendAck(crc: Checksum, r: Rcv): seq<byte>
    requires Consistent(r, 0)
  {
    Encode(crc, ReplyPacket(PTYPE_ACK, r.windowSize, Expected(r)))
  }

  function SendNack(crc: Checksum, r: Rcv, s: byte): seq<byte>
    requires Consistent(r, 0)
  {
    Encode(crc, ReplyPacket(PTYPE_NACK, r.windowSize, s))
  }

  /** insert_pkt: keep the buffer sorted, ignore a number already there. */
  function Insert(lastack: int, held: seq<Packet>, p: Packet): seq<Packet> {
    if held == [] then [p]
    else if Offset(lastack, p.seqnum) == Offset(lastack, held[0].seqnum) then held
    else if Offset(lastack, p.seqnum) < Offset(lastack, held[0].seqnum) then [p] + held
    else [held[0]] + Insert(lastack, held[1..], p)
  }

  /** Deliver one packet: write it and advance. */
  function Advance(r: Rcv, p: Packet): Rcv
    requires WellFormed(p)
  {
    r.(lastack := Expected(r), output := r.output + [Content(p)])
  }

  /** Take the first buffered packet out. */
  function PopHeld(r: Rcv): Rcv
    requires r.held != []
  {
    r.(held := r.held[1..], windowSize := r.windowSize + 1)
  }

  /** The loop that delivers buffered successors, acknowledging after each one
      and once more when it stops. */
  function Flush(crc: Checksum, r: Rcv): Reaction
    requires Consistent(r, 0)
    decreases |r.held|
  {
    if r.held == [] || r.held[0].seqnum != Expected(r) then Reaction(r, [SendAck(crc, r)])
    else
      FlushStepConsistent(r);
      var r1 := Advance(PopHeld(r), r.held[0]);
      var rest := Flush(crc, r1);
      Reaction(rest.next, [SendAck(crc, r1)] + rest.replies)
  }

  /** The response to a valid packet: out of window, expected, or early. */
  function Accept(crc: Checksum, r: Rcv, p: Packet): Reaction
    requires Valid(r) && WellFormed(p)
  {
    if CompareSeqnums(r.lastack, p.seqnum, Expected(r)) >= MAX_WINDOW_SIZE then Reaction(r, [])
    else if p.seqnum == Expected(r) then
      AdvanceConsistent(r, p);
      Flush(crc, Advance(r, p))
    else Reaction(Buffered(r, p), [])
  }

  /** After insert_pkt. */
  function Buffered(r: Rcv, p: Packet): Rcv {
    var held := Insert(r.lastack, r.held, p);
    r.(held := held, windowSize := r.windowSize - (|held| - |r.held|))
  }

  /** The branches of the loop, once a datagram of `size` bytes is decoded. */
  function React(crc: Checksum, r: Rcv, status: Status, p: Packet, size: nat): Reaction
    requires Valid(r) && (status == PktOk ==> WellFormed(p))
  {
    if status == ENoHeader then Reaction(r, [])
    else if status == PktOk then Accept(crc, r, p)
    else if CompareSeqnums(r.lastack, p.seqnum, Expected(r)) < MAX_WINDOW_SIZE
      && status == EUnconsistent && size == 4 then Reaction(r, [SendNack(crc, r, p.seqnum)])
    else Reaction(r, [])
  }

  /** One pass of the receive loop. */
  function Receive(crc: Checksum, r: Rcv, data: seq<byte>): Reaction
    requires Valid(r)
  {
    DecodedWellFormed(crc, data);
    var (status, p) := Decode(crc, BLANK, data);
    React(crc, r, status, p, |data|)
  }

  // ---------------------------------------------------------------- invariant

  lemma DecodedWellFormed(crc: Checksum, data: seq<byte>)
    ensures Decode(crc, BLANK, data).0 == PktOk ==> Sendable(Decode(crc, BLANK, data).1)
  {}

  lemma ExpectedIs(r: Rcv)
    requires Consistent(r, 0)
    ensures Expected(r) == Number(|r.output|)
  {
    NumberAfterLast(|r.output|);
  }

  lemma OffsetShifts(lastack: int, s: int)
    requires 0 <= lastack < 256 && 0 <= s < 256 && Offset(lastack, s) >= 1
    ensures Offset((lastack + 1) % 256, s) == Offset(lastack, s) - 1
  {}

  lemma ShiftAscending(lastack: int, held: seq<Packet>)
    requires 0 <= lastack < 256 && Ascending(lastack, held, 1)
    ensures Ascending((lastack + 1) % 256, held, 0)
  {
    forall i | 0 <= i < |held|
      ensures Offset((lastack + 1) % 256, held[i].seqnum) == Offset(lastack, held[i].seqnum) - 1
    {
      OffsetShifts(lastack, held[i].seqnum);
    }
  }

  lemma {:induction false} Pigeonhole(lastack: int, held: seq<Packet>, low: int, i: nat)
    requires Ascending(lastack, held, low) && i < |held|
    ensures Offset(lastack, held[i].seqnum) >= low + i
  {
    if i > 0 { Pigeonhole(lastack, held, low, i - 1); }
  }

  /** At most 31 - low packets fit, so the array never overflows. */
  lemma AscendingBounded(lastack: int, held: seq<Packet>, low: int)
    requires Ascending(lastack, held, low) && low <= MAX_WINDOW_SIZE
    ensures |held| <= MAX_WINDOW_SIZE - low
  {
    if held != [] { Pigeonhole(lastack, held, low, |held| - 1); }
  }

  lemma AdvanceConsistent(r: Rcv, p: Packet)
    requires Valid(r) && WellFormed(p)
    ensures Consistent(Advance(r, p), 0)
  {
    NextNumber(|r.output| + 255);
    assert Number(|r.output| + 256) == Number(|r.output|);
    ShiftAscending(r.lastack, r.held);
  }

  lemma TailAscending(lastack: int, held: seq<Packet>)
    requires held != [] && Ascending(lastack, held, 0)
    ensures Ascending(lastack, held[1..], 1)
  {
    var t := held[1..];
    forall i | 0 <= i < |t| ensures Offset(lastack, t[i].seqnum) > Offset(lastack, held[0].seqnum) {
      assert t[i] == held[i + 1];
    }
  }

  lemma FlushStepConsistent(r: Rcv)
    requires Consistent(r, 0) && r.held != [] && r.held[0].seqnum == Expected(r)
    ensures WellFormed(r.held[0]) && Consistent(Advance(PopHeld(r), r.held[0]), 0)
  {
    NextNumber(|r.output| + 255);
    TailAscending(r.lastack, r.held);
    ShiftAscending(r.lastack, r.held[1..]);
  }

  lemma {:induction false} FlushValid(crc: Checksum, r: Rcv)
    requires Consistent(r, 0)
    ensures Valid(Flush(crc, r).next)
    decreases |r.held|
  {
    if r.held == [] || r.held[0].seqnum != Expected(r) {
      if r.held != [] { CompareToExpected(r.lastack, r.held[0].seqnum); }
      AscendingBounded(r.lastack, r.held, 1);
    } else {
      FlushStepConsistent(r);
      FlushValid(crc, Advance(PopHeld(r), r.held[0]));
    }
  }

  /** Insertion keeps the order, and whatever lower bound both the buffer and the
      packet respect. */
  lemma {:induction false} InsertAscending(lastack: int, held: seq<Packet>, p: Packet, low: int)
    requires Ascending(lastack, held, low) && low <= Offset(lastack, p.seqnum) < MAX_WINDOW_SIZE
    ensures var h := Insert(lastack, held, p);
      Ascending(lastack, h, low)
  {
    if held == [] {
      assert Insert(lastack, held, p) == [p];
    } else if Offset(lastack, p.seqnum) > Offset(lastack, held[0].seqnum) {
      var above := Offset(lastack, held[0].seqnum) + 1;
      var t := held[1..];
      assert Ascending(lastack, t, above) by {
        forall i | 0 <= i < |t| ensures Offset(lastack, t[i].seqnum) >= above {
          assert t[i] == held[i + 1];
        }
      }
      InsertAscending(lastack, t, p, above);
      ConsAscending(lastack, held[0], Insert(lastack, t, p), low);
    } else if Offset(lastack, p.seqnum) < Offset(lastack, held[0].seqnum) {
      ConsAscending(lastack, p, held, low);
    }
  }

  lemma {:induction false} InsertWellFormed(lastack: int, held: seq<Packet>, p: Packet)
    requires AllWellFormed(held) && WellFormed(p)
    ensures AllWellFormed(Insert(lastack, held, p))
    ensures Insert(lastack, held, p) == held || |Insert(lastack, held, p)| == |held| + 1
  {
    if held != [] && Offset(lastack, p.seqnum) > Offset(lastack, held[0].seqnum) {
      InsertWellFormed(lastack, held[1..], p);
    }
  }

  lemma ConsAscending(lastack: int, p: Packet, t: seq<Packet>, low: int)
    requires low <= Offset(lastack, p.seqnum) < MAX_WINDOW_SIZE
    requires Ascending(lastack, t, if t == [] then low else Offset(lastack, t[0].seqnum))
    requires t != [] ==> Offset(lastack, p.seqnum) < Offset(lastack, t[0].seqnum)
    ensures Ascending(lastack, [p] + t, low)
  {
    var h := [p] + t;
    forall i | 1 <= i < |h| ensures Offset(lastack, h[i].seqnum) >= Offset(lastack, t[0].seqnum) {
      assert h[i] == t[i - 1];
    }
  }

  lemma BufferedValid(r: Rcv, p: Packet)
    requires Valid(r) && WellFormed(p) && 1 <= Offset(r.lastack, p.seqnum) < MAX_WINDOW_SIZE
    ensures Valid(Buffered(r, p))
  {
    InsertAscending(r.lastack, r.held, p, 1);
    InsertWellFormed(r.lastack, r.held, p);
    AscendingBounded(r.lastack, Insert(r.lastack, r.held, p), 1);
  }

  /** Whatever packet is accepted, the receive loop keeps the buffer sorted,
      within the window and free of the expected number, and `windowSize` equal
      to the free slots. */
  lemma AcceptValid(crc: Checksum, r: Rcv, p: Packet)
    requires Valid(r) && WellFormed(p)
    ensures Valid(Accept(crc, r, p).next)
  {
    CompareToExpected(r.lastack, p.seqnum);
    if CompareSeqnums(r.lastack, p.seqnum, Expected(r)) >= MAX_WINDOW_SIZE {
    } else if p.seqnum == Expected(r) {
      AdvanceConsistent(r, p);
      FlushValid(crc, Advance(r, p));
    } else {
      BufferedValid(r, p);
    }
  }

  lemma ReceiveValid(crc: Checksum, r: Rcv, data: seq<byte>)
    requires Valid(r)
    ensures Valid(Receive(crc, r, data).next)
  {
    if Decode(crc, BLANK, data).0 == PktOk {
      DecodedWellFormed(crc, data);
      AcceptValid(crc, r, Decode(crc, BLANK, data).1);
    }
  }

  lemma CutSize(crc: Checksum, p: Packet)
    requires Sendable(p)
    ensures |Encode(crc, p)| >= 8 && |Encode(crc, p)[..4]| == 4
  {}

  /** Damage done by the link never moves the receiver: a cut packet in the
      window is answered by one NACK that names it, an inverted one by nothing. */
  lemma DamageIsHarmless(crc: Checksum, r: Rcv, p: Packet)
    requires Valid(r) && Sendable(p)
    ensures Receive(crc, r, InvertLast(Encode(crc, p))) == Reaction(r, [])
    ensures Receive(crc, r, Encode(crc, p)[..4])
         == Reaction(r, if Offset(r.lastack, p.seqnum) < MAX_WINDOW_SIZE then [SendNack(crc, r, p.seqnum)] else [])
  {
    hide Encode, Decode, InvertLast;
    CompareToExpected(r.lastack, p.seqnum);
    CutSize(crc, p);
    InvertedIsCrcError(crc, BLANK, p);
    CutIsUnconsistent(crc, BLANK, p);
  }

  /** An intact datagram is handled as the packet it encodes. */
  lemma IntactIsAccepted(crc: Checksum, r: Rcv, p: Packet) returns (q: Packet)
    requires Valid(r) && Sendable(p)
    ensures WellFormed(q) && q.seqnum == p.seqnum && Content(q) == Content(p)
    ensures Receive(crc, r, Encode(crc, p)) == Accept(crc, r, q)
  {
    RoundTrip(crc, BLANK, p);
    q := Decode(crc, BLANK, Encode(crc, p)).1;
    assert Padded(Content(p))[..p.length] == Content(p);
  }

  /** An ACK and a NACK on the wire, byte by byte. */
  lemma ReplyOnTheWire(crc: Checksum, w: bits5, s: byte)
    ensures var ack: seq<byte> := [0x40 + w, s, 0, 0]; var nack: seq<byte> := [0x80 + w, s, 0, 0];
      && Encode(crc, ReplyPacket(PTYPE_ACK, w, s)) == ack + BigEndian32(crc(ack))
      && Encode(crc, ReplyPacket(PTYPE_NACK, w, s)) == nack + BigEndian32(crc(nack))
  {
    var ack: seq<byte>, nack: seq<byte> := [0x40 + w, s, 0, 0], [0x80 + w, s, 0, 0];
    assert Covered(ReplyPacket(PTYPE_ACK, w, s)) == ack;
    assert Covered(ReplyPacket(PTYPE_NACK, w, s)) == nack;
  }

  /** Whatever bytes arrive, if they are not a valid packet nothing changes, and
      only a bare header is answered: by a NACK, if its number is in the window. */
  lemma RejectedAnswers(crc: Checksum, r: Rcv, data: seq<byte>)
    requires Valid(r) && Decode(crc, BLANK, data).0 != PktOk
    ensures Receive(crc, r, data)
         == Reaction(r, if |data| == 4 && Offset(r.lastack, data[1]) < MAX_WINDOW_SIZE
                        then [SendNack(crc, r, data[1])] else [])
  {
    hide SendNack, Encode;
    if |data| >= 4 {
      CompareToExpected(r.lastack, data[1]);
      HeaderReportedExactly(crc, BLANK, data);
    }
  }

  /** The ACK due after d of `held` buffered packets followed `written` ones. */
  function AckAfter(crc: Checksum, held: nat, written: nat, d: nat): seq<byte>
    requires d <= held <= MAX_WINDOW_SIZE
  {
    Encode(crc, ReplyPacket(PTYPE_ACK, MAX_WINDOW_SIZE - (held - d), Number(written + d)))
  }

  lemma AckAfterStep(crc: Checksum, held: nat, written: nat, d: nat)
    requires d < held <= MAX_WINDOW_SIZE
    ensures AckAfter(crc, held, written, d + 1) == AckAfter(crc, held - 1, written + 1, d)
  {
    hide Encode;
    assert written + (d + 1) == written + 1 + d;
  }

  /** The same reply, counted from before the first packet was delivered. */
  lemma AckAfterFirst(crc: Checksum, held: nat, written: nat, m: nat, i: nat)
    requires 1 <= i <= m <= held <= MAX_WINDOW_SIZE
    ensures AckAfter(crc, held - 1, written + 1, if i < m then i else m - 1)
         == AckAfter(crc, held, written, if i < m then i + 1 else m)
  {
    hide AckAfter;
    AckAfterStep(crc, held, written, if i < m then i else m - 1);
  }

  lemma SendAckIs(crc: Checksum, r: Rcv)
    requires Consistent(r, 0)
    ensures SendAck(crc, r) == AckAfter(crc, |r.held|, |r.output|, 0)
  {
    hide Encode;
    ExpectedIs(r);
  }

  lemma FlushStops(crc: Checksum, r: Rcv)
    requires Consistent(r, 0) && (r.held == [] || r.held[0].seqnum != Expected(r))
    ensures Flush(crc, r) == Reaction(r, [SendAck(crc, r)])
  {
    hide SendAck;
  }

  /** The first step of a flush, if there is one to take. */
  lemma FlushUnfolds(crc: Checksum, r: Rcv)
    requires Consistent(r, 0) && r.held != [] && r.held[0].seqnum == Expected(r)
    ensures WellFormed(r.held[0])
    ensures var r1 := Advance(PopHeld(r), r.held[0]);
      Consistent(r1, 0) && |r1.held| == |r.held| - 1 && |r1.output| == |r.output| + 1
      && Flush(crc, r) == Reaction(Flush(crc, r1).next, [SendAck(crc, r1)] + Flush(crc, r1).replies)
  {
    hide SendAck, Consistent;
    FlushStepConsistent(r);
  }

  /** A flush delivers a prefix of the buffer, m packets, and sends m + 1 ACKs. */
  lemma {:induction false} FlushShape(crc: Checksum, r: Rcv)
    requires Consistent(r, 0)
    ensures var f := Flush(crc, r);
      var m := |r.held| - |f.next.held|;
      m >= 0 && |f.replies| == m + 1 && |f.next.output| == |r.output| + m && f.next.held == r.held[m..]
    decreases |r.held|
  {
    hide SendAck, Consistent;
    if r.held != [] && r.held[0].seqnum == Expected(r) {
      FlushStepConsistent(r);
      var r1 := Advance(PopHeld(r), r.held[0]);
      FlushShape(crc, r1);
      var m1 := |r1.held| - |Flush(crc, r1).next.held|;
      assert r.held[1..][m1..] == r.held[m1 + 1..];
    }
  }

  /** One ACK after each packet delivered and one more at the end; every ACK
      carries the next number expected and the free slots at that moment. */
  lemma {:induction false} FlushReplies(crc: Checksum, r: Rcv, i: nat)
    requires Consistent(r, 0) && |r.held| <= MAX_WINDOW_SIZE && i < |Flush(crc, r).replies|
    ensures var m := |r.held| - |Flush(crc, r).next.held|;
      var delivered := if i < m then i + 1 else m;
      0 <= delivered <= |r.held|
      && Flush(crc, r).replies[i] == AckAfter(crc, |r.held|, |r.output|, delivered)
    decreases |r.held|
  {
    hide AckAfter, SendAck, Consistent, Flush, WellFormed, Expected;
    FlushShape(crc, r);
    if r.held == [] || r.held[0].seqnum != Expected(r) {
      FlushStops(crc, r);
      SendAckIs(crc, r);
    } else {
      FlushUnfolds(crc, r);
      var r1 := Advance(PopHeld(r), r.held[0]);
      hide Advance, PopHeld;
      FlushShape(crc, r1);
      if i == 0 {
        SendAckIs(crc, r1);
        AckAfterStep(crc, |r.held|, |r.output|, 0);
      } else {
        FlushReplies(crc, r1, i - 1);
        AckAfterFirst(crc, |r.held|, |r.output|, |r.held| - |Flush(crc, r).next.held|, i);
      }
    }
  }

  /** A valid packet draws one ACK for each packet it lets the receiver write, and
      none otherwise; the last two carry the same number. */
  lemma AnswersExactly(crc: Checksum, r: Rcv, p: Packet)
    requires Valid(r) && Sendable(p)
    ensures var f := Receive(crc, r, Encode(crc, p));
      && |f.replies| == |f.next.output| - |r.output|
      && |f.replies| <= |r.held| + 1 <= MAX_WINDOW_SIZE
      && forall i :: 0 <= i < |f.replies| ==>
           f.replies[i] == AckAfter(crc, |r.held|, |r.output| + 1, if i + 1 < |f.replies| then i + 1 else i)
  {
    hide Encode, Decode, Receive, Flush, AckAfter, SendAck;
    var q := IntactIsAccepted(crc, r, p);
    CompareToExpected(r.lastack, q.seqnum);
    if q.seqnum == Expected(r) {
      AdvanceConsistent(r, q);
      var a := Advance(r, q);
      FlushShape(crc, a);
      forall i | 0 <= i < |Flush(crc, a).replies|
        ensures Flush(crc, a).replies[i]
             == AckAfter(crc, |r.held|, |r.output| + 1, if i + 1 < |Flush(crc, a).replies| then i + 1 else i)
      {
        FlushReplies(crc, a, i);
      }
    }
  }
}
