/** What every step puts in flight, the flow control that governs reading, and the
    books of whole runs: each datagram and each reply is accounted for. */
module Accounting {
  import opened Bytes
  import opened Codec
  import opened SeqNum
  import S = Sender
  import R = Receiver
  import opened ReceiverRef
  import opened Protocol
  import opened Safety
  import opened Progress
  import LinkSim

  // ------------------------------------------------------------ single steps

  /** A chunk that is read goes out at once, whatever is outstanding. */
  lemma ReadTransmits(crc: Checksum, input: seq<byte>, s: State, n: nat) returns (d: Datagram)
    requires Inv(crc, input, s) && Typed(s) && Enabled(crc, AnyOrder, s, Read(n))
    ensures d.idx == |s.sent|
    ensures var t := Apply(crc, s, Read(n));
      && t.sent == s.sent + [s.unread[..n]] && t.unread == s.unread[n..]
      && t.wire == s.wire + [d] && Intact(crc, d, t.sent)
      && t.air == s.air && t.rcv == s.rcv && t.back == s.back
  {
    hide QueueOK, Encode, AllGenuine, Abs, Flatten, R.Valid, S.Ready;
    d := Datagram(|s.sent|, |s.sent| + 1, Encode(crc, DataPacket(Number(|s.sent|), s.unread[..n])));
    assert Apply(crc, s, Read(n)).wire == s.wire + [d];
  }

  /** An expired timer sends its packet again. */
  lemma ResendTransmits(crc: Checksum, input: seq<byte>, s: State, i: nat) returns (d: Datagram)
    requires Inv(crc, input, s) && Typed(s) && Enabled(crc, AnyOrder, s, Resend(i))
    ensures d.idx == Base(s) + i && Intact(crc, d, s.sent)
    ensures Apply(crc, s, Resend(i)) == s.(wire := s.wire + [d])
  {
    hide QueueOK, Encode, AllIntact, AllGenuine, ReceiverInv, InputInv, R.Valid;
    WindowIsIntact(crc, s, i, |s.sent|);
    d := Datagram(Base(s) + i, |s.sent|, Encode(crc, s.snd.window[i]));
  }

  /** The reply the sender handles next. */
  function NextPacket(crc: Checksum, s: State): Packet
    requires s.back != []
  {
    Decode(crc, BLANK, NextReply(s)).1
  }

  /** A NACK brings the packet it asks for on the wire again and changes nothing
      that is outstanding. */
  lemma NackTransmits(crc: Checksum, input: seq<byte>, s: State) returns (d: Datagram)
    requires Inv(crc, input, s) && Typed(s) && Enabled(crc, AnyOrder, s, Reply)
    requires NextPacket(crc, s).ptype == PTYPE_NACK
    ensures d.idx == AbsIndex(Base(s), NextPacket(crc, s).seqnum) && Intact(crc, d, s.sent)
    ensures var t := Apply(crc, s, Reply);
      && t.wire == s.wire + [d] && t.back == s.back[1..] && t.sent == s.sent && Base(t) == Base(s)
  {
    hide Encode, Decode, R.Valid, R.Consistent, S.HandleAck, S.HandleNack, SenderInv, InputInv, Faithful, Abs,
      AllIntact, AllGenuine, AbsIndex, S.NackPosition;
    var t := Apply(crc, s, Reply);
    var p := NextPacket(crc, s);
    var k := AbsIndex(Base(s), p.seqnum);
    NackStep(crc, input, s, k, p.window, t);
    WindowIsIntact(crc, s, k - Base(s), |s.sent|);
    d := Datagram(k, |s.sent|, Encode(crc, s.snd.window[k - Base(s)]));
    assert t.wire == s.wire + [d];
  }

  /** An ACK sends nothing and moves the oldest packet to the one it names. */
  lemma AckTransmitsNothing(crc: Checksum, input: seq<byte>, s: State)
    requires Inv(crc, input, s) && Typed(s) && Enabled(crc, AnyOrder, s, Reply)
    requires NextPacket(crc, s).ptype != PTYPE_NACK
    ensures NextPacket(crc, s).ptype == PTYPE_ACK
    ensures var t := Apply(crc, s, Reply);
      && t.wire == s.wire && t.back == s.back[1..] && t.sent == s.sent
      && Base(t) == AbsIndex(Base(s), NextPacket(crc, s).seqnum)
  {
    hide Encode, Decode, R.Valid, R.Consistent, S.HandleAck, S.HandleNack, SenderInv, InputInv, Faithful, Abs,
      AllIntact, AllGenuine, AbsIndex, S.NackPosition;
    var t := Apply(crc, s, Reply);
    var p := NextPacket(crc, s);
    var k := AbsIndex(Base(s), p.seqnum);
    QueueSpan(crc, k, |s.rcv.output|, |s.sent|, s.back[1..]);
    AckStep(crc, input, s, k, p.window, t);
  }

  /** What the receiver makes of a datagram when it decodes it. */
  function StatusOf(crc: Checksum, d: Datagram): Status {
    Decode(crc, BLANK, Heard(d)).0
  }

  /** The link may do anything to the oldest datagram, and does it to no other: it
      disappears, or goes last into the air, untouched, as a bare header, or with
      a CRC that cannot match. */
  lemma LinkMoves(crc: Checksum, input: seq<byte>, s: State, fate: Fate)
    requires Inv(crc, input, s) && Typed(s) && s.wire != []
    ensures Enabled(crc, AnyOrder, s, Link(fate))
    ensures var t := Apply(crc, s, Link(fate));
      && t == s.(wire := s.wire[1..], air := t.air)
      && (fate == Drop ==> t.air == s.air)
      && (fate == Pass ==> t.air == s.air + [s.wire[0]])
      && (fate == Cut || fate == Invert ==>
            && |t.air| == |s.air| + 1 && t.air[..|s.air|] == s.air
            && var e := t.air[|s.air|];
               && e.idx == s.wire[0].idx && (|e.bytes| == 4 <==> fate == Cut)
               && StatusOf(crc, e) == if fate == Cut then EUnconsistent else ECrc)
  {
    hide QueueOK, Encode, Decode, InvertLast, R.Valid, Abs, InputInv, Faithful, SenderInv, S.Ready, AllGenuine;
    var d := s.wire[0];
    assert Intact(crc, d, s.sent);
    var p := DataPacket(Number(d.idx), s.sent[d.idx]);
    R.CutSize(crc, p);
    InvertedSize(crc, p);
    CutIsUnconsistent(crc, BLANK, p);
    InvertedIsCrcError(crc, BLANK, p);
    InvertedFits(crc, p);
  }

  lemma InvertedFits(crc: Checksum, p: Packet)
    requires Sendable(p)
    ensures |InvertLast(Encode(crc, p))| <= RECEIVE_BUFFER
  {}

  /** A bare header whose number lies in the receive window. */
  predicate AsksAgain(s: State, d: Datagram) {
    |d.bytes| == 4 && AbsIndex(|s.rcv.output|, Number(d.idx)) < |s.rcv.output| + MAX_WINDOW_SIZE
  }

  /** The receiver sends one reply for each packet it writes, one for a bare header
      in the window, and none otherwise. */
  lemma DeliverAnswers(crc: Checksum, input: seq<byte>, s: State, i: nat)
    requires Inv(crc, input, s) && Typed(s) && Enabled(crc, AnyOrder, s, Deliver(i))
    ensures var t := Apply(crc, s, Deliver(i));
      && s.back <= t.back && t.wire == s.wire && |t.air| == |s.air| - 1 && t.snd == s.snd && t.sent == s.sent
      && |t.back| - |s.back|
           == |t.rcv.output| - |s.rcv.output| + if AsksAgain(s, s.air[i]) then 1 else 0
  {
    hide QueueOK, Encode, R.Receive, SenderInv, InputInv, AllIntact, Abs, R.Valid, Faithful, AbsIndex, Intact,
      Genuine, S.Ready;
    var d := s.air[i];
    assert Genuine(crc, d, s.sent);
    if Intact(crc, d, s.sent) {
      IntactSize(crc, d, s.sent);
      IntactAnswered(crc, s, d);
    } else {
      DamagedReplies(crc, s.rcv, d, s.sent);
    }
  }

  lemma IntactAnswered(crc: Checksum, s: State, d: Datagram)
    requires R.Valid(s.rcv) && Intact(crc, d, s.sent)
    ensures var f := R.Receive(crc, s.rcv, Heard(d));
      |f.replies| == |f.next.output| - |s.rcv.output|
  {
    hide Encode, R.Receive, Decode, R.Valid;
    GenuineFits(crc, d, s.sent);
    R.AnswersExactly(crc, s.rcv, DataPacket(Number(d.idx), s.sent[d.idx]));
  }

  // ----------------------------------------------------- a NACK is honoured

  lemma StillRunning(crc: Checksum, mode: Mode, input: seq<byte>, s: State)
    requires Good(crc, mode, input, s) && |s.rcv.output| < |s.sent|
    ensures s.snd.phase == S.Running && 0 <= Base(s) <= |s.rcv.output| && |s.sent| <= Base(s) + MAX_WINDOW_SIZE
  {
    hide ReceiverInv, QueueOK, Ordered, AllIntact, AllGenuine, Flatten;
  }

  /** With a NACK for k last in the queue, reading all replies leaves a copy of
      packet k last on the wire. */
  lemma {:induction false} DrainToNack(crc: Checksum, mode: Mode, input: seq<byte>, s: State,
                                       q: seq<seq<byte>>, k: nat, w: bits5)
    returns (t: State, d: Datagram)
    requires mode != AnyOrder && Typed(s) && Good(crc, mode, input, s)
    requires |s.rcv.output| <= k < |s.sent|
    requires s.back == q + [Encode(crc, R.ReplyPacket(PTYPE_NACK, w, Number(k)))]
    ensures Onward(crc, mode, input, s, t) && SameInputSide(s, t) && t.rcv == s.rcv && t.air == s.air && t.back == []
    ensures |s.wire| < |t.wire| && s.wire <= t.wire && t.wire[|t.wire| - 1] == d
    ensures d.idx == k && Intact(crc, d, t.sent)
    decreases |q|
  {
    hide Good, Typed, Legal, Run, CanReach, Inv, Encode, Decode, Intact, AbsIndex;
    StillRunning(crc, mode, input, s);
    var u := ReachStep(crc, mode, input, s, Reply);
    ReplyKeeps(crc, s);
    ReplyOnlySends(crc, s);
    if q == [] {
      ReplyDecodes(crc, PTYPE_NACK, w, Number(k));
      AbsIndexExact(Base(s), k);
      GoodInv(crc, mode, input, s);
      d := NackTransmits(crc, input, s);
      t := u;
    } else {
      assert u.back == q[1..] + [Encode(crc, R.ReplyPacket(PTYPE_NACK, w, Number(k)))];
      t, d := DrainToNack(crc, mode, input, u, q[1..], k, w);
      ReachTrans(crc, mode, s, u, t);
    }
  }

  lemma GoodInv(crc: Checksum, mode: Mode, input: seq<byte>, s: State)
    requires Good(crc, mode, input, s)
    ensures Inv(crc, input, s)
  {}

  lemma ReplyOnlySends(crc: Checksum, s: State)
    requires Typed(s) && Enabled(crc, AnyOrder, s, Reply)
    ensures s.wire <= Apply(crc, s, Reply).wire
  {
    hide Encode, Decode, R.Valid;
  }

  /** A bare header that arrives in the window, not mistaken, brings an intact copy
      of its packet on the wire as soon as the sender has read its replies. */
  lemma HeaderIsHonoured(crc: Checksum, mode: Mode, input: seq<byte>, s: State, i: nat)
    returns (t: State, d: Datagram)
    requires mode != AnyOrder && Typed(s) && Good(crc, mode, input, s) && Enabled(crc, mode, s, Deliver(i))
    requires AsksAgain(s, s.air[i])
    ensures Onward(crc, mode, input, s, t) && SameInputSide(s, t) && t.rcv == s.rcv && t.back == []
    ensures |s.wire| < |t.wire| && s.wire <= t.wire && t.wire[|t.wire| - 1] == d
    ensures d.idx == AbsIndex(|s.rcv.output|, Number(s.air[i].idx)) && Intact(crc, d, t.sent)
  {
    hide Legal, Run, CanReach, Ordered, QueueOK, Encode, Decode, R.Receive, AbsIndex, Find, SenderInv, InputInv,
      ReceiverInv, AllIntact, Genuine, Intact;
    var h := s.air[i];
    var k := AbsIndex(|s.rcv.output|, Number(h.idx));
    assert Genuine(crc, h, s.sent);
    if Intact(crc, h, s.sent) { IntactSize(crc, h, s.sent); }
    if mode == InOrder { HeadIsUnmistaken(crc, input, s); }
    var u := ReachStep(crc, mode, input, s, Deliver(i));
    DamagedReplies(crc, s.rcv, h, s.sent);
    t, d := DrainToNack(crc, mode, input, u, s.back, k, s.rcv.windowSize);
    ReachTrans(crc, mode, s, u, t);
  }

  // ------------------------------------------------------------ flow control

  /** A closed window still lets one packet out. */
  function Credit(limited: int): int {
    if limited == 0 then 1 else limited
  }

  /** The input is watched exactly while the file is not at its end and the window
      the receiver granted has room. */
  lemma ReadPossibleExactly(crc: Checksum, mode: Mode, s: State)
    requires Typed(s)
    ensures (exists n :: Enabled(crc, mode, s, Read(n)))
      <==> s.snd.phase == S.Running && !s.snd.finish && |s.snd.window| < Credit(s.snd.limited)
  {
    var n := if s.unread == [] then 0 else 1;
    if s.snd.phase == S.Running && !s.snd.finish && |s.snd.window| < Credit(s.snd.limited) {
      assert Enabled(crc, mode, s, Read(n));
    }
  }

  /** No chunk is read beyond that window. */
  lemma ReadRespectsWindow(crc: Checksum, s: State, n: nat)
    requires Typed(s) && Enabled(crc, AnyOrder, s, Read(n))
    ensures var t := Apply(crc, s, Read(n));
      t.snd.limited == s.snd.limited && |t.snd.window| == |s.snd.window| + 1 <= Credit(t.snd.limited)
  {
    hide Encode, R.Valid;
  }

  /** The window of the last reply the sender read, w if it read none. */
  function LastWindow(crc: Checksum, mode: Mode, s: State, acts: seq<Action>, w: int): int
    requires Typed(s) && Legal(crc, mode, s, acts)
    decreases |acts|
  {
    if acts == [] then w
    else
      TypedStep(crc, s, acts[0]);
      LastWindow(crc, mode, Apply(crc, s, acts[0]), acts[1..],
                 if acts[0].Reply? then NextPacket(crc, s).window else w)
  }

  lemma LimitStep(crc: Checksum, input: seq<byte>, s: State, a: Action)
    requires Inv(crc, input, s) && Typed(s) && Enabled(crc, AnyOrder, s, a)
    ensures Apply(crc, s, a).snd.limited == if a.Reply? then NextPacket(crc, s).window else s.snd.limited
  {
    hide Encode, Decode, R.Receive, R.Valid, SenderInv, InputInv, ReceiverInv, AllIntact, AllGenuine, QueueOK,
      S.AckPosition, S.NackPosition, S.Ready;
    if a.Reply? { ReplyLimit(crc, s); }
  }

  lemma ReplyLimit(crc: Checksum, s: State)
    requires Typed(s) && s.back != [] && SenderInv(s) && |s.rcv.output| <= |s.sent|
    requires QueueOK(crc, Base(s), |s.rcv.output|, |s.sent|, s.back)
    ensures S.HandleReply(crc, s.snd, NextReply(s)).next.limited == NextPacket(crc, s).window
  {
    hide Decode, Encode, SenderInv, QueueOK, S.AckPosition, S.NackPosition, R.Valid, S.Ready;
    QueueAddressesWindow(crc, s, |s.rcv.output|);
  }

  lemma {:induction false} LimitIsLastWindow(crc: Checksum, mode: Mode, input: seq<byte>, s: State, acts: seq<Action>)
    requires mode != AnyOrder && Typed(s) && Good(crc, mode, input, s) && Legal(crc, mode, s, acts)
    ensures Run(crc, mode, s, acts).snd.limited == LastWindow(crc, mode, s, acts, s.snd.limited)
    decreases |acts|
  {
    hide Typed, Apply, Inv, Ordered, Unmistaken, NextPacket;
    if acts != [] {
      TypedStep(crc, s, acts[0]);
      GoodStep(crc, mode, input, s, acts[0]);
      LimitStep(crc, input, s, acts[0]);
      LimitIsLastWindow(crc, mode, input, Apply(crc, s, acts[0]), acts[1..]);
    }
  }

  /** After any run, the sender can read on exactly while fewer packets are
      outstanding than the last reply it read had granted (31 before the first),
      and the file is not at its end. */
  lemma FlowControl(crc: Checksum, mode: Mode, input: seq<byte>, acts: seq<Action>)
    requires mode != AnyOrder && Possible(crc, mode, input, acts)
    ensures Typed(Init(input))
    ensures var s := After(crc, mode, input, acts);
      var w := LastWindow(crc, mode, Init(input), acts, 31);
      && 1 <= w <= 31 && s.snd.limited == w
      && ((exists n :: Enabled(crc, mode, s, Read(n)))
           <==> s.snd.phase == S.Running && !s.snd.finish && |s.sent| - Base(s) < w)
  {
    hide Legal, Run, Ordered, ReceiverInv, InputInv, AllIntact, AllGenuine, QueueOK, LastWindow, Enabled;
    InitGood(crc, mode, input);
    RunGood(crc, mode, input, Init(input), acts);
    LimitIsLastWindow(crc, mode, input, Init(input), acts);
    ReadPossibleExactly(crc, mode, After(crc, mode, input, acts));
  }

  // ------------------------------------------------------------------- books

  datatype Event =
    | Transmission     // the sender writes a datagram
    | Loss             // the link drops one
    | Delivery          // the receiver gets one
    | HeaderAnswered   // it was a bare header in the window
    | ReplyRead        // the sender reads a reply

  predicate Happens(crc: Checksum, e: Event, s: State, a: Action)
    requires Typed(s) && Enabled(crc, AnyOrder, s, a)
  {
    match e
    case Transmission => a.Read? || a.Resend? || (a.Reply? && NextPacket(crc, s).ptype == PTYPE_NACK)
    case Loss => a == Link(Drop)
    case Delivery => a.Deliver?
    case HeaderAnswered => a.Deliver? && AsksAgain(s, s.air[a.position])
    case ReplyRead => a.Reply?
  }

  function Once(crc: Checksum, e: Event, s: State, a: Action): nat
    requires Typed(s) && Enabled(crc, AnyOrder, s, a)
  {
    if Happens(crc, e, s, a) then 1 else 0
  }

  /** How often an event happens in a run. */
  function Times(crc: Checksum, mode: Mode, e: Event, s: State, acts: seq<Action>): nat
    requires Typed(s) && Legal(crc, mode, s, acts)
    decreases |acts|
  {
    if acts == [] then 0
    else
      TypedStep(crc, s, acts[0]);
      Once(crc, e, s, acts[0]) + Times(crc, mode, e, Apply(crc, s, acts[0]), acts[1..])
  }

  function InFlight(s: State): nat {
    |s.wire| + |s.air|
  }

  lemma StepBooks(crc: Checksum, input: seq<byte>, s: State, a: Action)
    requires Inv(crc, input, s) && Typed(s) && Enabled(crc, AnyOrder, s, a)
    ensures var t := Apply(crc, s, a);
      && InFlight(s) + Once(crc, Transmission, s, a)
           == InFlight(t) + Once(crc, Loss, s, a) + Once(crc, Delivery, s, a)
      && |s.back| - |s.rcv.output| + Once(crc, HeaderAnswered, s, a)
           == |t.back| - |t.rcv.output| + Once(crc, ReplyRead, s, a)
  {
    hide Inv, Typed, NextPacket, Unmistaken, Intact, Encode, Decode, AsksAgain;
    match a
    case Read(n) =>
      var d := ReadTransmits(crc, input, s, n);
    case Resend(i) =>
      var d := ResendTransmits(crc, input, s, i);
    case Link(fate) =>
      LinkMoves(crc, input, s, fate);
    case Deliver(i) =>
      DeliverAnswers(crc, input, s, i);
    case Reply =>
      ReplyKeeps(crc, s);
      if NextPacket(crc, s).ptype == PTYPE_NACK {
        var d := NackTransmits(crc, input, s);
      } else {
        AckTransmitsNothing(crc, input, s);
      }
  }

  lemma {:induction false} RunBooks(crc: Checksum, mode: Mode, input: seq<byte>, s: State, acts: seq<Action>)
    requires mode != AnyOrder && Typed(s) && Good(crc, mode, input, s) && Legal(crc, mode, s, acts)
    ensures var t := Run(crc, mode, s, acts);
      && InFlight(s) + Times(crc, mode, Transmission, s, acts)
           == InFlight(t) + Times(crc, mode, Loss, s, acts) + Times(crc, mode, Delivery, s, acts)
      && |s.back| - |s.rcv.output| + Times(crc, mode, HeaderAnswered, s, acts)
           == |t.back| - |t.rcv.output| + Times(crc, mode, ReplyRead, s, acts)
    decreases |acts|
  {
    hide Typed, Apply, Inv, Ordered, Unmistaken, Once, InFlight;
    if acts != [] {
      TypedStep(crc, s, acts[0]);
      GoodStep(crc, mode, input, s, acts[0]);
      StepBooks(crc, input, s, acts[0]);
      RunBooks(crc, mode, input, Apply(crc, s, acts[0]), acts[1..]);
    }
  }

  /** After any run: every datagram sent is in flight, was dropped, or arrived; and
      the replies sent, one for each packet written and each bare header in the
      window, are those still queued and those the sender read. */
  lemma BooksBalance(crc: Checksum, mode: Mode, input: seq<byte>, acts: seq<Action>)
    requires mode != AnyOrder && Possible(crc, mode, input, acts)
    ensures Typed(Init(input))
    ensures var s := After(crc, mode, input, acts);
      && Times(crc, mode, Transmission, Init(input), acts)
           == InFlight(s) + Times(crc, mode, Loss, Init(input), acts) + Times(crc, mode, Delivery, Init(input), acts)
      && |s.rcv.output| + Times(crc, mode, HeaderAnswered, Init(input), acts)
           == |s.back| + Times(crc, mode, ReplyRead, Init(input), acts)
  {
    hide Legal, Run, Times, Good;
    InitGood(crc, mode, input);
    RunBooks(crc, mode, input, Init(input), acts);
  }
}
