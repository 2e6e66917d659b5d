/** Progress: from every reachable state some continuation completes the
    transfer, without relying on the link to drop or damage anything. */
module Progress {
  import opened Bytes
  import opened Codec
  import opened SeqNum
  import S = Sender
  import R = Receiver
  import opened ReceiverRef
  import opened Protocol
  import opened Safety

  ghost predicate CanReach(crc: Checksum, mode: Mode, s: State, t: State) {
    Typed(s) && exists acts :: Legal(crc, mode, s, acts) && Run(crc, mode, s, acts) == t
  }

  lemma ReachSelf(crc: Checksum, mode: Mode, s: State)
    requires Typed(s)
    ensures CanReach(crc, mode, s, s)
  {
    assert Legal(crc, mode, s, []) && Run(crc, mode, s, []) == s;
  }

  lemma {:induction false} LegalConcat(crc: Checksum, mode: Mode, s: State, a: seq<Action>, b: seq<Action>)
    requires Typed(s) && Legal(crc, mode, s, a) && Legal(crc, mode, Run(crc, mode, s, a), b)
    ensures Legal(crc, mode, s, a + b)
    ensures Run(crc, mode, s, a + b) == Run(crc, mode, Run(crc, mode, s, a), b)
    decreases |a|
  {
    hide Typed, Apply;
    if a == [] {
      assert a + b == b;
    } else {
      assert (a + b)[0] == a[0] && (a + b)[1..] == a[1..] + b;
      TypedStep(crc, s, a[0]);
      LegalConcat(crc, mode, Apply(crc, s, a[0]), a[1..], b);
    }
  }

  lemma ReachTrans(crc: Checksum, mode: Mode, s: State, t: State, u: State)
    requires CanReach(crc, mode, s, t) && CanReach(crc, mode, t, u)
    ensures CanReach(crc, mode, s, u)
  {
    hide Legal, Run, Typed;
    var a :| Legal(crc, mode, s, a) && Run(crc, mode, s, a) == t;
    var b :| Legal(crc, mode, t, b) && Run(crc, mode, t, b) == u;
    LegalConcat(crc, mode, s, a, b);
  }

  lemma AnyStep(crc: Checksum, mode: Mode, s: State, a: Action) returns (t: State)
    requires Typed(s) && Enabled(crc, mode, s, a)
    ensures t == Apply(crc, s, a) && Typed(t) && CanReach(crc, mode, s, t)
  {
    hide Typed, Apply;
    TypedStep(crc, s, a);
    t := Apply(crc, s, a);
    RunFirst(crc, mode, s, a, []);
    assert [a] + [] == [a];
  }

  lemma ReachStep(crc: Checksum, mode: Mode, input: seq<byte>, s: State, a: Action) returns (t: State)
    requires mode != AnyOrder && Typed(s) && Good(crc, mode, input, s) && Enabled(crc, mode, s, a)
    ensures t == Apply(crc, s, a) && Typed(t) && Good(crc, mode, input, t)
    ensures CanReach(crc, mode, s, t)
  {
    hide Good, Typed, Apply, CanReach;
    t := AnyStep(crc, mode, s, a);
    GoodStep(crc, mode, input, s, a);
  }

  /** What the proof tracks besides reachability. */
  ghost predicate Onward(crc: Checksum, mode: Mode, input: seq<byte>, s: State, t: State) {
    CanReach(crc, mode, s, t) && Typed(t) && Good(crc, mode, input, t)
  }

  predicate SameInputSide(s: State, t: State) {
    t.sent == s.sent && t.unread == s.unread && t.snd.finish == s.snd.finish
  }

  /** The sender can read every reply, or leaves while doing so. */
  lemma {:induction false} DrainReplies(crc: Checksum, mode: Mode, input: seq<byte>, s: State) returns (t: State)
    requires mode != AnyOrder && Typed(s) && Good(crc, mode, input, s)
    ensures Onward(crc, mode, input, s, t) && SameInputSide(s, t) && t.rcv == s.rcv && t.air == s.air
    ensures t.back == [] || t.snd.phase == S.Exited
    decreases |s.back|
  {
    hide Good, Typed, Legal, Run, CanReach, Inv;
    NeverCrashed(crc, mode, input, s);
    if s.back == [] || s.snd.phase != S.Running {
      ReachSelf(crc, mode, s);
      t := s;
    } else {
      var u := ReachStep(crc, mode, input, s, Reply);
      ReplyKeeps(crc, s);
      t := DrainReplies(crc, mode, input, u);
      ReachTrans(crc, mode, s, u, t);
    }
  }

  lemma NeverCrashed(crc: Checksum, mode: Mode, input: seq<byte>, s: State)
    requires Good(crc, mode, input, s)
    ensures s.snd.phase != S.Crashed
  {
    hide SenderInv, ReceiverInv, QueueOK, Ordered, AllIntact, AllGenuine;
  }

  lemma ReplyKeeps(crc: Checksum, s: State)
    requires Typed(s) && Enabled(crc, AnyOrder, s, Reply)
    ensures var t := Apply(crc, s, Reply);
      SameInputSide(s, t) && t.rcv == s.rcv && t.air == s.air && t.back == s.back[1..]
  {
    hide Decode, Encode;
  }

  /** The link can let everything on the wire pass. */
  lemma {:induction false} PassWire(crc: Checksum, mode: Mode, input: seq<byte>, s: State) returns (t: State)
    requires mode != AnyOrder && Typed(s) && Good(crc, mode, input, s)
    ensures Onward(crc, mode, input, s, t)
    ensures t == s.(wire := [], air := s.air + s.wire)
    decreases |s.wire|
  {
    hide Good, Legal, Run, CanReach;
    if s.wire == [] {
      ReachSelf(crc, mode, s);
      t := s;
      assert s.air + s.wire == s.air;
    } else {
      var u := ReachStep(crc, mode, input, s, Link(Pass));
      assert u.air == s.air + [s.wire[0]];
      t := PassWire(crc, mode, input, u);
      assert s.air + s.wire == u.air + u.wire;
      ReachTrans(crc, mode, s, u, t);
    }
  }

  lemma {:induction false} FlushMonotone(f: Ref)
    ensures |RefFlush(f).output| >= |f.output|
    decreases |f.ahead|
  {
    var n := |f.output|;
    if n in f.ahead {
      assert f.ahead.Keys == (f.ahead - {n}).Keys + {n};
      FlushMonotone(Ref(f.output + [f.ahead[n]], f.ahead - {n}));
    }
  }

  /** The expected packet always moves the reference on. */
  lemma ExpectedAdvances(f: Ref, payload: seq<byte>)
    requires |f.output| !in f.ahead
    ensures |RefReceive(f, |f.output|, payload).output| > |f.output|
  {
    var n := |f.output|;
    var g := f.(ahead := f.ahead[n := payload]);
    FlushMonotone(Ref(g.output + [g.ahead[n]], g.ahead - {n}));
  }

  /** Delivering the expected packet intact raises the expected index. */
  lemma DeliverExpected(crc: Checksum, input: seq<byte>, s: State, i: nat)
    requires Inv(crc, input, s) && Typed(s) && i < |s.air| && NoAlias(|s.rcv.output|, s.air[i].idx)
    requires Intact(crc, s.air[i], s.sent)
    ensures var t := Apply(crc, s, Deliver(i));
      |t.rcv.output| >= |s.rcv.output| && (s.air[i].idx <= |s.rcv.output| ==> |t.rcv.output| > s.air[i].idx)
  {
    hide QueueOK, Decode, Encode, R.Receive, RefReceive, SenderInv, InputInv, AllIntact, AllGenuine, NoAlias;
    var d := s.air[i];
    IntactQueue(crc, s.rcv, d, s.sent);
    if d.idx == |s.rcv.output| {
      BeyondWindow(s.rcv);
      ExpectedAdvances(Abs(s.rcv), s.sent[d.idx]);
    }
  }

  lemma DeliverKeeps(crc: Checksum, input: seq<byte>, s: State, i: nat)
    requires Inv(crc, input, s) && Typed(s) && i < |s.air| && NoAlias(|s.rcv.output|, s.air[i].idx)
    ensures var t := Apply(crc, s, Deliver(i));
      t.snd == s.snd && SameInputSide(s, t) && t.air == s.air[..i] + s.air[i + 1..] && t.wire == s.wire
      && |t.rcv.output| >= |s.rcv.output|
  {
    hide QueueOK, Decode, Encode, R.Receive, SenderInv, InputInv, AllIntact, Genuine, NoAlias, Faithful, Abs;
    assert Genuine(crc, s.air[i], s.sent);
    ReceiveQueue(crc, s.rcv, s.air[i], s.sent);
  }

  /** On an in-order link everything in the air can be delivered. */
  lemma {:induction false} DeliverAll(crc: Checksum, input: seq<byte>, s: State) returns (t: State)
    requires Typed(s) && Good(crc, InOrder, input, s)
    ensures Onward(crc, InOrder, input, s, t) && SameInputSide(s, t) && t.snd == s.snd
    ensures |t.rcv.output| >= |s.rcv.output|
    ensures forall i :: 0 <= i < |s.air| && Intact(crc, s.air[i], s.sent) && s.air[i].idx <= |s.rcv.output| ==>
      |t.rcv.output| > s.air[i].idx
    decreases |s.air|
  {
    hide Legal, Run, CanReach, Inv, Ordered, Intact, Typed, Apply, NoAlias;
    if s.air == [] {
      ReachSelf(crc, InOrder, s);
      t := s;
    } else {
      HeadIsFresh(crc, input, s);
      HeadIsUnmistaken(crc, input, s);
      var u := ReachStep(crc, InOrder, input, s, Deliver(0));
      DeliverKeeps(crc, input, s, 0);
      if Intact(crc, s.air[0], s.sent) { DeliverExpected(crc, input, s, 0); }
      t := DeliverAll(crc, input, u);
      ReachTrans(crc, InOrder, s, u, t);
      assert forall i :: 0 < i < |s.air| ==> s.air[i] == u.air[i - 1];
    }
  }

  /** With no reply in flight the sender's oldest packet is the expected one. */
  lemma CaughtUp(crc: Checksum, mode: Mode, input: seq<byte>, s: State)
    requires Good(crc, mode, input, s) && s.back == []
    ensures Base(s) == |s.rcv.output|
  {
    hide SenderInv, ReceiverInv, Ordered, AllIntact, AllGenuine, InputInv;
  }

  /** Resend the oldest packet and let everything on the wire pass. */
  lemma ResendAndPass(crc: Checksum, mode: Mode, input: seq<byte>, s: State) returns (t: State, d: Datagram)
    requires mode != AnyOrder && Typed(s) && Good(crc, mode, input, s)
    requires s.back == [] && s.snd.phase == S.Running && s.snd.window != []
    ensures Onward(crc, mode, input, s, t) && Intact(crc, d, s.sent) && d.idx == |s.rcv.output|
    ensures t == s.(wire := [], air := s.air + s.wire + [d])
  {
    hide Legal, Run, CanReach, Ordered, QueueOK, Encode, InputInv, ReceiverInv, AllIntact, AllGenuine, Typed, Intact,
      DataPacket;
    CaughtUp(crc, mode, input, s);
    d := Datagram(Base(s), |s.sent|, Encode(crc, s.snd.window[0]));
    WindowIsIntact(crc, s, 0, |s.sent|);
    var u := ReachStep(crc, mode, input, s, Resend(0));
    t := PassWire(crc, mode, input, u);
    assert u.air + u.wire == s.air + s.wire + [d];
    ReachTrans(crc, mode, s, u, t);
  }

  lemma ExpectedUnmistaken(crc: Checksum, s: State, d: Datagram)
    requires Typed(s) && d.idx == |s.rcv.output| < |s.sent|
    ensures Unmistaken(crc, s.rcv, d, s.sent)
  {
    InWindowNeverAliases(|s.rcv.output|, d.idx);
    NoAliasUnmistaken(crc, s.rcv, d, s.sent);
  }

  /** On a delaying link the resent packet can be handed over ahead of everything
      that is in the air. */
  lemma PushExpected(crc: Checksum, input: seq<byte>, s: State) returns (t: State)
    requires Typed(s) && Good(crc, NoMistake, input, s)
    requires s.back == [] && s.snd.phase == S.Running && s.snd.window != []
    ensures Onward(crc, NoMistake, input, s, t) && SameInputSide(s, t) && t.air == s.air + s.wire
    ensures R.Valid(s.rcv) && R.Valid(t.rcv) && |s.rcv.output| < |s.sent|
    ensures Abs(t.rcv) == RefReceive(Abs(s.rcv), |s.rcv.output|, s.sent[|s.rcv.output|])
  {
    hide Legal, Run, CanReach, Ordered, QueueOK, Encode, InputInv, AllIntact, AllGenuine, DataPacket, RefReceive,
      Intact, Unmistaken, R.Receive, Abs, SenderInv;
    var v, d := ResendAndPass(crc, NoMistake, input, s);
    IntactIndex(crc, d, s.sent);
    var last := |v.air| - 1;
    ExpectedUnmistaken(crc, v, d);
    t := ReachStep(crc, NoMistake, input, v, Deliver(last));
    InWindowNeverAliases(d.idx, d.idx);
    IntactQueue(crc, v.rcv, d, v.sent);
    assert t.air == s.air + s.wire;
    ReachTrans(crc, NoMistake, s, v, t);
  }

  lemma IntactIndex(crc: Checksum, d: Datagram, sent: seq<seq<byte>>)
    requires Intact(crc, d, sent)
    ensures d.idx < |sent|
  {}

  /** Resend the oldest packet and let it through: the receiver moves on. */
  lemma PushOldest(crc: Checksum, mode: Mode, input: seq<byte>, s: State) returns (t: State)
    requires mode != AnyOrder && Typed(s) && Good(crc, mode, input, s)
    requires s.back == [] && s.snd.phase == S.Running && s.snd.window != []
    ensures Onward(crc, mode, input, s, t) && SameInputSide(s, t)
    ensures |t.rcv.output| > |s.rcv.output|
  {
    hide Legal, Run, CanReach, Ordered, Inv, Intact, RefReceive;
    if mode == InOrder {
      var v, d := ResendAndPass(crc, mode, input, s);
      t := DeliverAll(crc, input, v);
      assert Intact(crc, v.air[|v.air| - 1], v.sent);
      ReachTrans(crc, mode, s, v, t);
    } else {
      t := PushExpected(crc, input, s);
      BeyondWindow(s.rcv);
      ExpectedAdvances(Abs(s.rcv), s.sent[|s.rcv.output|]);
    }
  }

  function Left(s: State): nat {
    |s.unread| + if s.snd.finish then 0 else 1
  }

  /** The next chunk can be read: window empty, input not finished. */
  lemma ReadNext(crc: Checksum, mode: Mode, input: seq<byte>, s: State) returns (t: State)
    requires mode != AnyOrder && Typed(s) && Good(crc, mode, input, s)
    requires s.snd.phase == S.Running && s.snd.window == []
    ensures Onward(crc, mode, input, s, t) && Left(t) < Left(s)
  {
    hide Legal, Run, CanReach, Ordered, QueueOK, Encode, ReceiverInv, AllIntact, AllGenuine, DataPacket, Flatten,
      R.Valid;
    var n := if |s.unread| < MAX_PAYLOAD_SIZE then |s.unread| else MAX_PAYLOAD_SIZE;
    t := ReachStep(crc, mode, input, s, Read(n));
  }

  lemma OutputBounded(crc: Checksum, mode: Mode, input: seq<byte>, s: State)
    requires Good(crc, mode, input, s)
    ensures |s.rcv.output| <= |s.sent|
  {
    hide SenderInv, ReceiverInv, Ordered, AllIntact, AllGenuine, InputInv, QueueOK;
  }

  /** From every good state the sender can be brought to its exit. */
  lemma {:induction false} ReachExit(crc: Checksum, mode: Mode, input: seq<byte>, s: State) returns (t: State)
    requires mode != AnyOrder && Typed(s) && Good(crc, mode, input, s)
    ensures Onward(crc, mode, input, s, t) && t.snd.phase == S.Exited
    decreases Left(s), |s.sent| - |s.rcv.output|
  {
    hide Good, Typed, Legal, Run, CanReach;
    var u := DrainReplies(crc, mode, input, s);
    if u.snd.phase == S.Exited {
      t := u;
    } else {
      NeverCrashed(crc, mode, input, u);
      var v;
      if u.snd.window == [] {
        v := ReadNext(crc, mode, input, u);
      } else {
        v := PushOldest(crc, mode, input, u);
        OutputBounded(crc, mode, input, v);
      }
      t := ReachExit(crc, mode, input, v);
      ReachTrans(crc, mode, s, u, v);
      ReachTrans(crc, mode, s, v, t);
    }
  }

  /** However a run went, it can be continued to the sender's exit, with the
      whole input written. */
  lemma TransferCanComplete(crc: Checksum, mode: Mode, input: seq<byte>, acts: seq<Action>) returns (more: seq<Action>)
    requires mode != AnyOrder && Possible(crc, mode, input, acts)
    ensures Possible(crc, mode, input, acts + more)
    ensures var t := After(crc, mode, input, acts + more);
      t.snd.phase == S.Exited && Flatten(t.rcv.output) == input
  {
    hide Good, Legal, Run, Init, Typed;
    InitGood(crc, mode, input);
    RunGood(crc, mode, input, Init(input), acts);
    var s := Run(crc, mode, Init(input), acts);
    var t := ReachExit(crc, mode, input, s);
    more :| Legal(crc, mode, s, more) && Run(crc, mode, s, more) == t;
    LegalConcat(crc, mode, Init(input), acts, more);
    TransferIsSafe(crc, mode, input, acts + more);
  }

  // ------------------------------------------------------ runs that get there

  /** Steps that move the transfer on: a chunk is read, the expected packet
      arrives intact, or an ACK beyond the oldest packet is handled. */
  predicate Advances(crc: Checksum, s: State, a: Action)
    requires Typed(s) && Enabled(crc, AnyOrder, s, a)
  {
    match a
    case Read(_) => true
    case Resend(_) => false
    case Link(_) => false
    case Deliver(i) => s.air[i].idx == |s.rcv.output| && Intact(crc, s.air[i], s.sent)
    case Reply =>
      var p := Decode(crc, BLANK, NextReply(s)).1;
      p.ptype == PTYPE_ACK && p.seqnum != Number(Base(s))
  }

  /** How many steps of a run do. */
  function Advanced(crc: Checksum, mode: Mode, s: State, acts: seq<Action>): nat
    requires Typed(s) && Legal(crc, mode, s, acts)
    decreases |acts|
  {
    if acts == [] then 0
    else
      TypedStep(crc, s, acts[0]);
      (if Advances(crc, s, acts[0]) then 1 else 0)
      + Advanced(crc, mode, Apply(crc, s, acts[0]), acts[1..])
  }

  /** What is left to do: chunks to read, packets to deliver, packets to
      acknowledge. */
  function Remaining(s: State): int {
    3 * Left(s) + (|s.sent| - |s.rcv.output|) + (|s.sent| - Base(s))
  }

  /** Neither side ever goes back: not on a drop, not on damage, not on a stale
      datagram or reply; and chunks are made of what was left to read. */
  ghost predicate NotBack(s: State, t: State) {
    && s.sent <= t.sent && s.rcv.output <= t.rcv.output && Base(s) <= Base(t)
    && |t.sent| + Left(t) <= |s.sent| + Left(s)
  }

  lemma StepOn(crc: Checksum, mode: Mode, input: seq<byte>, s: State, a: Action)
    requires mode != AnyOrder && Typed(s) && Good(crc, mode, input, s) && Enabled(crc, mode, s, a)
    ensures var t := Apply(crc, s, a);
      NotBack(s, t) && Remaining(t) + (if Advances(crc, s, a) then 1 else 0) <= Remaining(s)
  {
    hide Inv, Ordered, Apply, Unmistaken, Typed, Intact, Decode;
    match a
    case Read(n) => ReadOn(crc, input, s, n);
    case Resend(i) => LinkOn(crc, s, a);
    case Link(fate) => LinkOn(crc, s, a);
    case Deliver(i) =>
      if mode == InOrder { HeadIsUnmistaken(crc, input, s); }
      DeliverOn(crc, input, s, i);
    case Reply => ReplyOn(crc, input, s);
  }

  lemma ReadOn(crc: Checksum, input: seq<byte>, s: State, n: nat)
    requires Typed(s) && Inv(crc, input, s) && Enabled(crc, AnyOrder, s, Read(n))
    ensures NotBack(s, Apply(crc, s, Read(n))) && Remaining(Apply(crc, s, Read(n))) + 1 <= Remaining(s)
  {
    hide QueueOK, Encode, ReceiverInv, AllIntact, AllGenuine, DataPacket, Flatten, R.Valid;
  }

  lemma LinkOn(crc: Checksum, s: State, a: Action)
    requires Typed(s) && Enabled(crc, AnyOrder, s, a) && (a.Resend? || a.Link?)
    ensures NotBack(s, Apply(crc, s, a)) && Remaining(Apply(crc, s, a)) == Remaining(s)
  {
    hide Encode, R.Valid, S.Ready;
  }

  lemma DeliverOn(crc: Checksum, input: seq<byte>, s: State, i: nat)
    requires Typed(s) && Inv(crc, input, s) && Enabled(crc, NoMistake, s, Deliver(i))
    ensures var t := Apply(crc, s, Deliver(i));
      NotBack(s, t) && Remaining(t) + (if Advances(crc, s, Deliver(i)) then 1 else 0) <= Remaining(s)
  {
    hide QueueOK, Encode, R.Receive, RefReceive, SenderInv, InputInv, AllIntact, Intact, Unmistaken, R.Valid, Genuine,
      Abs;
    var d := s.air[i];
    assert Genuine(crc, d, s.sent);
    UnmistakenQueue(crc, s.rcv, d, s.sent);
    if Advances(crc, s, Deliver(i)) {
      InWindowNeverAliases(d.idx, d.idx);
      DeliverExpected(crc, input, s, i);
    }
  }

  lemma ReplyOn(crc: Checksum, input: seq<byte>, s: State)
    requires Typed(s) && Inv(crc, input, s) && Enabled(crc, AnyOrder, s, Reply)
    ensures var t := Apply(crc, s, Reply);
      NotBack(s, t) && Remaining(t) + (if Advances(crc, s, Reply) then 1 else 0) <= Remaining(s)
  {
    hide Encode, Decode, R.Valid, R.Consistent, S.HandleAck, S.HandleNack, SenderInv, InputInv, ReceiverInv,
      AllIntact, AllGenuine, AbsIndex, S.NackPosition, S.Ready;
    var t := Apply(crc, s, Reply);
    ReplyKeeps(crc, s);
    var p := Decode(crc, BLANK, NextReply(s)).1;
    var k := AbsIndex(Base(s), p.seqnum);
    if p.ptype == PTYPE_ACK {
      QueueSpan(crc, k, |s.rcv.output|, |s.sent|, s.back[1..]);
      AckStep(crc, input, s, k, p.window, t);
    } else {
      NackStep(crc, input, s, k, p.window, t);
    }
  }

  lemma {:induction false} RunOn(crc: Checksum, mode: Mode, input: seq<byte>, s: State, acts: seq<Action>)
    requires mode != AnyOrder && Typed(s) && Good(crc, mode, input, s) && Legal(crc, mode, s, acts)
    ensures NotBack(s, Run(crc, mode, s, acts))
    ensures Remaining(Run(crc, mode, s, acts)) + Advanced(crc, mode, s, acts) <= Remaining(s)
    decreases |acts|
  {
    hide Good, Typed, Apply, Remaining, Advances, Unmistaken;
    if acts != [] {
      TypedStep(crc, s, acts[0]);
      StepOn(crc, mode, input, s, acts[0]);
      GoodStep(crc, mode, input, s, acts[0]);
      RunOn(crc, mode, input, Apply(crc, s, acts[0]), acts[1..]);
    }
  }

  /** Whatever the link drops and damages, and however often the sender resends:
      every step that moves the transfer on uses up some of what is left, no step
      adds to it, and the sender has exited exactly when nothing is left. So a run
      with 3 * (|input| + 1) such steps has exited. */
  lemma AdvancingRunsExit(crc: Checksum, mode: Mode, input: seq<byte>, acts: seq<Action>)
    requires mode != AnyOrder && Possible(crc, mode, input, acts)
    ensures Typed(Init(input))
    ensures var s := After(crc, mode, input, acts);
      && 0 <= Remaining(s) <= 3 * (|input| + 1) - Advanced(crc, mode, Init(input), acts)
      && (Remaining(s) == 0 <==> s.snd.phase == S.Exited)
  {
    hide Legal, Run, Advanced, Ordered, ReceiverInv, AllIntact, AllGenuine, QueueOK, Flatten, R.Valid;
    InitGood(crc, mode, input);
    RunOn(crc, mode, input, Init(input), acts);
    RunGood(crc, mode, input, Init(input), acts);
  }
}
