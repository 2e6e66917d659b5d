/** What a mistaken datagram does: the guard under which a delaying link is safe
    cannot be given up. Taken for a packet it is not, an intact one spoils the
    output and a bare header makes the sender index outside its array. */
module Mistakes {
  import opened Bytes
  import opened Codec
  import opened SeqNum
  import S = Sender
  import R = Receiver
  import opened ReceiverRef
  import opened Protocol
  import opened Safety
  import opened Progress

  lemma {:induction false} LegalAnyOrder(crc: Checksum, mode: Mode, s: State, acts: seq<Action>)
    requires Typed(s) && Legal(crc, mode, s, acts)
    ensures Legal(crc, AnyOrder, s, acts) && Run(crc, AnyOrder, s, acts) == Run(crc, mode, s, acts)
    decreases |acts|
  {
    hide Typed, Apply, Unmistaken;
    if acts != [] {
      TypedStep(crc, s, acts[0]);
      LegalAnyOrder(crc, mode, Apply(crc, s, acts[0]), acts[1..]);
    }
  }

  lemma ReachAnyOrder(crc: Checksum, mode: Mode, s: State, t: State)
    requires CanReach(crc, mode, s, t)
    ensures CanReach(crc, AnyOrder, s, t)
  {
    hide Legal, Run, Typed;
    var acts :| Legal(crc, mode, s, acts) && Run(crc, mode, s, acts) == t;
    LegalAnyOrder(crc, mode, s, acts);
  }

  // ------------------------------------------------------------ intact ones

  /** d would be taken for packet k, which it is not: k is not buffered, and was
      not sent or was sent with another chunk. */
  ghost predicate TakenFor(crc: Checksum, s: State, d: Datagram, k: nat)
    requires Typed(s)
  {
    && Intact(crc, d, s.sent) && Number(k) == Number(d.idx)
    && |s.rcv.output| <= k < |s.rcv.output| + MAX_WINDOW_SIZE && k !in Abs(s.rcv).ahead
    && (k < |s.sent| ==> s.sent[k] != s.sent[d.idx])
  }

  lemma MistakenIsTakenFor(crc: Checksum, s: State, d: Datagram)
    requires Typed(s) && Intact(crc, d, s.sent)
    ensures TakenFor(crc, s, d, AbsIndex(|s.rcv.output|, Number(d.idx))) <==> !Unmistaken(crc, s.rcv, d, s.sent)
  {
    hide Encode, Find, AbsIndex;
    var k := AbsIndex(|s.rcv.output|, Number(d.idx));
    IntactSize(crc, d, s.sent);
    if k < |s.rcv.output| + MAX_WINDOW_SIZE { HeldAhead(s.rcv, k); }
  }

  /** Delivered when packet k is the expected one, it is written in its place. */
  lemma WrittenInstead(crc: Checksum, s: State, i: nat, k: nat)
    requires Typed(s) && i < |s.air| && TakenFor(crc, s, s.air[i], k) && k == |s.rcv.output|
    ensures var t := Apply(crc, s, Deliver(i));
      t.sent == s.sent && |t.rcv.output| > k && t.rcv.output[k] == s.sent[s.air[i].idx]
      && !(t.rcv.output <= t.sent)
  {
    hide Encode, R.Receive, Abs, Unmistaken;
    var d := s.air[i];
    TakenAs(crc, s.rcv, d, k, s.sent);
    var f := Abs(s.rcv);
    var g := f.(ahead := f.ahead[k := s.sent[d.idx]]);
    FlushPrefix(Ref(g.output + [g.ahead[k]], g.ahead - {k}));
  }

  lemma ReadOne(crc: Checksum, input: seq<byte>, s: State) returns (t: State)
    requires Typed(s) && Good(crc, NoMistake, input, s) && s.snd.phase == S.Running && s.snd.window == []
    ensures Onward(crc, NoMistake, input, s, t) && Left(t) == Left(s) - 1
    ensures t.rcv == s.rcv && t.air == s.air && s.sent <= t.sent && |t.sent| == |s.sent| + 1
  {
    hide Legal, Run, CanReach, Ordered, QueueOK, Encode, ReceiverInv, AllIntact, AllGenuine, DataPacket, Flatten,
      R.Valid;
    t := ReachStep(crc, NoMistake, input, s, Read(if s.unread == [] then 0 else 1));
  }

  /** An idle or departed sender has nothing outstanding: the receiver expects what
      it would send next. */
  lemma NothingOutstanding(crc: Checksum, input: seq<byte>, s: State)
    requires Good(crc, NoMistake, input, s)
    requires s.snd.phase == S.Exited || (s.back == [] && s.snd.window == [])
    ensures s.snd.window == [] && |s.rcv.output| == |s.sent|
    ensures s.snd.phase == S.Exited ==> Left(s) == 0
  {
    hide ReceiverInv, AllIntact, AllGenuine, S.Holds;
  }

  lemma StillTakenFor(crc: Checksum, s: State, t: State, d: Datagram, k: nat)
    requires Typed(s) && Typed(t) && TakenFor(crc, s, d, k) && s.sent <= t.sent
    requires |s.sent| == |t.sent| || |t.sent| <= k
    requires |s.rcv.output| <= |t.rcv.output| <= k && k !in Abs(t.rcv).ahead
    ensures TakenFor(crc, t, d, k)
  {
    hide Encode, Abs, Typed;
  }

  /** A packet that was not accepted stays so while others are. */
  lemma NotYetAccepted(s: State, t: State, k: nat)
    requires R.Valid(s.rcv) && R.Valid(t.rcv) && |s.rcv.output| < |s.sent| && |s.rcv.output| < k
    requires Abs(t.rcv) == RefReceive(Abs(s.rcv), |s.rcv.output|, s.sent[|s.rcv.output|])
    requires k !in Abs(s.rcv).ahead
    ensures |s.rcv.output| < |t.rcv.output| <= k && k !in Abs(t.rcv).ahead
  {
    hide Abs, RefReceive;
    var f := Abs(s.rcv);
    var n := |f.output|;
    ReceiverSettled(s.rcv);
    ReferenceAccepts(f, n, s.sent[n]);
    assert !Has(Abs(t.rcv), k) && Has(Abs(t.rcv), n);
    ExpectedAdvances(f, s.sent[n]);
  }

  /** Delivered now, d puts a chunk into the output that was not sent there. */
  ghost predicate Spoils(crc: Checksum, t: State, d: Datagram)
    requires Typed(t)
  {
    exists j :: 0 <= j < |t.air| && t.air[j] == d
      && !(Apply(crc, t, Deliver(j)).rcv.output <= t.sent)
  }

  /** A mistaken packet can be held back until packet k is the expected one. */
  lemma {:induction false} MistakeSurfaces(crc: Checksum, input: seq<byte>, s: State, i: nat, k: nat)
    returns (t: State)
    requires Typed(s) && Good(crc, NoMistake, input, s) && i < |s.air| && TakenFor(crc, s, s.air[i], k)
    requires k <= |s.sent| + Left(s)
    ensures CanReach(crc, NoMistake, s, t) && Typed(t) && Spoils(crc, t, s.air[i])
    decreases k - |s.rcv.output|, Left(s)
  {
    hide Good, Legal, Run, CanReach, Typed, RefReceive, Abs, TakenFor;
    var d := s.air[i];
    TakenRange(crc, s, d, k);
    if k == |s.rcv.output| {
      ReachSelf(crc, NoMistake, s);
      WrittenInstead(crc, s, i, k);
      t := s;
    } else {
      var u := DrainReplies(crc, NoMistake, input, s);
      if u.snd.phase == S.Exited || u.snd.window == [] {
        NothingOutstanding(crc, input, u);
      }
      NeverCrashed(crc, NoMistake, input, u);
      var v;
      if u.snd.window == [] {
        v := ReadOne(crc, input, u);
      } else {
        v := PushExpected(crc, input, u);
        NotYetAccepted(u, v, k);
      }
      StillTakenFor(crc, s, v, d, k);
      assert v.air[i] == d;
      t := MistakeSurfaces(crc, input, v, i, k);
      ReachTrans(crc, NoMistake, s, u, v);
      ReachTrans(crc, NoMistake, s, v, t);
    }
  }

  /** Ahead of the expected packet it is only buffered. */
  lemma BufferedOnly(crc: Checksum, t: State, j: nat, k: nat)
    requires Typed(t) && Faithful(Abs(t.rcv), t.sent) && j < |t.air| && Intact(crc, t.air[j], t.sent)
    requires |t.rcv.output| < k < |t.rcv.output| + MAX_WINDOW_SIZE && Number(k) == Number(t.air[j].idx)
    ensures Apply(crc, t, Deliver(j)).rcv.output <= t.sent
  {
    hide Encode, R.Receive, Abs, Unmistaken, Intact;
    TakenAs(crc, t.rcv, t.air[j], k, t.sent);
    ReceiverSettled(t.rcv);
  }

  /** A mistaken packet can be made to show in the output if and only if the input
      is long enough for packet k to come up; no other delivery goes wrong. */
  lemma MistakeShowsExactly(crc: Checksum, input: seq<byte>, s: State, i: nat, k: nat)
    requires Typed(s) && Good(crc, NoMistake, input, s) && i < |s.air| && TakenFor(crc, s, s.air[i], k)
    ensures (exists t :: CanReach(crc, NoMistake, s, t) && Typed(t) && Spoils(crc, t, s.air[i]))
      <==> k <= |s.sent| + Left(s)
  {
    hide Good, CanReach, Typed, Spoils, TakenFor, Left;
    if k <= |s.sent| + Left(s) {
      var t := MistakeSurfaces(crc, input, s, i, k);
    } else {
      forall t | CanReach(crc, NoMistake, s, t) && Typed(t) ensures !Spoils(crc, t, s.air[i]) {
        NeverShows(crc, input, s, s.air[i], k, t);
      }
    }
  }

  lemma ReachedGood(crc: Checksum, input: seq<byte>, s: State, t: State)
    requires Typed(s) && Good(crc, NoMistake, input, s) && CanReach(crc, NoMistake, s, t)
    ensures Typed(t) && Good(crc, NoMistake, input, t) && NotBack(s, t)
  {
    hide Good, Legal, Run, Typed, NotBack;
    var acts :| Legal(crc, NoMistake, s, acts) && Run(crc, NoMistake, s, acts) == t;
    RunGood(crc, NoMistake, input, s, acts);
    RunOn(crc, NoMistake, input, s, acts);
  }

  lemma NeverShows(crc: Checksum, input: seq<byte>, s: State, d: Datagram, k: nat, t: State)
    requires Typed(s) && Good(crc, NoMistake, input, s) && TakenFor(crc, s, d, k)
    requires k > |s.sent| + Left(s) && CanReach(crc, NoMistake, s, t) && Typed(t)
    ensures !Spoils(crc, t, d)
  {
    hide CanReach, SenderInv, InputInv, AllIntact, AllGenuine, QueueOK, Abs, Faithful, Encode, Apply;
    ReachedGood(crc, input, s, t);
    forall j | 0 <= j < |t.air| && t.air[j] == d ensures Apply(crc, t, Deliver(j)).rcv.output <= t.sent {
      BufferedOnly(crc, t, j, k);
    }
  }

  lemma TakenRange(crc: Checksum, s: State, d: Datagram, k: nat)
    requires Typed(s) && TakenFor(crc, s, d, k)
    ensures R.Valid(s.rcv) && |s.rcv.output| <= k && k !in Abs(s.rcv).ahead
  {}

  // ----------------------------------------------------------- bare headers

  /** The sender indexes outside its window while it reads the queued replies. */
  ghost predicate CrashesReading(crc: Checksum, t: State)
    requires Typed(t)
    decreases |t.back|
  {
    t.snd.phase == S.Crashed
    || (Enabled(crc, AnyOrder, t, Reply)
        && (TypedStep(crc, t, Reply);
            ReplyKeeps(crc, t);
            CrashesReading(crc, Apply(crc, t, Reply))))
  }

  /** Delivered now, d makes it do so. */
  ghost predicate Derails(crc: Checksum, t: State, d: Datagram)
    requires Typed(t)
  {
    exists j {:trigger t.air[j]} :: 0 <= j < |t.air| && t.air[j] == d
      && (TypedStep(crc, t, Deliver(j)); CrashesReading(crc, Apply(crc, t, Deliver(j))))
  }

  /** A mistaken bare header can be held back until no reply is queued. */
  lemma MistakenHeaderCrashes(crc: Checksum, input: seq<byte>, s: State, i: nat) returns (t: State)
    requires Typed(s) && Good(crc, NoMistake, input, s)
    requires i < |s.air| && |s.air[i].bytes| == 4 && !Unmistaken(crc, s.rcv, s.air[i], s.sent)
    requires !(s.snd.finish && |s.rcv.output| == |s.sent|)
    ensures CanReach(crc, NoMistake, s, t) && Typed(t) && Derails(crc, t, s.air[i])
    ensures i < |t.air| && t.air[i] == s.air[i] && t.back == []
    ensures var v := Apply(crc, t, Deliver(i));
      Typed(v) && Enabled(crc, AnyOrder, v, Reply) && Apply(crc, v, Reply).snd.phase == S.Crashed
  {
    hide Good, Legal, Run, CanReach, Typed, Unmistaken, Apply;
    t := DrainReplies(crc, NoMistake, input, s);
    if t.snd.phase == S.Exited {
      NothingOutstanding(crc, input, t);
      ExitFinished(crc, input, t);
    }
    NeverCrashed(crc, NoMistake, input, t);
    HeaderAsksAhead(crc, input, t, i);
    var v := Apply(crc, t, Deliver(i));
    TypedStep(crc, v, Reply);
    assert CrashesReading(crc, Apply(crc, v, Reply));
    assert t.air[i] == s.air[i];
  }

  /** A sender that has read the whole file and whose packets have all arrived
      leaves before it reads what follows the replies already queued. */
  lemma {:induction false} LeavesFirst(crc: Checksum, input: seq<byte>, s: State, q: seq<seq<byte>>, more: seq<seq<byte>>)
    requires Typed(s) && SenderInv(s) && InputInv(input, s) && s.snd.finish
    requires s.back == q + more && QueueOK(crc, Base(s), |s.sent|, |s.sent|, q)
    ensures !CrashesReading(crc, s)
    decreases |q|
  {
    hide Encode, Decode, R.Valid, S.HandleAck, S.HandleNack, SenderInv, AbsIndex, S.NackPosition, S.Ready, Flatten;
    if s.snd.phase == S.Running {
      if q == [] {
        NothingToSend(s);
      } else {
        var t := Apply(crc, s, Reply);
        ReplyKeeps(crc, s);
        TypedStep(crc, s, Reply);
        var p := Decode(crc, BLANK, NextReply(s)).1;
        assert s.back[0] == q[0] && t.back == q[1..] + more;
        var k := AbsIndex(Base(s), p.seqnum);
        if p.ptype == PTYPE_ACK {
          QueueSpan(crc, k, |s.sent|, |s.sent|, q[1..]);
          AckStep(crc, input, s, k, p.window, t);
        } else {
          NackStep(crc, input, s, k, p.window, t);
        }
        LeavesFirst(crc, input, t, q[1..], more);
      }
    }
  }

  lemma NothingToSend(s: State)
    requires SenderInv(s) && Base(s) == |s.sent|
    ensures s.snd.window == []
  {}

  /** A mistaken bare header can derail the sender if and only if something up to
      the end of the file is still to arrive or to be read. */
  lemma HeaderDerailsExactly(crc: Checksum, input: seq<byte>, s: State, i: nat)
    requires Typed(s) && Good(crc, NoMistake, input, s)
    requires i < |s.air| && |s.air[i].bytes| == 4 && !Unmistaken(crc, s.rcv, s.air[i], s.sent)
    ensures (exists t :: CanReach(crc, NoMistake, s, t) && Typed(t) && Derails(crc, t, s.air[i]))
      <==> !(s.snd.finish && |s.rcv.output| == |s.sent|)
  {
    hide Good, CanReach, Typed, Derails, Unmistaken;
    if !(s.snd.finish && |s.rcv.output| == |s.sent|) {
      var t := MistakenHeaderCrashes(crc, input, s, i);
    } else {
      forall t | CanReach(crc, NoMistake, s, t) && Typed(t) ensures !Derails(crc, t, s.air[i]) {
        NeverDerails(crc, input, s, s.air[i], t);
      }
    }
  }

  lemma NeverDerails(crc: Checksum, input: seq<byte>, s: State, d: Datagram, t: State)
    requires Typed(s) && Good(crc, NoMistake, input, s) && s.snd.finish && |s.rcv.output| == |s.sent|
    requires |d.bytes| == 4 && CanReach(crc, NoMistake, s, t) && Typed(t)
    ensures !Derails(crc, t, d)
  {
    hide CanReach, ReceiverInv, Encode, CrashesReading, QueueOK, AllIntact, SenderInv, Genuine, R.Receive, S.Ready,
      Flatten, R.Valid;
    ReachedGood(crc, input, s, t);
    forall j | 0 <= j < |t.air| && t.air[j] == d
      ensures Typed(Apply(crc, t, Deliver(j))) && !CrashesReading(crc, Apply(crc, t, Deliver(j)))
    {
      TypedStep(crc, t, Deliver(j));
      var v := Apply(crc, t, Deliver(j));
      SameSender(t, v);
      SameInput(input, t, v);
      LeavesFirst(crc, input, v, t.back, R.Receive(crc, t.rcv, Heard(d)).replies);
    }
  }

  lemma ExitFinished(crc: Checksum, input: seq<byte>, s: State)
    requires Good(crc, NoMistake, input, s) && s.snd.phase == S.Exited
    ensures s.snd.finish
  {
    hide ReceiverInv, AllIntact, AllGenuine, SenderInv;
  }

  lemma HeaderAsksAhead(crc: Checksum, input: seq<byte>, s: State, i: nat)
    requires Typed(s) && Good(crc, NoMistake, input, s) && s.back == [] && s.snd.phase == S.Running
    requires i < |s.air| && |s.air[i].bytes| == 4 && !Unmistaken(crc, s.rcv, s.air[i], s.sent)
    ensures var v := Apply(crc, s, Deliver(i));
      Typed(v) && Enabled(crc, AnyOrder, v, Reply) && Apply(crc, v, Reply).snd.phase == S.Crashed
  {
    hide Encode, Decode, R.Receive, AbsIndex, Find, R.Valid, ReceiverInv, InputInv, AllIntact, AllGenuine, S.HandleNack,
      DataPacket;
    var d := s.air[i];
    var k := AbsIndex(|s.rcv.output|, Number(d.idx));
    assert Genuine(crc, d, s.sent) by { AirIsGenuine(crc, input, s, i); }
    if Intact(crc, d, s.sent) { IntactSize(crc, d, s.sent); }
    CaughtUp(crc, NoMistake, input, s);
    TypedStep(crc, s, Deliver(i));
    var v := Apply(crc, s, Deliver(i));
    DamagedReplies(crc, s.rcv, d, s.sent);
    assert v.back[0] == Encode(crc, R.ReplyPacket(PTYPE_NACK, s.rcv.windowSize, Number(k)));
    ReplyDecodes(crc, PTYPE_NACK, s.rcv.windowSize, Number(k));
    S.NackBeyondCrashes(crc, s.snd, Base(s), k, |s.sent|, s.rcv.windowSize);
  }

  lemma AirIsGenuine(crc: Checksum, input: seq<byte>, s: State, i: nat)
    requires Good(crc, NoMistake, input, s) && i < |s.air|
    ensures Genuine(crc, s.air[i], s.sent)
  {
    hide Genuine;
  }
}
