/** Safety over every run: the receiver writes a prefix of the input, and the
    whole input once the sender has left. */
module Safety {
  import opened Bytes
  import opened Codec
  import S = Sender
  import R = Receiver
  import opened ReceiverRef
  import opened Protocol
  import opened SeqNum

  // ------------------------------------------------------------------- steps

  lemma GenuineGrows(crc: Checksum, ds: seq<Datagram>, sent: seq<seq<byte>>, more: seq<seq<byte>>)
    ensures AllGenuine(crc, ds, sent) ==> AllGenuine(crc, ds, sent + more)
    ensures AllIntact(crc, ds, sent) ==> AllIntact(crc, ds, sent + more)
  {
    hide Encode, InvertLast;
    if AllGenuine(crc, ds, sent) {
      forall i | 0 <= i < |ds| ensures Genuine(crc, ds[i], sent + more) {
        assert Genuine(crc, ds[i], sent);
        assert (sent + more)[ds[i].idx] == sent[ds[i].idx];
      }
    }
    if AllIntact(crc, ds, sent) {
      forall i | 0 <= i < |ds| ensures Intact(crc, ds[i], sent + more) {
        assert Intact(crc, ds[i], sent);
        assert (sent + more)[ds[i].idx] == sent[ds[i].idx];
      }
    }
  }

  lemma AppendIntact(crc: Checksum, wire: seq<Datagram>, d: Datagram, sent: seq<seq<byte>>)
    requires AllIntact(crc, wire, sent) && Intact(crc, d, sent)
    ensures AllIntact(crc, wire + [d], sent)
  {
    hide Intact;
  }

  /** A packet of the window, encoded, is intact. */
  lemma WindowIsIntact(crc: Checksum, s: State, i: nat, stamp: nat)
    requires SenderInv(s) && i < |s.snd.window|
    ensures Intact(crc, Datagram(Base(s) + i, stamp, Encode(crc, s.snd.window[i])), s.sent)
  {
    hide Encode;
  }

  lemma ReadWindow(crc: Checksum, s: State, n: nat)
    requires SenderInv(s) && Typed(s) && Enabled(crc, AnyOrder, s, Read(n))
    ensures SenderInv(Apply(crc, s, Read(n))) && Base(Apply(crc, s, Read(n))) == Base(s)
  {
    hide Encode, R.Valid, DataPacket, Sendable, Tag;
    var chunk := s.unread[..n];
    var p := DataPacket(s.snd.seqnum, chunk);
    var next := S.SendChunk(crc, s.snd, chunk).next;
    var t := Apply(crc, s, Read(n));
    assert t.snd == next && t.sent == s.sent + [chunk];
    WindowGrows(s.snd.window, p, s.sent, chunk);
    NextNumber(|s.sent|);
  }

  /** A window that mirrors the end of `sent` still does after one more packet. */
  lemma WindowGrows(window: seq<Packet>, p: Packet, sent: seq<seq<byte>>, chunk: seq<byte>)
    requires |window| <= |sent| && |chunk| <= MAX_PAYLOAD_SIZE && p == DataPacket(Number(|sent|), chunk)
    requires forall i :: 0 <= i < |sent| ==> |sent[i]| <= MAX_PAYLOAD_SIZE
    requires var base := |sent| - |window|;
      forall i :: 0 <= i < |window| ==> window[i] == DataPacket(Number(base + i), sent[base + i])
    ensures var base := |sent| - |window|;
      forall i :: 0 <= i <= |window| ==>
        |(sent + [chunk])[base + i]| <= MAX_PAYLOAD_SIZE
        && (window + [p])[i] == DataPacket(Number(base + i), (sent + [chunk])[base + i])
  {
    hide DataPacket;
  }

  lemma ReadInput(crc: Checksum, input: seq<byte>, s: State, n: nat)
    requires InputInv(input, s) && Typed(s) && Enabled(crc, AnyOrder, s, Read(n))
    ensures InputInv(input, Apply(crc, s, Read(n)))
  {
    hide Encode, R.Valid, DataPacket, S.Ready;
    var t := Apply(crc, s, Read(n));
    var chunk := s.unread[..n];
    assert t.sent[..|s.sent|] == s.sent;
    assert Flatten(t.sent) == Flatten(s.sent) + chunk;
    assert chunk + t.unread == s.unread;
    assert forall i :: 0 <= i < |s.sent| ==> t.sent[i] == s.sent[i];
  }

  lemma ReadInv(crc: Checksum, input: seq<byte>, s: State, n: nat)
    requires Inv(crc, input, s) && Typed(s) && Enabled(crc, AnyOrder, s, Read(n))
    ensures Inv(crc, input, Apply(crc, s, Read(n)))
  {
    hide Encode, R.Valid, QueueOK, AllIntact, AllGenuine, Abs;
    ReadWindow(crc, s, n);
    ReadInput(crc, input, s, n);
    ReadLinkInv(crc, input, s, n);
  }

  lemma ReadLinkInv(crc: Checksum, input: seq<byte>, s: State, n: nat)
    requires Inv(crc, input, s) && Typed(s) && Enabled(crc, AnyOrder, s, Read(n))
    ensures var t := Apply(crc, s, Read(n));
      && ReceiverInv(t) && AllIntact(crc, t.wire, t.sent) && AllGenuine(crc, t.air, t.sent)
      && QueueOK(crc, Base(s), |t.rcv.output|, |t.sent|, t.back)
      && |t.rcv.output| <= |t.sent|
  {
    hide QueueOK, Encode, AllGenuine, AllIntact, Abs, InputInv, Typed;
    var k := |s.sent|;
    var chunk := s.unread[..n];
    var d := Datagram(k, k + 1, Encode(crc, DataPacket(Number(k), chunk)));
    var sent := s.sent + [chunk];
    GenuineGrows(crc, s.wire, s.sent, [chunk]);
    GenuineGrows(crc, s.air, s.sent, [chunk]);
    AppendIntact(crc, s.wire, d, sent);
    QueueGrows(crc, Base(s), |s.rcv.output|, k, k + 1, s.back);
    assert Apply(crc, s, Read(n)).wire == s.wire + [d];
    assert Faithful(Abs(s.rcv), sent);
  }

  lemma ResendInv(crc: Checksum, input: seq<byte>, s: State, i: nat)
    requires Inv(crc, input, s) && Typed(s) && Enabled(crc, AnyOrder, s, Resend(i))
    ensures Inv(crc, input, Apply(crc, s, Resend(i)))
  {
    hide QueueOK, Encode, AllGenuine, AllIntact, R.Valid, Abs, InputInv, Faithful, R.Consistent;
    WindowIsIntact(crc, s, i, |s.sent|);
    AppendIntact(crc, s.wire, Datagram(Base(s) + i, |s.sent|, Encode(crc, s.snd.window[i])), s.sent);
    SameInput(input, s, Apply(crc, s, Resend(i)));
  }

  lemma SameInput(input: seq<byte>, s: State, t: State)
    requires InputInv(input, s) && t.sent == s.sent && t.unread == s.unread && t.snd == s.snd
    ensures InputInv(input, t)
  {}

  /** The link damages a datagram at most once. */
  lemma LinkInv(crc: Checksum, input: seq<byte>, s: State, fate: Fate)
    requires Inv(crc, input, s) && Typed(s) && Enabled(crc, AnyOrder, s, Link(fate))
    ensures Inv(crc, input, Apply(crc, s, Link(fate)))
  {
    hide QueueOK, Encode, InvertLast, R.Valid, Abs, InputInv, Faithful, R.Consistent, S.Ready;
    var t := Apply(crc, s, Link(fate));
    var d := s.wire[0];
    assert Intact(crc, d, s.sent);
    assert forall i :: 0 <= i < |t.wire| ==> t.wire[i] == s.wire[i + 1];
    forall i | 0 <= i < |t.air| ensures Genuine(crc, t.air[i], t.sent) {
      if i < |s.air| { assert t.air[i] == s.air[i]; }
    }
    SameInput(input, s, t);
  }

  lemma DeliverInv(crc: Checksum, input: seq<byte>, s: State, i: nat)
    requires Inv(crc, input, s) && Typed(s) && Enabled(crc, NoMistake, s, Deliver(i))
    ensures Inv(crc, input, Apply(crc, s, Deliver(i)))
  {
    hide QueueOK, Encode, R.Valid, InputInv, R.Consistent, S.Ready, R.Receive, Genuine, SenderInv, Unmistaken;
    var t := Apply(crc, s, Deliver(i));
    UnmistakenQueue(crc, s.rcv, s.air[i], s.sent);
    QueueExtends(crc, Base(s), |s.rcv.output|, |t.rcv.output|, |s.sent|, s.back,
                 R.Receive(crc, s.rcv, Heard(s.air[i])).replies);
    forall j | 0 <= j < |t.air| ensures Genuine(crc, t.air[j], t.sent) {
      assert t.air[j] == s.air[if j < i then j else j + 1];
    }
    SameInput(input, s, t);
    SameSender(s, t);
  }

  lemma SameSender(s: State, t: State)
    requires SenderInv(s) && t.sent == s.sent && t.snd == s.snd
    ensures SenderInv(t)
  {}

  /** An ACK slides the window; the exit is taken exactly when it empties. */
  lemma AckStep(crc: Checksum, input: seq<byte>, s: State, a: nat, w: bits5, t: State)
    requires SenderInv(s) && InputInv(input, s) && s.snd.phase == S.Running
    requires Base(s) <= a <= |s.sent| && w >= 1
    requires t.snd == S.HandleAck(s.snd, Number(a), w) && t.sent == s.sent && t.unread == s.unread
    ensures SenderInv(t) && InputInv(input, t) && Base(t) == a
  {
    hide Flatten, S.HandleAck, DataPacket, Sendable, Number, S.Holds, S.Ready;
    SenderSpan(s);
    S.AckDropsPrefix(s.snd, Base(s), a, |s.sent|, w);
    WindowShrinks(s, a, t);
  }

  lemma SenderSpan(s: State)
    requires SenderInv(s)
    ensures |s.snd.window| == |s.sent| - Base(s) && S.Holds(s.snd, Base(s), |s.sent|)
  {}

  lemma WindowShrinks(s: State, a: nat, t: State)
    requires SenderInv(s) && Base(s) <= a <= |s.sent| == |t.sent| && t.sent == s.sent
    requires t.snd.window == s.snd.window[a - Base(s)..] && 1 <= t.snd.limited <= MAX_WINDOW_SIZE
    requires S.Holds(t.snd, a, |s.sent|)
    ensures SenderInv(t) && Base(t) == a
  {
    hide DataPacket, Sendable, Number;
    assert forall i :: 0 <= i < |t.snd.window| ==> t.snd.window[i] == s.snd.window[i + (a - Base(s))];
  }

  lemma NackStep(crc: Checksum, input: seq<byte>, s: State, k: nat, w: bits5, t: State)
    requires SenderInv(s) && InputInv(input, s)
    requires Base(s) <= k < |s.sent| && w >= 1
    requires t.snd == S.HandleNack(crc, s.snd, Number(k), w).next && t.sent == s.sent && t.unread == s.unread
    ensures SenderInv(t) && InputInv(input, t) && Base(t) == Base(s)
    ensures S.HandleNack(crc, s.snd, Number(k), w).datagrams == [Encode(crc, s.snd.window[k - Base(s)])]
    ensures S.NackPosition(s.snd, Number(k)) == k - Base(s)
  {
    hide Flatten, DataPacket, Encode, S.HandleNack, S.NackPosition;
    S.NackResends(crc, s.snd, Base(s), k, |s.sent|, w);
    S.WindowNackPosition(s.snd, Base(s), k, |s.sent|);
  }

  lemma ReplyInv(crc: Checksum, input: seq<byte>, s: State)
    requires Inv(crc, input, s) && Typed(s) && Enabled(crc, AnyOrder, s, Reply)
    ensures Inv(crc, input, Apply(crc, s, Reply))
  {
    hide Encode, Decode, R.Valid, R.Consistent, S.HandleAck, S.HandleNack, SenderInv, InputInv, Faithful, Abs,
      AllIntact, AllGenuine, AbsIndex, S.NackPosition;
    var t := Apply(crc, s, Reply);
    var p := Decode(crc, BLANK, NextReply(s)).1;
    var k := AbsIndex(Base(s), p.seqnum);
    if p.ptype == PTYPE_ACK {
      AckStep(crc, input, s, k, p.window, t);
      assert t.wire == s.wire;
      QueueSpan(crc, k, |s.rcv.output|, |s.sent|, t.back);
    } else {
      NackStep(crc, input, s, k, p.window, t);
      var d := Datagram(k, |s.sent|, Encode(crc, s.snd.window[k - Base(s)]));
      WindowIsIntact(crc, s, k - Base(s), |s.sent|);
      AppendIntact(crc, s.wire, d, s.sent);
      assert t.wire == s.wire + [d];
    }
  }

  /** Every step keeps the invariant, deliveries as long as they are not mistaken. */
  lemma StepInv(crc: Checksum, input: seq<byte>, s: State, a: Action)
    requires Inv(crc, input, s) && Typed(s) && Enabled(crc, NoMistake, s, a)
    ensures Inv(crc, input, Apply(crc, s, a))
  {
    match a
    case Read(n) => ReadInv(crc, input, s, n);
    case Resend(i) => ResendInv(crc, input, s, i);
    case Link(fate) => LinkInv(crc, input, s, fate);
    case Deliver(i) => DeliverInv(crc, input, s, i);
    case Reply => ReplyInv(crc, input, s);
  }

  /** A delivery keeps the invariant if and only if it is not mistaken. */
  lemma DeliverExactly(crc: Checksum, input: seq<byte>, s: State, i: nat)
    requires Inv(crc, input, s) && Typed(s) && Enabled(crc, AnyOrder, s, Deliver(i))
    ensures Inv(crc, input, Apply(crc, s, Deliver(i))) <==> Unmistaken(crc, s.rcv, s.air[i], s.sent)
  {
    hide QueueOK, Encode, R.Valid, InputInv, R.Consistent, S.Ready, R.Receive, SenderInv, Unmistaken, Faithful, Genuine,
      Intact;
    var d := s.air[i];
    if Unmistaken(crc, s.rcv, d, s.sent) {
      DeliverInv(crc, input, s, i);
    } else if Intact(crc, d, s.sent) {
      FaithfulExactly(crc, s.rcv, d, s.sent);
    } else {
      assert Genuine(crc, d, s.sent);
      InOrderExactly(crc, s.rcv, d, s.sent, Base(s), s.back);
    }
  }

  /** Of all steps that can be taken, exactly those without a mistaken delivery
      keep the invariant. */
  lemma StepExactly(crc: Checksum, input: seq<byte>, s: State, a: Action)
    requires Inv(crc, input, s) && Typed(s) && Enabled(crc, AnyOrder, s, a)
    ensures Inv(crc, input, Apply(crc, s, a)) <==> Enabled(crc, NoMistake, s, a)
  {
    hide Inv, Typed, Apply, Unmistaken;
    if a.Deliver? {
      DeliverExactly(crc, input, s, a.position);
    } else {
      StepInv(crc, input, s, a);
    }
  }

  // -------------------------------------------------------------------- runs

  lemma TypedStep(crc: Checksum, s: State, a: Action)
    requires Typed(s) && Enabled(crc, AnyOrder, s, a)
    ensures Typed(Apply(crc, s, a))
  {
    hide Encode, Decode, R.Receive;
    match a
    case Read(n) =>
    case Resend(i) =>
    case Link(fate) =>
    case Deliver(i) => R.ReceiveValid(crc, s.rcv, Heard(s.air[i]));
    case Reply => RepliedTyped(crc, s);
  }

  lemma RepliedTyped(crc: Checksum, s: State)
    requires Typed(s) && s.back != []
    ensures var r := S.HandleReply(crc, s.snd, NextReply(s));
      && S.Ready(r.next) && |r.next.window| <= |s.snd.window|
      && forall i :: 0 <= i < |r.datagrams| ==> |r.datagrams[i]| >= 4
  {
    hide Decode, Encode, NextReply, S.AckPosition, S.NackPosition, S.HandleAck, R.Valid;
    var p := Decode(crc, BLANK, NextReply(s)).1;
    AckReady(s.snd, p.seqnum, p.window);
  }

  lemma AckReady(snd: S.Snd, number: byte, w: bits5)
    requires S.Ready(snd)
    ensures var t := S.HandleAck(snd, number, w);
      S.Ready(t) && |t.window| <= |snd.window|
  {
    hide S.AckPosition, Sendable;
    var position := S.AckPosition(snd, number);
    if -1 <= position < |snd.window| {
      var rest := snd.window[position + 1..];
      forall i | 0 <= i < |rest| ensures Sendable(rest[i]) {
        assert rest[i] == snd.window[i + position + 1];
      }
    }
  }

  /** Each action is enabled in turn. */
  predicate Legal(crc: Checksum, mode: Mode, s: State, acts: seq<Action>)
    requires Typed(s)
    decreases |acts|
  {
    acts == []
    || (Enabled(crc, mode, s, acts[0])
        && (TypedStep(crc, s, acts[0]);
            Legal(crc, mode, Apply(crc, s, acts[0]), acts[1..])))
  }

  /** The state a run ends in. */
  function Run(crc: Checksum, mode: Mode, s: State, acts: seq<Action>): (t: State)
    requires Typed(s) && Legal(crc, mode, s, acts)
    ensures Typed(t)
    decreases |acts|
  {
    if acts == [] then s
    else
      TypedStep(crc, s, acts[0]);
      Run(crc, mode, Apply(crc, s, acts[0]), acts[1..])
  }

  lemma InitTyped(input: seq<byte>)
    ensures Typed(Init(input))
  {}

  /** The action list is a run of the whole system on the given input. */
  predicate Possible(crc: Checksum, mode: Mode, input: seq<byte>, acts: seq<Action>) {
    InitTyped(input);
    Legal(crc, mode, Init(input), acts)
  }

  /** The state the system is in after a run. */
  function After(crc: Checksum, mode: Mode, input: seq<byte>, acts: seq<Action>): State
    requires Possible(crc, mode, input, acts)
  {
    InitTyped(input);
    Run(crc, mode, Init(input), acts)
  }

  /** A run is its first step and the rest. */
  lemma RunFirst(crc: Checksum, mode: Mode, s: State, a: Action, rest: seq<Action>)
    requires Typed(s) && Enabled(crc, mode, s, a) && Typed(Apply(crc, s, a)) && Legal(crc, mode, Apply(crc, s, a), rest)
    ensures Legal(crc, mode, s, [a] + rest)
    ensures Run(crc, mode, s, [a] + rest) == Run(crc, mode, Apply(crc, s, a), rest)
  {
    hide Typed, Apply;
    assert ([a] + rest)[1..] == rest;
  }

  // ------------------------------------------------------- the in-order link

  /** Everything the receiver has accepted lies below b. */
  ghost predicate Below(f: Ref, b: nat) {
    |f.output| <= b && forall j :: j in f.ahead ==> j < b
  }

  lemma {:induction false} FlushBelow(f: Ref, b: nat)
    requires Below(f, b)
    ensures Below(RefFlush(f), b)
    decreases |f.ahead|
  {
    var n := |f.output|;
    if n in f.ahead {
      assert f.ahead.Keys == (f.ahead - {n}).Keys + {n};
      FlushBelow(Ref(f.output + [f.ahead[n]], f.ahead - {n}), b);
    }
  }

  lemma ReceiveBelow(f: Ref, k: nat, payload: seq<byte>, b: nat)
    requires Below(f, b) && k < b
    ensures Below(RefReceive(f, k, payload), b)
  {
    if |f.output| <= k < |f.output| + MAX_WINDOW_SIZE && k !in f.ahead {
      FlushBelow(f.(ahead := f.ahead[k := payload]), b);
    }
  }

  /** A datagram left a full sender window at most, and nothing accepted so far
      is newer than it. */
  ghost predicate Timely(d: Datagram, n: nat, f: Ref) {
    d.stamp <= n && d.idx < d.stamp <= d.idx + MAX_WINDOW_SIZE && Below(f, d.stamp)
  }

  /** Datagrams in flight, next one first, in the order they were sent. */
  ghost predicate Ordered(s: State)
    requires R.Valid(s.rcv)
  {
    var q := s.air + s.wire;
    (forall i :: 0 <= i < |q| ==> Timely(q[i], |s.sent|, Abs(s.rcv)))
    && forall i, j :: 0 <= i < j < |q| ==> q[i].stamp <= q[j].stamp
  }

  /** So the datagram at the head is at most 31 packets old: no age hypothesis
      is needed on an in-order link. */
  lemma HeadIsFresh(crc: Checksum, input: seq<byte>, s: State)
    requires Inv(crc, input, s) && Ordered(s) && s.air != []
    ensures |s.rcv.output| - s.air[0].idx <= MAX_WINDOW_SIZE
    ensures NoAlias(|s.rcv.output|, s.air[0].idx)
  {
    hide QueueOK, Genuine, AllIntact, InputInv;
    var d := s.air[0];
    assert d == (s.air + s.wire)[0];
    assert Timely(d, |s.sent|, Abs(s.rcv));
    assert Genuine(crc, d, s.sent);
    AliasByOffset(|s.rcv.output|, d.idx);
    assert d.idx < |s.sent| <= |s.rcv.output| + MAX_WINDOW_SIZE by { GenuineIndex(crc, d, s.sent); }
  }

  lemma HeadIsUnmistaken(crc: Checksum, input: seq<byte>, s: State)
    requires Inv(crc, input, s) && Typed(s) && Ordered(s) && s.air != []
    ensures Unmistaken(crc, s.rcv, s.air[0], s.sent)
  {
    hide Ordered, SenderInv, InputInv, QueueOK, Unmistaken, NoAlias, AllIntact, Genuine;
    HeadIsFresh(crc, input, s);
    assert Genuine(crc, s.air[0], s.sent);
    GenuineIndex(crc, s.air[0], s.sent);
    NoAliasUnmistaken(crc, s.rcv, s.air[0], s.sent);
  }

  lemma GenuineIndex(crc: Checksum, d: Datagram, sent: seq<seq<byte>>)
    requires Genuine(crc, d, sent)
    ensures d.idx < |sent|
  {}

  lemma OrderedAppend(s: State, t: State, d: Datagram)
    requires R.Valid(s.rcv) && Ordered(s) && t.rcv == s.rcv
    requires t.air + t.wire == s.air + s.wire + [d] && |s.sent| <= |t.sent|
    requires Timely(d, |t.sent|, Abs(s.rcv)) && d.stamp >= |s.sent|
    ensures Ordered(t)
  {
    hide Abs, Below, R.Valid, R.Consistent;
    var q := s.air + s.wire;
    forall i | 0 <= i < |q| ensures Timely((t.air + t.wire)[i], |t.sent|, Abs(t.rcv)) {
      assert Timely(q[i], |s.sent|, Abs(s.rcv));
    }
  }

  lemma ReceiverBelowSent(s: State)
    requires ReceiverInv(s)
    ensures Below(Abs(s.rcv), |s.sent|)
  {
    hide Abs;
  }

  lemma OrderedSend(crc: Checksum, input: seq<byte>, s: State, a: Action)
    requires Inv(crc, input, s) && Typed(s) && Ordered(s) && Enabled(crc, AnyOrder, s, a)
    requires a.Read? || a.Resend?
    ensures R.Valid(Apply(crc, s, a).rcv) && Ordered(Apply(crc, s, a))
  {
    hide QueueOK, Genuine, Intact, InputInv, Encode, Abs, R.Consistent;
    var t := Apply(crc, s, a);
    ReceiverBelowSent(s);
    var d := t.wire[|s.wire|];
    assert t.wire == s.wire + [d];
    assert t.air + t.wire == s.air + s.wire + [d];
    OrderedAppend(s, t, d);
  }

  lemma OrderedReply(crc: Checksum, input: seq<byte>, s: State)
    requires Inv(crc, input, s) && Typed(s) && Ordered(s) && Enabled(crc, AnyOrder, s, Reply)
    ensures R.Valid(Apply(crc, s, Reply).rcv) && Ordered(Apply(crc, s, Reply))
  {
    hide Genuine, Intact, Encode, Decode, Abs, R.Consistent, S.HandleAck, S.HandleNack, SenderInv, InputInv, AbsIndex,
      S.NackPosition;
    var t := Apply(crc, s, Reply);
    ReceiverBelowSent(s);
    var p := Decode(crc, BLANK, NextReply(s)).1;
    var k := AbsIndex(Base(s), p.seqnum);
    if p.ptype == PTYPE_ACK {
      assert t.air + t.wire == s.air + s.wire;
    } else {
      NackStep(crc, input, s, k, p.window, t);
      var d := t.wire[|s.wire|];
      assert d.idx == k && d.stamp == |s.sent|;
      assert t.wire == s.wire + [d];
      assert t.air + t.wire == s.air + s.wire + [d];
      WindowSpan(s);
      OrderedAppend(s, t, d);
    }
  }

  lemma WindowSpan(s: State)
    requires SenderInv(s)
    ensures |s.sent| <= Base(s) + MAX_WINDOW_SIZE
  {}

  lemma OrderedLink(crc: Checksum, s: State, fate: Fate)
    requires Typed(s) && Ordered(s) && s.wire != []
    ensures R.Valid(Apply(crc, s, Link(fate)).rcv) && Ordered(Apply(crc, s, Link(fate)))
  {
    hide Abs, Below, R.Consistent, R.Valid, InvertLast;
    var t := Apply(crc, s, Link(fate));
    var q := s.air + s.wire;
    var u := t.air + t.wire;
    var n := |s.air|;
    forall i | 0 <= i < |u| ensures Timely(u[i], |t.sent|, Abs(t.rcv)) {
      var j := if fate == Drop && i >= n then i + 1 else i;
      assert Timely(q[j], |s.sent|, Abs(s.rcv));
    }
    assert forall i :: 0 <= i < |u| ==> u[i].stamp == q[if fate == Drop && i >= n then i + 1 else i].stamp;
  }

  lemma OrderedDeliver(crc: Checksum, input: seq<byte>, s: State)
    requires Inv(crc, input, s) && Typed(s) && Ordered(s) && s.air != []
    ensures R.Valid(Apply(crc, s, Deliver(0)).rcv) && Ordered(Apply(crc, s, Deliver(0)))
  {
    hide QueueOK, Genuine, AllIntact, InputInv, SenderInv, Abs, R.Consistent, R.Receive, RefReceive, NoAlias,
      Below, R.Valid, Intact;
    var t := Apply(crc, s, Deliver(0));
    var q := s.air + s.wire;
    var d := s.air[0];
    assert d == q[0];
    assert Genuine(crc, d, s.sent);
    HeadIsFresh(crc, input, s);
    ReceiveQueue(crc, s.rcv, d, s.sent);
    assert t.air + t.wire == q[1..];
    forall i | 0 <= i < |q[1..]| ensures Timely(q[1..][i], |t.sent|, Abs(t.rcv)) {
      var later := q[1..][i];
      assert later == q[i + 1];
      assert Timely(later, |s.sent|, Abs(s.rcv)) && Timely(d, |s.sent|, Abs(s.rcv));
      if t.rcv != s.rcv {
        ReceiveBelow(Abs(s.rcv), d.idx, s.sent[d.idx], later.stamp);
      }
    }
  }

  lemma OrderedStep(crc: Checksum, input: seq<byte>, s: State, a: Action)
    requires Inv(crc, input, s) && Typed(s) && Ordered(s) && Enabled(crc, InOrder, s, a)
    ensures R.Valid(Apply(crc, s, a).rcv) && Ordered(Apply(crc, s, a))
  {
    match a
    case Read(n) => OrderedSend(crc, input, s, a);
    case Resend(i) => OrderedSend(crc, input, s, a);
    case Link(fate) => OrderedLink(crc, s, fate);
    case Deliver(i) => OrderedDeliver(crc, input, s);
    case Reply => OrderedReply(crc, input, s);
  }

  // ---------------------------------------------------------------- theorems

  /** The invariant a run in the given mode keeps. */
  ghost predicate Good(crc: Checksum, mode: Mode, input: seq<byte>, s: State) {
    Inv(crc, input, s) && (mode == InOrder ==> Ordered(s))
  }

  lemma GoodStep(crc: Checksum, mode: Mode, input: seq<byte>, s: State, a: Action)
    requires mode != AnyOrder && Typed(s) && Good(crc, mode, input, s) && Enabled(crc, mode, s, a)
    ensures Good(crc, mode, input, Apply(crc, s, a))
  {
    hide Inv, Ordered, Apply;
    if mode == InOrder {
      if a.Deliver? { HeadIsUnmistaken(crc, input, s); }
      OrderedStep(crc, input, s, a);
    }
    StepInv(crc, input, s, a);
  }

  lemma {:induction false} RunGood(crc: Checksum, mode: Mode, input: seq<byte>, s: State, acts: seq<Action>)
    requires mode != AnyOrder && Typed(s) && Good(crc, mode, input, s) && Legal(crc, mode, s, acts)
    ensures Good(crc, mode, input, Run(crc, mode, s, acts))
    decreases |acts|
  {
    hide Good, Typed, Apply;
    if acts != [] {
      TypedStep(crc, s, acts[0]);
      GoodStep(crc, mode, input, s, acts[0]);
      RunGood(crc, mode, input, Apply(crc, s, acts[0]), acts[1..]);
    }
  }

  lemma InitGood(crc: Checksum, mode: Mode, input: seq<byte>)
    ensures Typed(Init(input)) && Good(crc, mode, input, Init(input))
  {
    InitInv(crc, input);
  }

  lemma {:induction false} FlattenPrefix(a: seq<seq<byte>>, b: seq<seq<byte>>)
    requires a <= b
    ensures Flatten(a) <= Flatten(b)
    decreases |b|
  {
    if a != b { FlattenPrefix(a, b[..|b| - 1]); }
  }

  /** The invariant holds before and after every step of a run. */
  ghost predicate Throughout(crc: Checksum, input: seq<byte>, s: State, acts: seq<Action>)
    requires Typed(s) && Legal(crc, AnyOrder, s, acts)
    decreases |acts|
  {
    Inv(crc, input, s)
    && (acts != [] ==>
          (TypedStep(crc, s, acts[0]);
           Throughout(crc, input, Apply(crc, s, acts[0]), acts[1..])))
  }

  /** However the link delays: the invariant holds throughout a run if and only
      if the receiver mistakes no datagram in it. */
  lemma {:induction false} SoundExactly(crc: Checksum, input: seq<byte>, s: State, acts: seq<Action>)
    requires Typed(s) && Inv(crc, input, s) && Legal(crc, AnyOrder, s, acts)
    ensures Throughout(crc, input, s, acts) <==> Legal(crc, NoMistake, s, acts)
    decreases |acts|
  {
    hide Inv, Typed, Apply, Enabled;
    if acts != [] {
      TypedStep(crc, s, acts[0]);
      StepExactly(crc, input, s, acts[0]);
      var t := Apply(crc, s, acts[0]);
      if Inv(crc, input, t) { SoundExactly(crc, input, t, acts[1..]); }
    }
  }

  /** In every reachable state of an in-order link, and of a delaying one as long
      as the receiver mistakes no datagram: what the receiver wrote is the first chunks
      the sender read, each once and in order, hence a prefix of the input; the
      sender never leaves its window array; and if it has exited, everything was
      written, down to the empty packet that ends the file. */
  lemma TransferIsSafe(crc: Checksum, mode: Mode, input: seq<byte>, acts: seq<Action>)
    requires mode != AnyOrder && Possible(crc, mode, input, acts)
    ensures var s := After(crc, mode, input, acts);
      && s.rcv.output <= s.sent && Flatten(s.sent) <= input
      && Flatten(s.rcv.output) <= input
      && s.snd.phase != S.Crashed
      && (s.snd.phase == S.Exited ==>
            s.rcv.output == s.sent && Flatten(s.rcv.output) == input
            && s.sent != [] && s.sent[|s.sent| - 1] == [])
  {
    hide QueueOK, AllIntact, AllGenuine, Legal, Run, Ordered;
    InitGood(crc, mode, input);
    RunGood(crc, mode, input, Init(input), acts);
    var s := Run(crc, mode, Init(input), acts);
    assert Flatten(s.sent) <= Flatten(s.sent) + s.unread;
    FlattenPrefix(s.rcv.output, s.sent);
    if s.snd.phase == S.Exited {
      assert Base(s) == |s.sent| == |s.rcv.output|;
      assert s.rcv.output == s.sent;
    }
  }

  /** The oldest reply addresses the sender's window: an ACK points at position
      -1 .. current - 1, a NACK at 0 .. current - 1, and the window it advertises
      is 1 .. 31. */
  predicate ReplyAddressesWindow(snd: S.Snd, status: Status, p: Packet) {
    && status == PktOk && 1 <= p.window <= MAX_WINDOW_SIZE
    && (p.ptype == PTYPE_ACK || p.ptype == PTYPE_NACK)
    && (p.ptype == PTYPE_ACK ==> -1 <= S.AckPosition(snd, p.seqnum) < |snd.window|)
    && (p.ptype == PTYPE_NACK ==> 0 <= S.NackPosition(snd, p.seqnum) < |snd.window|)
  }

  lemma QueueAddressesWindow(crc: Checksum, s: State, hi: nat)
    requires SenderInv(s) && s.back != [] && QueueOK(crc, Base(s), hi, |s.sent|, s.back) && hi <= |s.sent|
    ensures var (status, p) := Decode(crc, BLANK, NextReply(s));
      ReplyAddressesWindow(s.snd, status, p)
  {
    hide Decode, S.Ready, AbsIndex, S.AckPosition, S.NackPosition, DataPacket;
    var p := Decode(crc, BLANK, NextReply(s)).1;
    var k := AbsIndex(Base(s), p.seqnum);
    if p.ptype == PTYPE_ACK {
      QueueSpan(crc, k, hi, |s.sent|, s.back[1..]);
      S.WindowAckPosition(s.snd, Base(s), k, |s.sent|);
    } else {
      S.WindowNackPosition(s.snd, Base(s), k, |s.sent|);
    }
  }

  /** In every such state no reply can make the sender leave its window array. */
  lemma RepliesAddressWindow(crc: Checksum, mode: Mode, input: seq<byte>, acts: seq<Action>)
    requires mode != AnyOrder && Possible(crc, mode, input, acts)
    ensures var s := After(crc, mode, input, acts);
      && 1 <= s.snd.limited <= MAX_WINDOW_SIZE
      && (s.back != [] ==>
            var (status, p) := Decode(crc, BLANK, NextReply(s));
            ReplyAddressesWindow(s.snd, status, p))
  {
    hide Decode, QueueOK, AllIntact, AllGenuine, Legal, Run, Ordered, InputInv, ReceiverInv, ReplyAddressesWindow;
    InitGood(crc, mode, input);
    RunGood(crc, mode, input, Init(input), acts);
    var s := Run(crc, mode, Init(input), acts);
    if s.back != [] { QueueAddressesWindow(crc, s, |s.rcv.output|); }
  }

  // ------------------------------------------------------------ timer sweeps

  /** One timer sweep as single retransmissions. */
  function Sweep(s: State, expired: int -> bool, i: nat): seq<Action>
    requires i <= |s.snd.window|
    decreases |s.snd.window| - i
  {
    if i == |s.snd.window| then []
    else (if expired(i) then [Resend(i)] else []) + Sweep(s, expired, i + 1)
  }

  function BytesOf(ds: seq<Datagram>): (b: seq<seq<byte>>)
    ensures |b| == |ds|
  {
    seq(|ds|, i requires 0 <= i < |ds| => ds[i].bytes)
  }

  lemma ResendApply(crc: Checksum, s: State, i: nat)
    requires Typed(s) && s.snd.phase == S.Running && i < |s.snd.window|
    ensures Enabled(crc, AnyOrder, s, Resend(i)) && Typed(Apply(crc, s, Resend(i)))
    ensures Apply(crc, s, Resend(i))
      == s.(wire := s.wire + [Datagram(Base(s) + i, |s.sent|, Encode(crc, s.snd.window[i]))])
  {
    TypedStep(crc, s, Resend(i));
  }

  /** The loop over the timers is a run of retransmissions: it puts exactly its
      datagrams on the wire, oldest first, and changes nothing else. */
  lemma {:induction false} SweepIsRun(crc: Checksum, mode: Mode, s: State, expired: int -> bool, i: nat)
    requires Typed(s) && s.snd.phase == S.Running && i <= |s.snd.window|
    ensures Legal(crc, mode, s, Sweep(s, expired, i))
    ensures var t := Run(crc, mode, s, Sweep(s, expired, i));
      t == s.(wire := t.wire) && BytesOf(t.wire) == BytesOf(s.wire) + S.Resends(crc, s.snd, expired, i)
    decreases |s.snd.window| - i
  {
    hide Encode, Apply, R.Valid, BytesOf, Legal, Run;
    if i == |s.snd.window| {
      EmptyRun(crc, mode, s);
    } else {
      var rest := Sweep(s, expired, i + 1);
      if expired(i) {
        ResendApply(crc, s, i);
        var u := Apply(crc, s, Resend(i));
        SweepIsRun(crc, mode, u, expired, i + 1);
        SweepSame(s, u, expired, i + 1);
        RunFirst(crc, mode, s, Resend(i), rest);
        BytesAppend(s.wire, u.wire[|s.wire|], S.Resends(crc, s.snd, expired, i + 1));
      } else {
        SweepIsRun(crc, mode, s, expired, i + 1);
        assert [] + rest == rest;
        assert [] + S.Resends(crc, s.snd, expired, i + 1) == S.Resends(crc, s.snd, expired, i + 1);
      }
    }
  }

  lemma EmptyRun(crc: Checksum, mode: Mode, s: State)
    requires Typed(s)
    ensures Legal(crc, mode, s, []) && Run(crc, mode, s, []) == s
    ensures BytesOf(s.wire) + [] == BytesOf(s.wire)
  {}

  lemma BytesAppend(w: seq<Datagram>, d: Datagram, more: seq<seq<byte>>)
    ensures BytesOf(w + [d]) + more == BytesOf(w) + ([d.bytes] + more)
  {
    assert BytesOf(w + [d]) == BytesOf(w) + [d.bytes];
  }

  lemma {:induction false} SweepSame(s: State, t: State, expired: int -> bool, i: nat)
    requires s.snd == t.snd && i <= |s.snd.window|
    ensures Sweep(s, expired, i) == Sweep(t, expired, i)
    decreases |s.snd.window| - i
  {
    if i < |s.snd.window| { SweepSame(s, t, expired, i + 1); }
  }
}
