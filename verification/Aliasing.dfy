/** Mistakes do happen on a link that may deliver a datagram arbitrarily late: a
    copy of packet 0 stays in the air while 256 packets go through; its number
    then means packet 256. Two runs, in which nothing was mistaken before: an
    intact copy ends in an output that is no prefix of the input, a bare header
    in a sender that indexes outside its window. */
module Aliasing {
  import opened Bytes
  import opened Codec
  import opened SeqNum
  import S = Sender
  import R = Receiver
  import opened Protocol
  import opened Safety
  import opened Progress
  import opened Mistakes
  import LinkSim

  function Chunk(i: nat): seq<byte> {
    [if i == 0 then 1 else 0]
  }

  function Chunks(n: nat): (c: seq<seq<byte>>)
    ensures |c| == n
  {
    seq(n, i requires 0 <= i < n => Chunk(i))
  }

  function Input(n: nat): (s: seq<byte>)
    ensures |s| == n
  {
    seq(n, i => if i == 0 then 1 else 0)
  }

  const FILE_SIZE := 257

  /** The copy left behind, intact or cut by the link. */
  function Stale(crc: Checksum, cut: bool): Datagram {
    Datagram(0, 1, LinkSim.Damaged(Encode(crc, DataPacket(0, Chunk(0))), cut, false))
  }

  function Sending(n: nat, window: seq<Packet>): S.Snd {
    S.Snd(Number(n), window, MAX_WINDOW_SIZE, false, S.Running)
  }

  function Received(n: nat): R.Rcv {
    R.Rcv(Number(n + 255), MAX_WINDOW_SIZE, [], Chunks(n))
  }

  /** Packets 0 .. n-1 are through; only `pending` is in flight. */
  function Through(n: nat, pending: seq<Datagram>): State
    requires n <= FILE_SIZE
  {
    State(Sending(n, []), Input(FILE_SIZE)[n..], Chunks(n), [], pending, Received(n), [])
  }

  lemma Numbers(n: nat)
    ensures R.Expected(Received(n)) == Number(n) && R.Valid(Received(n))
    ensures Offset(Number(n + 255), Number(n)) == 0
  {
    OffsetOfIndex(n, n);
    R.ExpectedIs(Received(n));
  }

  /** A receiver that holds nothing and gets the number it expects. */
  lemma AcceptAlone(crc: Checksum, r: R.Rcv, q: Packet)
    requires R.Valid(r) && r.held == [] && R.WellFormed(q) && q.seqnum == R.Expected(r)
    ensures R.Consistent(R.Advance(r, q), 0)
    ensures R.Accept(crc, r, q) == R.Reaction(R.Advance(r, q), [R.SendAck(crc, R.Advance(r, q))])
  {
    hide R.SendAck;
    CompareToExpected(r.lastack, q.seqnum);
    R.AdvanceConsistent(r, q);
  }

  /** Packet n delivered to a receiver that expects it and holds nothing. */
  lemma DeliverNext(crc: Checksum, n: nat)
    ensures R.Valid(Received(n))
    ensures R.Receive(crc, Received(n), Encode(crc, DataPacket(Number(n), Chunk(n))))
      == R.Reaction(Received(n + 1), [Encode(crc, R.ReplyPacket(PTYPE_ACK, MAX_WINDOW_SIZE, Number(n + 1)))])
  {
    hide Encode, R.Receive, R.Accept, R.Valid, DataPacket, R.Consistent;
    var r := Received(n);
    Numbers(n);
    var q := R.IntactIsAccepted(crc, r, DataPacket(Number(n), Chunk(n)));
    AcceptAlone(crc, r, q);
    assert Chunks(n + 1) == Chunks(n) + [Chunk(n)];
    Numbers(n + 1);
    assert R.Advance(r, q) == Received(n + 1);
    R.SendAckIs(crc, Received(n + 1));
  }

  /** The stale copy delivered when packet 256 is expected. */
  lemma DeliverStale(crc: Checksum)
    ensures R.Valid(Received(256))
    ensures R.Receive(crc, Received(256), Heard(Stale(crc, false))).next.output == Chunks(256) + [Chunk(0)]
  {
    hide Encode, R.Receive, R.Accept, R.Valid, R.Consistent;
    Numbers(256);
    var q := R.IntactIsAccepted(crc, Received(256), DataPacket(0, Chunk(0)));
    AcceptAlone(crc, Received(256), q);
  }

  lemma AckReply(crc: Checksum, n: nat, p: Packet)
    requires Sendable(p)
    ensures S.HandleReply(crc, Sending(n + 1, [p]),
                          Encode(crc, R.ReplyPacket(PTYPE_ACK, MAX_WINDOW_SIZE, Number(n + 1))))
      == S.Sent(Sending(n + 1, []), [])
  {
    hide Encode, Decode, S.HandleAck, Number, S.HandleNack;
    ReplyDecodes(crc, PTYPE_ACK, MAX_WINDOW_SIZE, Number(n + 1));
    S.AckDropsPrefix(Sending(n + 1, [p]), n, n + 1, n + 1, MAX_WINDOW_SIZE);
  }

  function Fresh(crc: Checksum, n: nat): Datagram {
    Datagram(n, n + 1, Encode(crc, DataPacket(Number(n), Chunk(n))))
  }

  /** Packet n has been read; `pending` is what is in the air besides it. */
  function AfterRead(crc: Checksum, n: nat, pending: seq<Datagram>): State
    requires n < FILE_SIZE
  {
    State(Sending(n + 1, [DataPacket(Number(n), Chunk(n))]), Input(FILE_SIZE)[n + 1..], Chunks(n + 1),
          [Fresh(crc, n)], pending, Received(n), [])
  }

  lemma ReadStep(crc: Checksum, n: nat, pending: seq<Datagram>)
    requires n < FILE_SIZE
    ensures Typed(Through(n, pending)) && Enabled(crc, AnyOrder, Through(n, pending), Read(1))
    ensures Apply(crc, Through(n, pending), Read(1)) == AfterRead(crc, n, pending)
  {
    hide Encode, R.Valid, DataPacket;
    Numbers(n);
    var s := Through(n, pending);
    assert s.unread[..1] == Chunk(n) && s.unread[1..] == Input(FILE_SIZE)[n + 1..];
    var sent := S.SendChunk(crc, s.snd, Chunk(n));
    assert sent.next == Sending(n + 1, [DataPacket(Number(n), Chunk(n))]);
    assert Chunks(n + 1) == Chunks(n) + [Chunk(n)];
    assert Tag(n, n + 1, sent.datagrams) == [Fresh(crc, n)];
  }

  /** The link passes packet n, the receiver takes it ahead of what is pending,
      the sender handles the ACK. */
  lemma PassAndAck(crc: Checksum, n: nat, pending: seq<Datagram>) returns (t: State)
    requires n < FILE_SIZE && Typed(AfterRead(crc, n, pending))
    ensures t == Through(n + 1, pending)
    ensures Typed(t) && CanReach(crc, NoMistake, AfterRead(crc, n, pending), t)
  {
    hide Encode, Typed, Unmistaken, R.Receive, S.HandleReply, R.Valid, DataPacket, Legal, Run, CanReach;
    var s := AfterRead(crc, n, pending);
    var u := AnyStep(crc, NoMistake, s, Link(Pass));
    assert u == s.(wire := [], air := pending + [Fresh(crc, n)]);
    ExpectedUnmistaken(crc, u, Fresh(crc, n));
    var v := AnyStep(crc, NoMistake, u, Deliver(|pending|));
    DeliverNext(crc, n);
    assert v.air == pending;
    var ack := Encode(crc, R.ReplyPacket(PTYPE_ACK, MAX_WINDOW_SIZE, Number(n + 1)));
    assert v == s.(wire := [], rcv := Received(n + 1), back := [ack]);
    t := AnyStep(crc, NoMistake, v, Reply);
    AckReply(crc, n, DataPacket(Number(n), Chunk(n)));
    assert t.wire == [] && t.back == [];
    ReachTrans(crc, NoMistake, s, u, v);
    ReachTrans(crc, NoMistake, s, v, t);
  }

  lemma {:induction false} ManyThrough(crc: Checksum, n: nat, cut: bool)
    requires 1 <= n < FILE_SIZE
    ensures CanReach(crc, NoMistake, Init(Input(FILE_SIZE)), Through(n, [Stale(crc, cut)]))
  {
    hide Encode, Typed, Unmistaken, CanReach, Apply, DataPacket;
    var start := Init(Input(FILE_SIZE));
    if n == 1 {
      FirstThrough(crc, cut);
    } else {
      ManyThrough(crc, n - 1, cut);
      var s := Through(n - 1, [Stale(crc, cut)]);
      ReadStep(crc, n - 1, [Stale(crc, cut)]);
      var u := AnyStep(crc, NoMistake, s, Read(1));
      var t := PassAndAck(crc, n - 1, [Stale(crc, cut)]);
      ReachTrans(crc, NoMistake, start, s, u);
      ReachTrans(crc, NoMistake, start, u, t);
    }
  }

  /** Packet 0 is sent twice; the first copy stays behind. */
  lemma FirstThrough(crc: Checksum, cut: bool)
    ensures CanReach(crc, NoMistake, Init(Input(FILE_SIZE)), Through(1, [Stale(crc, cut)]))
  {
    hide Encode, Typed, Unmistaken, CanReach, DataPacket, R.Valid;
    var s := Through(0, []);
    assert Chunks(0) == [] && s == Init(Input(FILE_SIZE));
    ReadStep(crc, 0, []);
    var u := AnyStep(crc, NoMistake, s, Read(1));
    var v := AnyStep(crc, NoMistake, u, Resend(0));
    assert v == u.(wire := [Stale(crc, false), Stale(crc, false)]);
    var w := AnyStep(crc, NoMistake, v, Link(if cut then Cut else Pass));
    assert w == AfterRead(crc, 0, [Stale(crc, cut)]);
    var t := PassAndAck(crc, 0, [Stale(crc, cut)]);
    ReachTrans(crc, NoMistake, s, u, v);
    ReachTrans(crc, NoMistake, s, v, w);
    ReachTrans(crc, NoMistake, s, w, t);
  }

  lemma {:induction false} FlattenChunks(n: nat)
    ensures Flatten(Chunks(n)) == Input(n)
  {
    if n > 0 {
      assert Chunks(n)[..n - 1] == Chunks(n - 1);
      FlattenChunks(n - 1);
    } else {
      assert Chunks(0) == [];
    }
  }

  /** Safety fails on such a link, for every CRC function. */
  lemma LateDuplicateBreaksSafety(crc: Checksum) returns (input: seq<byte>, acts: seq<Action>)
    ensures Possible(crc, AnyOrder, input, acts)
    ensures !(Flatten(After(crc, AnyOrder, input, acts).rcv.output) <= input)
  {
    hide Encode, Legal, Run, R.Valid, R.Receive, Unmistaken;
    input := Input(FILE_SIZE);
    InitTyped(input);
    ManyThrough(crc, 256, false);
    var s := Through(256, [Stale(crc, false)]);
    ReachAnyOrder(crc, NoMistake, Init(input), s);
    DeliverStale(crc);
    var t := AnyStep(crc, AnyOrder, s, Deliver(0));
    ReachTrans(crc, AnyOrder, Init(input), s, t);
    acts :| Legal(crc, AnyOrder, Init(input), acts) && Run(crc, AnyOrder, Init(input), acts) == t;
    FlattenChunks(256);
    var out := Chunks(256) + [Chunk(0)];
    assert out[..256] == Chunks(256);
    assert Flatten(out) == Input(256) + [1];
    assert (Input(256) + [1])[256] != input[256];
  }

  lemma StaleHeaderMistaken(crc: Checksum, s: State)
    requires s == Through(256, [Stale(crc, true)]) && R.Valid(s.rcv)
    ensures |s.air[0].bytes| == 4 && !Unmistaken(crc, s.rcv, s.air[0], s.sent)
  {
    hide Encode, AbsIndex;
    AbsIndexExact(256, 256);
    assert Number(256) == Number(0);
  }

  /** So does the sender: asked again for packet 256, whose number is that of the
      copy's header, before it has sent it, it indexes outside its array. */
  lemma LateHeaderCrashesSender(crc: Checksum) returns (input: seq<byte>, acts: seq<Action>)
    ensures Possible(crc, AnyOrder, input, acts)
    ensures After(crc, AnyOrder, input, acts).snd.phase == S.Crashed
  {
    hide Encode, Legal, Run, R.Valid, Unmistaken, Good;
    input := Input(FILE_SIZE);
    InitTyped(input);
    ManyThrough(crc, 256, true);
    var s := Through(256, [Stale(crc, true)]);
    var before :| Legal(crc, NoMistake, Init(input), before) && Run(crc, NoMistake, Init(input), before) == s;
    InitGood(crc, NoMistake, input);
    RunGood(crc, NoMistake, input, Init(input), before);
    StaleHeaderMistaken(crc, s);
    var u := MistakenHeaderCrashes(crc, input, s, 0);
    ReachTrans(crc, NoMistake, Init(input), s, u);
    ReachAnyOrder(crc, NoMistake, Init(input), u);
    var v := AnyStep(crc, AnyOrder, u, Deliver(0));
    var t := AnyStep(crc, AnyOrder, v, Reply);
    ReachTrans(crc, AnyOrder, Init(input), u, v);
    ReachTrans(crc, AnyOrder, Init(input), v, t);
    acts :| Legal(crc, AnyOrder, Init(input), acts) && Run(crc, AnyOrder, Init(input), acts) == t;
  }
}
