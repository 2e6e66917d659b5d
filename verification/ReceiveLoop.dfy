/** sel_repeat_read.c in its own form: the array of pointers, the in-place
    shifts, the flush loop; proved against the value model of `Receiver`. */
module ReceiveLoop {
  import opened Bytes
  import opened Codec
  import opened Options
  import opened Slots
  import opened SeqNum
  import opened Receiver
  import PktStruct

  function LeadingNulls(s: seq<Slot>): (n: nat)
    ensures n <= |s| && forall i :: 0 <= i < n ==> s[i] == None
    ensures n < |s| ==> s[n].Some?
  {
    if s == [] || s[0].Some? then 0 else 1 + LeadingNulls(s[1..])
  }

  /** `for (k = j; k < MAX_WINDOW_SIZE; k++) buffer[k] = NULL;` */
  method ClearFrom(buffer: array<Slot>, j: nat)
    requires j <= buffer.Length
    modifies buffer
    ensures buffer[..] == old(buffer[..j]) + Nulls(buffer.Length - j)
  {
    ghost var was := buffer[..];
    var k := j;
    while k < buffer.Length
      invariant j <= k <= buffer.Length
      invariant buffer[..] == was[..j] + Nulls(k - j) + was[k..]
    {
      buffer[k] := None;
      k := k + 1;
    }
  }

  /** refresh: shift the packets down over the leading NULLs. */
  method Refresh(buffer: array<Slot>)
    modifies buffer
    ensures var z := LeadingNulls(old(buffer[..]));
      buffer[..] == old(buffer[..])[z..] + Nulls(z)
  {
    ghost var was := buffer[..];
    ghost var z := LeadingNulls(was);
    var i := 0;
    while i < buffer.Length
      invariant 0 <= i <= z
      invariant buffer[..] == was
    {
      if buffer[i] != None {
        assert i == z;
        MoveDown(buffer, i, buffer.Length - i);
        ClearFrom(buffer, buffer.Length - i);
        assert buffer[..] == was[z..] + Nulls(z);
        return;
      }
      i := i + 1;
    }
    assert was[z..] == [];
  }

  /** `was` with p at slot i and the next `count` pointers moved up by one. */
  function Opened(was: seq<Slot>, i: nat, p: Packet, count: nat): (s: seq<Slot>)
    requires i + count < |was|
    ensures |s| == |was|
  {
    was[..i] + [Some(p)] + was[i..i + count] + was[i + count + 1..]
  }

  lemma OpenOne(was: seq<Slot>, i: nat, p: Packet, count: nat)
    requires i + count + 1 < |was|
    ensures Opened(was, i, p, count)[i + count + 1] == was[i + count + 1]
    ensures Opened(was, i, p, count)[i + count + 1 := was[i + count]] == Opened(was, i, p, count + 1)
  {}

  lemma OpenStart(was: seq<Slot>, i: nat, p: Packet)
    requires i < |was|
    ensures was[i := Some(p)] == Opened(was, i, p, 0)
    ensures Opened(was, i, p, |was| - 1 - i) == was[..i] + [Some(p)] + was[i..|was| - 1]
  {}

  /** The shift inside insert_pkt: p goes to slot i, the last pointer falls off. */
  method ShiftIn(buffer: array<Slot>, i: nat, p: Packet)
    requires i < buffer.Length
    modifies buffer
    ensures buffer[..] == var was := old(buffer[..]); was[..i] + [Some(p)] + was[i..|was| - 1]
  {
    hide Opened;
    ghost var was := buffer[..];
    OpenStart(was, i, p);
    var carried := buffer[i];
    buffer[i] := Some(p);
    assert buffer[..] == was[i := Some(p)];
    var j := 1;
    while j < buffer.Length - i
      invariant 1 <= j <= buffer.Length - i
      invariant carried == was[i + j - 1]
      invariant buffer[..] == Opened(was, i, p, j - 1)
    {
      ghost var s := buffer[..];
      OpenOne(was, i, p, j - 1);
      assert s[i + j] == was[i + j];
      var next := buffer[i + j];
      buffer[i + j] := carried;
      assert buffer[..] == s[i + j := carried];
      carried := next;
      j := j + 1;
    }
  }

  class Reader {
    const checksum: Checksum
    var lastack: int
    var windowSize: int
    const buffer: array<Slot>
    /** What was written to standard output, one entry a write. */
    var output: seq<seq<byte>>
    /** What was written to the socket. */
    var sent: seq<seq<byte>>
    ghost var held: seq<Packet>

    ghost function State(): Rcv
      reads this
    {
      Rcv(lastack, windowSize, held, output)
    }

    ghost predicate Shaped()
      reads this, buffer
    {
      buffer.Length == MAX_WINDOW_SIZE && |held| <= MAX_WINDOW_SIZE && buffer[..] == Filled(held, MAX_WINDOW_SIZE)
    }

    ghost predicate Valid()
      reads this, buffer
    {
      Shaped() && Receiver.Valid(State())
    }

    constructor (checksum: Checksum)
      ensures Valid() && fresh(buffer) && State() == START && sent == [] && this.checksum == checksum
    {
      this.checksum := checksum;
      lastack := 255;
      windowSize := MAX_WINDOW_SIZE;
      buffer := new Slot[MAX_WINDOW_SIZE](i => None);
      output, sent, held := [], [], [];
    }

    method SendReply(t: bits3, s: byte)
      requires t == PTYPE_ACK || t == PTYPE_NACK
      requires 0 <= windowSize <= MAX_WINDOW_SIZE
      modifies this`sent
      ensures sent == old(sent) + [Encode(checksum, ReplyPacket(t, windowSize, s))]
    {
      var pkt := new PktStruct.Pkt();
      var st := pkt.SetType(t);
      st := pkt.SetWindow(windowSize);
      st := pkt.SetSeqnum(s);
      st := pkt.SetLength(0);
      assert pkt.Value() == ReplyPacket(t, windowSize, s);
      var data := new byte[8];
      var length;
      st, length := pkt.Encode(checksum, data, 8);
      sent := sent + [data[..length]];
    }

    /** send_ack in state r. */
    method Ack(ghost r: Rcv)
      requires State() == r && Consistent(r, 0)
      modifies this`sent
      ensures sent == old(sent) + [SendAck(checksum, r)]
    {
      SendReply(PTYPE_ACK, (lastack + 1) % 256);
    }

    /** insert_pkt. */
    method InsertPkt(p: Packet)
      requires Shaped() && 0 <= lastack < 256 && |held| < MAX_WINDOW_SIZE
      modifies this`windowSize, this`held, buffer
      ensures Shaped()
      ensures held == Insert(lastack, old(held), p)
      ensures windowSize == old(windowSize) - (|held| - |old(held)|)
    {
      InsertSize(lastack, held, p);
      var i := 0;
      while i < MAX_WINDOW_SIZE
        invariant 0 <= i <= |held| && held == old(held)
        invariant Shaped() && windowSize == old(windowSize)
        invariant Insert(lastack, held, p) == held[..i] + Insert(lastack, held[i..], p)
      {
        assert buffer[i] == Filled(held, MAX_WINDOW_SIZE)[i];
        if buffer[i] == None {
          StoreAt(i, p);
          return;
        }
        assert held[i..][0] == held[i] && held[i..][1..] == held[i + 1..];
        CompareIsOffset(lastack, p.seqnum, held[i].seqnum);
        if CompareSeqnums(lastack, p.seqnum, buffer[i].value.seqnum) == 0 {
          assert held[..i] + held[i..] == held;
          return;
        } else if CompareSeqnums(lastack, p.seqnum, buffer[i].value.seqnum) < 0 {
          StoreAt(i, p);
          return;
        }
        InsertSkips(lastack, held, p, i);
        i := i + 1;
      }
    }

    /** Put p at slot i, moving what follows up by one. At the first NULL the
        shift moves only NULLs. */
    method StoreAt(i: nat, p: Packet)
      requires Shaped() && i <= |held| < MAX_WINDOW_SIZE
      modifies this`windowSize, this`held, buffer
      ensures Shaped() && held == old(held)[..i] + ([p] + old(held)[i..])
      ensures windowSize == old(windowSize) - 1
    {
      if buffer[i] == None {
        buffer[i] := Some(p);
      } else {
        ShiftIn(buffer, i, p);
      }
      held := held[..i] + ([p] + held[i..]);
      windowSize := windowSize - 1;
    }

    /** remove_from_buffer: on a match the packet is freed, but the comparison
        written for an assignment leaves its pointer in place. */
    method RemoveFromBuffer(s: int) returns (freed: bool)
      requires Shaped()
      modifies this`windowSize, buffer
      ensures freed <==> buffer[0].Some? && buffer[0].value.seqnum == s
      ensures buffer[..] == old(buffer[..])
      ensures windowSize == old(windowSize) + (if freed then 1 else 0)
    {
      freed := false;
      if buffer[0] != None {
        if buffer[0].value.seqnum == s {
          freed := true;
          var cleared := buffer[0] == None;
          Refresh(buffer);
          windowSize := windowSize + 1;
        }
      }
    }

    /** The buffer in mid-flush: z cleared slots, then the packets still held. */
    ghost predicate Flushing(z: nat)
      reads this, buffer
    {
      z + |held| < MAX_WINDOW_SIZE == buffer.Length
      && buffer[..] == Nulls(z) + Filled(held, MAX_WINDOW_SIZE - z)
    }

    /** Write slot i's packet, clear the slot, advance. */
    method DeliverSlot(i: nat, ghost r: Rcv)
      requires Flushing(i) && State() == r && Consistent(r, 0)
      requires r.held != [] && r.held[0].seqnum == Expected(r)
      modifies this`lastack, this`windowSize, this`output, this`held, buffer
      ensures Flushing(i + 1)
      ensures WellFormed(r.held[0]) && State() == Advance(PopHeld(r), r.held[0]) && Consistent(State(), 0)
    {
      FlushStepConsistent(r);
      assert buffer[i] == Filled(held, MAX_WINDOW_SIZE - i)[0];
      var p := buffer[i].value;
      output := output + [Content(p)];
      buffer[i] := None;
      windowSize := windowSize + 1;
      lastack := (lastack + 1) % 256;
      held := held[1..];
    }

    /** One turn of the flush loop at slot i; `stop` is its `break`. */
    method FlushSlot(i: nat, ghost r: Rcv) returns (stop: bool, ghost next: Rcv)
      requires Flushing(i) && State() == r && Consistent(r, 0)
      modifies this`lastack, this`windowSize, this`output, this`sent, this`held, buffer
      ensures State() == next && Consistent(next, 0)
      ensures sent == old(sent) + [SendAck(checksum, next)]
      ensures stop ==> Flushing(i) && next == r && Flush(checksum, r) == Reaction(r, [SendAck(checksum, r)])
      ensures !stop ==> Flushing(i + 1) && Flush(checksum, r).next == Flush(checksum, next).next
      ensures !stop ==> Flush(checksum, r).replies == [SendAck(checksum, next)] + Flush(checksum, next).replies
    {
      assert buffer[i] == Filled(r.held, MAX_WINDOW_SIZE - i)[0];
      next := r;
      stop := buffer[i] == None || buffer[i].value.seqnum != (lastack + 1) % 256;
      if !stop {
        DeliverSlot(i, r);
        next := Advance(PopHeld(r), r.held[0]);
      }
      Ack(next);
    }

    /** The loop over receive_buffer after the expected packet was written; it
        leaves `cleared` NULLs in front. */
    method FlushLoop(ghost r0: Rcv) returns (ghost cleared: nat)
      requires Flushing(0) && State() == r0 && Consistent(r0, 0)
      modifies this`lastack, this`windowSize, this`output, this`sent, this`held, buffer
      ensures State() == Flush(checksum, r0).next
      ensures sent == old(sent) + Flush(checksum, r0).replies
      ensures Flushing(cleared)
    {
      ghost var all := Flush(checksum, r0);
      ghost var before := sent;
      ghost var r := r0;
      var i := 0;
      while i < MAX_WINDOW_SIZE
        invariant 0 <= i && Flushing(i)
        invariant State() == r && Consistent(r, 0)
        invariant all.next == Flush(checksum, r).next
        invariant before + all.replies == sent + Flush(checksum, r).replies
      {
        ghost var soFar := sent;
        var stop;
        stop, r := FlushSlot(i, r);
        if stop {
          return i;
        }
        Regroup(soFar, SendAck(checksum, r), Flush(checksum, r).replies);
        i := i + 1;
      }
    }

    /** The expected packet: write it, try to unbuffer it, flush. */
    method HandleExpected(p: Packet, ghost r: Rcv) returns (ghost cleared: nat)
      requires Shaped() && State() == r && Receiver.Valid(r) && WellFormed(p) && p.seqnum == Expected(r)
      modifies this`lastack, this`windowSize, this`output, this`sent, this`held, buffer
      ensures Consistent(Advance(r, p), 0) && State() == Flush(checksum, Advance(r, p)).next
      ensures sent == old(sent) + Flush(checksum, Advance(r, p)).replies
      ensures Flushing(cleared)
    {
      output := output + [Content(p)];
      ExpectedNotHeld(r);
      var freed := RemoveFromBuffer((lastack + 1) % 256);
      // the expected number is never buffered, so the defective branch is dead
      assert !freed;
      lastack := (lastack + 1) % 256;
      AdvanceConsistent(r, p);
      assert State() == Advance(r, p);
      assert buffer[..] == Nulls(0) + Filled(held, MAX_WINDOW_SIZE);
      cleared := FlushLoop(Advance(r, p));
    }

    /** A valid packet in the window: expected, or early. */
    method HandlePacket(p: Packet, ghost r: Rcv)
      requires Shaped() && State() == r && Receiver.Valid(r) && WellFormed(p)
      requires CompareSeqnums(lastack, p.seqnum, (lastack + 1) % 256) < MAX_WINDOW_SIZE
      modifies this`lastack, this`windowSize, this`output, this`sent, this`held, buffer
      ensures State() == Accept(checksum, r, p).next
      ensures sent == old(sent) + Accept(checksum, r, p).replies
      ensures Shaped()
    {
      hide Codec.Encode, Flush, Filled, LeadingNulls, Ascending;
      if p.seqnum == (lastack + 1) % 256 {
        ghost var cleared := HandleExpected(p, r);
        RefreshDropsNulls(cleared, held);
      } else {
        InsertPkt(p);
        RefreshKeeps(held);
      }
      Refresh(buffer);
    }

    /** The branches of the loop on a decoded packet, then refresh. */
    method React(err: Status, p: Packet, size: nat, ghost r: Rcv)
      requires Shaped() && State() == r && Receiver.Valid(r) && (err == PktOk ==> WellFormed(p))
      modifies this`lastack, this`windowSize, this`output, this`sent, this`held, buffer
      ensures Shaped() && State() == Receiver.React(checksum, r, err, p, size).next
      ensures sent == old(sent) + Receiver.React(checksum, r, err, p, size).replies
    {
      hide Codec.Encode, Flush, Insert, Filled, LeadingNulls, Ascending;
      if err == ENoHeader {
      } else if CompareSeqnums(lastack, p.seqnum, (lastack + 1) % 256) < MAX_WINDOW_SIZE {
        if err != PktOk {
          if err == EUnconsistent && size == 4 {
            SendReply(PTYPE_NACK, p.seqnum);
          }
        } else {
          HandlePacket(p, r);
          return;
        }
      }
      RefreshKeeps(held);
      Refresh(buffer);
    }

    /** One pass of the receive loop on a datagram of `size` bytes. */
    method Receive(data: array<byte>, size: nat)
      requires Valid() && size <= data.Length
      modifies this`lastack, this`windowSize, this`output, this`sent, this`held, buffer
      ensures Valid()
      ensures State() == Receiver.Receive(checksum, old(State()), data[..size]).next
      ensures sent == old(sent) + Receiver.Receive(checksum, old(State()), data[..size]).replies
    {
      ReceiveValid(checksum, State(), data[..size]);
      DecodedWellFormed(checksum, data[..size]);
      var pkt := new PktStruct.Pkt();
      var err := pkt.Decode(checksum, data, size);
      React(err, pkt.Value(), size, State());
    }
  }

  lemma ExpectedNotHeld(r: Rcv)
    requires 0 <= r.lastack < 256 && Ascending(r.lastack, r.held, 1)
    ensures r.held != [] ==> r.held[0].seqnum != Expected(r)
  {}

  lemma {:induction false} RefreshDropsNulls(z: nat, held: seq<Packet>)
    requires z + |held| <= MAX_WINDOW_SIZE
    ensures var s := Nulls(z) + Filled(held, MAX_WINDOW_SIZE - z);
      s[LeadingNulls(s)..] + Nulls(LeadingNulls(s)) == Filled(held, MAX_WINDOW_SIZE)
  {
    var s := Nulls(z) + Filled(held, MAX_WINDOW_SIZE - z);
    var n := LeadingNulls(s);
    if held != [] {
      assert s[z] == Some(held[0]);
      assert n == z;
    }
  }

  lemma InsertSkips(lastack: int, held: seq<Packet>, p: Packet, i: nat)
    requires i < |held| && Offset(lastack, p.seqnum) > Offset(lastack, held[i].seqnum)
    ensures held[..i] + Insert(lastack, held[i..], p) == held[..i + 1] + Insert(lastack, held[i + 1..], p)
  {
    assert held[i..][1..] == held[i + 1..];
    assert held[..i + 1] == held[..i] + [held[i]];
  }

  lemma RefreshKeeps(held: seq<Packet>)
    requires |held| <= MAX_WINDOW_SIZE
    ensures var s := Filled(held, MAX_WINDOW_SIZE);
      s[LeadingNulls(s)..] + Nulls(LeadingNulls(s)) == s
  {
    assert Nulls(0) + Filled(held, MAX_WINDOW_SIZE) == Filled(held, MAX_WINDOW_SIZE);
    RefreshDropsNulls(0, held);
  }

  lemma {:induction false} InsertSize(lastack: int, held: seq<Packet>, p: Packet)
    ensures |held| <= |Insert(lastack, held, p)| <= |held| + 1
  {
    if held != [] { InsertSize(lastack, held[1..], p); }
  }
}
