/** sel_repeat_write.c in its own form: the window array of pointers and the
    in-place shift; proved against the value model of `Sender`. */
module SendLoop {
  import opened Bytes
  import opened Codec
  import opened Options
  import opened Slots
  import opened SeqNum
  import opened Sender
  import PktStruct

  /** modify_buffer: drop entries 0 .. ack of the last + 1 in use. */
  method ModifyBuffer(ack: int, last: int, buffer: array<Slot>)
    requires -1 <= ack <= last < buffer.Length
    requires forall k :: 0 <= k <= ack ==> buffer[k].Some?
    modifies buffer
    ensures buffer[..] == old(buffer[ack + 1..last + 1]) + Nulls(ack + 1) + old(buffer[last + 1..])
  {
    ghost var was := buffer[..];
    Clear(buffer, 0, ack);
    ghost var cleared := buffer[..];
    assert cleared[ack + 1..last + 1] == was[ack + 1..last + 1];
    MoveDown(buffer, ack + 1, last - ack);
    ghost var moved := buffer[..];
    assert moved[..last - ack] == was[ack + 1..last + 1];
    assert moved[last + 1..] == was[last + 1..];
    Clear(buffer, last - ack, last);
  }

  class Writer {
    const checksum: Checksum
    var seqnum: byte
    const window: array<Slot>
    var current: nat
    var limited: int
    var finish: bool
    var phase: Phase
    /** What was written to the socket. */
    var sent: seq<seq<byte>>
    ghost var pending: seq<Packet>

    ghost function State(): Snd
      reads this
    {
      Snd(seqnum, pending, limited, finish, phase)
    }

    ghost predicate Valid()
      reads this, window
    {
      && window.Length == MAX_WINDOW_SIZE && |pending| == current <= MAX_WINDOW_SIZE
      && (forall i :: 0 <= i < current ==> window[i] == Some(pending[i]))
      && Ready(State())
    }

    constructor (checksum: Checksum)
      ensures Valid() && fresh(window) && State() == START && sent == [] && this.checksum == checksum
    {
      this.checksum := checksum;
      seqnum, current, limited, finish, phase := 0, 0, MAX_WINDOW_SIZE, false, Running;
      window := new Slot[MAX_WINDOW_SIZE](i => None);
      sent, pending := [], [];
    }

    /** Encode a packet and write it to the socket. */
    method Write(p: Packet)
      requires Sendable(p)
      modifies this`sent
      ensures sent == old(sent) + [Encode(checksum, p)]
    {
      hide Codec.Encode, Decode, Padded;
      RoundTrip(checksum, BLANK, p);
      var pkt := new PktStruct.Pkt();
      pkt.ptype, pkt.window, pkt.seqnum := p.ptype, p.window, p.seqnum;
      pkt.length, pkt.payload, pkt.crc := p.length, p.payload, p.crc;
      assert pkt.Value() == p;
      var data := new byte[520];
      var st, size := pkt.Encode(checksum, data, 520);
      sent := sent + [data[..size]];
    }

    /** The sweep over the timers; `expired` is the clock's verdict. */
    method ResendExpired(expired: int -> bool)
      requires Valid()
      modifies this`sent
      ensures sent == old(sent) + Resends(checksum, State(), expired, 0)
    {
      ghost var before := sent;
      var i := 0;
      while i < current
        invariant 0 <= i <= current
        invariant before + Resends(checksum, State(), expired, 0) == sent + Resends(checksum, State(), expired, i)
      {
        ghost var s0 := sent;
        if expired(i) {
          Write(window[i].value);
          Regroup(s0, Encode(checksum, pending[i]), Resends(checksum, State(), expired, i + 1));
        } else {
          assert [] + Resends(checksum, State(), expired, i + 1) == Resends(checksum, State(), expired, i + 1);
        }
        i := i + 1;
      }
    }

    /** The DATA packet for a chunk that was read. */
    method Build(buffer: array<byte>, size: nat) returns (p: Packet)
      requires size <= buffer.Length && size <= MAX_PAYLOAD_SIZE
      ensures p == DataPacket(seqnum, buffer[..size])
    {
      var packet := new PktStruct.Pkt();
      var st := packet.SetType(PTYPE_DATA);
      st := packet.SetSeqnum(seqnum);
      st := packet.SetWindow(0);
      st := packet.SetLength(size);
      st := packet.SetPayload(buffer, size);
      p := packet.Value();
    }

    /** `size` bytes were read from the input into `buffer`. */
    method SendChunk(buffer: array<byte>, size: nat)
      requires Valid() && CanRead(State())
      requires size <= buffer.Length && size <= MAX_PAYLOAD_SIZE
      modifies this`seqnum, this`current, this`finish, this`sent, this`pending, window
      ensures Valid()
      ensures State() == Sender.SendChunk(checksum, old(State()), old(buffer[..size])).next
      ensures sent == old(sent) + Sender.SendChunk(checksum, old(State()), old(buffer[..size])).datagrams
    {
      ghost var chunk := buffer[..size];
      if size == 0 {
        finish := true;
      }
      var p := Build(buffer, size);
      assert p == DataPacket(seqnum, chunk) && Sendable(p);
      window[current] := Some(p);
      Enqueue(p);
      Write(p);
    }

    /** Account for the packet just stored at `window[current]`. */
    method Enqueue(p: Packet)
      requires current < window.Length && window[current] == Some(p)
      modifies this`seqnum, this`current, this`pending
      ensures seqnum == (old(seqnum) + 1) % 256
      ensures current == old(current) + 1 && pending == old(pending) + [p]
    {
      seqnum := (seqnum + 1) % 256;
      pending := pending + [p];
      current := current + 1;
    }

    /** A position outside the window is where the C code leaves its array. */
    method HandleAck(number: byte, limit: bits5)
      requires Valid()
      modifies this`current, this`limited, this`phase, this`pending, window
      ensures Valid() && State() == Sender.HandleAck(old(State()), number, limit)
    {
      var last := current - 1;
      var position := GetAckPosition(seqnum - 1, number - 1, last);
      if !(-1 <= position <= last) {
        phase := Crashed;
        return;
      }
      limited := limit;
      ModifyBuffer(position, last, window);
      pending := pending[position + 1..];
      current := current - position - 1;
      if current == 0 && finish {
        phase := Exited;
      }
    }

    method HandleNack(number: byte, limit: bits5)
      requires Valid()
      modifies this`limited, this`phase, this`sent
      ensures Valid() && State() == Sender.HandleNack(checksum, old(State()), number, limit).next
      ensures sent == old(sent) + Sender.HandleNack(checksum, old(State()), number, limit).datagrams
    {
      var position := GetAckPosition(seqnum - 1, number, current - 1);
      if !(0 <= position < current) {
        phase := Crashed;
        return;
      }
      limited := limit;
      Write(window[position].value);
    }

    /** `len` bytes were read from the socket. */
    method HandleReply(data: array<byte>, len: nat)
      requires Valid() && len <= data.Length
      modifies this`current, this`limited, this`phase, this`pending, this`sent, window
      ensures Valid()
      ensures State() == Sender.HandleReply(checksum, old(State()), data[..len]).next
      ensures sent == old(sent) + Sender.HandleReply(checksum, old(State()), data[..len]).datagrams
    {
      var packet := new PktStruct.Pkt();
      var status := packet.Decode(checksum, data, len);
      React(status, packet.Value());
    }

    method React(status: Status, p: Packet)
      requires Valid()
      modifies this`current, this`limited, this`phase, this`pending, this`sent, window
      ensures Valid()
      ensures State() == Sender.React(checksum, old(State()), status, p).next
      ensures sent == old(sent) + Sender.React(checksum, old(State()), status, p).datagrams
    {
      if status == PktOk {
        if p.ptype == PTYPE_ACK {
          HandleAck(p.seqnum, p.window);
        } else if p.ptype == PTYPE_NACK {
          HandleNack(p.seqnum, p.window);
        }
      }
    }
  }
}
