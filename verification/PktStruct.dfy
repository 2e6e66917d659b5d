/** packet_implem.c in its own form: a mutable packet structure with checked
    setters, and the encoder and decoder as loops over byte buffers. */
module PktStruct {
  import opened Bytes
  import opened Codec

  class Pkt {
    var ptype: bits3
    var window: bits5
    var seqnum: byte
    var length: uint16
    var payload: seq<byte>
    var crc: uint32

    function Value(): Packet
      reads this
    {
      Packet(ptype, window, seqnum, length, payload, crc)
    }

    constructor ()
      ensures Value() == BLANK
    {
      ptype, window, seqnum, length, payload, crc := 0, 0, 0, 0, [], 0;
    }

    method SetType(t: bits3) returns (st: Status)
      modifies this`ptype
      ensures KnownType(t) ==> st == PktOk && ptype == t
      ensures !KnownType(t) ==> st == EType && ptype == old(ptype)
    {
      if t != PTYPE_DATA && t != PTYPE_ACK && t != PTYPE_NACK {
        return EType;
      }
      ptype := t;
      return PktOk;
    }

    method SetWindow(w: byte) returns (st: Status)
      modifies this`window
      ensures w <= MAX_WINDOW_SIZE ==> st == PktOk && window == w
      ensures w > MAX_WINDOW_SIZE ==> st == EWindow && window == old(window)
    {
      if w > MAX_WINDOW_SIZE {
        return EWindow;
      }
      window := w;
      return PktOk;
    }

    method SetSeqnum(n: byte) returns (st: Status)
      modifies this`seqnum
      ensures st == PktOk && seqnum == n
    {
      seqnum := n;
      return PktOk;
    }

    method SetLength(n: uint16) returns (st: Status)
      modifies this`length
      ensures n <= MAX_PAYLOAD_SIZE ==> st == PktOk && length == n
      ensures n > MAX_PAYLOAD_SIZE ==> st == ELength && length == old(length)
    {
      if n > MAX_PAYLOAD_SIZE {
        return ELength;
      }
      length := n;
      return PktOk;
    }

    method SetCrc(c: uint32) returns (st: Status)
      modifies this`crc
      ensures st == PktOk && crc == c
    {
      crc := c;
      return PktOk;
    }

    /** Copies the data into a fresh block and appends null padding. */
    method SetPayload(data: array<byte>, n: uint16) returns (st: Status)
      requires n <= data.Length
      modifies this`payload, this`length
      ensures n <= MAX_PAYLOAD_SIZE ==> st == PktOk && length == n && payload == Padded(data[..n])
      ensures n > MAX_PAYLOAD_SIZE ==> st == ELength && length == old(length) && payload == old(payload)
    {
      if n > MAX_PAYLOAD_SIZE {
        return ELength;
      }
      var padding := 0;
      if n % 4 != 0 {
        padding := 4 - n % 4;
      }
      var block := new byte[n + padding];
      var i := 0;
      while i < n
        invariant 0 <= i <= n
        invariant block[..i] == data[..i]
      {
        block[i] := data[i];
        i := i + 1;
      }
      i := 0;
      while i < padding
        invariant 0 <= i <= padding
        invariant block[..n] == data[..n]
        invariant forall k :: n <= k < n + i ==> block[k] == 0
      {
        block[n + i] := 0;
        i := i + 1;
      }
      assert block[..] == data[..n] + Zeros(padding);
      payload := block[..];
      length := n;
      return PktOk;
    }

    /** Type and window share a byte; the length goes out in network order. */
    method PutHeader(buf: array<byte>)
      requires buf.Length >= 4
      modifies buf
      ensures buf[..4] == [ptype * 0x20 + window, seqnum, length / 0x100, length % 0x100]
      ensures forall k :: 4 <= k < buf.Length ==> buf[k] == old(buf[k])
    {
      hide BitOr, Swap16;
      BitOrConcat5(ptype, window);
      Swap16Bytes(length);
      var first := BitOr((ptype as int) * 0x20, window) % 0x100;
      assert first == ptype * 0x20 + window;
      var ordering := Swap16(length);
      var low, high := ordering % 0x100, ordering / 0x100;
      buf[0] := first;
      buf[1] := seqnum;
      buf[2] := low;
      buf[3] := high;
    }

    /** The payload, then null bytes up to a multiple of four. */
    method PutPayload(buf: array<byte>) returns (n: nat)
      requires length <= |payload|
      requires buf.Length >= 8 + length + Padding(length)
      modifies buf
      ensures n == 4 + length + Padding(length)
      ensures buf[..n] == old(buf[..4]) + Padded(Content(Value()))
      ensures forall k :: n <= k < buf.Length ==> buf[k] == old(buf[k])
    {
      PutContent(buf);
      var padding := 0;
      if length % 4 != 0 {
        padding := 4 - length % 4;
      }
      PutZeros(buf, 4 + length, padding);
      n := 4 + length + padding;
    }

    method PutContent(buf: array<byte>)
      requires length <= |payload| && buf.Length >= 4 + length
      modifies buf
      ensures buf[..4 + length] == old(buf[..4]) + payload[..length]
      ensures forall k :: 4 + length <= k < buf.Length ==> buf[k] == old(buf[k])
    {
      ghost var header := buf[..4];
      var i := 0;
      while i < length
        invariant 0 <= i <= length
        invariant buf[..4 + i] == header + payload[..i]
        invariant forall k :: 4 + i <= k < buf.Length ==> buf[k] == old(buf[k])
      {
        buf[4 + i] := payload[i];
        i := i + 1;
      }
    }

    method PutZeros(buf: array<byte>, start: nat, padding: nat)
      requires start + padding <= buf.Length
      modifies buf
      ensures buf[..start + padding] == old(buf[..start]) + Zeros(padding)
      ensures forall k :: start + padding <= k < buf.Length ==> buf[k] == old(buf[k])
    {
      ghost var front := buf[..start];
      var i := 0;
      while i < padding
        invariant 0 <= i <= padding
        invariant buf[..start + i] == front + Zeros(i)
        invariant forall k :: start + i <= k < buf.Length ==> buf[k] == old(buf[k])
      {
        buf[start + i] := 0;
        i := i + 1;
      }
    }

    method PutCrc(checksum: Checksum, buf: array<byte>, n: nat)
      requires n + 4 <= buf.Length
      modifies buf
      ensures buf[..n + 4] == old(buf[..n]) + BigEndian32(checksum(old(buf[..n])))
      ensures forall k :: n + 4 <= k < buf.Length ==> buf[k] == old(buf[k])
    {
      var c := Swap32(checksum(buf[..n]));
      Swap32Bytes(checksum(buf[..n]));
      var b := BigEndian32(c);
      buf[n] := b[3];
      buf[n + 1] := b[2];
      buf[n + 2] := b[1];
      buf[n + 3] := b[0];
    }

    /** Writes the whole encoding before it looks at the capacity; the capacity
        is truncated to 16 bits by the cast. */
    method Encode(checksum: Checksum, buf: array<byte>, capacity: nat) returns (st: Status, written: nat)
      requires length <= |payload|
      requires buf.Length >= 8 + length + Padding(length)
      modifies buf
      ensures var e := Codec.Encode(checksum, Value());
        && buf[..|e|] == e
        && (forall k :: |e| <= k < buf.Length ==> buf[k] == old(buf[k]))
        && (capacity % 0x1_0000 >= |e| ==> st == PktOk && written == |e|)
        && (capacity % 0x1_0000 < |e| ==> st == ENoMem && written == capacity)
    {
      PutHeader(buf);
      var n := PutPayload(buf);
      assert buf[..n] == Covered(Value());
      PutCrc(checksum, buf, n);
      if capacity % 0x1_0000 < n + 4 {
        return ENoMem, capacity;
      }
      return PktOk, n + 4;
    }

    /** The header setters, each with its own status. */
    method DecodeHeader(data: array<byte>, ghost bytes: seq<byte>)
      returns (err: Status, err2: Status, err3: Status, err4: Status)
      requires 4 <= |bytes| <= data.Length && bytes == data[..|bytes|]
      modifies this
      ensures Value() == ReadHeader(old(Value()), bytes)
      ensures err == if KnownType(bytes[0] / 0x20) then PktOk else EType
      ensures err2 == err3 == PktOk
      ensures err4 == if WireLength(bytes) <= MAX_PAYLOAD_SIZE then PktOk else ELength
    {
      SignedCharFields(data[0]);
      err := SetType(SignedChar(data[0]) / 0x20 % 8);
      err2 := SetWindow(SignedChar(data[0]) % 0x20);
      SignedCharBits(data[1]);
      err3 := SetSeqnum(SignedChar(data[1]) % 0x100);
      SignedCharBits(data[3]);
      var n := SignedChar(data[3]) % 0x1_0000;
      n := n * 0x100 % 0x1_0000;
      n := BitOr(n, SignedChar(data[2]) % 0x1_0000) % 0x1_0000;
      SignExtensionHarmless(data[2], data[3]);
      err4 := SetLength(Swap16(n));
    }

    /** Copies the payload out of the datagram, then reads the CRC behind it. */
    method DecodeBody(data: array<byte>, ghost bytes: seq<byte>, padding: nat) returns (err5: Status, err6: Status)
      requires length <= MAX_PAYLOAD_SIZE && padding == Padding(length)
      requires 8 + length + padding <= |bytes| <= data.Length && bytes == data[..|bytes|]
      modifies this`payload, this`length, this`crc
      ensures err5 == err6 == PktOk && length == old(length)
      ensures payload == Padded(bytes[4..4 + length])
      ensures var start := 4 + length + padding; crc == FromBigEndian32(bytes[start..start + 4])
    {
      var block := new byte[length];
      var i := 0;
      while i < length
        invariant 0 <= i <= length == block.Length
        invariant block[..i] == data[4..4 + i]
      {
        block[i] := data[4 + i];
        i := i + 1;
      }
      err5 := SetPayload(block, length);
      assert block[..length] == bytes[4..4 + length];
      var start := 4 + length + padding;
      assert data[start..start + 4] == bytes[start..start + 4];
      var c := ReadWord(data, start);
      err6 := SetCrc(Swap32(c));
    }

    /** Fills the structure from the first `len` bytes of a buffer. */
    method Decode(checksum: Checksum, data: array<byte>, len: nat) returns (st: Status)
      requires len <= data.Length
      modifies this
      ensures (st, Value()) == Codec.Decode(checksum, old(Value()), data[..len])
    {
      if len < 4 {
        return ENoHeader;
      }
      ghost var bytes := data[..len];
      var err, err2, err3, err4 := DecodeHeader(data, bytes);
      if len < 8 {
        return EUnconsistent;
      }
      if len % 4 != 0 {
        return EUnconsistent;
      }
      if err != PktOk {
        return err;
      }
      if err2 != PktOk {
        return err2;
      }
      if err3 != PktOk {
        return err3;
      }
      if err4 != PktOk {
        return err4;
      }
      if ptype != PTYPE_DATA && ptype != PTYPE_ACK && ptype != PTYPE_NACK {
        return EType;
      }
      if ptype != PTYPE_DATA && length > 0 {
        return EUnconsistent;
      }
      var padding := 0;
      if length % 4 != 0 {
        padding := 4 - length % 4;
      }
      if length + 8 + padding != len % 0x1_0000 {
        return EUnconsistent;
      }
      var err5, err6 := DecodeBody(data, bytes, padding);
      assert data[..length + 4 + padding] == bytes[..length + 4 + padding];
      if crc != checksum(data[..length + 4 + padding]) {
        return ECrc;
      }
      if err5 != PktOk {
        return err5;
      }
      if err6 != PktOk {
        return err6;
      }
      return PktOk;
    }
  }

  /** The loop that assembles the CRC, last byte first, with `<<` and `|`. */
  method ReadWord(data: array<byte>, start: nat) returns (c: uint32)
    requires start + 4 <= data.Length
    ensures Swap32(c) == FromBigEndian32(data[start..start + 4])
  {
    ghost var s: seq<byte> := [data[start + 3], data[start + 2], data[start + 1], data[start]];
    var acc := 0;
    var i := 3;
    while i >= 0
      invariant -1 <= i <= 3
      invariant acc == Horner(s, 3 - i)
    {
      ShiftByte(acc);
      acc := acc * 0x100 % 0x1_0000_0000;
      var ithByte := SignedChar(data[start + i]) % 0x1_0000_0000;
      SignedCharLowByte(data[start + i]);
      BitOrConcat8(Horner(s, 3 - i), data[start + i]);
      acc := BitOr(acc, ithByte % 0x100);
      i := i - 1;
    }
    c := acc;
    assert c == FromBigEndian32(s);
    BigEndianInjective(s);
    assert data[start..start + 4] == [s[3], s[2], s[1], s[0]];
  }

  lemma SignedCharBits(b: byte)
    ensures SignedChar(b) % 0x100 == b
    ensures SignedChar(b) % 0x1_0000 * 0x100 % 0x1_0000 == (b as int) * 0x100
  {}

  /** `0xFF & (uint32_t) data[i]`. */
  lemma SignedCharLowByte(b: byte)
    ensures SignedChar(b) % 0x1_0000_0000 % 0x100 == b
  {}

  /** `(data[0] >> 5) & 7` and `((data[0] << 3) >> 3) & 31` on a signed char. */
  lemma SignedCharFields(b: byte)
    ensures SignedChar(b) / 0x20 % 8 == b / 0x20
    ensures SignedChar(b) % 0x20 == b % 0x20
  {}

  /** `crc << 8` loses nothing while the top byte is clear. */
  lemma ShiftByte(x: nat)
    requires x < 0x100_0000
    ensures x * 0x100 % 0x1_0000_0000 == x * 0x100
  {}

  ghost function Horner(s: seq<byte>, k: nat): (r: nat)
    requires k <= |s| == 4
    ensures k < 4 ==> r < 0x100_0000
    ensures k == 4 ==> r == FromBigEndian32(s)
  {
    if k == 0 then 0
    else if k == 1 then s[0]
    else if k == 2 then (s[0] as int) * 0x100 + s[1]
    else if k == 3 then ((s[0] as int) * 0x100 + s[1]) * 0x100 + s[2]
    else FromBigEndian32(s)
  }
}
