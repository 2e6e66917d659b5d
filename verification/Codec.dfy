/** packet_implem.c: the packet structure, its setters, and the wire format. */
module Codec {
  import opened Bytes

  const PTYPE_DATA := 1
  const PTYPE_ACK := 2
  const PTYPE_NACK := 4
  const MAX_PAYLOAD_SIZE := 512
  const MAX_WINDOW_SIZE := 31

  type bits3 = x: int | 0 <= x < 8
  type bits5 = x: int | 0 <= x < 32

  /** pkt_status_code; only the codes the codec returns. */
  datatype Status = PktOk | EType | ELength | ECrc | EWindow | ENoMem | ENoHeader | EUnconsistent

  /** The value of a `struct pkt`. `payload` is the allocated block, padding included. */
  datatype Packet = Packet(ptype: bits3, window: bits5, seqnum: byte, length: uint16,
                           payload: seq<byte>, crc: uint32)

  const BLANK: Packet := Packet(0, 0, 0, 0, [], 0)

  function Padding(n: nat): (p: nat)
    ensures p < 4 && (n + p) % 4 == 0
  {
    if n % 4 != 0 then 4 - n % 4 else 0
  }

  function Zeros(n: nat): (z: seq<byte>)
    ensures |z| == n
  {
    seq(n, i => 0)
  }

  /** The payload bytes proper, without padding. */
  function Content(p: Packet): seq<byte>
    requires p.length <= |p.payload|
  {
    p.payload[..p.length]
  }

  function Padded(data: seq<byte>): seq<byte> {
    data + Zeros(Padding(|data|))
  }

  predicate KnownType(t: int) {
    t == PTYPE_DATA || t == PTYPE_ACK || t == PTYPE_NACK
  }

  /** Header, payload and padding: the bytes the CRC covers. */
  function Covered(p: Packet): (s: seq<byte>)
    requires p.length <= |p.payload|
    ensures |s| == 4 + p.length + Padding(p.length)
  {
    [p.ptype * 0x20 + p.window, p.seqnum, p.length / 0x100, p.length % 0x100] + Padded(Content(p))
  }

  /** The wire format. */
  function Encode(crc: Checksum, p: Packet): (s: seq<byte>)
    requires p.length <= |p.payload|
    ensures |s| == 8 + p.length + Padding(p.length)
  {
    Covered(p) + BigEndian32(crc(Covered(p)))
  }

  /** The length field as it travels: two bytes, most significant first. */
  function WireLength(data: seq<byte>): uint16
    requires |data| >= 4
  {
    (data[2] as int) * 0x100 + data[3]
  }

  /** What the header setters leave in the structure: an unknown type or an
      oversized length keeps the structure's earlier value. */
  function ReadHeader(before: Packet, data: seq<byte>): Packet
    requires |data| >= 4
  {
    before.(ptype := if KnownType(data[0] / 0x20) then data[0] / 0x20 else before.ptype,
          window := data[0] % 0x20,
          seqnum := data[1],
          length := if WireLength(data) <= MAX_PAYLOAD_SIZE then WireLength(data) else before.length)
  }

  /** Decoding a datagram into a structure that holds `before`. */
  function Decode(crc: Checksum, before: Packet, data: seq<byte>): (Status, Packet) {
    if |data| < 4 then (ENoHeader, before)
    else
      var h := ReadHeader(before, data);
      if |data| < 8 || |data| % 4 != 0 then (EUnconsistent, h)
      else if !KnownType(data[0] / 0x20) then (EType, h)
      else if WireLength(data) > MAX_PAYLOAD_SIZE then (ELength, h)
      else if h.ptype != PTYPE_DATA && h.length > 0 then (EUnconsistent, h)
      else
        var n := h.length + Padding(h.length);
        if n + 8 != |data| % 0x1_0000 then (EUnconsistent, h)
        else
          var p := h.(payload := Padded(data[4..4 + h.length]),
                      crc := FromBigEndian32(data[4 + n..8 + n]));
          (if p.crc == crc(data[..4 + n]) then PktOk else ECrc, p)
  }

  /** The packets the program sends. */
  predicate Sendable(p: Packet) {
    KnownType(p.ptype) && p.length <= MAX_PAYLOAD_SIZE && p.length <= |p.payload|
    && (p.ptype != PTYPE_DATA ==> p.length == 0)
  }

  /** A DATA packet as the sender builds it. */
  function DataPacket(s: byte, chunk: seq<byte>): (p: Packet)
    requires |chunk| <= MAX_PAYLOAD_SIZE
    ensures Sendable(p) && Content(p) == chunk && p.seqnum == s
  {
    var p := BLANK.(ptype := PTYPE_DATA, seqnum := s, length := |chunk|, payload := Padded(chunk));
    assert Content(p) == chunk;
    p
  }

  // ---------------------------------------------------------------- theorems

  /** A DATA packet on the wire, byte by byte. */
  lemma DataOnTheWire(crc: Checksum, s: byte, chunk: seq<byte>)
    requires |chunk| <= 512
    ensures var body := [0x20, s, |chunk| / 0x100, |chunk| % 0x100] + Padded(chunk);
      Encode(crc, DataPacket(s, chunk)) == body + BigEndian32(crc(body))
  {
    var p := DataPacket(s, chunk);
    assert Content(p) == chunk;
  }

  /** The header setters read back what the encoder wrote. */
  lemma HeaderLike(before: Packet, p: Packet, data: seq<byte>)
    requires Sendable(p) && |data| >= 4 && data[..4] == Covered(p)[..4]
    ensures data[0] / 0x20 == p.ptype && WireLength(data) == p.length
    ensures ReadHeader(before, data)
      == before.(ptype := p.ptype, window := p.window, seqnum := p.seqnum, length := p.length)
  {
    var s := data[..4];
    assert data[0] == s[0] && data[1] == s[1] && data[2] == s[2] && data[3] == s[3];
  }

  lemma ContentLike(p: Packet)
    requires Sendable(p)
    ensures Covered(p)[4..4 + p.length] == Content(p)
  {
    assert Covered(p)[4..] == Padded(Content(p));
    assert Padded(Content(p))[..p.length] == Content(p);
  }

  /** Decoding data that starts like the encoding of p and has its size. */
  lemma DecodeLike(crc: Checksum, before: Packet, p: Packet, data: seq<byte>)
    requires Sendable(p) && |data| == |Encode(crc, p)|
    requires data[..|data| - 4] == Covered(p)
    ensures var c := FromBigEndian32(data[|data| - 4..]);
      Decode(crc, before, data) == (if c == crc(Covered(p)) then PktOk else ECrc,
                                    p.(payload := Padded(Content(p)), crc := c))
  {
    var n := |data| - 4;
    var s := Covered(p);
    assert data[..4] == s[..4];
    HeaderLike(before, p, data);
    hide ReadHeader, WireLength;
    assert data[n..n + 4] == data[n..];
    ContentLike(p);
    assert data[4..4 + p.length] == data[..n][4..4 + p.length];
  }

  /** Decoding undoes encoding, whatever the CRC function and whatever the
      structure held before. */
  lemma RoundTrip(crc: Checksum, before: Packet, p: Packet)
    requires Sendable(p)
    ensures |Encode(crc, p)| <= 520 && |Encode(crc, p)| % 4 == 0
    ensures Decode(crc, before, Encode(crc, p))
         == (PktOk, p.(payload := Padded(Content(p)), crc := crc(Covered(p))))
  {
    hide Decode;
    var e := Encode(crc, p);
    assert e[..|e| - 4] == Covered(p) && e[|e| - 4..] == BigEndian32(crc(Covered(p)));
    BigEndianRoundTrip(crc(Covered(p)));
    DecodeLike(crc, before, p, e);
  }

  /** A datagram cut after its header still tells which packet it was. */
  lemma CutIsUnconsistent(crc: Checksum, before: Packet, p: Packet)
    requires Sendable(p)
    ensures var d := Decode(crc, before, Encode(crc, p)[..4]);
      d.0 == EUnconsistent && d.1.seqnum == p.seqnum
  {}

  /** Bitwise complement of the last byte. */
  function InvertLast(data: seq<byte>): seq<byte>
    requires |data| > 0
  {
    data[|data| - 1 := 255 - data[|data| - 1]]
  }

  /** Inverting the last CRC byte is always caught as a CRC error, for every
      CRC function. */
  lemma InvertedIsCrcError(crc: Checksum, before: Packet, p: Packet)
    requires Sendable(p)
    ensures var d := Decode(crc, before, InvertLast(Encode(crc, p)));
      d.0 == ECrc && d.1.seqnum == p.seqnum
  {
    hide Decode;
    var e := Encode(crc, p);
    var f := InvertLast(e);
    var c := BigEndian32(crc(Covered(p)));
    assert f[..|f| - 4] == Covered(p) && f[|f| - 4..] == c[3 := 255 - c[3]];
    BigEndianRoundTrip(crc(Covered(p)));
    DecodeLike(crc, before, p, f);
  }

  /** `data` has exactly the size its header announces, a bounded length and a
      matching CRC, and p is what it says. */
  predicate Reads(crc: Checksum, p: Packet, data: seq<byte>) {
    && Sendable(p) && |data| == 8 + p.length + Padding(p.length)
    && p.crc == crc(data[..|data| - 4]) == FromBigEndian32(data[|data| - 4..])
    && [p.ptype * 0x20 + p.window, p.seqnum] == data[..2]
    && WireLength(data) == p.length && Content(p) == data[4..4 + p.length]
  }

  /** No other datagram is accepted. */
  lemma DecodeSound(crc: Checksum, before: Packet, data: seq<byte>)
    requires |data| < 0x1_0000 && Decode(crc, before, data).0 == PktOk
    ensures Reads(crc, Decode(crc, before, data).1, data)
  {
    var p := Decode(crc, before, data).1;
    assert data[4 + p.length + Padding(p.length)..8 + p.length + Padding(p.length)] == data[|data| - 4..];
  }

  /** The status of every datagram, from its bytes: which check fails first. */
  lemma StatusExactly(crc: Checksum, before: Packet, data: seq<byte>)
    requires |data| < 0x1_0000
    ensures var status := Decode(crc, before, data).0;
      var sized := |data| >= 8 && |data| % 4 == 0;
      var known := sized && data[0] / 0x20 in {1, 2, 4};
      var short := known && WireLength(data) <= 512;
      var whole := short && (data[0] / 0x20 == 1 || WireLength(data) == 0)
        && |data| == 8 + WireLength(data) + Padding(WireLength(data));
      var matching := whole && crc(data[..|data| - 4]) == FromBigEndian32(data[|data| - 4..]);
      && (status == ENoHeader <==> |data| < 4)
      && (status == EType <==> sized && !known)
      && (status == ELength <==> known && !short)
      && (status == ECrc <==> whole && !matching)
      && (status == PktOk <==> matching)
      && (status == EUnconsistent <==> |data| >= 4 && (!sized || (short && !whole)))
  {
    if |data| >= 8 {
      var n := |data| - 4;
      assert data[n..n + 4] == data[n..];
    }
  }

  /** It is the encoding of the decoded packet exactly when its padding bytes
      are zero. */
  lemma ReencodeExact(crc: Checksum, before: Packet, data: seq<byte>)
    requires |data| < 0x1_0000 && Decode(crc, before, data).0 == PktOk
    ensures var p := Decode(crc, before, data).1;
      Sendable(p) && |data| == 8 + p.length + Padding(p.length)
      && (Encode(crc, p) == data <==> forall i :: 4 + p.length <= i < |data| - 4 ==> data[i] == 0)
  {
    DecodeSound(crc, before, data);
    ReencodeFields(crc, Decode(crc, before, data).1, data);
  }

  lemma ReencodeFields(crc: Checksum, p: Packet, data: seq<byte>)
    requires Reads(crc, p, data)
    ensures Encode(crc, p) == data <==> forall i :: 4 + p.length <= i < |data| - 4 ==> data[i] == 0
  {
    if Encode(crc, p) == data {
      EncodedPadding(crc, p);
    }
    if forall i :: 4 + p.length <= i < |data| - 4 ==> data[i] == 0 {
      ReencodeZeroPadded(crc, p, data);
    }
  }

  lemma EncodedPadding(crc: Checksum, p: Packet)
    requires Sendable(p)
    ensures forall i :: 4 + p.length <= i < |Encode(crc, p)| - 4 ==> Encode(crc, p)[i] == 0
  {
    forall i | 4 + p.length <= i < |Encode(crc, p)| - 4 ensures Encode(crc, p)[i] == 0 {
      assert Encode(crc, p)[i] == Covered(p)[i] == Padded(Content(p))[i - 4];
    }
  }

  lemma ReencodeZeroPadded(crc: Checksum, p: Packet, data: seq<byte>)
    requires Reads(crc, p, data)
    requires forall i :: 4 + p.length <= i < |data| - 4 ==> data[i] == 0
    ensures Encode(crc, p) == data
  {
    var n := |data| - 4;
    BigEndianInjective(data[n..]);
    assert data[..2] == [data[0], data[1]];
    assert Padded(Content(p)) == data[4..n];
    assert Covered(p) == data[..n];
    assert data == data[..n] + data[n..];
  }

  /** The receiver does accept non-zero padding: for every CRC function some
      accepted datagram is not the encoding of the packet it decodes to. */
  lemma NonzeroPaddingAccepted(crc: Checksum, before: Packet) returns (data: seq<byte>)
    ensures |data| == 12
    ensures Decode(crc, before, data).0 == PktOk
    ensures Encode(crc, Decode(crc, before, data).1) != data
  {
    var body: seq<byte> := [0x20, 0, 0, 1, 7, 1, 0, 0];
    data := body + BigEndian32(crc(body));
    assert data[..8] == body && data[8..12] == BigEndian32(crc(body));
    BigEndianRoundTrip(crc(body));
    assert data[5] == 1;
    DecodeSound(crc, before, data);
  }

  /** Uninitialised fields never show: what the structure held before decoding
      cannot change the status or the sequence number, and nothing of it
      survives an accepted packet. */
  lemma DecodeIgnoresOld(crc: Checksum, a: Packet, b: Packet, data: seq<byte>)
    ensures Decode(crc, a, data).0 == Decode(crc, b, data).0
    ensures |data| >= 4 ==> Decode(crc, a, data).1.seqnum == Decode(crc, b, data).1.seqnum == data[1]
    ensures Decode(crc, a, data).0 == PktOk ==> Decode(crc, a, data).1 == Decode(crc, b, data).1
  {
    if |data| >= 4 {
      var ha := ReadHeader(a, data);
      var hb := ReadHeader(b, data);
      if KnownType(data[0] / 0x20) && WireLength(data) <= MAX_PAYLOAD_SIZE {
        assert ha.length == hb.length && ha.ptype == hb.ptype;
      }
    }
  }

  /** What a decoded structure tells about the header, on every status but
      "no header": window and sequence number always; type and length exactly
      when the header's value is acceptable or happened to be there before. */
  lemma HeaderReportedExactly(crc: Checksum, before: Packet, data: seq<byte>)
    requires |data| >= 4
    ensures var p := Decode(crc, before, data).1;
      && p.window == data[0] % 0x20 && p.seqnum == data[1]
      && (p.ptype == data[0] / 0x20 <==> KnownType(data[0] / 0x20) || before.ptype == data[0] / 0x20)
      && (p.length == WireLength(data) <==>
            WireLength(data) <= MAX_PAYLOAD_SIZE || before.length == WireLength(data))
  {}

  /** The length as the C text computes it: `data[2]` is a signed char, so its
      sign bits are or-ed over the upper byte before the swap. */
  function CLength(low: byte, high: byte): uint16 {
    Swap16(BitOr((high as int) * 0x100, SignedChar(low) % 0x1_0000) % 0x1_0000)
  }

  lemma Swap16Concat(high: byte, low: byte)
    ensures Swap16((high as int) * 0x100 + low) == (low as int) * 0x100 + high
  {
    HornerStep(high, low);
  }

  lemma SignedCharWord(b: byte)
    ensures SignedChar(b) % 0x1_0000 == if b < 128 then b else 0xFF00 + b
  {}

  lemma Word(x: nat)
    requires x < 0x1_0000
    ensures x % 0x1_0000 == x
  {}

  lemma CLengthIs(low: byte, high: byte)
    ensures CLength(low, high) == (low as int) * 0x100 + if low < 128 then high else 0xFF
  {
    hide Swap16, SignedChar, BitOr;
    SignedCharWord(low);
    if low < 128 {
      BitOrConcat8(high, low);
      Word((high as int) * 0x100 + low);
      Swap16Concat(high, low);
    } else {
      BitOrSignExtended(high, low);
      Word(0xFF00 + low);
      Swap16Concat(0xFF, low);
    }
  }

  /** The sign extension changes the computed length only where it is rejected
      either way. */
  lemma SignExtensionHarmless(low: byte, high: byte)
    ensures low < 128 ==> CLength(low, high) == (low as int) * 0x100 + high
    ensures low >= 128 ==> CLength(low, high) > MAX_PAYLOAD_SIZE && (low as int) * 0x100 + high > MAX_PAYLOAD_SIZE
  {
    CLengthIs(low, high);
  }
}
