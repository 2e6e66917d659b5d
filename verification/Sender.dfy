/** sel_repeat_write.c on values: what the sender does on a chunk of input, on an
    expired timer and on a reply. */
module Sender {
  import opened Bytes
  import opened Codec
  import opened SeqNum

  /** `Crashed` stands for C's undefined behaviour: an index outside the window. */
  datatype Phase = Running | Exited | Crashed

  /** `window` holds the `current_index_window` packets sent and not yet
      acknowledged. */
  datatype Snd = Snd(seqnum: byte, window: seq<Packet>, limited: int, finish: bool, phase: Phase)

  datatype Sent = Sent(next: Snd, datagrams: seq<seq<byte>>)

  const START := Snd(0, [], MAX_WINDOW_SIZE, false, Running)

  predicate Ready(s: Snd) {
    |s.window| <= MAX_WINDOW_SIZE && 0 <= s.limited <= MAX_WINDOW_SIZE
    && forall i :: 0 <= i < |s.window| ==> Sendable(s.window[i])
  }

  /** The guard under which the input descriptor is watched. */
  predicate CanRead(s: Snd) {
    (|s.window| < s.limited && !s.finish) || (s.limited == 0 && |s.window| == 0 && !s.finish)
  }

  /** A chunk was read; the empty one means end of file. */
  function SendChunk(crc: Checksum, s: Snd, chunk: seq<byte>): Sent
    requires |chunk| <= MAX_PAYLOAD_SIZE
  {
    var p := DataPacket(s.seqnum, chunk);
    Sent(s.(seqnum := (s.seqnum + 1) % 256, window := s.window + [p], finish := s.finish || chunk == []),
         [Encode(crc, p)])
  }

  /** The window after an ACK with number `validated`. */
  function AckPosition(s: Snd, number: byte): int {
    GetAckPosition(s.seqnum - 1, number - 1, |s.window| - 1)
  }

  function NackPosition(s: Snd, number: byte): int {
    GetAckPosition(s.seqnum - 1, number, |s.window| - 1)
  }

  function HandleAck(s: Snd, number: byte, limit: bits5): Snd {
    var position := AckPosition(s, number);
    if !(-1 <= position < |s.window|) then s.(phase := Crashed)
    else
      var rest := s.window[position + 1..];
      s.(window := rest, limited := limit, phase := if rest == [] && s.finish then Exited else s.phase)
  }

  function HandleNack(crc: Checksum, s: Snd, number: byte, limit: bits5): Sent
    requires Ready(s)
  {
    var position := NackPosition(s, number);
    if !(0 <= position < |s.window|) then Sent(s.(phase := Crashed), [])
    else Sent(s.(limited := limit), [Encode(crc, s.window[position])])
  }

  /** A decoded reply. */
  function React(crc: Checksum, s: Snd, status: Status, p: Packet): Sent
    requires Ready(s)
  {
    if status != PktOk then Sent(s, [])
    else if p.ptype == PTYPE_ACK then Sent(HandleAck(s, p.seqnum, p.window), [])
    else if p.ptype == PTYPE_NACK then HandleNack(crc, s, p.seqnum, p.window)
    else Sent(s, [])
  }

  function HandleReply(crc: Checksum, s: Snd, data: seq<byte>): Sent
    requires Ready(s)
  {
    var (status, p) := Decode(crc, BLANK, data);
    React(crc, s, status, p)
  }

  /** The retransmissions of one timer sweep, from entry i on. */
  function Resends(crc: Checksum, s: Snd, expired: int -> bool, i: nat): seq<seq<byte>>
    requires Ready(s) && i <= |s.window|
    decreases |s.window| - i
  {
    if i == |s.window| then []
    else (if expired(i) then [Encode(crc, s.window[i])] else []) + Resends(crc, s, expired, i + 1)
  }

  /** `window` holds packets base .. n-1 for a sender about to use number n. */
  predicate Holds(s: Snd, base: nat, n: nat) {
    base <= n <= base + MAX_WINDOW_SIZE && |s.window| == n - base && s.seqnum == Number(n)
  }

  lemma WindowAckPosition(s: Snd, base: nat, a: nat, n: nat)
    requires Holds(s, base, n) && base <= a <= n
    ensures AckPosition(s, Number(a)) == a - base - 1
  {
    hide GetAckPosition, Number;
    AckPositionExact(base, a, n);
  }

  lemma WindowNackPosition(s: Snd, base: nat, k: nat, n: nat)
    requires Holds(s, base, n) && base <= k < n
    ensures NackPosition(s, Number(k)) == k - base
  {
    hide GetAckPosition, Number;
    NackPositionExact(base, k, n);
  }

  /** Cumulative acknowledgement, across every wrap-around: an ACK for a keeps
      exactly packets a .. n-1, a duplicate changes no packet, and two ACKs in
      order leave what the later one alone leaves. */
  lemma AckDropsPrefix(s: Snd, base: nat, a: nat, n: nat, limit: bits5)
    requires Holds(s, base, n) && base <= a <= n
    ensures HandleAck(s, Number(a), limit) == s.(window := s.window[a - base..], limited := limit,
                                               phase := if a == n && s.finish then Exited else s.phase)
    ensures Holds(HandleAck(s, Number(a), limit), a, n)
    ensures HandleAck(s, Number(base), limit).window == s.window
  {
    hide AckPosition, Number;
    WindowAckPosition(s, base, a, n);
    WindowAckPosition(s, base, base, n);
  }

  lemma LaterAckSubsumes(s: Snd, base: nat, a1: nat, a2: nat, n: nat, limit1: bits5, limit2: bits5)
    requires Holds(s, base, n) && base <= a1 <= a2 <= n
    ensures HandleAck(HandleAck(s, Number(a1), limit1), Number(a2), limit2) == HandleAck(s, Number(a2), limit2)
  {
    AckDropsPrefix(s, base, a1, n, limit1);
    AckDropsPrefix(s, base, a2, n, limit2);
    var s1 := s.(window := s.window[a1 - base..], limited := limit1,
                 phase := if a1 == n && s.finish then Exited else s.phase);
    AckDropsPrefix(s1, a1, a2, n, limit2);
    assert s.window[a1 - base..][a2 - a1..] == s.window[a2 - base..];
  }

  /** A NACK for k resends packet k and nothing else. */
  lemma NackResends(crc: Checksum, s: Snd, base: nat, k: nat, n: nat, limit: bits5)
    requires Ready(s) && Holds(s, base, n) && base <= k < n
    ensures HandleNack(crc, s, Number(k), limit) == Sent(s.(limited := limit), [Encode(crc, s.window[k - base])])
  {
    hide NackPosition, Encode;
    WindowNackPosition(s, base, k, n);
  }

  /** Every other number makes C index before its array: for an ACK those of
      packets n+1 .. base+255, for a NACK those of n .. base+255. */
  lemma AckBeyondCrashes(s: Snd, base: nat, a: nat, n: nat, limit: bits5)
    requires Holds(s, base, n) && n < a < base + 256
    ensures HandleAck(s, Number(a), limit) == s.(phase := Crashed)
  {
    hide GetAckPosition, Number;
    AckPositionOutside(base, a, n);
  }

  lemma NackBeyondCrashes(crc: Checksum, s: Snd, base: nat, k: nat, n: nat, limit: bits5)
    requires Ready(s) && Holds(s, base, n) && n <= k < base + 256
    ensures HandleNack(crc, s, Number(k), limit) == Sent(s.(phase := Crashed), [])
  {
    hide GetAckPosition, Encode, Number;
    NackPositionOutside(base, k, n);
  }

  /** What reaches the sender is acted on by its type; what does not decode, not at
      all. */
  lemma RepliesAct(crc: Checksum, s: Snd, p: Packet)
    requires Ready(s) && Sendable(p)
    ensures HandleReply(crc, s, Encode(crc, p))
      == if p.ptype == PTYPE_ACK then Sent(HandleAck(s, p.seqnum, p.window), [])
         else if p.ptype == PTYPE_NACK then HandleNack(crc, s, p.seqnum, p.window)
         else Sent(s, [])
  {
    hide Encode, Decode, HandleAck, HandleNack;
    RoundTrip(crc, BLANK, p);
  }

  lemma GarbageIgnored(crc: Checksum, s: Snd, data: seq<byte>)
    requires Ready(s) && HandleReply(crc, s, data) != Sent(s, [])
    ensures Decode(crc, BLANK, data).0 == PktOk && Decode(crc, BLANK, data).1.ptype != PTYPE_DATA
  {
    hide Decode;
  }
}
