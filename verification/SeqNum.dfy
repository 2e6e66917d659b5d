/** Sequence-number arithmetic modulo 256: `compare_seqnums` of the receiver and
    `get_ack_position` of the sender. */
module SeqNum {
  import opened Bytes

  /** The eight-bit sequence number of packet k, by counting turns; `NumberIsResidue`
      gives the closed form. */
  function Number(k: nat): byte {
    if k < 256 then k else Number(k - 256)
  }

  /** sel_repeat_read.c: difference of two numbers on the circle that starts
      just after `lastack`. */
  function CompareSeqnums(lastack: int, seqnum1: int, seqnum2: int): int {
    var s1 := if seqnum1 <= lastack then seqnum1 + 256 else seqnum1;
    var s2 := if seqnum2 <= lastack then seqnum2 + 256 else seqnum2;
    s1 - s2
  }

  /** Position of `s` after the expected number: 0 for the expected one. */
  function Offset(lastack: int, s: int): int {
    if s > lastack then s - lastack - 1 else s - lastack + 255
  }

  /** sel_repeat_write.c: where a number sits in a window whose last entry, at
      index `lastPosition`, carries `lastSent`. */
  function GetAckPosition(lastSent: int, validated: int, lastPosition: int): int {
    if lastSent >= validated then lastPosition - (lastSent - validated)
    else lastPosition - lastSent - (256 - validated)
  }

  /** The comparison is the difference of circular offsets, at any lastack. */
  lemma CompareIsOffset(lastack: int, s1: int, s2: int)
    requires 0 <= lastack < 256 && 0 <= s1 < 256 && 0 <= s2 < 256
    ensures CompareSeqnums(lastack, s1, s2) == Offset(lastack, s1) - Offset(lastack, s2)
  {}

  lemma CompareToExpected(lastack: int, s: int)
    requires 0 <= lastack < 256 && 0 <= s < 256
    ensures CompareSeqnums(lastack, s, (lastack + 1) % 256) == Offset(lastack, s)
    ensures s == (lastack + 1) % 256 <==> Offset(lastack, s) == 0
  {}

  lemma {:induction false} NumberIsResidue(k: nat)
    ensures Number(k) == k % 256
  {
    if k >= 256 { NumberIsResidue(k - 256); }
  }

  lemma {:induction false} NextNumber(k: nat)
    ensures (Number(k) + 1) % 256 == Number(k + 1)
  {
    if k >= 256 { NextNumber(k - 256); }
  }

  lemma NumberAfterLast(k: nat)
    ensures (Number(k + 255) + 1) % 256 == Number(k)
  {
    NextNumber(k + 255);
  }

  /** Within less than a full turn, a number identifies its packet. */
  lemma NumberInjective(j: nat, k: nat)
    requires j <= k < j + 256 || k <= j < k + 256
    ensures Number(j) == Number(k) <==> j == k
  {
    NumberIsResidue(j);
    NumberIsResidue(k);
  }

  lemma SameNumber(base: nat, k: nat)
    ensures Number(base + (k - base) % 256) == Number(k)
  {
    NumberIsResidue(base + (k - base) % 256);
    NumberIsResidue(k);
  }

  /** The offset of a packet's number is its distance from the expected packet,
      up to full turns. */
  lemma OffsetOfIndex(base: nat, k: nat)
    ensures base <= k < base + 256 ==> Offset(Number(base + 255), Number(k)) == k - base
    ensures Offset(Number(base + 255), Number(k)) == (k - base) % 256
  {
    NumberIsResidue(base + 255);
    NumberIsResidue(k);
  }

  /** An ACK for packet `a` (everything below it received) points just before
      `a` in a window holding packets s .. n-1, across every wrap-around. */
  lemma AckPositionExact(s: nat, a: nat, n: nat)
    requires s <= a <= n <= s + 255
    ensures GetAckPosition(Number(n) - 1, Number(a) - 1, n - s - 1) == a - s - 1
  {
    NumberIsResidue(n);
    NumberIsResidue(a);
  }

  /** A NACK for packet `k` points at `k`. */
  lemma NackPositionExact(s: nat, k: nat, n: nat)
    requires s <= k < n <= s + 255
    ensures GetAckPosition(Number(n) - 1, Number(k), n - s - 1) == k - s
  {
    NumberIsResidue(n);
    NumberIsResidue(k);
  }

  /** An ACK beyond the next packet to send points before the window. */
  lemma AckPositionOutside(s: nat, a: nat, n: nat)
    requires s <= n < a < n + 256
    ensures GetAckPosition(Number(n) - 1, Number(a) - 1, n - s - 1) == a - s - 257
  {
    NumberIsResidue(n);
    NumberIsResidue(a);
  }

  /** A NACK for a packet not sent yet points before the window. */
  lemma NackPositionOutside(s: nat, k: nat, n: nat)
    requires s <= n <= k < n + 256
    ensures GetAckPosition(Number(n) - 1, Number(k), n - s - 1) == k - s - 256
  {
    NumberIsResidue(n);
    NumberIsResidue(k);
  }
}
