/** The echo request of ping.c, whose checksum is recomputed in place before every send. */
module PingEcho {
  import opened Bytes
  import opened Checksum

  const ICMP_ECHOREPLY: byte := 0
  const ICMP_MINLEN := 8
  const ICMP_DATA_LEN := 8
  const ICMP_LEN := ICMP_MINLEN + ICMP_DATA_LEN
  const ICMP_ID: u16 := 0xDEAC

  /** Byte offset of the checksum in an ICMP header. */
  const CKSUM_AT := 2

  /** One round of the sending loop: the sequence number goes up, wrapping at 16 bits, and the checksum
      is refreshed. Whoever receives the message finds its checksum right, and nothing else changed. */
  method Refresh(e: Endian, icmph: array<byte>, seqno: u16) returns (next: u16)
    requires icmph.Length == ICMP_LEN
    modifies icmph
    ensures next == (seqno + 1) % 0x1_0000
    ensures forall receiver :: Accepted(receiver, icmph[..])
    ensures icmph[6] == seqno / 0x100 && icmph[7] == seqno % 0x100
    ensures forall i :: 0 <= i < ICMP_LEN && i != 2 && i != 3 && i != 6 && i != 7 ==> icmph[i] == old(icmph[i])
  {
    icmph[6], icmph[7] := Net16(seqno)[0], Net16(seqno)[1];
    next := (seqno + 1) % 0x1_0000;
    icmph[CKSUM_AT], icmph[CKSUM_AT + 1] := 0, 0;
    ghost var zeroed := icmph[..];
    var sum := InCksum(e, icmph[..]);
    icmph[CKSUM_AT], icmph[CKSUM_AT + 1] := Bytes2(e, sum).0, Bytes2(e, sum).1;
    assert icmph[..] == Store(e, zeroed, CKSUM_AT, sum);
    forall receiver
      ensures Accepted(receiver, icmph[..])
    {
      ChecksumRoundTrip(e, receiver, zeroed, CKSUM_AT);
    }
  }

  /** The tests of the receiving loop on a message of `nread` bytes behind an IP header of `iplen`. */
  predicate Accepts(e: Endian, packet: seq<byte>, iplen: nat) {
    && iplen + ICMP_MINLEN <= |packet|
    && packet[iplen] == ICMP_ECHOREPLY
    && packet[iplen + 4..iplen + 6] == Net16(ICMP_ID)
    && Accepted(e, packet[iplen..])
  }

  /** Exactly the messages that are long enough, are echo replies, have the program's identifier, and whose
      words add up to a multiple of 65535 are taken for replies to this program. */
  lemma AcceptsIff(e: Endian, packet: seq<byte>, iplen: nat)
    requires |packet| <= MAX_LEN
    ensures Accepts(e, packet, iplen) <==>
      && |packet| >= iplen + 8 && packet[iplen] == 0
      && packet[iplen + 4] == 0xDE && packet[iplen + 5] == 0xAC
      && MsgSum(e, packet[iplen..]) % 0xFFFF == 0
  {
    if |packet| >= iplen + 8 {
      var icmp := packet[iplen..];
      assert packet[iplen + 4..iplen + 6] == [packet[iplen + 4], packet[iplen + 5]];
      assert Net16(ICMP_ID) == [0xDE, 0xAC];
      Checksum.AcceptedIff(e, icmp);
      ZeroSum(e, icmp);
      assert icmp[4] == packet[iplen + 4];
    }
  }

  /** Of all ways to replace one word of the message in an accepted packet, those that leave the type and the
      identifier go unnoticed exactly if the word is the same or one of 0x0000 and 0xFFFF replaces the other;
      the others never do. */
  lemma PacketWordChange(e: Endian, packet: seq<byte>, iplen: nat, at: nat, w: u16)
    requires |packet| <= MAX_LEN && Accepts(e, packet, iplen)
    requires at % 2 == 0 && iplen + at + 1 < |packet|
    ensures var packet' := packet[..iplen] + Store(e, packet[iplen..], at, w);
      var v := Load(e, packet[iplen..], at);
      Accepts(e, packet', iplen) <==>
        && packet'[iplen] == 0 && packet'[iplen + 4] == 0xDE && packet'[iplen + 5] == 0xAC
        && (w == v || (v == 0 && w == 0xFFFF) || (v == 0xFFFF && w == 0))
  {
    var icmp := packet[iplen..];
    var icmp' := Store(e, icmp, at, w);
    var packet' := packet[..iplen] + icmp';
    assert packet'[iplen..] == icmp';
    AcceptsIff(e, packet, iplen);
    AcceptsIff(e, packet', iplen);
    StoreSum(e, icmp, at, w);
    WordsCongruent(MsgSum(e, icmp), MsgSum(e, icmp'), Load(e, icmp, at), w);
  }

  /** The reply a host makes to an echo request: the type changes and the checksum is made anew. */
  function EchoReply(e: Endian, icmp: seq<byte>): (r: seq<byte>)
    requires |icmp| >= ICMP_MINLEN
    ensures |r| == |icmp|
  {
    var zeroed := icmp[0 := ICMP_ECHOREPLY][CKSUM_AT := 0][CKSUM_AT + 1 := 0];
    Store(e, zeroed, CKSUM_AT, Cksum(e, zeroed))
  }

  /** The reply to any request that carries the program's identifier is accepted, whatever the byte order
      of the two hosts and the IP header in front of it. */
  lemma EchoReplyAccepted(replier: Endian, receiver: Endian, icmp: seq<byte>, iphdr: seq<byte>)
    requires ICMP_MINLEN <= |icmp| <= MAX_LEN && icmp[4..6] == Net16(ICMP_ID)
    ensures Accepts(receiver, iphdr + EchoReply(replier, icmp), |iphdr|)
  {
    var r := EchoReply(replier, icmp);
    var packet := iphdr + r;
    assert packet[|iphdr|..] == r;
    assert packet[|iphdr| + 4..|iphdr| + 6] == r[4..6] == icmp[4..6];
    var zeroed := icmp[0 := ICMP_ECHOREPLY][CKSUM_AT := 0][CKSUM_AT + 1 := 0];
    ChecksumRoundTrip(replier, receiver, zeroed, CKSUM_AT);
  }
}
