/** The ARP packet on the wire: the layout macros of arp.h, `build_arp`, and the reading side made of
    `recv_frame`, `ntoh_arp`, the length checks of `run_arp` and `valid_arp`. */
module ArpWire {
  import opened Bytes

  const ARP_ID: u16 := 0xDEAD
  const ARP_MAXLEN := 68
  const ARP_HDRLEN := 10
  const ARP_MAXHWLEN := 8
  const ARP_MAXPRLEN := 16
  const ARP_MAXDATALEN := 2 * ARP_MAXHWLEN + 2 * ARP_MAXPRLEN
  /** `sizeof(struct arp_hdr)`. */
  const ARP_STRUCTLEN := ARP_HDRLEN + ARP_MAXDATALEN
  const ARPHRD_ETHER: u16 := 1
  const ARPOP_REQUEST: u16 := 1
  const ARPOP_REPLY: u16 := 2
  const PF_INET: u16 := 2

  /** An ARP packet in host order. */
  datatype Arp = Arp(
    id: u16, hardType: u16, protType: u16, hardLen: byte, protLen: byte, op: u16,
    sha: seq<byte>, spa: seq<byte>, tha: seq<byte>, tpa: seq<byte>)
  {
    /** The four address fields have the lengths that the header announces. */
    predicate Sized() {
      |sha| == hardLen == |tha| && |spa| == protLen == |tpa|
    }
  }

  // The offsets of the four address fields within the data (arp.h:35-40).
  function ShaAt(): nat { 0 }
  function SpaAt(hl: byte): nat { hl }
  function ThaAt(hl: byte, pl: byte): nat { hl + pl }
  function TpaAt(hl: byte, pl: byte): nat { 2 * hl + pl }
  function DataLen(hl: byte, pl: byte): nat { 2 * hl + 2 * pl }

  /** The bytes `build_arp` leaves in its buffer. */
  function Encode(m: Arp): (b: seq<byte>)
    requires m.Sized()
    ensures |b| == ARP_HDRLEN + DataLen(m.hardLen, m.protLen)
  {
    Header(m) + m.sha + m.spa + m.tha + m.tpa
  }

  /** The fixed-size header in network order. */
  function Header(m: Arp): (b: seq<byte>)
    ensures |b| == ARP_HDRLEN
  {
    Net16(m.id) + Net16(m.hardType) + Net16(m.protType) + [m.hardLen, m.protLen] + Net16(m.op)
  }

  /** Reading a payload: short frames are dropped, the header goes to host order, and the four
      addresses are found through the offset macros. */
  function Decode(b: seq<byte>): (r: Option<Arp>)
    ensures r.Some? ==> r.value.Sized()
  {
    if |b| <= ARP_HDRLEN then None
    else
      var hl, pl, data := b[6], b[7], b[ARP_HDRLEN..];
      if |data| < DataLen(hl, pl) then None
      else Some(Arp(Host16(b[0], b[1]), Host16(b[2], b[3]), Host16(b[4], b[5]), hl, pl, Host16(b[8], b[9]),
                    data[ShaAt()..ShaAt() + hl], data[SpaAt(hl)..SpaAt(hl) + pl],
                    data[ThaAt(hl, pl)..ThaAt(hl, pl) + hl], data[TpaAt(hl, pl)..TpaAt(hl, pl) + pl]))
  }

  /** `valid_arp`. */
  predicate ValidArp(m: Arp) {
    && m.id == ARP_ID
    && m.hardType == ARPHRD_ETHER
    && m.protType == PF_INET
    && m.hardLen <= ARP_MAXHWLEN
    && m.protLen <= ARP_MAXPRLEN
    && (m.op == ARPOP_REQUEST || m.op == ARPOP_REPLY)
  }

  // ----- Building a packet in place

  /** `memcpy` of `src` to offset `at` of the buffer. */
  method CopyInto(buf: array<byte>, at: nat, src: seq<byte>)
    requires at + |src| <= buf.Length
    modifies buf
    ensures buf[..at + |src|] == old(buf[..at]) + src
    ensures forall j :: at + |src| <= j < buf.Length ==> buf[j] == old(buf[j])
  {
    forall i | 0 <= i < |src| {
      buf[at + i] := src[i];
    }
  }

  /** The bytes copied for an address argument: zeros for a null pointer. */
  function Field(arg: Option<seq<byte>>, n: nat): (r: seq<byte>)
    requires arg.Some? ==> n <= |arg.value|
    ensures |r| == n
  {
    match arg
    case None => Zeros(n)
    case Some(s) => s[..n]
  }

  /** The packet `build_arp` is asked to build. */
  function Built(hardType: u16, protType: u16, hardLen: byte, protLen: byte, op: u16,
                 sendHwa: Option<seq<byte>>, sendPro: Option<seq<byte>>,
                 targetHwa: Option<seq<byte>>, targetPro: Option<seq<byte>>): (m: Arp)
    requires sendHwa.Some? ==> hardLen <= |sendHwa.value|
    requires sendPro.Some? ==> protLen <= |sendPro.value|
    requires targetHwa.Some? ==> hardLen <= |targetHwa.value|
    requires targetPro.Some? ==> protLen <= |targetPro.value|
    ensures m.Sized()
  {
    Arp(ARP_ID, hardType, protType, hardLen, protLen, op,
        Field(sendHwa, hardLen), Field(sendPro, protLen), Field(targetHwa, hardLen), Field(targetPro, protLen))
  }

  /** The header stores of `build_arp`, field by field. */
  method WriteHeader(start: array<byte>, m: Arp)
    requires start.Length >= ARP_HDRLEN
    modifies start
    ensures start[..ARP_HDRLEN] == Header(m)
    ensures start[ARP_HDRLEN..] == old(start[ARP_HDRLEN..])
  {
    CopyInto(start, 0, Net16(m.id));
    CopyInto(start, 2, Net16(m.hardType));
    CopyInto(start, 4, Net16(m.protType));
    CopyInto(start, 6, [m.hardLen, m.protLen]);
    CopyInto(start, 8, Net16(m.op));
  }

  /** The data of the packet: `[ sha | spa | tha | tpa ]`. */
  method WriteData(start: array<byte>, m: Arp)
    requires m.Sized() && start.Length >= ARP_HDRLEN + DataLen(m.hardLen, m.protLen)
    requires start[..ARP_HDRLEN] == Header(m)
    modifies start
    ensures var len := ARP_HDRLEN + DataLen(m.hardLen, m.protLen);
            start[..len] == Encode(m) && start[len..] == old(start[len..])
  {
    var sha := ARP_HDRLEN;
    var spa := sha + m.hardLen;
    var tha := spa + m.protLen;
    var tpa := tha + m.hardLen;
    CopyInto(start, sha, m.sha);
    ghost var filled := start[..spa];
    CopyInto(start, spa, m.spa);
    filled := filled + m.spa;
    assert start[..tha] == filled;
    CopyInto(start, tha, m.tha);
    filled := filled + m.tha;
    assert start[..tpa] == filled;
    CopyInto(start, tpa, m.tpa);
    assert start[..tpa + m.protLen] == filled + m.tpa;
  }

  /** `build_arp`: refuses a buffer that is too small and leaves it alone; otherwise fills exactly the
      first `len` bytes with the encoding of the packet. */
  method BuildArp(start: array<byte>, hardType: u16, protType: u16, hardLen: byte, protLen: byte, op: u16,
                  sendHwa: Option<seq<byte>>, sendPro: Option<seq<byte>>,
                  targetHwa: Option<seq<byte>>, targetPro: Option<seq<byte>>) returns (len: nat)
    requires sendHwa.Some? ==> hardLen <= |sendHwa.value|
    requires sendPro.Some? ==> protLen <= |sendPro.value|
    requires targetHwa.Some? ==> hardLen <= |targetHwa.value|
    requires targetPro.Some? ==> protLen <= |targetPro.value|
    modifies start
    ensures len == 0 <==> start.Length < ARP_HDRLEN + DataLen(hardLen, protLen)
    ensures len == 0 ==> start[..] == old(start[..])
    ensures len != 0 ==>
      var m := Built(hardType, protType, hardLen, protLen, op, sendHwa, sendPro, targetHwa, targetPro);
      len == |Encode(m)| && start[..] == Encode(m) + old(start[len..])
  {
    len := ARP_HDRLEN + 2 * hardLen + 2 * protLen;
    if start.Length < len {
      return 0;
    }
    var m := Built(hardType, protType, hardLen, protLen, op, sendHwa, sendPro, targetHwa, targetPro);
    WriteHeader(start, m);
    WriteData(start, m);
    assert start[..] == start[..len] + start[len..];
  }

  // ----- Round trip

  lemma EncodeRegions(m: Arp, pad: seq<byte>)
    requires m.Sized()
    ensures var data, hl, pl := (Encode(m) + pad)[ARP_HDRLEN..], m.hardLen, m.protLen;
            && |data| == DataLen(hl, pl) + |pad|
            && data[ShaAt()..ShaAt() + hl] == m.sha
            && data[SpaAt(hl)..SpaAt(hl) + pl] == m.spa
            && data[ThaAt(hl, pl)..ThaAt(hl, pl) + hl] == m.tha
            && data[TpaAt(hl, pl)..TpaAt(hl, pl) + pl] == m.tpa
  {
    var data := (Encode(m) + pad)[ARP_HDRLEN..];
    assert data == m.sha + m.spa + m.tha + m.tpa + pad;
  }

  lemma EncodeHeader(m: Arp, pad: seq<byte>)
    requires m.Sized()
    ensures var b := Encode(m) + pad;
            && Host16(b[0], b[1]) == m.id
            && Host16(b[2], b[3]) == m.hardType
            && Host16(b[4], b[5]) == m.protType
            && b[6] == m.hardLen && b[7] == m.protLen
            && Host16(b[8], b[9]) == m.op
  {
    var b := Encode(m) + pad;
    assert b[..ARP_HDRLEN] == Header(m);
    assert forall i :: 0 <= i < ARP_HDRLEN ==> b[i] == Header(m)[i];
  }

  /** Reading back a built packet, with any padding the link adds after it, returns every header field
      and all four addresses. */
  lemma WireRoundTrip(m: Arp, pad: seq<byte>)
    requires m.Sized() && |Encode(m) + pad| > ARP_HDRLEN
    ensures Decode(Encode(m) + pad) == Some(m)
  {
    EncodeHeader(m, pad);
    EncodeRegions(m, pad);
  }

  /** The other direction: a payload that is read as `m` starts with the encoding of `m`. */
  lemma DecodeThenEncode(b: seq<byte>)
    requires Decode(b).Some?
    ensures Encode(Decode(b).value) <= b
  {
    var m := Decode(b).value;
    var data := b[ARP_HDRLEN..];
    var n := DataLen(m.hardLen, m.protLen);
    assert data[..n] == m.sha + m.spa + m.tha + m.tpa;
    assert b[..ARP_HDRLEN] == Header(m);
    assert b[..ARP_HDRLEN + n] == b[..ARP_HDRLEN] + data[..n];
    assert Encode(m) == b[..ARP_HDRLEN + n];
  }

  /** Packets with lengths within the limits fit both buffers the daemon builds them in. */
  lemma FitsBuffers(m: Arp)
    requires m.Sized() && m.hardLen <= ARP_MAXHWLEN && m.protLen <= ARP_MAXPRLEN
    ensures |Encode(m)| <= ARP_STRUCTLEN <= ARP_MAXLEN
  {
  }

  /** The reply `handle_req` builds: the answer travels in the target fields. */
  function ReplyTo(req: Arp, requester: seq<byte>, ownerIp: seq<byte>, ownerMac: seq<byte>): (r: Arp)
    requires req.Sized() && req.hardLen <= |requester| && req.hardLen <= |ownerMac| && req.protLen <= |ownerIp|
  {
    Built(req.hardType, req.protType, req.hardLen, req.protLen, ARPOP_REPLY,
          Some(requester), Some(ownerIp), Some(ownerMac), Some(req.tpa))
  }

  /** The reply to a valid request, whatever lengths it announces, survives the wire, is valid, names the
      requester's hardware address and the owner's IP address as the sender, and carries the requested
      address and the bytes at the owner's hardware address in the fields that `handle_reply` reads. */
  lemma ReplyIsValid(req: Arp, requester: seq<byte>, ownerIp: seq<byte>, ownerMac: seq<byte>, pad: seq<byte>)
    requires req.Sized() && ValidArp(req)
    requires req.hardLen <= |requester| && req.hardLen <= |ownerMac| && req.protLen <= |ownerIp|
    ensures var r := ReplyTo(req, requester, ownerIp, ownerMac);
            && (Decode(Encode(r) + pad) == Some(r) <==> |Encode(r) + pad| > ARP_HDRLEN)
            && ValidArp(r) && r.op == ARPOP_REPLY
            && r.sha == requester[..req.hardLen] && r.spa == ownerIp[..req.protLen]
            && r.tpa == req.tpa && r.tha == ownerMac[..req.hardLen]
            && |Encode(r)| <= ARP_STRUCTLEN
  {
    var r := ReplyTo(req, requester, ownerIp, ownerMac);
    assert r.tpa == req.tpa[..req.protLen] == req.tpa;
    ReadBackIff(r, pad);
    FitsBuffers(r);
  }

  lemma ReadBackIff(m: Arp, pad: seq<byte>)
    requires m.Sized()
    ensures Decode(Encode(m) + pad) == Some(m) <==> |Encode(m) + pad| > ARP_HDRLEN
  {
    if |Encode(m) + pad| > ARP_HDRLEN {
      WireRoundTrip(m, pad);
    }
  }
}
