/** What the daemon makes of the bytes that arrive and what bytes it sends: every frame by its position and
    value on the wire. */
module ArpFrames {
  import opened Bytes
  import opened CacheModel
  import opened ArpWire
  import opened ArpSpec
  import opened ArpInvariant

  // ----- Reading

  /** The bytes of a payload that pass the length checks and `valid_arp`. */
  predicate ValidPayload(b: seq<byte>) {
    && |b| > 10
    && (var hl: nat, pl: nat := b[6], b[7]; |b| >= 10 + 2 * hl + 2 * pl)
    && b[..6] == [0xDE, 0xAD, 0, 1, 0, 2]
    && b[6] <= 8 && b[7] <= 16
    && b[8] == 0 && (b[9] == 1 || b[9] == 2)
  }

  /** The four addresses in the data. */
  function Sha(b: seq<byte>): seq<byte>
    requires ValidPayload(b)
  {
    b[10..10 + b[6]]
  }

  function Spa(b: seq<byte>): seq<byte>
    requires ValidPayload(b)
  {
    b[10 + b[6]..10 + b[6] + b[7]]
  }

  function Tha(b: seq<byte>): seq<byte>
    requires ValidPayload(b)
  {
    b[10 + b[6] + b[7]..10 + 2 * b[6] + b[7]]
  }

  function Tpa(b: seq<byte>): seq<byte>
    requires ValidPayload(b)
  {
    b[10 + 2 * b[6] + b[7]..10 + 2 * b[6] + 2 * b[7]]
  }

  lemma HostIs(hi: byte, lo: byte, x: u16)
    ensures Host16(hi, lo) == x <==> hi == x / 0x100 && lo == x % 0x100
  {
  }

  /** Exactly those payloads are handled, with the fields at their places. */
  lemma ValidPayloadIff(b: seq<byte>)
    ensures var r := Decode(b);
      && (r.Some? && ValidArp(r.value) <==> ValidPayload(b))
      && (ValidPayload(b) ==>
            && r.value.hardLen == b[6] && r.value.protLen == b[7] && r.value.op == b[9]
            && r.value.sha == Sha(b) && r.value.spa == Spa(b) && r.value.tha == Tha(b) && r.value.tpa == Tpa(b))
  {
    if |b| > 10 {
      HostIs(b[0], b[1], ARP_ID);
      HostIs(b[2], b[3], ARPHRD_ETHER);
      HostIs(b[4], b[5], PF_INET);
      HostIs(b[8], b[9], ARPOP_REQUEST);
      HostIs(b[8], b[9], ARPOP_REPLY);
      assert b[..6] == [b[0], b[1], b[2], b[3], b[4], b[5]];
    }
  }

  // ----- Writing

  /** The bytes of a packet that `build_arp` builds: the header by value, then the addresses, with zeros for
      a null argument. */
  lemma BuiltBytes(op: u16, hl: byte, pl: byte, sha: seq<byte>, spa: seq<byte>, tha: Option<seq<byte>>, tpa: seq<byte>)
    requires op < 0x100 && hl <= |sha| && pl <= |spa| && pl <= |tpa| && (tha.Some? ==> hl <= |tha.value|)
    ensures Encode(Built(ARPHRD_ETHER, PF_INET, hl, pl, op, Some(sha), Some(spa), tha, Some(tpa)))
         == [0xDE, 0xAD, 0, 1, 0, 2, hl, pl, 0, op]
            + sha[..hl] + spa[..pl] + (match tha case None => Zeros(hl) case Some(a) => a[..hl]) + tpa[..pl]
  {
    var m := Built(ARPHRD_ETHER, PF_INET, hl, pl, op, Some(sha), Some(spa), tha, Some(tpa));
    HeaderBytes(m);
    assert Encode(m) == Header(m) + m.sha + m.spa + m.tha + m.tpa;
  }

  lemma HeaderBytes(m: Arp)
    requires m.id == ARP_ID && m.hardType == ARPHRD_ETHER && m.protType == PF_INET && m.op < 0x100
    ensures Header(m) == [0xDE, 0xAD, 0, 1, 0, 2, m.hardLen, m.protLen, 0, m.op]
  {
    assert Net16(m.id) == [0xDE, 0xAD] && Net16(m.hardType) == [0, 1] && Net16(m.protType) == [0, 2];
    assert Net16(m.op) == [0, m.op];
  }

  /** Every request goes to the broadcast address, from the device's own, and its bytes are these. */
  lemma RequestOnTheWire(dev: Device, target: Ip)
    ensures var f := RequestFrame(dev, target);
      && f.dst == [0xFF, 0xFF, 0xFF, 0xFF, 0xFF, 0xFF] && f.src == dev.mac
      && f.payload == [0xDE, 0xAD, 0, 1, 0, 2, 6, 4, 0, 1] + dev.mac + dev.ip + [0, 0, 0, 0, 0, 0] + target
  {
    BuiltBytes(1, 6, 4, dev.mac, dev.ip, None, target);
    assert dev.mac[..6] == dev.mac && dev.ip[..4] == dev.ip && target[..4] == target;
    assert Zeros(6) == [0, 0, 0, 0, 0, 0];
  }

  // ----- Receiving

  /** Anything else that fits the buffer changes nothing. */
  lemma OthersAreIgnored(devices: seq<Device>, d: Daemon, f: Frame, src: LinkSource)
    requires |f.payload| <= 58 && !ValidPayload(f.payload)
    ensures OnFrame(devices, d, f, src) == Ok(d)
  {
    ValidPayloadIff(f.payload);
  }

  /** A request for another host's address changes nothing: neither is it answered nor its sender learnt. */
  lemma OverheardRequest(devices: seq<Device>, d: Daemon, f: Frame, src: LinkSource)
    requires |f.payload| <= 58 && ValidPayload(f.payload) && f.payload[9] == 1 && f.payload[7] == 4
    requires forall k :: 0 <= k < |devices| ==> devices[k].ip != Tpa(f.payload)
    ensures OnFrame(devices, d, f, src) == Ok(d)
  {
    ValidPayloadIff(f.payload);
  }

  /** The socket address of an IP. */
  function KeyBytes(ip: Ip): SockAddr {
    SockAddr(2, 0, ip, [0, 0, 0, 0, 0, 0, 0, 0])
  }

  lemma KeyIs(ip: Ip)
    ensures KeyOf(ip) == KeyBytes(ip)
  {
    assert Zeros(8) == [0, 0, 0, 0, 0, 0, 0, 0];
  }

  /** The reply to a request for the address of device `dev` that came from `requester`, sent from `out`. */
  function ReplyBytes(b: seq<byte>, requester: Mac, dev: Device, out: Mac): Frame
    requires ValidPayload(b) && b[6] <= 6
  {
    Frame(requester, out,
          [0xDE, 0xAD, 0, 1, 0, 2, b[6], 4, 0, 2] + requester[..b[6]] + dev.ip + dev.mac[..b[6]] + Tpa(b))
  }

  /** What a request teaches about its sender. */
  function SenderEntry(ip: Ip, src: LinkSource, out: Mac): Entry {
    Entry(KeyBytes(ip), 0, Complete, HwAddr(src.ifindex, 1, 6, out + [0, 0], src.hatype, 6, src.addr + [0, 0]))
  }

  /** A request for one of this host's addresses is answered with one frame, and its sender's address is
      added, resolved, to the list exactly when no entry has it. */
  lemma RequestForUs(devices: seq<Device>, d: Daemon, f: Frame, src: LinkSource, dev: Device, out: Mac)
    requires |f.payload| <= 58 && ValidPayload(f.payload) && f.payload[9] == 1 && f.payload[7] == 4 && f.payload[6] <= 6
    requires IsDestination(devices, Tpa(f.payload)) == Some(dev) && MacByIfindex(devices, src.ifindex) == Some(out)
    ensures var r := OnFrame(devices, d, f, src);
      var spa: Ip := Spa(f.payload);
      && r.Ok? && r.d.open == d.open && r.d.log == d.log
      && r.d.sent == d.sent + [ReplyBytes(f.payload, f.src, dev, out)]
      && (if exists i :: 0 <= i < |d.list| && d.list[i].ipaddress == KeyBytes(spa)
          then r.d.list == d.list && r.d.stale == d.stale
          else r.d.list == [SenderEntry(spa, src, out)] + d.list && !r.d.stale)
  {
    var b := f.payload;
    ValidPayloadIff(b);
    var m := Decode(b).value;
    KeyIs(m.spa);
    SenderIs(m, src, out);
    ReplyIs(b, m, f.src, dev, out);
  }

  lemma SenderIs(m: Arp, src: LinkSource, out: Mac)
    requires m.Sized() && m.protLen == 4
    ensures ReverseEntry(m, src, out) == SenderEntry(m.spa, src, out)
  {
    KeyIs(m.spa);
    assert Pad8(out) == out + [0, 0] && Pad8(src.addr) == src.addr + [0, 0];
  }

  lemma ReplyIs(b: seq<byte>, m: Arp, requester: Mac, dev: Device, out: Mac)
    requires ValidPayload(b) && b[6] <= 6 && b[7] == 4 && Decode(b) == Some(m) && m.tpa == Tpa(b)
    requires m.hardLen == b[6] && m.protLen == 4 && ValidArp(m)
    ensures Frame(requester, out, Encode(ReplyTo(m, requester, dev.ip, dev.mac))) == ReplyBytes(b, requester, dev, out)
  {
    BuiltBytes(2, m.hardLen, 4, requester, dev.ip, Some(dev.mac), m.tpa);
    assert dev.ip[..4] == dev.ip && m.tpa[..4] == m.tpa;
  }

  /** The address that a reply answers for: protocol bytes after the fourth run into the padding. */
  function AnsweredKey(pa: seq<byte>): SockAddr {
    SockAddr(2, 0, Fit(pa, 12)[..4], Fit(pa, 12)[4..])
  }

  /** What a reply says about it: the interface it came in on, as much of that device's hardware address as
      the packet's length says, and the target hardware address in the packet. */
  function AnsweredHw(b: seq<byte>, src: LinkSource, out: Mac): HwAddr
    requires ValidPayload(b) && b[6] <= 6
  {
    HwAddr(src.ifindex, 0, 6, Fit(out[..b[6]], 8), 0x100, b[6], Fit(Tha(b), 8))
  }

  /** A reply completes exactly the waiting entries of its address, answers and closes their clients, and
      does nothing else. */
  lemma ReplyForAnyone(devices: seq<Device>, d: Daemon, f: Frame, src: LinkSource, out: Mac)
    requires Inv(d)
    requires |f.payload| <= 58 && ValidPayload(f.payload) && f.payload[9] == 2 && f.payload[6] <= 6 && f.payload[7] <= 12
    requires MacByIfindex(devices, src.ifindex) == Some(out)
    ensures var r := OnFrame(devices, d, f, src);
      var key, hw := AnsweredKey(Tpa(f.payload)), AnsweredHw(f.payload, src, out);
      && r.Ok? && r.d.sent == d.sent && r.d.stale == d.stale && |r.d.list| == |d.list|
      && (forall j :: 0 <= j < |d.list| ==>
            r.d.list[j] == if d.list[j].ipaddress == key && d.list[j].state.Incomplete?
                           then Entry(key, -1, Complete, hw) else d.list[j])
      && r.d.log == d.log + Answers(d.list, d.open, 0, key, hw)
  {
    var b := f.payload;
    ValidPayloadIff(b);
    var m := Decode(b).value;
    var key, hw := KeyFrom(m.tpa), LearntFromReply(m, src, out);
    HwIs(b, m, src, out);
    CompleteFromEffect(d, 0, key, hw);
    CompleteFromClients(d, 0, key, hw);
    CompleteFromLog(d, 0, key, hw);
  }

  lemma HwIs(b: seq<byte>, m: Arp, src: LinkSource, out: Mac)
    requires ValidPayload(b) && b[6] <= 6 && m.Sized() && m.hardLen == b[6] && m.tha == Tha(b)
    ensures LearntFromReply(m, src, out) == AnsweredHw(b, src, out)
  {
    assert Pad8(out[..b[6]]) == Fit(out[..b[6]], 8) && Pad8(m.tha) == Fit(m.tha, 8);
  }
}
