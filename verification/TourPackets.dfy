/** What a tour packet looks like byte by byte, what a host does with any packet that arrives, and which
    arguments start a tour. */
module TourPackets {
  import opened Bytes
  import opened TourModel

  // ----- Addresses in a message

  /** The `k`-th address of a payload in the zeroed receive buffer. */
  function AddrAt(b: seq<byte>, k: nat): (ip: Ip)
    ensures forall i :: 0 <= i < 4 ==> ip[i] == if 8 + 4 * k + i < |b| then b[8 + 4 * k + i] else 0
  {
    seq(4, i requires 0 <= i < 4 => if 8 + 4 * k + i < |b| then b[8 + 4 * k + i] else 0)
  }

  lemma {:induction false} DecodeIpsAt(b: seq<byte>, k: nat)
    ensures k < |DecodeIps(b)| <==> 4 * k < |b|
    ensures 4 * k < |b| ==> DecodeIps(b)[k] == Fit(b[4 * k..], 4)
  {
    if |b| >= 4 && k > 0 {
      DecodeIpsAt(b[4..], k - 1);
      if 4 * k < |b| {
        assert b[4..][4 * (k - 1)..] == b[4 * k..];
      }
    } else if |b| >= 4 {
      assert b[..4] == Fit(b, 4);
    }
  }

  lemma {:induction false} EncodeIpsAt(ips: seq<Ip>, k: nat)
    requires k < |ips|
    ensures EncodeIps(ips)[4 * k..4 * k + 4] == ips[k]
  {
    var b := EncodeIps(ips);
    if k == 0 {
      assert b[..4] == ips[0];
    } else {
      EncodeIpsAt(ips[1..], k - 1);
      assert b[4..] == EncodeIps(ips[1..]);
      assert b[4 * k..4 * k + 4] == b[4..][4 * (k - 1)..4 * (k - 1) + 4];
    }
  }

  /** Reading an address that is not in the message gives zeros. */
  lemma ReadAt(b: seq<byte>, n: nat, k: nat)
    requires |b| >= 8 && k < n
    ensures UpTo(DecodeTour(b).ips, n)[k] == AddrAt(b, k)
  {
    var data := b[8..];
    DecodeIpsAt(data, k);
    if 4 * k < |data| {
      assert Fit(data[4 * k..], 4) == AddrAt(b, k);
    } else {
      assert AddrAt(b, k) == NO_IP;
    }
  }

  // ----- Sending

  /** The packet that takes a message to its next host: its headers by value, and then the addresses that are
      left, in their order. */
  lemma ForwardedBytes(self: Ip, t: Tour)
    requires 0 < t.len <= TOUR_MAXIPS
    ensures var q := ForwardTour(self, t); var n := t.len - 1; var port := AsU16(t.mcastport);
      && q.src == self && q.dst == (if n < |t.ips| then t.ips[n] else [0, 0, 0, 0])
      && q.ipLen == 28 + 4 * n && q.ipId == 0xF31F && |q.payload| == 8 + 4 * n
      && q.payload[..8] == t.mcastip + [port % 0x100, port / 0x100] + [n / 0x100, n % 0x100]
      && forall k :: 0 <= k < n ==> AddrAt(q.payload, k) == if k < |t.ips| then t.ips[k] else [0, 0, 0, 0]
  {
    var q := ForwardTour(self, t);
    var n := t.len - 1;
    var ips := UpTo(t.ips, n);
    LenBytes(n);
    assert q.payload[8..] == EncodeIps(ips);
    forall k | 0 <= k < n
      ensures AddrAt(q.payload, k) == ips[k]
    {
      EncodeIpsAt(ips, k);
      assert AddrAt(q.payload, k) == q.payload[8..][4 * k..4 * k + 4];
    }
  }

  /** The count of addresses travels in network order. */
  lemma LenBytes(n: nat)
    requires n < 0x8000
    ensures Native16(AsU16(LenToWire(n))) == [n / 0x100, n % 0x100]
  {
    var hi, lo := n / 0x100, n % 0x100;
    var x := Swap16(n);
    assert x == FromNative16(hi, lo);
    NativeParts(hi, lo);
    ShortTwice(x);
  }

  // ----- Receiving

  /** The count in a received message, as the signed number that the program compares. */
  function Count(b: seq<byte>): int
    requires |b| >= 8
  {
    var hi: int, lo: int := b[6], b[7];
    if hi < 0x80 then 0x100 * hi + lo else 0x100 * hi + lo - 0x1_0000
  }

  lemma CountIsLen(p: Packet)
    requires Acceptable(p)
    ensures FromWire(p).len == Count(p.payload)
  {
    var b := p.payload;
    var u := FromNative16(b[6], b[7]);
    ShortTwice(u);
    NativeParts(b[6], b[7]);
    var hi: int, lo: int := b[6], b[7];
    assert Swap16(u) == 0x100 * hi + lo;
    assert DecodeTour(b).len == AsShort(u);
    assert FromWire(p).len == AsShort(Swap16(u));
  }

  lemma ShortTwice(u: u16)
    ensures AsU16(AsShort(u)) == u
  {
  }

  lemma NativeParts(lo: byte, hi: byte)
    ensures var u := FromNative16(lo, hi); u % 0x100 == lo && u / 0x100 == hi
  {
  }

  /** A packet that is too short, says that it is, or has another id leaves the host as it was. */
  lemma OtherPackets(self: Ip, h: Host, p: Packet, given: BoundPort)
    requires |p.payload| < 8 || p.ipLen < 28 || p.ipId != 0xF31F
    ensures Receive(self, h, p, given) == (h, Ignored)
  {
  }

  /** Any other packet makes the host ping its sender and, if it has not been bound yet, join the group in
      the message. */
  lemma HostAfterPacket(self: Ip, h: Host, p: Packet, given: BoundPort)
    requires |p.payload| >= 8 && p.ipLen >= 28 && p.ipId == 0xF31F
    ensures var h' := Receive(self, h, p, given).0; var b := p.payload;
      && h'.binded && h'.touring == h.touring
      && h'.pings == (if p.src in h.pings then h.pings else [p.src] + h.pings)
      && (h.binded ==> h'.group == h.group && h'.binds == h.binds)
      && (!h.binded ==>
            && h'.binds == h.binds + 1
            && h'.group == Some(Group(b[..4], if b[4] == 0 && b[5] == 0 then given else PortIn(b))))
  {
    PortBytes(p.payload, given);
    HostAfter(self, h, p.src, FromWire(p), given);
    assert FromWire(p).mcastip == p.payload[..4] && FromWire(p).mcastport == DecodeTour(p.payload).mcastport;
  }

  lemma HostAfter(self: Ip, h: Host, src: Ip, t: Tour, given: BoundPort)
    ensures var h' := Process(self, h, src, t, given).0;
      && h'.binded && h'.touring == h.touring
      && h'.pings == (if src in h.pings then h.pings else [src] + h.pings)
      && (h.binded ==> h'.group == h.group && h'.binds == h.binds)
      && (!h.binded ==> h'.binds == h.binds + 1 && h'.group == Some(Group(t.mcastip, BindPort(t.mcastport, given))))
  {
  }

  /** The port in a message, as the host that put it there had it from the system. */
  function PortIn(b: seq<byte>): int
    requires |b| >= 8
  {
    var lo: int, hi: int := b[4], b[5];
    lo + 0x100 * hi
  }

  lemma PortBytes(b: seq<byte>, given: BoundPort)
    requires |b| >= 8
    ensures BindPort(DecodeTour(b).mcastport, given) == if b[4] == 0 && b[5] == 0 then given else PortIn(b)
  {
    var u := FromNative16(b[4], b[5]);
    ShortBits(u);
    assert u == PortIn(b) && (u == 0 <==> b[4] == 0 && b[5] == 0);
  }

  /** Sign extension keeps the sixteen bits. */
  lemma ShortBits(u: u16)
    ensures ToU16(AsShort(u)) == u
  {
    var x: int := u;
    if x >= 0x8000 {
      assert (x - 0x1_0000) % 0x1_0000 == x;
    }
  }

  /** And it passes the message on to the last address in it, without that address and otherwise as it was;
      or, when no address is left, announces the end to the group. A count beyond what a packet can hold
      points past the receive buffer. */
  lemma OutputAfterPacket(self: Ip, h: Host, p: Packet, given: BoundPort)
    requires |p.payload| >= 8 && p.ipLen >= 28 && p.ipId == 0xF31F
    ensures var (h', out) := Receive(self, h, p, given); var b, n := p.payload, Count(p.payload);
      && (n > 16376 ==> out == OutOfBounds)
      && (0 < n <= 16376 ==>
            && out.Forwarded?
            && var q := out.packet;
            && q.src == self && q.dst == AddrAt(b, n - 1)
            && q.ipLen == 28 + 4 * (n - 1) && q.ipId == 0xF31F && |q.payload| == 8 + 4 * (n - 1)
            && q.payload[..8] == b[..6] + [(n - 1) / 0x100, (n - 1) % 0x100]
            && forall k :: 0 <= k < n - 1 ==> AddrAt(q.payload, k) == AddrAt(b, k))
      && (n <= 0 && h'.group.Some? ==> out == Announced(h'.group.value))
  {
    CountIsLen(p);
    var n := Count(p.payload);
    if 0 < n <= 16376 {
      ForwardedFrom(self, p, n);
    }
  }

  lemma ForwardedFrom(self: Ip, p: Packet, n: int)
    requires Acceptable(p) && FromWire(p).len == n && 0 < n <= TOUR_MAXIPS
    ensures var q := ForwardTour(self, FromWire(p)); var b := p.payload;
      && q.src == self && q.dst == AddrAt(b, n - 1)
      && q.ipLen == 28 + 4 * (n - 1) && q.ipId == 0xF31F && |q.payload| == 8 + 4 * (n - 1)
      && q.payload[..8] == b[..6] + [(n - 1) / 0x100, (n - 1) % 0x100]
      && forall k :: 0 <= k < n - 1 ==> AddrAt(q.payload, k) == AddrAt(b, k)
  {
    var t, b := FromWire(p), p.payload;
    ForwardedBytes(self, t);
    HeaderKept(b);
    forall k | 0 <= k < n
      ensures AddrAt(b, k) == if k < |t.ips| then t.ips[k] else [0, 0, 0, 0]
    {
      ReadAt(b, n, k);
    }
  }

  lemma HeaderKept(b: seq<byte>)
    requires |b| >= 8
    ensures var t := DecodeTour(b); var port := AsU16(t.mcastport);
      b[..6] == t.mcastip + [port % 0x100, port / 0x100]
  {
    ShortTwice(FromNative16(b[4], b[5]));
    NativeParts(b[4], b[5]);
  }

  // ----- Arguments

  ghost predicate Injective(dns: map<string, Ip>) {
    forall a, b :: a in dns && b in dns && dns[a] == dns[b] ==> a == b
  }

  /** Two hosts that follow each other on the route are different ones. */
  ghost predicate HopsMove(names: seq<string>, dns: map<string, Ip>)
    requires Resolves(names, dns)
  {
    forall v :: 1 <= v < |names| ==> Route(names, dns)[v - 1] != Route(names, dns)[v]
  }

  function FirstAt(names: seq<string>, x: string): (k: nat)
    requires x in names
    ensures k < |names| && names[k] == x
  {
    if names[0] == x then 0 else 1 + FirstAt(names[1..], x)
  }

  /** Gives each name an address of its own. */
  function Numbered(names: seq<string>): map<string, Ip>
    requires |names| <= 0x1_0000
  {
    map x | x in names :: Address(FirstAt(names, x))
  }

  function Address(k: nat): Ip
    requires k < 0x1_0000
  {
    [10, 0, k / 0x100, k % 0x100]
  }

  lemma NumberedIsInjective(names: seq<string>)
    requires |names| <= 0x1_0000
    ensures Injective(Numbered(names)) && Resolves(names, Numbered(names))
  {
    var dns := Numbered(names);
    forall a, b | a in dns && b in dns && dns[a] == dns[b]
      ensures a == b
    {
      var i, j := FirstAt(names, a), FirstAt(names, b);
      assert Address(i)[2] == Address(j)[2] && Address(i)[3] == Address(j)[3];
      assert i == j;
    }
  }

  /** Exactly those lists of names are accepted that fit an IP packet and, however the names resolve to
      addresses of their own, never send the message from a host to itself. */
  lemma ArgsAcceptedIff(names: seq<string>)
    ensures ValidArgs(names) <==>
      && IP_HDRLEN + TourSize(|names|) <= IP_MAXPACKET
      && forall dns :: Injective(dns) && Resolves(names, dns) ==> HopsMove(names, dns)
  {
    if IP_HDRLEN + TourSize(|names|) <= IP_MAXPACKET && !ValidArgs(names) {
      var i :| 1 <= i < |names| && names[i - 1] == names[i];
      var dns := Numbered(names);
      NumberedIsInjective(names);
      assert Route(names, dns)[i - 1] == Route(names, dns)[i];
      assert !HopsMove(names, dns);
    }
  }
}
