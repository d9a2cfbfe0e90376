/** The tour message, what a host does with one, and how a tour is started (tour.c, tour.h, the thread
    list of ping.c). */
module TourModel {
  import opened Bytes

  const IP_MAXPACKET := 65535
  const IP_HDRLEN := 20
  const TOUR_HDRLEN := 8
  const IN_ADDR_LEN := 4
  const TOUR_MAXPACKET := IP_MAXPACKET - IP_HDRLEN
  const TOUR_MAXIPS := (TOUR_MAXPACKET - TOUR_HDRLEN) / IN_ADDR_LEN
  const IPID_TOUR: u16 := 0xF31F
  const MCAST_ADDR: Ip := [233, 3, 3, 3]

  /** A `struct tourhdr` with its list of addresses. The port is kept in network order throughout; the
      length is in host order at a host and in network order on the wire. */
  datatype Tour = Tour(mcastip: Ip, mcastport: short, len: short, ips: seq<Ip>)

  /** The raw IP packet that carries the bytes of a tour message; the length and id fields as `ntohs`
      reads them. */
  datatype Packet = Packet(src: Ip, dst: Ip, ipLen: u16, ipId: u16, payload: seq<byte>)

  function TourSize(len: nat): nat {
    TOUR_HDRLEN + len * IN_ADDR_LEN
  }

  /** The number of bytes `recvfrom` returns. */
  function Received(p: Packet): nat {
    IP_HDRLEN + |p.payload|
  }

  /** A port that a socket is bound to, as the system reports it; never 0. */
  type BoundPort = x: int | 0 < x < 0x1_0000 witness 1

  /** A multicast group joined on a port. */
  datatype Group = Group(ip: Ip, port: BoundPort)

  /** The part of a running tour program that matters: whether it is bound, what it has joined, how often
      it called bind, whom it pings, and whether it is still in its receive loop. */
  datatype Host = Host(binded: bool, group: Option<Group>, binds: nat, pings: seq<Ip>, touring: bool)

  const IDLE := Host(false, None, 0, [], true)
  const DOWN := Host(false, None, 0, [], false)

  /** What a host does with a packet. A length that points past the receive buffer is out of bounds. */
  datatype Output = Ignored | Forwarded(packet: Packet) | Announced(group: Group) | OutOfBounds

  // ----- Fields on the wire

  /** `tour->len = htons(tour->len)`. */
  function LenToWire(len: short): short {
    AsShort(Htons(AsU16(len)))
  }

  /** `tour->len = ntohs(tour->len)`. */
  function LenFromWire(len: short): short {
    AsShort(Swap16(AsU16(len)))
  }

  lemma LenRoundTrip(len: short)
    ensures LenFromWire(LenToWire(len)) == len
  {
    SwapTwice(AsU16(len));
  }

  /** `bind_port` on a port carried in an `int`: the 16 bits of it, or the port that the system assigns when
      those are 0. */
  function BindPort(port: int, given: BoundPort): BoundPort {
    if ToU16(port) == 0 then given else ToU16(port)
  }

  /** A port survives the signed `short` of the message and the sign extension to `int`. */
  lemma PortRoundTrip(port: BoundPort, given: BoundPort)
    ensures BindPort(AsShort(port), given) == port
  {
    if port >= 0x8000 {
      assert (port - 0x1_0000) % 0x1_0000 == port;
    }
  }

  // ----- The message in memory

  /** A 16-bit value as a little-endian host keeps it. */
  function Native16(x: u16): (b: seq<byte>)
    ensures |b| == 2
  {
    [x % 0x100, x / 0x100]
  }

  function FromNative16(lo: byte, hi: byte): u16 {
    lo + 0x100 * hi
  }

  function EncodeIps(ips: seq<Ip>): (b: seq<byte>)
    ensures |b| == IN_ADDR_LEN * |ips|
  {
    if ips == [] then [] else ips[0] + EncodeIps(ips[1..])
  }

  /** The addresses in received bytes; the rest of the buffer, and so of a last partial address, is zero. */
  function DecodeIps(b: seq<byte>): (ips: seq<Ip>) {
    if b == [] then []
    else if |b| < IN_ADDR_LEN then [Fit(b, IN_ADDR_LEN)]
    else [b[..IN_ADDR_LEN]] + DecodeIps(b[IN_ADDR_LEN..])
  }

  /** The bytes of a `struct tourhdr` and its addresses. */
  function EncodeTour(t: Tour): (b: seq<byte>)
    ensures |b| == TourSize(|t.ips|)
  {
    t.mcastip + Native16(AsU16(t.mcastport)) + Native16(AsU16(t.len)) + EncodeIps(t.ips)
  }

  function DecodeTour(b: seq<byte>): Tour
    requires |b| >= TOUR_HDRLEN
  {
    Tour(b[..4], AsShort(FromNative16(b[4], b[5])), AsShort(FromNative16(b[6], b[7])), DecodeIps(b[TOUR_HDRLEN..]))
  }

  lemma {:induction false} IpsRoundTrip(ips: seq<Ip>)
    ensures DecodeIps(EncodeIps(ips)) == ips
  {
    if ips != [] {
      var b := EncodeIps(ips);
      IpsRoundTrip(ips[1..]);
      assert b[..IN_ADDR_LEN] == ips[0] && b[IN_ADDR_LEN..] == EncodeIps(ips[1..]);
    }
  }

  lemma NativeRoundTrip(x: short)
    ensures AsShort(FromNative16(Native16(AsU16(x))[0], Native16(AsU16(x))[1])) == x
  {
  }

  /** A message is read back from its bytes as it was. */
  lemma TourRoundTrip(t: Tour)
    ensures DecodeTour(EncodeTour(t)) == t
  {
    var b := EncodeTour(t);
    assert b[..4] == t.mcastip;
    assert b[4..6] == Native16(AsU16(t.mcastport)) && b[6..8] == Native16(AsU16(t.len));
    assert b[4] == b[4..6][0] && b[5] == b[4..6][1] && b[6] == b[6..8][0] && b[7] == b[6..8][1];
    assert b[TOUR_HDRLEN..] == EncodeIps(t.ips);
    NativeRoundTrip(t.mcastport);
    NativeRoundTrip(t.len);
    IpsRoundTrip(t.ips);
  }

  // ----- Forwarding and receiving

  const NO_IP: Ip := [0, 0, 0, 0]

  /** The first `n` addresses of the zeroed buffer that holds `ips`. */
  function UpTo(ips: seq<Ip>, n: nat): (r: seq<Ip>)
    ensures |r| == n
    ensures forall k :: 0 <= k < n ==> r[k] == if k < |ips| then ips[k] else NO_IP
  {
    if n <= |ips| then ips[..n] else ips + seq(n - |ips|, _ => NO_IP)
  }

  /** `forward_tour` and `send_ip`: pop the last address and send the rest there. */
  function ForwardTour(self: Ip, t: Tour): Packet
    requires 0 < t.len <= TOUR_MAXIPS
  {
    var n := t.len - 1;
    Packet(self, UpTo(t.ips, t.len)[n], ToU16(IP_HDRLEN + TourSize(n)), IPID_TOUR,
           EncodeTour(Tour(t.mcastip, t.mcastport, LenToWire(n), UpTo(t.ips, n))))
  }

  /** The checks of the receive loop. */
  predicate Acceptable(p: Packet) {
    && Received(p) >= IP_HDRLEN + TOUR_HDRLEN
    && p.ipLen >= IP_HDRLEN + TOUR_HDRLEN
    && p.ipId == IPID_TOUR
  }

  /** `create_pingt`. */
  function AddPing(pings: seq<Ip>, tgt: Ip): (r: seq<Ip>)
    ensures forall x :: x in r <==> x in pings || x == tgt
  {
    if tgt in pings then pings else [tgt] + pings
  }

  /** Binding and joining, on the first message only. */
  function Join(h: Host, t: Tour, given: BoundPort): Host {
    if h.binded then h
    else h.(binded := true, group := Some(Group(t.mcastip, BindPort(t.mcastport, given))), binds := h.binds + 1)
  }

  /** The message as the receiving host reads it. */
  function FromWire(p: Packet): Tour
    requires Acceptable(p)
  {
    var t := DecodeTour(p.payload);
    t.(len := LenFromWire(t.len))
  }

  /** The receive step of `run_tour` when no system call fails; `given` is the port the system gives to
      a socket bound to port 0. */
  function Receive(self: Ip, h: Host, p: Packet, given: BoundPort): (Host, Output) {
    if !Acceptable(p) then (h, Ignored) else Process(self, h, p.src, FromWire(p), given)
  }

  /** Join, ping the sender, and pass the message on or announce the end. */
  function Process(self: Ip, h: Host, src: Ip, t: Tour, given: BoundPort): (Host, Output) {
    var h1 := Join(h, t, given);
    var h2 := h1.(pings := AddPing(h1.pings, src));
    if t.len > TOUR_MAXIPS then (h2, OutOfBounds)
    else if t.len > 0 then (h2, Forwarded(ForwardTour(self, t)))
    else (h2, match h2.group case Some(g) => Announced(g) case None => Ignored)
  }

  // ----- Starting

  /** `valid_args`, on the host names. */
  predicate ValidArgs(names: seq<string>) {
    |names| <= TOUR_MAXIPS && forall i :: 1 <= i < |names| ==> names[i - 1] != names[i]
  }

  function Reverse(s: seq<Ip>): (r: seq<Ip>)
    ensures |r| == |s| && forall i :: 0 <= i < |s| ==> r[i] == s[|s| - 1 - i]
  {
    if s == [] then [] else Reverse(s[1..]) + [s[0]]
  }

  predicate Resolves(names: seq<string>, dns: map<string, Ip>) {
    forall i :: 0 <= i < |names| ==> names[i] in dns
  }

  /** The addresses to be visited, in order. */
  function Route(names: seq<string>, dns: map<string, Ip>): (r: seq<Ip>)
    requires Resolves(names, dns)
    ensures |r| == |names| && forall i :: 0 <= i < |r| ==> r[i] == dns[names[i]]
  {
    if names == [] then [] else
      assert forall i :: 1 <= i < |names| ==> names[i] == names[1..][i - 1];
      [dns[names[0]]] + Route(names[1..], dns)
  }

  /** The message `start_tour` makes: the addresses in reverse order. */
  function InitialTour(route: seq<Ip>, port: BoundPort): Tour {
    Tour(MCAST_ADDR, AsShort(port), ToShort(|route|), Reverse(route))
  }

  /** The source after `start_tour`. */
  function Source(port: BoundPort): Host {
    Host(true, Some(Group(MCAST_ADDR, port)), 1, [], true)
  }
}
