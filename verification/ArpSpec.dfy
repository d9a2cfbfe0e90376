/** The ARP daemon of arp.c as a transition function on values: the cache as a sequence of entries,
    the open client descriptors, what was done to them, and the frames sent. */
module ArpSpec {
  import opened Bytes
  import opened CacheModel
  import opened ArpWire

  const AF_INET := 2
  const ETH_ALEN := 6
  /** `htons(ARPHRD_ETHER)`, which `handle_reply` stores. */
  const ETHER_SWAPPED := 0x100

  /** A `struct hwa_info`. */
  datatype Device = Device(mac: Mac, ifindex: int, ip: Ip)

  datatype Frame = Frame(dst: seq<byte>, src: Mac, payload: seq<byte>)

  /** What the kernel reports about a received frame, a `struct sockaddr_ll`. */
  datatype LinkSource = LinkSource(ifindex: int, hatype: nat, addr: Mac)

  /** What `recv` yields on a client's socket: an error or a message of the wrong size, or a request,
      with the number of devices on which the broadcast would succeed before one fails. */
  datatype Request = Unusable | Areq(addr: SockAddr, reach: nat)

  /** Calls on client descriptors, in the order they were made. */
  datatype Event =
    | Accepted(fd: int)
    | Answered(fd: int, key: SockAddr, hw: HwAddr)
    | Closed(fd: int)

  /** `stale` says that the head of the list has a dangling back link. */
  datatype Daemon = Daemon(
    list: seq<Entry>, stale: bool, open: set<int>, log: seq<Event>, sent: seq<Frame>)

  /** A step may leave defined behaviour: a write through a freed node, a list turned into a cycle, a
      copy from a null hardware address, or a copy past the end of a field or buffer or of bytes never
      set. */
  datatype Result = Ok(d: Daemon) | UseAfterFree | CyclicList | NullMac | OutOfBounds

  /** Two repairs of the removal that the source does not have; with both off it is the code. */
  datatype Repair = Repair(clearPrev: bool, byPointer: bool)

  const AS_WRITTEN := Repair(false, false)

  const BOOT := Daemon([], false, {}, [], [])

  // ----- Client descriptors

  /** `send` of a hardware address; it reaches nobody when the descriptor is not open. */
  function Answer(d: Daemon, fd: int, key: SockAddr, hw: HwAddr): Daemon {
    if fd in d.open then d.(log := d.log + [Answered(fd, key, hw)]) else d
  }

  function CloseFd(d: Daemon, fd: int): Daemon {
    if fd in d.open then d.(log := d.log + [Closed(fd)], open := d.open - {fd}) else d
  }

  /** Replaces the entry at an index. */
  function Put(d: Daemon, i: nat, e: Entry): Daemon
    requires i < |d.list|
  {
    d.(list := d.list[i := e])
  }

  function Prepend(d: Daemon, e: Entry): Daemon {
    d.(list := [e] + d.list, stale := false)
  }

  // ----- Accepting a client (arp.c:149-173)

  /** `accept` returned `sfd`, -1 for a failure. A node found by its socket is added a second time. */
  function Accept(d: Daemon, sfd: int): Result {
    if FindSocket(d.list, sfd) < |d.list| then CyclicList
    else
      var d' := Prepend(d, Entry(UNSET, sfd, Connection, NO_HW));
      Ok(if sfd == -1 then d' else d'.(open := d.open + {sfd}, log := d.log + [Accepted(sfd)]))
  }

  // ----- A readable client (arp.c:224-300)

  /** The request broadcast on one device. */
  function RequestOn(dev: Device, target: Ip): (m: Arp)
    ensures m.Sized() && ValidArp(m) && m.op == ARPOP_REQUEST && m.hardLen == 6 && m.protLen == 4
  {
    Built(ARPHRD_ETHER, PF_INET, 6, 4, ARPOP_REQUEST, Some(dev.mac), Some(dev.ip), None, Some(target))
  }

  const BROADCAST: seq<byte> := [0xFF, 0xFF, 0xFF, 0xFF, 0xFF, 0xFF]

  function RequestFrame(dev: Device, target: Ip): Frame {
    Frame(BROADCAST, dev.mac, Encode(RequestOn(dev, target)))
  }

  function Broadcast(devices: seq<Device>, target: Ip): (fs: seq<Frame>)
    ensures |fs| == |devices|
    ensures forall i :: 0 <= i < |fs| ==> fs[i] == RequestFrame(devices[i], target)
  {
    if devices == [] then [] else [RequestFrame(devices[0], target)] + Broadcast(devices[1..], target)
  }

  /** `handle_areq` on the entry at index `i`; the flag says whether the entry is kept. */
  function HandleAreq(devices: seq<Device>, d: Daemon, i: nat, r: Request): (Daemon, bool)
    requires i < |d.list|
  {
    match r
    case Unusable => (d, false)
    case Areq(addr, reach) =>
      if addr.family != AF_INET then (d, false)
      else
        var k := FindKey(d.list, addr);
        if k < |d.list| && d.list[k].state.Complete? then
          (Answer(d, d.list[i].socket, addr, d.list[k].hw), false)
        else
          var d' := Put(d, i, d.list[i].(state := Incomplete, ipaddress := addr));
          if reach < |devices|
          then (d'.(sent := d.sent + Broadcast(devices[..reach], addr.ip)), false)
          else (d'.(sent := d.sent + Broadcast(devices, addr.ip)), true)
  }

  /** `removeFromCache` of the entry at index `i`. */
  function Remove(fix: Repair, d: Daemon, i: nat): Result
    requires i < |d.list|
  {
    var k := Victim(fix, d.list, i);
    if k == 0 && d.stale then UseAfterFree
    else Ok(d.(list := Without(d.list, k),
               stale := if k == 0 then !fix.clearPrev && |d.list| > 1 else d.stale))
  }

  /** The index of the entry that is unlinked when the one at `i` is to go: never a later one. */
  function Victim(fix: Repair, s: seq<Entry>, i: nat): (k: nat)
    requires i < |s|
    ensures k <= i && SameValue(s[k], s[i])
    ensures fix.byPointer ==> k == i
    ensures !fix.byPointer ==> k == FindValue(s, s[i])
  {
    if fix.byPointer then i else
      assert SameValue(s[i], s[i]);
      FindValue(s, s[i])
  }

  /** `close(rm->domain_socket); rm->domain_socket = -1;` */
  function CloseEntry(d: Daemon, i: nat): (d': Daemon)
    requires i < |d.list|
    ensures |d'.list| == |d.list|
  {
    Put(CloseFd(d, d.list[i].socket), i, d.list[i].(socket := -1))
  }

  function RequestAt(d: Daemon, fd: int, requests: map<int, Request>): Request {
    if fd in d.open && fd in requests then requests[fd] else Unusable
  }

  /** What a readable client gets: its request is handled if it has not made one yet; anything it sends
      or its hanging up later means that it is to be dropped. */
  function Serve(devices: seq<Device>, d: Daemon, i: nat, requests: map<int, Request>): (r: (Daemon, bool))
    requires i < |d.list|
    ensures |r.0.list| == |d.list|
  {
    var e := d.list[i];
    if e.state.Connection? then HandleAreq(devices, d, i, RequestAt(d, e.socket, requests)) else (d, false)
  }

  /** Closing and removing the entry at index `i`. */
  function Drop(fix: Repair, d: Daemon, i: nat): (r: Result)
    requires i < |d.list|
    ensures r.Ok? ==> |r.d.list| == |d.list| - 1
  {
    Remove(fix, CloseEntry(d, i), i)
  }

  /** The body of the sweep for the entry at index `i`; the flag says whether a node was unlinked. */
  function SweepOne(fix: Repair, devices: seq<Device>, d: Daemon, i: nat,
                    readable: set<int>, requests: map<int, Request>): (r: (Result, bool))
    requires i < |d.list|
    ensures r.0.Ok? ==> |r.0.d.list| == |d.list| - (if r.1 then 1 else 0)
  {
    var e := d.list[i];
    if e.state.Complete? || e.socket !in readable then (Ok(d), false)
    else
      var (d1, keep) := Serve(devices, d, i, requests);
      if keep then (Ok(d1), false) else (Drop(fix, d1, i), true)
  }

  /** The sweep over the readable clients from index `i` on (arp.c:115-147). After an unlinking the
      entry that followed the handled one is at the same index. */
  function Sweep(fix: Repair, devices: seq<Device>, d: Daemon, i: nat,
                 readable: set<int>, requests: map<int, Request>): Result
    decreases |d.list| - i
  {
    if i >= |d.list| then Ok(d)
    else
      var (r, unlinked) := SweepOne(fix, devices, d, i, readable, requests);
      if !r.Ok? then r
      else Sweep(fix, devices, r.d, if unlinked then i else i + 1, readable, requests)
  }

  // ----- Device lookups

  function FirstDevice(devices: seq<Device>, p: Device -> bool): (k: nat)
    ensures k <= |devices| && (k < |devices| ==> p(devices[k]))
    ensures forall j :: 0 <= j < k ==> !p(devices[j])
  {
    if devices == [] || p(devices[0]) then 0
    else
      var r := FirstDevice(devices[1..], p);
      assert forall j :: 1 <= j < 1 + r ==> devices[j] == devices[1..][j - 1];
      1 + r
  }

  /** `isDestination`: the first device with the address, if there is one. */
  function IsDestination(devices: seq<Device>, ip: seq<byte>): (r: Option<Device>)
    ensures r.None? <==> forall k :: 0 <= k < |devices| ==> devices[k].ip != ip
    ensures r.Some? ==> exists k :: 0 <= k < |devices| && devices[k] == r.value && devices[k].ip == ip
                                    && forall j :: 0 <= j < k ==> devices[j].ip != ip
  {
    var k := FirstDevice(devices, (dev: Device) => dev.ip == ip);
    if k < |devices| then Some(devices[k]) else None
  }

  /** `mac_by_ifindex`: the hardware address of the first device with the index, or a null pointer. */
  function MacByIfindex(devices: seq<Device>, index: int): (r: Option<Mac>)
    ensures r.None? <==> forall k :: 0 <= k < |devices| ==> devices[k].ifindex != index
    ensures r.Some? ==> exists k :: 0 <= k < |devices| && devices[k].mac == r.value && devices[k].ifindex == index
                                    && forall j :: 0 <= j < k ==> devices[j].ifindex != index
  {
    var k := FirstDevice(devices, (dev: Device) => dev.ifindex == index);
    if k < |devices| then Some(devices[k].mac) else None
  }

  // ----- A received request (arp.c:586-649)

  /** The address key of an IP taken from a packet: port and padding are zero. */
  function KeyOf(ip: Ip): SockAddr {
    SockAddr(AF_INET, 0, ip, Zeros(8))
  }

  /** The key `handle_reply` makes of a protocol address: it is copied over the address field and, when it
      is longer, over the padding behind it. */
  function KeyFrom(pa: seq<byte>): (r: SockAddr)
    ensures r.family == AF_INET && r.port == 0
    ensures |pa| == 4 ==> r == KeyOf(pa)
  {
    var f := Fit(pa, 12);
    assert |pa| == 4 ==> f[..4] == pa && f[4..] == Zeros(8);
    SockAddr(AF_INET, 0, f[..4], f[4..])
  }

  /** The packets that reach the two handlers. */
  predicate Dispatchable(m: Arp) {
    m.Sized() && ValidArp(m)
  }

  /** The reverse entry learnt from a request. */
  function ReverseEntry(m: Arp, src: LinkSource, out: Mac): Entry
    requires m.Sized() && m.protLen == 4
  {
    Entry(KeyOf(m.spa), 0, Complete,
          HwAddr(src.ifindex, ARPHRD_ETHER, ETH_ALEN, Pad8(out), src.hatype, |src.addr|, Pad8(src.addr)))
  }

  /** A protocol length other than 4 leaves bytes of the target address unset or writes past it; for a
      target of this host a hardware length above 6 reads past the two hardware addresses. */
  function HandleReq(devices: seq<Device>, d: Daemon, m: Arp, requester: Mac, src: LinkSource): Result
    requires Dispatchable(m)
  {
    if m.protLen != 4 then OutOfBounds
    else match IsDestination(devices, m.tpa)
    case None => Ok(d)
    case Some(dev) =>
      if m.hardLen > 6 then OutOfBounds
      else match MacByIfindex(devices, src.ifindex)
      case None => NullMac
      case Some(out) =>
        var reply := Frame(requester, out, Encode(ReplyTo(m, requester, dev.ip, dev.mac)));
        var d' := d.(sent := d.sent + [reply]);
        if FindKey(d.list, KeyOf(m.spa)) < |d.list| then Ok(d')
        else Ok(Prepend(d', ReverseEntry(m, src, out)))
  }

  // ----- A received reply (arp.c:651-695)

  function LearntFromReply(m: Arp, src: LinkSource, out: Mac): HwAddr
    requires m.Sized() && m.hardLen <= 6
  {
    HwAddr(src.ifindex, 0, ETH_ALEN, Pad8(out[..m.hardLen]), ETHER_SWAPPED, m.hardLen, Pad8(m.tha))
  }

  /** Completing the entry at index `i`: send, copy, close, mark. */
  function CompleteEntry(d: Daemon, i: nat, hw: HwAddr): (d': Daemon)
    requires i < |d.list|
    ensures |d'.list| == |d.list|
  {
    var e := d.list[i];
    Put(CloseFd(Answer(d, e.socket, e.ipaddress, hw), e.socket), i, Entry(e.ipaddress, -1, Complete, hw))
  }

  /** The loop of `handle_reply` from index `i` on. */
  function CompleteFrom(d: Daemon, i: nat, key: SockAddr, hw: HwAddr): (d': Daemon)
    ensures |d'.list| == |d.list|
    decreases |d.list| - i
  {
    if i >= |d.list| then d
    else
      var e := d.list[i];
      CompleteFrom(if e.ipaddress == key && e.state.Incomplete? then CompleteEntry(d, i, hw) else d, i + 1, key, hw)
  }

  /** A hardware length above 6 reads past the outgoing hardware address, and a protocol length above 12
      writes past the key. */
  function HandleReply(devices: seq<Device>, d: Daemon, m: Arp, src: LinkSource): Result
    requires Dispatchable(m)
  {
    match MacByIfindex(devices, src.ifindex)
    case None => NullMac
    case Some(out) =>
      if m.hardLen > 6 || m.protLen > 12 then OutOfBounds
      else Ok(CompleteFrom(d, 0, KeyFrom(m.tpa), LearntFromReply(m, src, out)))
  }

  // ----- Frames and whole steps

  /** A received frame: a payload longer than `struct arp_hdr` is copied past its end. */
  function OnFrame(devices: seq<Device>, d: Daemon, f: Frame, src: LinkSource): Result {
    if |f.payload| > ARP_STRUCTLEN then OutOfBounds
    else match Decode(f.payload)
    case None => Ok(d)
    case Some(m) =>
      if !ValidArp(m) then Ok(d)
      else if m.op == ARPOP_REQUEST then HandleReq(devices, d, m, f.src, src)
      else HandleReply(devices, d, m, src)
  }

  /** One step of the daemon. A pass of the select loop is a sweep, then perhaps an accept, then perhaps
      a frame. */
  datatype Step =
    | DoAccept(sfd: int)
    | DoSweep(readable: set<int>, requests: map<int, Request>)
    | DoFrame(frame: Frame, src: LinkSource)

  /** What the operating system guarantees: `accept` fails with -1 or returns a descriptor that is not
      open yet and, the standard ones being in use, is positive. */
  predicate Enabled(d: Daemon, s: Step) {
    match s
    case DoAccept(sfd) => sfd == -1 || (sfd > 0 && sfd !in d.open)
    case DoSweep(_, _) => true
    case DoFrame(_, _) => true
  }

  function Next(fix: Repair, devices: seq<Device>, d: Daemon, s: Step): Result
    requires Enabled(d, s)
  {
    match s
    case DoAccept(sfd) => Accept(d, sfd)
    case DoSweep(readable, requests) => Sweep(fix, devices, d, 0, readable, requests)
    case DoFrame(f, src) => OnFrame(devices, d, f, src)
  }

  /** `d'` is reached from `d` by the given steps without leaving defined behaviour. */
  ghost predicate Run(fix: Repair, devices: seq<Device>, d: Daemon, steps: seq<Step>, d': Daemon)
    decreases |steps|
  {
    if steps == [] then d' == d
    else
      && Enabled(d, steps[0])
      && var r := Next(fix, devices, d, steps[0]);
         r.Ok? && Run(fix, devices, r.d, steps[1..], d')
  }
}
