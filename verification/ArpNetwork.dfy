/** Any number of hosts running the daemon on one network that may lose, repeat, reorder, pad and
    misdeliver frames. What gets cached and what clients are told is right. */
module ArpNetwork {
  import opened Bytes
  import opened CacheModel
  import opened ArpWire
  import opened ArpSpec
  import opened ArpInvariant

  /** The devices of every host. */
  type Hosts = seq<seq<Device>>

  /** Some device of the network has this address and this hardware address. */
  ghost predicate Owns(hosts: Hosts, ip: seq<byte>, mac: seq<byte>) {
    exists n, k :: 0 <= n < |hosts| && 0 <= k < |hosts[n]| && hosts[n][k].ip == ip && hosts[n][k].mac == mac
  }

  /** An 8-byte `sll_addr` field names the owner of an IP address. */
  ghost predicate NamesOwner(hosts: Hosts, ip: Ip, addr: seq<byte>) {
    exists mac: Mac :: Owns(hosts, ip, mac) && addr == Pad8(mac)
  }

  /** A resolution that host `n` can use to reach the owner of an IP address: the owner's hardware address,
      and the index and the hardware address of one of its own devices to send from. */
  ghost predicate True(hosts: Hosts, n: nat, ip: Ip, hw: HwAddr)
    requires n < |hosts|
  {
    && NamesOwner(hosts, ip, hw.addr) && hw.halen == 6
    && var out := MacByIfindex(hosts[n], hw.ifindex);
       out.Some? && hw.ifaddr == Pad8(out.value) && hw.ifhalen == 6
  }

  /** The lengths the daemons use. */
  predicate Handled(m: Arp) {
    Dispatchable(m) && m.hardLen <= 6 && m.protLen == 4
  }

  /** The packet in a frame the daemons send: a request is sent by the owner of its sender address, and
      a reply names the owner of its target address. */
  ghost predicate Carries(hosts: Hosts, f: Frame, m: Arp) {
    && Handled(m) && m.hardLen == 6
    && f.payload == Encode(m)
    && (m.op == ARPOP_REQUEST ==> Owns(hosts, m.spa, f.src))
    && (m.op == ARPOP_REPLY ==> Owns(hosts, m.tpa, m.tha))
  }

  ghost predicate EntriesTrue(hosts: Hosts, n: nat, s: seq<Entry>)
    requires n < |hosts|
  {
    forall i :: 0 <= i < |s| && s[i].state.Complete? ==> True(hosts, n, s[i].ipaddress.ip, s[i].hw)
  }

  ghost predicate AnswersTrue(hosts: Hosts, n: nat, log: seq<Event>)
    requires n < |hosts|
  {
    forall i :: 0 <= i < |log| && log[i].Answered? ==> True(hosts, n, log[i].key.ip, log[i].hw)
  }

  ghost predicate FramesTrue(hosts: Hosts, sent: seq<Frame>) {
    forall i :: 0 <= i < |sent| ==> Genuine(hosts, sent[i])
  }

  ghost predicate Genuine(hosts: Hosts, f: Frame) {
    exists m :: Carries(hosts, f, m)
  }

  ghost predicate Truthful(hosts: Hosts, n: nat, d: Daemon)
    requires n < |hosts|
  {
    EntriesTrue(hosts, n, d.list) && AnswersTrue(hosts, n, d.log) && FramesTrue(hosts, d.sent)
  }

  // ----- One host's steps

  lemma DeviceOwns(hosts: Hosts, n: nat, dev: Device)
    requires n < |hosts| && dev in hosts[n]
    ensures Owns(hosts, dev.ip, dev.mac)
  {
    var k :| 0 <= k < |hosts[n]| && hosts[n][k] == dev;
  }

  lemma RequestTrue(hosts: Hosts, n: nat, dev: Device, target: Ip)
    requires n < |hosts| && dev in hosts[n]
    ensures Carries(hosts, RequestFrame(dev, target), RequestOn(dev, target))
  {
    DeviceOwns(hosts, n, dev);
    assert dev.ip[..4] == dev.ip;
  }

  lemma BroadcastTrue(hosts: Hosts, n: nat, devices: seq<Device>, target: Ip, sent: seq<Frame>)
    requires n < |hosts| && FramesTrue(hosts, sent)
    requires forall dev :: dev in devices ==> dev in hosts[n]
    ensures FramesTrue(hosts, sent + Broadcast(devices, target))
  {
    var s' := sent + Broadcast(devices, target);
    forall i | 0 <= i < |s'|
      ensures Genuine(hosts, s'[i])
    {
      if i < |sent| {
        assert s'[i] == sent[i];
      } else {
        var dev := devices[i - |sent|];
        assert s'[i] == RequestFrame(dev, target);
        RequestTrue(hosts, n, dev, target);
      }
    }
  }

  lemma AcceptTrue(hosts: Hosts, n: nat, d: Daemon, sfd: int)
    requires n < |hosts| && Truthful(hosts, n, d) && Accept(d, sfd).Ok?
    ensures Truthful(hosts, n, Accept(d, sfd).d)
  {
  }

  lemma AreqTrue(hosts: Hosts, n: nat, d: Daemon, i: nat, r: Request)
    requires n < |hosts| && Truthful(hosts, n, d) && i < |d.list| && d.list[i].state.Connection?
    ensures Truthful(hosts, n, HandleAreq(hosts[n], d, i, r).0)
  {
    if r.Areq? && r.addr.family == AF_INET {
      var k := FindKey(d.list, r.addr);
      if k < |d.list| && d.list[k].state.Complete? {
        assert True(hosts, n, d.list[k].ipaddress.ip, d.list[k].hw);
      } else if r.reach < |hosts[n]| {
        BroadcastTrue(hosts, n, hosts[n][..r.reach], r.addr.ip, d.sent);
      } else {
        BroadcastTrue(hosts, n, hosts[n], r.addr.ip, d.sent);
      }
    }
  }

  lemma DropTrue(hosts: Hosts, n: nat, fix: Repair, d: Daemon, i: nat)
    requires n < |hosts| && Truthful(hosts, n, d) && i < |d.list| && !d.list[i].state.Complete? && Drop(fix, d, i).Ok?
    ensures Truthful(hosts, n, Drop(fix, d, i).d)
  {
  }

  lemma SweepOneTrue(hosts: Hosts, n: nat, fix: Repair, d: Daemon, i: nat, readable: set<int>, requests: map<int, Request>)
    requires n < |hosts| && Truthful(hosts, n, d) && i < |d.list|
    requires SweepOne(fix, hosts[n], d, i, readable, requests).0.Ok?
    ensures Truthful(hosts, n, SweepOne(fix, hosts[n], d, i, readable, requests).0.d)
  {
    var e := d.list[i];
    if !e.state.Complete? && e.socket in readable {
      var (d1, keep) := Serve(hosts[n], d, i, requests);
      ServeTrue(hosts, n, d, i, requests);
      if !keep {
        DropTrue(hosts, n, fix, d1, i);
      }
    }
  }

  lemma ServeTrue(hosts: Hosts, n: nat, d: Daemon, i: nat, requests: map<int, Request>)
    requires n < |hosts| && Truthful(hosts, n, d) && i < |d.list| && !d.list[i].state.Complete?
    ensures var d' := Serve(hosts[n], d, i, requests).0; Truthful(hosts, n, d') && !d'.list[i].state.Complete?
  {
    var e := d.list[i];
    if e.state.Connection? {
      AreqTrue(hosts, n, d, i, RequestAt(d, e.socket, requests));
    }
  }

  lemma {:induction false} SweepTrue(hosts: Hosts, n: nat, fix: Repair, d: Daemon, i: nat,
                                     readable: set<int>, requests: map<int, Request>)
    requires n < |hosts| && Truthful(hosts, n, d) && Sweep(fix, hosts[n], d, i, readable, requests).Ok?
    ensures Truthful(hosts, n, Sweep(fix, hosts[n], d, i, readable, requests).d)
    decreases |d.list| - i
  {
    if i < |d.list| {
      var (r, unlinked) := SweepOne(fix, hosts[n], d, i, readable, requests);
      SweepOneTrue(hosts, n, fix, d, i, readable, requests);
      SweepTrue(hosts, n, fix, r.d, if unlinked then i else i + 1, readable, requests);
    }
  }

  lemma ReqTrue(hosts: Hosts, n: nat, d: Daemon, m: Arp, f: Frame, src: LinkSource)
    requires n < |hosts| && Truthful(hosts, n, d) && Handled(m) && m.hardLen == 6
    requires Owns(hosts, m.spa, f.src) && src.addr == f.src
    requires HandleReq(hosts[n], d, m, f.src, src).Ok?
    ensures Truthful(hosts, n, HandleReq(hosts[n], d, m, f.src, src).d)
  {
    var d' := HandleReq(hosts[n], d, m, f.src, src).d;
    var dest := IsDestination(hosts[n], m.tpa);
    if dest.Some? {
      DeviceOwns(hosts, n, dest.value);
      var reply := ReplyTo(m, f.src, dest.value.ip, dest.value.mac);
      assert dest.value.mac[..6] == dest.value.mac && m.tpa[..4] == m.tpa;
      assert Carries(hosts, d'.sent[|d.sent|], reply);
      assert Genuine(hosts, d'.sent[|d.sent|]);
      var spa: Ip := m.spa;
      assert NamesOwner(hosts, spa, Pad8(f.src));
    }
  }

  lemma {:induction false} CompleteTrue(hosts: Hosts, n: nat, d: Daemon, i: nat, key: SockAddr, hw: HwAddr)
    requires n < |hosts| && Truthful(hosts, n, d) && True(hosts, n, key.ip, hw)
    ensures Truthful(hosts, n, CompleteFrom(d, i, key, hw))
    decreases |d.list| - i
  {
    if i < |d.list| {
      var e := d.list[i];
      var d1 := if e.ipaddress == key && e.state.Incomplete? then CompleteEntry(d, i, hw) else d;
      assert Truthful(hosts, n, d1);
      CompleteTrue(hosts, n, d1, i + 1, key, hw);
    }
  }

  // ----- The network

  /** `g` is `f` as it may arrive: with padding added by the link. */
  ghost predicate ArrivesAs(f: Frame, g: Frame) {
    g.dst == f.dst && g.src == f.src && f.payload <= g.payload && |g.payload| <= ARP_STRUCTLEN
  }

  /** Some host has sent the frame. Nothing is said about how often it arrives, when, or where. */
  ghost predicate InFlight(net: seq<Daemon>, g: Frame) {
    exists n, k :: 0 <= n < |net| && 0 <= k < |net[n].sent| && ArrivesAs(net[n].sent[k], g)
  }

  ghost predicate NetStep(fix: Repair, hosts: Hosts, net: seq<Daemon>, n: nat, s: Step, net': seq<Daemon>) {
    && n < |net| == |hosts|
    && Enabled(net[n], s)
    && (s.DoFrame? ==> InFlight(net, s.frame) && s.src.addr == s.frame.src)
    && var r := Next(fix, hosts[n], net[n], s);
       r.Ok? && net' == net[n := r.d]
  }

  ghost predicate NetRun(fix: Repair, hosts: Hosts, net: seq<Daemon>, steps: seq<(nat, Step)>, net': seq<Daemon>)
    decreases |steps|
  {
    if steps == [] then net' == net
    else exists mid :: NetStep(fix, hosts, net, steps[0].0, steps[0].1, mid) && NetRun(fix, hosts, mid, steps[1..], net')
  }

  ghost predicate NetInv(hosts: Hosts, net: seq<Daemon>) {
    |net| == |hosts| && forall n :: 0 <= n < |net| ==> Inv(net[n]) && Truthful(hosts, n, net[n])
  }

  /** A frame in flight is read, at the host it arrives at, as the packet its sender put into it. */
  lemma ArrivalCarries(hosts: Hosts, net: seq<Daemon>, g: Frame) returns (m: Arp)
    requires NetInv(hosts, net) && InFlight(net, g)
    ensures Decode(g.payload) == Some(m) && Handled(m) && m.hardLen == 6
    ensures m.op == ARPOP_REQUEST ==> Owns(hosts, m.spa, g.src)
    ensures m.op == ARPOP_REPLY ==> Owns(hosts, m.tpa, m.tha)
  {
    var n, k :| 0 <= n < |net| && 0 <= k < |net[n].sent| && ArrivesAs(net[n].sent[k], g);
    var f := net[n].sent[k];
    assert Genuine(hosts, f);
    m :| Carries(hosts, f, m);
    var pad := g.payload[|f.payload|..];
    assert g.payload == Encode(m) + pad;
    WireRoundTrip(m, pad);
  }

  /** No frame that the daemons send takes a daemon that receives it on a listed interface out of defined
      behaviour. */
  lemma InFlightIsHandled(hosts: Hosts, net: seq<Daemon>, n: nat, g: Frame, src: LinkSource)
    requires NetInv(hosts, net) && n < |net| && InFlight(net, g) && MacByIfindex(hosts[n], src.ifindex).Some?
    ensures OnFrame(hosts[n], net[n], g, src).Ok?
  {
    var m := ArrivalCarries(hosts, net, g);
    HandledIsOk(hosts[n], net[n], g, src, m);
  }

  lemma HandledIsOk(devices: seq<Device>, d: Daemon, g: Frame, src: LinkSource, m: Arp)
    requires |g.payload| <= ARP_STRUCTLEN && Decode(g.payload) == Some(m) && Handled(m)
    requires MacByIfindex(devices, src.ifindex).Some?
    ensures OnFrame(devices, d, g, src).Ok?
  {
    Dispatched(devices, d, g, src, m);
  }

  lemma FrameTrue(hosts: Hosts, net: seq<Daemon>, n: nat, g: Frame, src: LinkSource)
    requires NetInv(hosts, net) && n < |net| && InFlight(net, g) && src.addr == g.src
    requires OnFrame(hosts[n], net[n], g, src).Ok?
    ensures Truthful(hosts, n, OnFrame(hosts[n], net[n], g, src).d)
  {
    var m := ArrivalCarries(hosts, net, g);
    if m.op == ARPOP_REQUEST {
      ReqTrue(hosts, n, net[n], m, g, src);
    } else {
      var key, hw := KeyOf(m.tpa), LearntFromReply(m, src, MacByIfindex(hosts[n], src.ifindex).value);
      var mac: Mac := m.tha;
      assert Owns(hosts, key.ip, mac) && hw.addr == Pad8(mac);
      var out := MacByIfindex(hosts[n], src.ifindex).value;
      assert out[..6] == out;
      CompleteTrue(hosts, n, net[n], 0, key, hw);
    }
  }

  lemma NetStepKeepsInv(fix: Repair, hosts: Hosts, net: seq<Daemon>, n: nat, s: Step, net': seq<Daemon>)
    requires NetInv(hosts, net) && NetStep(fix, hosts, net, n, s, net')
    ensures NetInv(hosts, net')
  {
    NextKeepsInv(fix, hosts[n], net[n], s);
    NextTrue(fix, hosts, net, n, s);
  }

  lemma NextTrue(fix: Repair, hosts: Hosts, net: seq<Daemon>, n: nat, s: Step)
    requires NetInv(hosts, net) && n < |net| && Enabled(net[n], s)
    requires s.DoFrame? ==> InFlight(net, s.frame) && s.src.addr == s.frame.src
    requires Next(fix, hosts[n], net[n], s).Ok?
    ensures Truthful(hosts, n, Next(fix, hosts[n], net[n], s).d)
  {
    match s
    case DoAccept(sfd) => AcceptTrue(hosts, n, net[n], sfd);
    case DoSweep(readable, requests) => SweepTrue(hosts, n, fix, net[n], 0, readable, requests);
    case DoFrame(g, src) => FrameTrue(hosts, net, n, g, src);
  }

  lemma {:induction false} NetRunKeepsInv(fix: Repair, hosts: Hosts, net: seq<Daemon>, steps: seq<(nat, Step)>, net': seq<Daemon>)
    requires NetInv(hosts, net) && NetRun(fix, hosts, net, steps, net')
    ensures NetInv(hosts, net')
    decreases |steps|
  {
    if steps != [] {
      var mid :| NetStep(fix, hosts, net, steps[0].0, steps[0].1, mid) && NetRun(fix, hosts, mid, steps[1..], net');
      NetStepKeepsInv(fix, hosts, net, steps[0].0, steps[0].1, mid);
      NetRunKeepsInv(fix, hosts, mid, steps[1..], net');
    }
  }

  function Booted(n: nat): (net: seq<Daemon>)
    ensures |net| == n && forall i :: 0 <= i < n ==> net[i] == BOOT
  {
    seq(n, _ => BOOT)
  }

  /** No two devices share an address. */
  ghost predicate UniqueIps(hosts: Hosts) {
    forall n, k, n', k' :: 0 <= n < |hosts| && 0 <= k < |hosts[n]| && 0 <= n' < |hosts| && 0 <= k' < |hosts[n']| ==>
      hosts[n][k].ip == hosts[n'][k'].ip ==> n == n' && k == k'
  }

  /** With unique addresses a true resolution of an owned address is that of its one owner. */
  lemma TrueMeansOwner(hosts: Hosts, ip: Ip, addr: seq<byte>) returns (n: nat, k: nat)
    requires UniqueIps(hosts) && NamesOwner(hosts, ip, addr)
    ensures n < |hosts| && k < |hosts[n]| && hosts[n][k].ip == ip && addr == Pad8(hosts[n][k].mac)
    ensures forall n', k' :: 0 <= n' < |hosts| && 0 <= k' < |hosts[n']| && hosts[n'][k'].ip == ip ==> n' == n && k' == k
  {
    var mac: Mac :| Owns(hosts, ip, mac) && addr == Pad8(mac);
    n, k :| 0 <= n < |hosts| && 0 <= k < |hosts[n]| && hosts[n][k].ip == ip && hosts[n][k].mac == mac;
  }

  /** In every run of any number of hosts with unique addresses, every resolved entry for an address
      holds the hardware address of the one device that owns it, whether it was learnt from a reply or
      from a request. */
  lemma CachesAreRight(fix: Repair, hosts: Hosts, steps: seq<(nat, Step)>, net: seq<Daemon>, n: nat, i: nat)
    returns (owner: nat, dev: nat)
    requires UniqueIps(hosts) && NetRun(fix, hosts, Booted(|hosts|), steps, net)
    requires n < |net| && i < |net[n].list| && net[n].list[i].state.Complete?
    ensures owner < |hosts| && dev < |hosts[owner]|
    ensures hosts[owner][dev].ip == net[n].list[i].ipaddress.ip
    ensures net[n].list[i].hw.addr == Pad8(hosts[owner][dev].mac)
    ensures |hosts| == |net| && True(hosts, n, net[n].list[i].ipaddress.ip, net[n].list[i].hw)
  {
    NetRunKeepsInv(fix, hosts, Booted(|hosts|), steps, net);
    owner, dev := TrueMeansOwner(hosts, net[n].list[i].ipaddress.ip, net[n].list[i].hw.addr);
  }

  /** Likewise every hardware address handed to a client is that of the owner of the address it asked for. */
  lemma AnswersAreRight(fix: Repair, hosts: Hosts, steps: seq<(nat, Step)>, net: seq<Daemon>, n: nat, i: nat)
    returns (owner: nat, dev: nat)
    requires UniqueIps(hosts) && NetRun(fix, hosts, Booted(|hosts|), steps, net)
    requires n < |net| && i < |net[n].log| && net[n].log[i].Answered?
    ensures owner < |hosts| && dev < |hosts[owner]|
    ensures hosts[owner][dev].ip == net[n].log[i].key.ip
    ensures net[n].log[i].hw.addr == Pad8(hosts[owner][dev].mac)
    ensures |hosts| == |net| && True(hosts, n, net[n].log[i].key.ip, net[n].log[i].hw)
  {
    NetRunKeepsInv(fix, hosts, Booted(|hosts|), steps, net);
    owner, dev := TrueMeansOwner(hosts, net[n].log[i].key.ip, net[n].log[i].hw.addr);
  }

  // ----- A client is served

  /** Entries from `i` up to `j` that the sweep passes over. */
  predicate Skipped(s: seq<Entry>, i: nat, j: nat, readable: set<int>) {
    j <= |s| && forall k :: i <= k < j ==> s[k].state.Complete? || s[k].socket !in readable
  }

  lemma {:induction false} SweepSkips(fix: Repair, devices: seq<Device>, d: Daemon, i: nat, j: nat,
                                      readable: set<int>, requests: map<int, Request>)
    requires i <= j && Skipped(d.list, i, j, readable)
    ensures Sweep(fix, devices, d, i, readable, requests) == Sweep(fix, devices, d, j, readable, requests)
    decreases j - i
  {
    if i < j {
      SkipOne(fix, devices, d, i, readable, requests);
      SweepSkips(fix, devices, d, i + 1, j, readable, requests);
    }
  }

  lemma SkipOne(fix: Repair, devices: seq<Device>, d: Daemon, i: nat, readable: set<int>, requests: map<int, Request>)
    requires i < |d.list| && (d.list[i].state.Complete? || d.list[i].socket !in readable)
    ensures Sweep(fix, devices, d, i, readable, requests) == Sweep(fix, devices, d, i + 1, readable, requests)
  {
    assert SweepOne(fix, devices, d, i, readable, requests) == (Ok(d), false);
  }

  /** The sweep when only the client of entry `i` is readable. */
  lemma OnlyReadable(fix: Repair, devices: seq<Device>, d: Daemon, i: nat, requests: map<int, Request>)
    requires Inv(d) && i < |d.list| && !d.list[i].state.Complete? && d.list[i].socket in d.open
    ensures forall k :: 0 <= k < |d.list| && k != i ==> d.list[k].state.Complete? || d.list[k].socket != d.list[i].socket
    ensures Sweep(fix, devices, d, 0, {d.list[i].socket}, requests) == Sweep(fix, devices, d, i, {d.list[i].socket}, requests)
  {
    SweepSkips(fix, devices, d, 0, i, {d.list[i].socket}, requests);
  }

  /** The entry unlinked in place of a connected client's is the first connected one, or its own after the
      repair, so that it is the head exactly when the head is such an entry. */
  lemma ConnectionVictim(fix: Repair, s: seq<Entry>, i: nat)
    requires ListInv(s) && i < |s| && s[i].state.Connection?
    ensures Victim(fix, s, i) == 0 <==> if fix.byPointer then i == 0 else s[0].state.Connection?
  {
    assert EntryOk(s[i]) && EntryOk(s[0]);
    assert s[0].state.Connection? <==> SameValue(s[0], s[i]);
  }

  /** A connected client that asks for a resolved address is sent its resolution and closed. The removal of
      its entry is defined exactly unless it goes through a dangling back link. */
  lemma ServedFromCache(fix: Repair, devices: seq<Device>, d: Daemon, i: nat, key: SockAddr, reach: nat, hw: HwAddr)
    requires Inv(d) && i < |d.list| && d.list[i].state.Connection? && d.list[i].socket in d.open
    requires key.family == AF_INET && Bound(d.list, key, hw)
    ensures var fd := d.list[i].socket;
      var r := Sweep(fix, devices, d, 0, {fd}, map[fd := Areq(key, reach)]);
      && (r.Ok? <==> !(d.stale && if fix.byPointer then i == 0 else d.list[0].state.Connection?))
      && (r.Ok? ==> r.d.log == d.log + [Answered(fd, key, hw), Closed(fd)] && r.d.sent == d.sent)
  {
    var fd := d.list[i].socket;
    var requests := map[fd := Areq(key, reach)];
    OnlyReadable(fix, devices, d, i, requests);
    FirstMatchDecides(d.list, key);
    var d1 := Answer(d, fd, key, hw);
    assert Serve(devices, d, i, requests) == (d1, false);
    DroppedAndDone(fix, devices, d1, i, fd, requests);
    CloseListInv(d.list, i);
    ConnectionVictim(fix, CloseEntry(d1, i).list, i);
    assert d.log + [Answered(fd, key, hw)] + [Closed(fd)] == d.log + [Answered(fd, key, hw), Closed(fd)];
  }

  /** A connected client that asks for an unresolved address is left waiting for it, and exactly one request
      for it is sent from each device, in their order. */
  lemma LeftWaiting(fix: Repair, devices: seq<Device>, d: Daemon, i: nat, key: SockAddr, reach: nat)
    requires Inv(d) && i < |d.list| && d.list[i].state.Connection? && d.list[i].socket in d.open
    requires key.family == AF_INET && reach >= |devices| && forall hw :: !Bound(d.list, key, hw)
    ensures var fd := d.list[i].socket;
      var r := Sweep(fix, devices, d, 0, {fd}, map[fd := Areq(key, reach)]);
      && r.Ok? && r.d.log == d.log && fd in r.d.open
      && r.d.list == d.list[i := Entry(key, fd, Incomplete, NO_HW)]
      && |r.d.sent| == |d.sent| + |devices| && d.sent <= r.d.sent
      && forall k :: 0 <= k < |devices| ==> r.d.sent[|d.sent| + k] == RequestFrame(devices[k], key.ip)
  {
    var fd := d.list[i].socket;
    var requests := map[fd := Areq(key, reach)];
    OnlyReadable(fix, devices, d, i, requests);
    FirstMatchDecides(d.list, key);
    var d1 := HandleAreq(devices, d, i, Areq(key, reach)).0;
    assert Serve(devices, d, i, requests) == (d1, true);
    SweepSkips(fix, devices, d1, i + 1, |d.list|, {fd}, requests);
    assert EntryOk(d.list[i]);
  }

  /** After the one readable client was dropped the rest of the sweep does nothing. */
  lemma DroppedAndDone(fix: Repair, devices: seq<Device>, d: Daemon, i: nat, fd: int, requests: map<int, Request>)
    requires i < |d.list| && d.list[i].socket == fd && fd in d.open && fd > 0
    requires forall k :: 0 <= k < |d.list| && k != i ==> d.list[k].state.Complete? || d.list[k].socket != fd
    ensures var r := Drop(fix, d, i);
      r.Ok? ==> r.d.log == d.log + [Closed(fd)] && r.d.sent == d.sent && Sweep(fix, devices, r.d, i, {fd}, requests) == r
  {
    var r := Drop(fix, d, i);
    if r.Ok? {
      SweepSkips(fix, devices, r.d, i, |r.d.list|, {fd}, requests);
    }
  }

  lemma {:induction false} AnswersContain(s: seq<Entry>, open: set<int>, i: nat, j: nat, key: SockAddr, hw: HwAddr)
    requires i <= j < |s| && s[j].ipaddress == key && s[j].state.Incomplete? && s[j].socket in open
    ensures Answered(s[j].socket, key, hw) in Answers(s, open, i, key, hw)
    decreases j - i
  {
    if i < j {
      AnswersContain(s, open, i + 1, j, key, hw);
    }
  }

  /** A request the asker broadcast is read as sent, whatever padding it arrives with. */
  lemma RequestReads(out: Device, target: Ip, g: Frame)
    requires ArrivesAs(RequestFrame(out, target), g)
    ensures var m := RequestOn(out, target);
      Decode(g.payload) == Some(m) && m.spa == out.ip && m.tpa == target && Handled(m)
  {
    var m := RequestOn(out, target);
    var pad := g.payload[|Encode(m)|..];
    assert g.payload == Encode(m) + pad;
    assert out.ip[..4] == out.ip && target[..4] == target;
    WireRoundTrip(m, pad);
  }

  /** The owner of the target address sends one reply, which names its hardware address, and can
      resolve the asker. */
  lemma RequestAnswered(devices: seq<Device>, b: Daemon, m: Arp, requester: Mac, src: LinkSource) returns (reply: Arp)
    requires Handled(m) && m.hardLen == 6
    requires IsDestination(devices, m.tpa).Some? && MacByIfindex(devices, src.ifindex).Some?
    ensures HandleReq(devices, b, m, requester, src).Ok?
    ensures var b' := HandleReq(devices, b, m, requester, src).d;
      && FindKey(b'.list, KeyOf(m.spa)) < |b'.list|
      && |b'.sent| == |b.sent| + 1 && b.sent <= b'.sent
      && reply.Sized() && b'.sent[|b.sent|].payload == Encode(reply)
      && b'.sent[|b.sent|].dst == requester && MacByIfindex(devices, src.ifindex) == Some(b'.sent[|b.sent|].src)
    ensures Handled(reply) && reply.hardLen == 6 && reply.op == ARPOP_REPLY && reply.tpa == m.tpa
    ensures reply.tha == IsDestination(devices, m.tpa).value.mac && reply.sha == requester && reply.spa == m.tpa
  {
    var dev := IsDestination(devices, m.tpa).value;
    reply := ReplyTo(m, requester, dev.ip, dev.mac);
    assert dev.mac[..6] == dev.mac && m.tpa[..4] == m.tpa && dev.ip[..4] == dev.ip && requester[..6] == requester;
    var b' := HandleReq(devices, b, m, requester, src).d;
    assert b'.list == b.list || b'.list[0].ipaddress == KeyOf(m.spa);
  }

  lemma ReplyReads(m: Arp, f: Frame, g: Frame)
    requires Handled(m) && m.hardLen == 6 && m.op == ARPOP_REPLY && f.payload == Encode(m) && ArrivesAs(f, g)
    ensures Decode(g.payload) == Some(m)
  {
    var pad := g.payload[|Encode(m)|..];
    assert g.payload == Encode(m) + pad;
    WireRoundTrip(m, pad);
  }

  /** From any state of two hosts: when a request that the asker broadcast for an address of the owner
      arrives there, the owner sends one reply, to the asking device and from its own device on that link,
      and can resolve the asker; when the reply arrives back, every client of the asker that
      waits for the address is sent the owner's hardware address. */
  lemma ExchangeResolves(askerDevs: seq<Device>, ownerDevs: seq<Device>, a: Daemon, b: Daemon, out: Device,
                         target: Ip, req: Frame, atOwner: LinkSource, rep: Frame, atAsker: LinkSource, j: nat)
    requires Inv(a) && ArrivesAs(RequestFrame(out, target), req)
    requires IsDestination(ownerDevs, target).Some?
    requires MacByIfindex(ownerDevs, atOwner.ifindex).Some? && MacByIfindex(askerDevs, atAsker.ifindex).Some?
    requires j < |a.list| && a.list[j].ipaddress == KeyOf(target) && a.list[j].state.Incomplete? && a.list[j].socket in a.open
    ensures OnFrame(ownerDevs, b, req, atOwner).Ok?
    ensures var b' := OnFrame(ownerDevs, b, req, atOwner).d;
      && FindKey(b'.list, KeyOf(out.ip)) < |b'.list|
      && |b'.sent| == |b.sent| + 1
      && b'.sent[|b.sent|].dst == out.mac
      && MacByIfindex(ownerDevs, atOwner.ifindex) == Some(b'.sent[|b.sent|].src)
      && (ArrivesAs(b'.sent[|b.sent|], rep) ==>
            && OnFrame(askerDevs, a, rep, atAsker).Ok?
            && var a' := OnFrame(askerDevs, a, rep, atAsker).d;
            && |a'.list| == |a.list| && a'.list[j].state.Complete?
            && a'.list[j].hw.addr == Pad8(IsDestination(ownerDevs, target).value.mac)
            && Answered(a.list[j].socket, KeyOf(target), a'.list[j].hw) in a'.log)
  {
    RequestReads(out, target, req);
    var m := RequestOn(out, target);
    Dispatched(ownerDevs, b, req, atOwner, m);
    var reply := RequestAnswered(ownerDevs, b, m, req.src, atOwner);
    var b' := OnFrame(ownerDevs, b, req, atOwner).d;
    if ArrivesAs(b'.sent[|b.sent|], rep) {
      ReplyReads(reply, b'.sent[|b.sent|], rep);
      Dispatched(askerDevs, a, rep, atAsker, reply);
      ReplyStep(askerDevs, a, reply, atAsker, j);
    }
  }

  lemma Dispatched(devices: seq<Device>, d: Daemon, g: Frame, src: LinkSource, m: Arp)
    requires |g.payload| <= ARP_STRUCTLEN && Decode(g.payload) == Some(m) && Handled(m)
    ensures OnFrame(devices, d, g, src)
         == if m.op == ARPOP_REQUEST then HandleReq(devices, d, m, g.src, src) else HandleReply(devices, d, m, src)
  {
  }

  lemma ReplyStep(devices: seq<Device>, a: Daemon, m: Arp, src: LinkSource, j: nat)
    requires Inv(a) && Handled(m) && MacByIfindex(devices, src.ifindex).Some?
    requires j < |a.list| && a.list[j].ipaddress == KeyOf(m.tpa) && a.list[j].state.Incomplete? && a.list[j].socket in a.open
    ensures var a' := HandleReply(devices, a, m, src).d;
      && |a'.list| == |a.list|
      && a'.list[j].state.Complete? && a'.list[j].hw.addr == Pad8(m.tha)
      && Answered(a.list[j].socket, KeyOf(m.tpa), a'.list[j].hw) in a'.log
  {
    var key, hw := KeyOf(m.tpa), LearntFromReply(m, src, MacByIfindex(devices, src.ifindex).value);
    CompleteFromEffect(a, 0, key, hw);
    CompleteFromLog(a, 0, key, hw);
    AnswersContain(a.list, a.open, 0, j, key, hw);
  }

  // ----- The exchange as a run of the network

  /** A request changes no entry: at most the reverse entry comes before the others. */
  lemma RequestKeepsEntries(devices: seq<Device>, b: Daemon, m: Arp, requester: Mac, src: LinkSource, j: nat) returns (j': nat)
    requires Dispatchable(m) && HandleReq(devices, b, m, requester, src).Ok? && j < |b.list|
    ensures var b' := HandleReq(devices, b, m, requester, src).d;
      j' < |b'.list| && b'.list[j'] == b.list[j] && b'.open == b.open
  {
    var b' := HandleReq(devices, b, m, requester, src).d;
    j' := if |b'.list| > |b.list| then j + 1 else j;
  }

  /** Delivering to host `n` a frame that some host has sent, as it was sent and on one of the devices. */
  lemma Deliverable(fix: Repair, hosts: Hosts, net: seq<Daemon>, from: nat, k: nat, n: nat) returns (s: Step)
    requires |net| == |hosts| && from < |net| && k < |net[from].sent| && n < |net| && hosts[n] != []
    requires |net[from].sent[k].payload| <= ARP_STRUCTLEN
    ensures s.DoFrame? && s.frame == net[from].sent[k] && MacByIfindex(hosts[n], s.src.ifindex).Some?
    ensures OnFrame(hosts[n], net[n], s.frame, s.src).Ok? ==>
      NetStep(fix, hosts, net, n, s, net[n := OnFrame(hosts[n], net[n], s.frame, s.src).d])
  {
    var f := net[from].sent[k];
    s := DoFrame(f, LinkSource(hosts[n][0].ifindex, ARPHRD_ETHER, f.src));
    assert ArrivesAs(f, f);
    assert InFlight(net, f);
  }

  lemma TwoSteps(fix: Repair, hosts: Hosts, net: seq<Daemon>, a: (nat, Step), mid: seq<Daemon>, b: (nat, Step), net': seq<Daemon>)
    requires NetStep(fix, hosts, net, a.0, a.1, mid) && NetStep(fix, hosts, mid, b.0, b.1, net')
    ensures NetRun(fix, hosts, net, [a, b], net')
  {
    assert [a, b][1..] == [b] && [b][1..] == [];
    assert NetRun(fix, hosts, net', [b][1..], net');
    assert NetRun(fix, hosts, mid, [b], net');
    assert [a, b][0] == a;
  }

  /** A device of the host takes the frame: it is a broadcast, or addressed to the device. */
  ghost predicate TakenBy(devices: seq<Device>, f: Frame) {
    f.dst == [0xFF, 0xFF, 0xFF, 0xFF, 0xFF, 0xFF] || exists k :: 0 <= k < |devices| && devices[k].mac == f.dst
  }

  /** The client of entry `j` waits for the address. */
  predicate Waits(a: Daemon, j: nat, target: Ip) {
    j < |a.list| && a.list[j].ipaddress == KeyOf(target) && a.list[j].state.Incomplete? && a.list[j].socket in a.open
  }

  /** The request arrives at the owner: its reply is in flight, and the client still waits, also when the
      owner is the asker itself. */
  lemma RequestDelivered(fix: Repair, hosts: Hosts, net: seq<Daemon>, asker: nat, owner: nat, out: Device, target: Ip, j: nat)
    returns (s: Step, mid: seq<Daemon>, j': nat)
    requires NetInv(hosts, net) && asker < |net| && owner < |net|
    requires RequestFrame(out, target) in net[asker].sent && IsDestination(hosts[owner], target).Some?
    requires Waits(net[asker], j, target)
    ensures s.DoFrame? && ArrivesAs(RequestFrame(out, target), s.frame) && MacByIfindex(hosts[owner], s.src.ifindex).Some?
    ensures NetStep(fix, hosts, net, owner, s, mid)
    ensures Waits(mid[asker], j', target) && mid[asker].list[j'] == net[asker].list[j]
  {
    var k :| 0 <= k < |net[asker].sent| && net[asker].sent[k] == RequestFrame(out, target);
    s := Deliverable(fix, hosts, net, asker, k, owner);
    var m := RequestOn(out, target);
    RequestReads(out, target, s.frame);
    Dispatched(hosts[owner], net[owner], s.frame, s.src, m);
    var reply := RequestAnswered(hosts[owner], net[owner], m, s.frame.src, s.src);
    mid := net[owner := OnFrame(hosts[owner], net[owner], s.frame, s.src).d];
    j' := j;
    if asker == owner {
      j' := RequestKeepsEntries(hosts[owner], net[owner], m, s.frame.src, s.src, j);
    }
  }

  /** From any state that a network can be in, if a client waits for an address, a request for it that its
      host sent is in flight, and some host has the address, then two steps can be taken after which the
      client has been sent the owner's hardware address: a device of the owner takes the request, and the
      device that sent it takes the reply. */
  lemma WaitingCanBeAnswered(fix: Repair, hosts: Hosts, net: seq<Daemon>, asker: nat, owner: nat, out: Device, target: Ip, j: nat)
    returns (atOwner: Step, atAsker: Step, net': seq<Daemon>, hw: HwAddr)
    requires NetInv(hosts, net) && asker < |net| && owner < |net| && hosts[asker] != []
    requires RequestFrame(out, target) in net[asker].sent && IsDestination(hosts[owner], target).Some?
    requires Waits(net[asker], j, target)
    ensures NetRun(fix, hosts, net, [(owner, atOwner), (asker, atAsker)], net') && |net'| == |net|
    ensures atOwner.DoFrame? && TakenBy(hosts[owner], atOwner.frame) && atAsker.DoFrame? && atAsker.frame.dst == out.mac
    ensures Answered(net[asker].list[j].socket, KeyOf(target), hw) in net'[asker].log
    ensures hw.addr == Pad8(IsDestination(hosts[owner], target).value.mac)
  {
    var mid, j';
    atOwner, mid, j' := RequestDelivered(fix, hosts, net, asker, owner, out, target, j);
    NetStepKeepsInv(fix, hosts, net, owner, atOwner, mid);
    var a, b, k := mid[asker], net[owner], |net[owner].sent|;
    ReplyFits(hosts[owner], b, out, target, atOwner.frame, atOwner.src);
    atAsker := Deliverable(fix, hosts, mid, owner, k, asker);
    ExchangeResolves(hosts[asker], hosts[owner], a, b, out, target, atOwner.frame, atOwner.src, atAsker.frame, atAsker.src, j');
    var a' := OnFrame(hosts[asker], a, atAsker.frame, atAsker.src).d;
    net', hw := mid[asker := a'], a'.list[j'].hw;
    TwoSteps(fix, hosts, net, (owner, atOwner), mid, (asker, atAsker), net');
  }

  lemma ReplyFits(devices: seq<Device>, b: Daemon, out: Device, target: Ip, req: Frame, src: LinkSource)
    requires ArrivesAs(RequestFrame(out, target), req)
    requires IsDestination(devices, target).Some? && MacByIfindex(devices, src.ifindex).Some?
    ensures OnFrame(devices, b, req, src).Ok?
    ensures var b' := OnFrame(devices, b, req, src).d;
      |b'.sent| == |b.sent| + 1 && ArrivesAs(b'.sent[|b.sent|], b'.sent[|b.sent|])
  {
    RequestReads(out, target, req);
    var m := RequestOn(out, target);
    Dispatched(devices, b, req, src, m);
    var reply := RequestAnswered(devices, b, m, req.src, src);
    FitsBuffers(reply);
  }

  /** The query of a connected client for an unresolved address is read: the client waits, and a request from
      the first device is in flight. */
  lemma QueryRead(fix: Repair, hosts: Hosts, net: seq<Daemon>, asker: nat, target: Ip, i: nat) returns (s: Step, mid: seq<Daemon>)
    requires NetInv(hosts, net) && asker < |net| && hosts[asker] != []
    requires forall hw :: !Bound(net[asker].list, KeyOf(target), hw)
    requires i < |net[asker].list| && net[asker].list[i].state.Connection? && net[asker].list[i].socket in net[asker].open
    ensures s.DoSweep? && NetStep(fix, hosts, net, asker, s, mid) && NetInv(hosts, mid) && |mid| == |net|
    ensures Waits(mid[asker], i, target) && mid[asker].list[i].socket == net[asker].list[i].socket
    ensures RequestFrame(hosts[asker][0], target) in mid[asker].sent
  {
    var d, reach := net[asker], |hosts[asker]|;
    var fd := d.list[i].socket;
    s := DoSweep({fd}, map[fd := Areq(KeyOf(target), reach)]);
    LeftWaiting(fix, hosts[asker], d, i, KeyOf(target), reach);
    mid := net[asker := Next(fix, hosts[asker], d, s).d];
    assert mid[asker].sent[|d.sent|] == RequestFrame(hosts[asker][0], target);
    NetStepKeepsInv(fix, hosts, net, asker, s, mid);
  }

  /** From any state that a network can be in, a connected client that asks for an unresolved address of
      some host can be sent the owner's hardware address: its request is read and broadcast, the broadcast
      is received by the owner, and the reply by the asker. */
  lemma QueryCanBeAnswered(fix: Repair, hosts: Hosts, net: seq<Daemon>, asker: nat, owner: nat, target: Ip, i: nat)
    returns (ask: Step, atOwner: Step, atAsker: Step, net': seq<Daemon>, hw: HwAddr)
    requires NetInv(hosts, net) && asker < |net| && owner < |net| && hosts[asker] != []
    requires IsDestination(hosts[owner], target).Some? && forall hw :: !Bound(net[asker].list, KeyOf(target), hw)
    requires i < |net[asker].list| && net[asker].list[i].state.Connection? && net[asker].list[i].socket in net[asker].open
    ensures NetRun(fix, hosts, net, [(asker, ask)] + [(owner, atOwner), (asker, atAsker)], net') && |net'| == |net|
    ensures ask.DoSweep? && atOwner.DoFrame? && TakenBy(hosts[owner], atOwner.frame)
    ensures atAsker.DoFrame? && TakenBy(hosts[asker], atAsker.frame)
    ensures Answered(net[asker].list[i].socket, KeyOf(target), hw) in net'[asker].log
    ensures hw.addr == Pad8(IsDestination(hosts[owner], target).value.mac)
  {
    var mid;
    ask, mid := QueryRead(fix, hosts, net, asker, target, i);
    var out := hosts[asker][0];
    atOwner, atAsker, net', hw := WaitingCanBeAnswered(fix, hosts, mid, asker, owner, out, target, i);
    OneMore(fix, hosts, net, (asker, ask), mid, [(owner, atOwner), (asker, atAsker)], net');
  }

  lemma OneMore(fix: Repair, hosts: Hosts, net: seq<Daemon>, a: (nat, Step), mid: seq<Daemon>, rest: seq<(nat, Step)>, net': seq<Daemon>)
    requires NetStep(fix, hosts, net, a.0, a.1, mid) && NetRun(fix, hosts, mid, rest, net')
    ensures NetRun(fix, hosts, net, [a] + rest, net')
  {
    assert ([a] + rest)[1..] == rest;
  }
}
