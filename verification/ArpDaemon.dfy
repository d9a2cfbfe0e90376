/** The daemon of arp.c as an object that changes its list, descriptors and packet buffers in place.
    Every operation is proved to take exactly the step of `ArpSpec`, for the code as written. */
module ArpDaemon {
  import opened Bytes
  import opened CacheModel
  import opened CacheList
  import opened ArpWire
  import S = ArpSpec

  class Arpd {
    const devices: seq<S.Device>
    const cache: Cache
    var open: set<int>
    var log: seq<S.Event>
    var sent: seq<S.Frame>

    ghost predicate Valid()
      reads this, cache, cache.nodes
    {
      cache.Valid()
    }

    ghost function State(): S.Daemon
      reads this, cache, cache.nodes
    {
      S.Daemon(cache.model, cache.Stale(), open, log, sent)
    }

    constructor (devices: seq<S.Device>)
      ensures Valid() && State() == S.BOOT && this.devices == devices
    {
      this.devices := devices;
      cache := new Cache();
      open, log, sent := {}, [], [];
    }

    // ----- Lookups that change nothing

    /** `maxfd`: the largest of the two server descriptors and the unresolved entries' sockets. */
    method MaxFd(pfSocket: int, unixDomain: int) returns (max: int)
      requires Valid()
      ensures pfSocket <= max && unixDomain <= max
      ensures forall i :: 0 <= i < |cache.model| && !cache.model[i].state.Complete? ==> cache.model[i].socket <= max
      ensures max == pfSocket || max == unixDomain
        || exists i :: 0 <= i < |cache.model| && !cache.model[i].state.Complete? && cache.model[i].socket == max
    {
      max := if pfSocket > unixDomain then pfSocket else unixDomain;
      var current := cache.head;
      ghost var i := 0;
      while current != null
        invariant 0 <= i <= |cache.nodes| && current == cache.At(i)
        invariant pfSocket <= max && unixDomain <= max
        invariant forall j :: 0 <= j < i && !cache.model[j].state.Complete? ==> cache.model[j].socket <= max
        invariant max == pfSocket || max == unixDomain
          || exists j :: 0 <= j < i && !cache.model[j].state.Complete? && cache.model[j].socket == max
        decreases |cache.nodes| - i
      {
        if !current.entry.state.Complete? {
          max := if max > current.entry.socket then max else current.entry.socket;
        }
        current, i := current.next, i + 1;
      }
    }

    /** `isDestination`. */
    method FindDestination(ip: seq<byte>) returns (dest: Option<S.Device>)
      ensures dest == S.IsDestination(devices, ip)
    {
      var k := 0;
      while k < |devices|
        invariant 0 <= k <= |devices|
        invariant forall j :: 0 <= j < k ==> devices[j].ip != ip
      {
        if devices[k].ip == ip {
          return Some(devices[k]);
        }
        k := k + 1;
      }
      return None;
    }

    /** `mac_by_ifindex`. */
    method FindMac(index: int) returns (mac: Option<Mac>)
      ensures mac == S.MacByIfindex(devices, index)
    {
      var k := 0;
      while k < |devices|
        invariant 0 <= k <= |devices|
        invariant forall j :: 0 <= j < k ==> devices[j].ifindex != index
      {
        if devices[k].ifindex == index {
          return Some(devices[k].mac);
        }
        k := k + 1;
      }
      return None;
    }

    // ----- System calls on client descriptors

    method Send(fd: int, key: SockAddr, hw: HwAddr)
      requires Valid()
      modifies this`log
      ensures State() == S.Answer(old(State()), fd, key, hw)
    {
      if fd in open {
        log := log + [S.Answered(fd, key, hw)];
      }
    }

    method Close(fd: int)
      requires Valid()
      modifies this`log, this`open
      ensures State() == S.CloseFd(old(State()), fd)
    {
      if fd in open {
        log := log + [S.Closed(fd)];
        open := open - {fd};
      }
    }

    // ----- Accepting a client

    /** The accept step of `run_arp`. When the socket is found at a listed entry, that node is added a
        second time and the list becomes a cycle. */
    method Accept(sfd: int) returns (ok: bool)
      requires Valid()
      modifies this, cache, cache.nodes
      ensures ok == S.Accept(old(State()), sfd).Ok?
      ensures ok ==> Valid() && State() == S.Accept(old(State()), sfd).d
      ensures !ok ==> exists k :: cache.CycleThrough(k)
    {
      var ce := cache.GetCacheBySocket(sfd);
      ghost var k := FindSocket(cache.model, sfd);
      if ce == null {
        AddConnection(sfd);
        if sfd != -1 {
          open, log := open + {sfd}, log + [S.Accepted(sfd)];
        }
        ok := true;
      } else {
        cache.SetEntry(ce, ce.entry.(socket := sfd, state := Connection), k);
        cache.AddToCache(ce);
        assert cache.CycleThrough(k);
        ok := false;
      }
    }

    /** A zeroed entry with the client's socket, at the head of the list (arp.c:161-168). */
    method AddConnection(sfd: int)
      requires Valid()
      modifies cache, cache.nodes
      ensures Valid() && State() == S.Prepend(old(State()), Entry(UNSET, sfd, Connection, NO_HW))
    {
      var ce := new Node(Entry(UNSET, 0, Connection, NO_HW));
      ce.entry := ce.entry.(socket := sfd, state := Connection);
      cache.AddToCache(ce);
    }

    // ----- Requests of clients

    /** One broadcast of `handle_areq`, built in a packet buffer. */
    method SendRequest(dev: S.Device, target: Ip)
      requires Valid()
      modifies this`sent
      ensures sent == old(sent) + [S.RequestFrame(dev, target)]
    {
      var packet := new byte[ARP_MAXLEN](_ => 0);
      var size := BuildArp(packet, ARPHRD_ETHER, PF_INET, 6, 4, ARPOP_REQUEST,
                           Some(dev.mac), Some(dev.ip), None, Some(target));
      ghost var m := S.RequestOn(dev, target);
      assert packet[..size] == packet[..][..size] == Encode(m);
      sent := sent + [S.Frame(S.BROADCAST, dev.mac, packet[..size])];
    }

    lemma BroadcastOneMore(k: nat, target: Ip, before: seq<S.Frame>)
      requires k < |devices|
      ensures before + S.Broadcast(devices[..k + 1], target)
           == before + S.Broadcast(devices[..k], target) + [S.RequestFrame(devices[k], target)]
    {
      assert S.Broadcast(devices[..k + 1], target)
          == S.Broadcast(devices[..k], target) + [S.RequestFrame(devices[k], target)];
    }

    /** The loop over the devices; false when the broadcast on one of them fails. */
    method SendRequests(target: Ip, reach: nat) returns (all: bool)
      requires Valid()
      modifies this`sent
      ensures all == (reach >= |devices|)
      ensures sent == old(sent) + S.Broadcast(if all then devices else devices[..reach], target)
    {
      var k := 0;
      while k < |devices|
        invariant 0 <= k <= |devices| && k <= reach
        invariant sent == old(sent) + S.Broadcast(devices[..k], target)
      {
        if k == reach {
          return false;
        }
        SendRequest(devices[k], target);
        BroadcastOneMore(k, target, old(sent));
        k := k + 1;
      }
      assert devices[..k] == devices;
      return true;
    }

    /** `handle_areq`. */
    method HandleAreq(conn: Node, r: S.Request, ghost i: nat) returns (rv: bool)
      requires Valid() && i < |cache.nodes| && cache.nodes[i] == conn
      modifies this, cache`model, conn`entry
      ensures Valid()
      ensures State() == S.HandleAreq(devices, old(State()), i, r).0
      ensures rv == S.HandleAreq(devices, old(State()), i, r).1
    {
      match r
      case Unusable => return false;
      case Areq(addr, reach) =>
        if addr.family != S.AF_INET {
          return false;
        }
        var completed := cache.GetCacheByIpAddr(addr);
        if completed != null && completed.entry.state.Complete? {
          Send(conn.entry.socket, addr, completed.entry.hw);
          return false;
        }
        rv := Await(conn, addr, reach, i);
    }

    /** Making the entry wait for an address and asking for it (arp.c:272-299). */
    method Await(conn: Node, addr: SockAddr, reach: nat, ghost i: nat) returns (all: bool)
      requires Valid() && i < |cache.nodes| && cache.nodes[i] == conn
      modifies this`sent, cache`model, conn`entry
      ensures Valid() && all == (reach >= |devices|)
      ensures State() == S.Put(old(State()), i, old(conn.entry).(state := Incomplete, ipaddress := addr)).(
        sent := old(sent) + S.Broadcast(if all then devices else devices[..reach], addr.ip))
    {
      cache.SetEntry(conn, conn.entry.(state := Incomplete, ipaddress := addr), i);
      all := SendRequests(addr.ip, reach);
    }

    /** Closing and removing an entry (arp.c:131-138). */
    method Drop(rm: Node, ghost i: nat) returns (ok: bool)
      requires Valid() && i < |cache.nodes| && cache.nodes[i] == rm
      modifies this, cache, cache.nodes
      ensures ok == S.Drop(S.AS_WRITTEN, old(State()), i).Ok?
      ensures ok ==> Valid() && State() == S.Drop(S.AS_WRITTEN, old(State()), i).d
      ensures ok ==> exists k :: 0 <= k <= i && cache.nodes == Without(old(cache.nodes), k)
      ensures ok ==> cache.nodes[i..] == old(cache.nodes)[i + 1..]
    {
      CloseNode(rm, i);
      ok := RemoveNode(rm, i);
    }

    method CloseNode(rm: Node, ghost i: nat)
      requires Valid() && i < |cache.nodes| && cache.nodes[i] == rm
      modifies this`open, this`log, cache`model, rm`entry
      ensures Valid() && State() == S.CloseEntry(old(State()), i)
    {
      Close(rm.entry.socket);
      cache.SetEntry(rm, rm.entry.(socket := -1), i);
    }

    method RemoveNode(rm: Node, ghost i: nat) returns (ok: bool)
      requires Valid() && i < |cache.nodes| && cache.nodes[i] == rm
      modifies cache, cache.nodes
      ensures ok == S.Remove(S.AS_WRITTEN, old(State()), i).Ok?
      ensures ok ==> Valid() && State() == S.Remove(S.AS_WRITTEN, old(State()), i).d
      ensures ok ==> exists k :: 0 <= k <= i && cache.nodes == Without(old(cache.nodes), k)
      ensures ok ==> cache.nodes[i..] == old(cache.nodes)[i + 1..]
    {
      ghost var k := S.Victim(S.AS_WRITTEN, cache.model, i);
      assert FindValue(cache.model, rm.entry) == k;
      var r := cache.RemoveFromCache(rm);
      ok := r == Removed;
      assert ok ==> cache.nodes == Without(old(cache.nodes), k);
    }

    /** A readable client's turn. */
    method Serve(conn: Node, requests: map<int, S.Request>, ghost i: nat) returns (rv: bool)
      requires Valid() && i < |cache.nodes| && cache.nodes[i] == conn
      modifies this, cache`model, conn`entry
      ensures Valid() && (State(), rv) == S.Serve(devices, old(State()), i, requests)
    {
      rv := false;
      if conn.entry.state.Connection? {
        var fd := conn.entry.socket;
        var r := if fd in open && fd in requests then requests[fd] else S.Unusable;
        rv := HandleAreq(conn, r, i);
      }
    }

    /** The body of the sweep. The successor is read before the removal; it stays listed because the node
        unlinked is the handled one or an earlier one. */
    method SweepOne(current: Node, readable: set<int>, requests: map<int, S.Request>, ghost i: nat)
      returns (ok: bool, next: Node?, ghost unlinked: bool)
      requires Valid() && i < |cache.nodes| && cache.nodes[i] == current
      modifies this, cache, cache.nodes
      ensures ok == S.SweepOne(S.AS_WRITTEN, devices, old(State()), i, readable, requests).0.Ok?
      ensures ok ==>
        && Valid()
        && (S.Ok(State()), unlinked) == S.SweepOne(S.AS_WRITTEN, devices, old(State()), i, readable, requests)
        && next == cache.At(if unlinked then i else i + 1)
        && cache.nodes[if unlinked then i else i + 1..] == old(cache.nodes)[i + 1..]
        && forall j :: 0 <= j < |cache.nodes| ==> cache.nodes[j] in old(cache.nodes)
    {
      ok, unlinked, next := true, false, current.next;
      if !current.entry.state.Complete? && current.entry.socket in readable {
        var rv := Serve(current, requests, i);
        if !rv {
          unlinked := true;
          ok := Drop(current, i);
        }
      }
    }

    /** The sweep stands before the node at index `i`; of the nodes listed at its start it has handled
        `visited`, and those from here on are the ones still to come. */
    ghost predicate Cursor(current: Node?, i: nat, was: seq<Node>, visited: seq<Node>)
      reads this, cache, cache.nodes
    {
      && Valid() && i <= |cache.nodes| && current == cache.At(i)
      && visited <= was && cache.nodes[i..] == was[|visited|..]
      && forall j :: 0 <= j < |cache.nodes| ==> cache.nodes[j] in was
    }

    /** One turn of the sweep: the cursor moves to the next node to come, and what is left to do is the rest
        of the specified sweep. */
    method Turn(current: Node, readable: set<int>, requests: map<int, S.Request>,
                ghost i: nat, ghost was: seq<Node>, ghost visited: seq<Node>, ghost goal: S.Result)
      returns (ok: bool, next: Node?, ghost i': nat)
      requires Cursor(current, i, was, visited)
      requires goal == S.Sweep(S.AS_WRITTEN, devices, State(), i, readable, requests)
      modifies this, cache, cache.nodes
      ensures visited + [current] <= was
      ensures !ok ==> !goal.Ok?
      ensures ok ==>
        && Cursor(next, i', was, visited + [current])
        && goal == S.Sweep(S.AS_WRITTEN, devices, State(), i', readable, requests)
    {
      Onward(cache.nodes, i, was, visited);
      ghost var unlinked;
      ok, next, unlinked := SweepOne(current, readable, requests, i);
      i' := if unlinked then i else i + 1;
    }

    /** The sweep over the readable clients, which removes while it iterates. Every node that was listed
        at its start is handled exactly once, in list order. */
    method Sweep(readable: set<int>, requests: map<int, S.Request>) returns (ok: bool, ghost visited: seq<Node>)
      requires Valid()
      modifies this, cache, cache.nodes
      ensures visited <= old(cache.nodes)
      ensures ok ==> visited == old(cache.nodes)
      ensures ok == S.Sweep(S.AS_WRITTEN, devices, old(State()), 0, readable, requests).Ok?
      ensures ok ==> Valid() && State() == S.Sweep(S.AS_WRITTEN, devices, old(State()), 0, readable, requests).d
    {
      var current := cache.head;
      ghost var i, was := 0, cache.nodes;
      ghost var goal := S.Sweep(S.AS_WRITTEN, devices, State(), 0, readable, requests);
      visited := [];
      while current != null
        invariant Cursor(current, i, was, visited)
        invariant goal == S.Sweep(S.AS_WRITTEN, devices, State(), i, readable, requests)
        decreases |was| - |visited|
      {
        ghost var handled := visited + [current];
        ok, current, i := Turn(current, readable, requests, i, was, visited, goal);
        visited := handled;
        if !ok {
          return;
        }
      }
      ok := true;
    }

    /** One step along two sequences that agree from two positions on. */
    lemma Onward(ns: seq<Node>, i: nat, was: seq<Node>, visited: seq<Node>)
      requires i < |ns| && visited <= was && ns[i..] == was[|visited|..]
      ensures visited + [ns[i]] <= was && ns[i + 1..] == was[|visited| + 1..]
    {
      var v := |visited|;
      assert ns[i] == ns[i..][0] && was[v] == was[v..][0];
      assert ns[i + 1..] == ns[i..][1..] && was[v + 1..] == was[v..][1..];
    }

    // ----- Frames

    /** `handle_req`. */
    method HandleReq(m: Arp, requester: Mac, src: S.LinkSource) returns (ok: bool)
      requires Valid() && S.Dispatchable(m)
      modifies this, cache, cache.nodes
      ensures ok == S.HandleReq(devices, old(State()), m, requester, src).Ok?
      ensures ok ==> Valid() && State() == S.HandleReq(devices, old(State()), m, requester, src).d
    {
      if m.protLen != 4 {
        return false;
      }
      var dest := FindDestination(m.tpa);
      if dest.None? {
        return true;
      }
      if m.hardLen > 6 {
        return false;
      }
      var payload := BuildReply(m, requester, dest.value);
      var out := FindMac(src.ifindex);
      if out.None? {
        return false;
      }
      sent := sent + [S.Frame(requester, out.value, payload)];
      AddReverse(m, src, out.value);
      return true;
    }

    /** The reply, built in a `struct arp_hdr`. */
    method BuildReply(m: Arp, requester: Mac, dev: S.Device) returns (payload: seq<byte>)
      requires m.Sized() && m.hardLen <= 6 && m.protLen == 4
      ensures payload == Encode(ReplyTo(m, requester, dev.ip, dev.mac))
    {
      var hdr := new byte[ARP_STRUCTLEN](_ => 0);
      var size := BuildArp(hdr, m.hardType, m.protType, m.hardLen, m.protLen, ARPOP_REPLY,
                           Some(requester), Some(dev.ip), Some(dev.mac), Some(m.tpa));
      payload := hdr[..size];
      assert payload == hdr[..][..size];
    }

    /** The reverse entry, added only when the sender's address has no entry at all (arp.c:611-646). */
    method AddReverse(m: Arp, src: S.LinkSource, out: Mac)
      requires Valid() && m.Sized() && m.protLen == 4
      modifies cache, cache.nodes
      ensures Valid()
      ensures State() == if FindKey(old(cache.model), S.KeyOf(m.spa)) < |old(cache.model)|
                         then old(State()) else S.Prepend(old(State()), S.ReverseEntry(m, src, out))
    {
      var entry := cache.GetCacheByIpAddr(S.KeyOf(m.spa));
      if entry == null {
        var newEntry := new Node(S.ReverseEntry(m, src, out));
        cache.AddToCache(newEntry);
      }
    }

    /** Completing one waiting entry (arp.c:677-688). */
    method CompleteEntry(entry: Node, hw: HwAddr, ghost i: nat)
      requires Valid() && i < |cache.nodes| && cache.nodes[i] == entry
      modifies this`log, this`open, cache`model, entry`entry
      ensures Valid() && State() == S.CompleteEntry(old(State()), i, hw)
    {
      Send(entry.entry.socket, entry.entry.ipaddress, hw);
      var fd := entry.entry.socket;
      Close(fd);
      cache.SetEntry(entry, entry.entry.(hw := hw, socket := -1, state := Complete), i);
    }

    /** `handle_reply`. */
    method HandleReply(m: Arp, src: S.LinkSource) returns (ok: bool)
      requires Valid() && S.Dispatchable(m)
      modifies this, cache`model, cache.nodes`entry
      ensures ok == S.HandleReply(devices, old(State()), m, src).Ok?
      ensures ok ==> Valid() && State() == S.HandleReply(devices, old(State()), m, src).d
    {
      var out := FindMac(src.ifindex);
      if out.None? {
        return false;
      }
      if m.hardLen > 6 || m.protLen > 12 {
        return false;
      }
      var key, hw := S.KeyFrom(m.tpa), S.LearntFromReply(m, src, out.value);
      CompleteAll(key, hw);
      return true;
    }

    /** The loop of `handle_reply` over all entries. */
    method CompleteAll(key: SockAddr, hw: HwAddr)
      requires Valid()
      modifies this, cache`model, cache.nodes`entry
      ensures Valid() && State() == S.CompleteFrom(old(State()), 0, key, hw)
    {
      var entry := cache.head;
      ghost var i := 0;
      while entry != null
        invariant Valid() && 0 <= i <= |cache.nodes| && entry == cache.At(i)
        invariant cache.nodes == old(cache.nodes)
        invariant S.CompleteFrom(old(State()), 0, key, hw) == S.CompleteFrom(State(), i, key, hw)
        decreases |cache.nodes| - i
      {
        if entry.entry.ipaddress == key && entry.entry.state.Incomplete? {
          CompleteEntry(entry, hw, i);
        }
        entry, i := entry.next, i + 1;
      }
    }

    /** A readable packet socket (arp.c:175-210). */
    method ReceiveFrame(f: S.Frame, src: S.LinkSource) returns (ok: bool)
      requires Valid()
      modifies this, cache, cache.nodes
      ensures ok == S.OnFrame(devices, old(State()), f, src).Ok?
      ensures ok ==> Valid() && State() == S.OnFrame(devices, old(State()), f, src).d
    {
      if |f.payload| > ARP_STRUCTLEN {
        return false;
      }
      var arp := Decode(f.payload);
      if arp.None? || !ValidArp(arp.value) {
        return true;
      }
      if arp.value.op == ARPOP_REQUEST {
        ok := HandleReq(arp.value, f.src, src);
      } else {
        ok := HandleReply(arp.value, src);
      }
    }

    /** Any one step. */
    method Step(s: S.Step) returns (ok: bool)
      requires Valid() && S.Enabled(State(), s)
      modifies this, cache, cache.nodes
      ensures ok == S.Next(S.AS_WRITTEN, devices, old(State()), s).Ok?
      ensures ok ==> Valid() && State() == S.Next(S.AS_WRITTEN, devices, old(State()), s).d
    {
      match s
      case DoAccept(sfd) => ok := Accept(sfd);
      case DoSweep(readable, requests) =>
        ghost var visited;
        ok, visited := Sweep(readable, requests);
      case DoFrame(f, src) => ok := ReceiveFrame(f, src);
    }
  }
}
