/** The tour program as it runs: a message buffer and a host that are changed in place, proved against
    `TourModel`. */
module TourNode {
  import opened Bytes
  import M = TourModel

  /** `valid_args`. */
  method ValidArgs(names: seq<string>) returns (ok: bool)
    ensures ok == M.ValidArgs(names)
    ensures ok <==> |names| <= 16376 && forall i :: 0 <= i < |names| - 1 ==> names[i] != names[i + 1]
  {
    if |names| > M.TOUR_MAXIPS {
      return false;
    }
    var i := 1;
    while i < |names|
      invariant 1 <= i
      invariant forall k :: 1 <= k < |names| && k < i ==> names[k - 1] != names[k]
    {
      if names[i - 1] == names[i] {
        return false;
      }
      i := i + 1;
    }
    return true;
  }

  /** A `struct tourhdr` at the start of a packet-sized buffer. */
  class TourBuffer {
    var mcastip: Ip
    var mcastport: short
    var len: short
    const ips: array<Ip>

    ghost function View(): M.Tour
      reads this, ips
    {
      M.Tour(mcastip, mcastport, len, ips[..])
    }

    /** The buffer of `start_tour` before the addresses are filled in. */
    constructor Blank(mcastip: Ip, port: M.BoundPort, numhosts: nat)
      requires numhosts <= M.TOUR_MAXIPS
      ensures fresh(ips) && ips.Length == numhosts
      ensures this.mcastip == mcastip && mcastport == AsShort(port) && len == ToShort(numhosts)
    {
      this.mcastip, mcastport, len := mcastip, AsShort(port), ToShort(numhosts);
      ips := new Ip[numhosts](_ => [0, 0, 0, 0]);
    }

    /** The zeroed buffer of the receive loop, holding what arrived. */
    constructor Of(t: M.Tour)
      ensures fresh(ips) && ips.Length >= M.TOUR_MAXIPS && ips[..] == M.UpTo(t.ips, ips.Length)
      ensures mcastip == t.mcastip && mcastport == t.mcastport && len == t.len
    {
      mcastip, mcastport, len := t.mcastip, t.mcastport, t.len;
      var n := if |t.ips| > M.TOUR_MAXIPS then |t.ips| else M.TOUR_MAXIPS;
      ips := new Ip[n](i => if 0 <= i < |t.ips| then t.ips[i] else M.NO_IP);
    }

    /** The two-index loop of `start_tour`: the addresses end up in reverse order; false as soon as a
        name does not resolve. */
    method FillRoute(hosts: seq<string>, dns: map<string, Ip>) returns (ok: bool)
      requires ips.Length == |hosts|
      modifies ips
      ensures ok == M.Resolves(hosts, dns)
      ensures ok ==> ips[..] == M.Reverse(M.Route(hosts, dns))
    {
      var i, j := 0, |hosts| - 1;
      while i < |hosts|
        invariant 0 <= i <= |hosts| && j == |hosts| - 1 - i
        invariant forall k :: 0 <= k < i ==> hosts[k] in dns && ips[|hosts| - 1 - k] == dns[hosts[k]]
      {
        if hosts[i] !in dns {
          return false;
        }
        ips[j] := dns[hosts[i]];
        i, j := i + 1, j - 1;
      }
      ghost var route := M.Route(hosts, dns);
      forall k | 0 <= k < |hosts|
        ensures ips[k] == M.Reverse(route)[k]
      {
        assert ips[|hosts| - 1 - (|hosts| - 1 - k)] == dns[hosts[|hosts| - 1 - k]];
      }
      return true;
    }

    /** `forward_tour`: pops the next address off the buffer and puts the length in network order. */
    method Forward(self: Ip) returns (p: M.Packet)
      requires 0 < len <= ips.Length && len <= M.TOUR_MAXIPS
      modifies this`len
      ensures p == M.ForwardTour(self, old(View()))
      ensures len == M.LenToWire(old(len) - 1)
    {
      var nextip := ips[len - 1];
      len := len - 1;
      var n := len;
      var size := M.TourSize(n);
      len := AsShort(Htons(AsU16(len)));
      assert ips[..n] == M.UpTo(old(ips[..]), n);
      p := M.Packet(self, nextip, ToU16(M.IP_HDRLEN + size), M.IPID_TOUR,
                    M.EncodeTour(M.Tour(mcastip, mcastport, len, ips[..n])));
    }
  }

  /** Forwarding from the zeroed buffer is forwarding the message in it. */
  lemma BufferedForward(self: Ip, t: M.Tour, ips: seq<Ip>)
    requires 0 < t.len <= M.TOUR_MAXIPS <= |ips| && ips == M.UpTo(t.ips, |ips|)
    ensures M.ForwardTour(self, t.(ips := ips)) == M.ForwardTour(self, t)
  {
    assert M.UpTo(ips, t.len) == M.UpTo(t.ips, t.len);
    assert M.UpTo(ips, t.len - 1) == M.UpTo(t.ips, t.len - 1);
  }

  class TourHost {
    const self: Ip
    var binded: bool
    var group: Option<M.Group>
    var binds: nat
    var pings: seq<Ip>
    var touring: bool

    ghost function State(): M.Host
      reads this
    {
      M.Host(binded, group, binds, pings, touring)
    }

    constructor (self: Ip)
      ensures State() == M.IDLE && this.self == self
    {
      this.self := self;
      binded, group, binds, pings, touring := false, None, 0, [], true;
    }

    /** `create_pingt`: walks the list, and inserts at its head only if no thread pings the target yet. */
    method CreatePingt(tgtip: Ip)
      modifies this`pings
      ensures pings == M.AddPing(old(pings), tgtip)
    {
      var cur := 0;
      while cur < |pings|
        invariant 0 <= cur <= |pings|
        invariant tgtip !in pings[..cur]
      {
        if pings[cur] == tgtip {
          return;
        }
        cur := cur + 1;
      }
      pings := [tgtip] + pings;
    }

    /** `destroy_pingt`: the list part. */
    method DestroyPingt()
      modifies this`pings
      ensures pings == []
    {
      while pings != []
        decreases |pings|
      {
        pings := pings[1..];
      }
    }

    /** `bind_port`, then joining the group; `given` is what the system picks for port 0. */
    method Bind(ip: Ip, port: int, given: M.BoundPort) returns (bound: M.BoundPort)
      modifies this`binded, this`group, this`binds
      ensures bound == M.BindPort(port, given) && binded && group == Some(M.Group(ip, bound)) && binds == old(binds) + 1
    {
      bound := if ToU16(port) == 0 then given else ToU16(port);
      binds := binds + 1;
      group := Some(M.Group(ip, bound));
      binded := true;
    }

    /** `start_tour`, with the port the system assigned: the first packet, or none if a name does not
        resolve. */
    method StartTour(hosts: seq<string>, dns: map<string, Ip>, port: M.BoundPort) returns (p: Option<M.Packet>)
      requires State() == M.IDLE && 0 < |hosts| && M.ValidArgs(hosts)
      modifies this
      ensures p.Some? <==> M.Resolves(hosts, dns)
      ensures p.Some? ==> p.value == M.ForwardTour(self, M.InitialTour(M.Route(hosts, dns), port))
      ensures State() == M.Source(port)
    {
      var bound := Bind(M.MCAST_ADDR, 0, port);
      var tour := new TourBuffer.Blank(M.MCAST_ADDR, bound, |hosts|);
      var ok := tour.FillRoute(hosts, dns);
      if !ok {
        return None;
      }
      var q := tour.Forward(self);
      return Some(q);
    }

    /** The receive step of `run_tour`. */
    method Receive(p: M.Packet, given: M.BoundPort) returns (out: M.Output)
      modifies this
      ensures (State(), out) == M.Receive(self, old(State()), p, given)
    {
      if M.Received(p) < M.IP_HDRLEN + M.TOUR_HDRLEN || p.ipLen < M.IP_HDRLEN + M.TOUR_HDRLEN || p.ipId != M.IPID_TOUR {
        return M.Ignored;
      }
      var tour := new TourBuffer.Of(M.DecodeTour(p.payload));
      tour.len := M.LenFromWire(tour.len);
      ghost var t := M.FromWire(p);
      if !binded {
        var port := Bind(tour.mcastip, tour.mcastport, given);
      }
      CreatePingt(p.src);
      assert State() == M.Process(self, old(State()), p.src, t, given).0;
      if tour.len > M.TOUR_MAXIPS {
        return M.OutOfBounds;
      } else if tour.len > 0 {
        BufferedForward(self, t, tour.ips[..]);
        assert tour.View() == t.(ips := tour.ips[..]);
        var q := tour.Forward(self);
        assert q == M.ForwardTour(self, t);
        return M.Forwarded(q);
      } else {
        return match group case Some(g) => M.Announced(g) case None => M.Ignored;
      }
    }
  }
}
