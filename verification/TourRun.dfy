/** A tour over a network of hosts as a transition system: the one message may be lost and the host it
    reaches may fail, but it is not duplicated. */
module TourRun {
  import opened Bytes
  import opened TourModel
  import opened TourPackets

  /** `visited`, `hops` and `ends` record who completed the receive step, how many times the message was
      sent on, and who announced the end; `down` is the host that failed while it held the message. */
  datatype State = State(
    hosts: map<Ip, Host>, flight: Option<Packet>, visited: seq<Ip>, hops: nat, ends: seq<Ip>, down: Option<Ip>)

  function At(hosts: map<Ip, Host>, ip: Ip): Host {
    if ip in hosts then hosts[ip] else IDLE
  }

  function Start(src: Ip, route: seq<Ip>, port: BoundPort): State
    requires 0 < |route| <= TOUR_MAXIPS
  {
    State(map[src := Source(port)], Some(ForwardTour(src, InitialTour(route, port))), [], 1, [], None)
  }

  /** The message in flight arrives and every system call of the receiver succeeds. */
  function Deliver(st: State, given: BoundPort): State
    requires st.flight.Some?
  {
    var p := st.flight.value;
    var (h, out) := Receive(p.dst, At(st.hosts, p.dst), p, given);
    var st' := st.(hosts := st.hosts[p.dst := h], flight := None);
    match out
    case Ignored => st'
    case OutOfBounds => st'
    case Forwarded(q) => st'.(flight := Some(q), visited := st.visited + [p.dst], hops := st.hops + 1)
    case Announced(_) => st'.(visited := st.visited + [p.dst], ends := st.ends + [p.dst])
  }

  datatype Step =
    | DoDeliver(given: BoundPort)
    | DoLose
    /** A system call of the receiving host fails and its program exits. */
    | DoFail
    /** A member hears the announcement of the end and stops pinging. */
    | DoHearEnd(ip: Ip)

  /** There is a message in flight and its receiver is in its loop. */
  predicate CanDeliver(st: State) {
    st.flight.Some? && At(st.hosts, st.flight.value.dst).touring
  }

  predicate Enabled(st: State, s: Step) {
    match s
    case DoDeliver(_) => CanDeliver(st)
    case DoLose => st.flight.Some?
    case DoFail => st.flight.Some?
    case DoHearEnd(ip) =>
      && st.ends != [] && At(st.hosts, ip).touring && At(st.hosts, ip).group.Some?
      && At(st.hosts, ip).group == At(st.hosts, st.ends[0]).group
  }

  function Next(st: State, s: Step): State
    requires Enabled(st, s)
  {
    match s
    case DoDeliver(given) => Deliver(st, given)
    case DoLose => st.(flight := None)
    case DoFail => st.(flight := None, down := Some(st.flight.value.dst), hosts := st.hosts[st.flight.value.dst := DOWN])
    case DoHearEnd(ip) => st.(hosts := st.hosts[ip := At(st.hosts, ip).(pings := [], touring := false)])
  }

  ghost predicate Run(st: State, steps: seq<Step>, st': State)
    decreases |steps|
  {
    if steps == [] then st' == st
    else Enabled(st, steps[0]) && Run(Next(st, steps[0]), steps[1..], st')
  }

  // ----- The invariant

  /** Who sends the message to the host at position `v` of the route. */
  function Pred(src: Ip, route: seq<Ip>, v: nat): Ip
    requires v < |route|
  {
    if v == 0 then src else route[v - 1]
  }

  /** The message in host order when `v` hosts have been visited: the rest of the route, reversed. */
  function Message(route: seq<Ip>, port: BoundPort, v: nat): Tour
    requires v <= |route| <= TOUR_MAXIPS
  {
    Tour(MCAST_ADDR, AsShort(port), |route| - v, Reverse(route[v..]))
  }

  /** The one packet that can be in flight when `v` hosts have been visited. */
  function Expected(src: Ip, route: seq<Ip>, port: BoundPort, v: nat): Packet
    requires v < |route| <= TOUR_MAXIPS
  {
    ForwardTour(Pred(src, route, v), Message(route, port, v))
  }

  /** The hosts from which the visited prefix of the tour came to `h`. */
  function Preds(src: Ip, route: seq<Ip>, v: nat, h: Ip): set<Ip>
    requires v <= |route|
  {
    set k | 0 <= k < v && route[k] == h :: Pred(src, route, k)
  }

  predicate Distinct(s: seq<Ip>) {
    forall i, j :: 0 <= i < j < |s| ==> s[i] != s[j]
  }

  /** A host on the visited part of the tour. */
  ghost predicate Reached(src: Ip, route: seq<Ip>, v: nat, h: Ip)
    requires v <= |route|
  {
    h == src || h in route[..v]
  }

  ghost predicate HostOk(src: Ip, route: seq<Ip>, port: BoundPort, v: nat, ended: bool, ip: Ip, h: Host)
    requires v <= |route|
  {
    && (if Reached(src, route, v, ip)
        then h.binded && h.group == Some(Group(MCAST_ADDR, port)) && h.binds == 1
        else h == IDLE)
    && (!ended ==> h.touring)
    && (h.touring ==> Distinct(h.pings) && forall x :: x in h.pings <==> x in Preds(src, route, v, ip))
  }

  /** Every host but the one that failed. */
  ghost predicate HostsOk(src: Ip, route: seq<Ip>, port: BoundPort, v: nat, ended: bool, down: Option<Ip>, hosts: map<Ip, Host>)
    requires v <= |route|
  {
    forall ip :: Some(ip) != down ==> HostOk(src, route, port, v, ended, ip, At(hosts, ip))
  }

  ghost predicate Inv(src: Ip, route: seq<Ip>, port: BoundPort, st: State) {
    && ProgressOk(route, st)
    && FlightOk(src, route, port, st)
    && HostsOk(src, route, port, |st.visited|, st.ends != [], st.down, st.hosts)
  }

  /** How far the tour has come, and whether it has ended. */
  ghost predicate ProgressOk(route: seq<Ip>, st: State) {
    && 0 < |route| <= TOUR_MAXIPS
    && var v := |st.visited|;
    && v <= |route| && st.visited == route[..v]
    && (st.flight.Some? ==> st.down == None && v < |route|)
    && (st.down.Some? ==> v < |route| && st.down.value == route[v])
    && (if v < |route| then st.ends == [] && st.hops == v + 1
        else st.ends == [route[v - 1]] && st.hops == v && st.down == None)
  }

  ghost predicate FlightOk(src: Ip, route: seq<Ip>, port: BoundPort, st: State)
    requires ProgressOk(route, st)
  {
    st.flight.Some? ==> st.flight.value == Expected(src, route, port, |st.visited|)
  }

  // ----- Each step keeps it

  lemma StartInv(src: Ip, route: seq<Ip>, port: BoundPort)
    requires 0 < |route| <= TOUR_MAXIPS
    ensures Inv(src, route, port, Start(src, route, port))
  {
    assert ToShort(|route|) == |route|;
    assert route[0..] == route;
    assert InitialTour(route, port) == Message(route, port, 0);
  }

  lemma SmallU16(x: nat)
    requires x <= 0xFFFF
    ensures ToU16(x) == x
  {
  }

  lemma ReverseTail(s: seq<Ip>)
    requires s != []
    ensures Reverse(s)[|s| - 1] == s[0] && Reverse(s)[..|s| - 1] == Reverse(s[1..])
  {
  }

  /** The message that is left of the route once host `v` has been taken off it, as it travels. */
  function Sent(route: seq<Ip>, port: BoundPort, v: nat): Tour
    requires v < |route| <= TOUR_MAXIPS
  {
    Tour(MCAST_ADDR, AsShort(port), LenToWire(|route| - v - 1), Reverse(route[v + 1..]))
  }

  lemma ExpectedShape(src: Ip, route: seq<Ip>, port: BoundPort, v: nat)
    requires v < |route| <= TOUR_MAXIPS
    ensures Expected(src, route, port, v)
         == Packet(Pred(src, route, v), route[v], IP_HDRLEN + TourSize(|route| - v - 1), IPID_TOUR,
                   EncodeTour(Sent(route, port, v)))
  {
    var m := Message(route, port, v);
    ReverseTail(route[v..]);
    assert route[v..][1..] == route[v + 1..];
    assert UpTo(m.ips, m.len) == m.ips;
    assert UpTo(m.ips, m.len - 1) == Reverse(route[v + 1..]);
    SmallU16(IP_HDRLEN + TourSize(|route| - v - 1));
  }

  /** Every packet of a tour goes to the next host of the route, passes the receiver's checks, fits an IP
      packet, announces its true length, has a length that a `short` holds, and its bytes are read there
      as the message with that host removed and the source's port intact. */
  lemma PacketsFit(src: Ip, route: seq<Ip>, port: BoundPort, v: nat)
    requires v < |route| <= TOUR_MAXIPS
    ensures var p := Expected(src, route, port, v);
      && p.src == Pred(src, route, v) && p.dst == route[v]
      && Acceptable(p)
      && p.ipLen == Received(p) <= IP_MAXPACKET
      && FromWire(p) == Message(route, port, v + 1)
      && forall given :: BindPort(FromWire(p).mcastport, given) == port
  {
    ExpectedShape(src, route, port, v);
    TourRoundTrip(Sent(route, port, v));
    LenRoundTrip(|route| - v - 1);
    forall given
      ensures BindPort(AsShort(port), given) == port
    {
      PortRoundTrip(port, given);
    }
  }

  /** Their bytes: the group, the port, how many hosts are left after the next one, and these, the last of
      the route first. */
  lemma PacketBytes(src: Ip, route: seq<Ip>, port: BoundPort, v: nat)
    requires v < |route| <= TOUR_MAXIPS
    ensures var b := Expected(src, route, port, v).payload; var n := |route| - v - 1;
      && |b| == 8 + 4 * n
      && b[..8] == [233, 3, 3, 3, port % 0x100, port / 0x100, n / 0x100, n % 0x100]
      && forall k :: 0 <= k < n ==> AddrAt(b, k) == route[|route| - 1 - k]
  {
    var m, n := Message(route, port, v), |route| - v - 1;
    ForwardedBytes(Pred(src, route, v), m);
    assert AsU16(AsShort(port)) == port;
    assert MCAST_ADDR + [port % 0x100, port / 0x100] + [n / 0x100, n % 0x100]
        == [233, 3, 3, 3, port % 0x100, port / 0x100, n / 0x100, n % 0x100];
  }

  /** The host after a visit from the host before it on the route. */
  function AfterVisit(src: Ip, route: seq<Ip>, port: BoundPort, v: nat, h: Host): Host
    requires v < |route|
  {
    h.(binded := true, group := Some(Group(MCAST_ADDR, port)), binds := 1,
       pings := AddPing(h.pings, Pred(src, route, v)))
  }

  function OutputAt(src: Ip, route: seq<Ip>, port: BoundPort, v: nat): Output
    requires v < |route| <= TOUR_MAXIPS
  {
    if v + 1 < |route| then Forwarded(Expected(src, route, port, v + 1)) else Announced(Group(MCAST_ADDR, port))
  }

  lemma ProcessMessage(src: Ip, route: seq<Ip>, port: BoundPort, v: nat, h: Host, given: BoundPort)
    requires v < |route| <= TOUR_MAXIPS
    requires if h.binded then h.group == Some(Group(MCAST_ADDR, port)) && h.binds == 1 else h.binds == 0
    ensures Process(route[v], h, Pred(src, route, v), Message(route, port, v + 1), given)
         == (AfterVisit(src, route, port, v, h), OutputAt(src, route, port, v))
  {
    PortRoundTrip(port, given);
    assert Join(h, Message(route, port, v + 1), given).group == Some(Group(MCAST_ADDR, port));
  }

  lemma ReceiveExpected(src: Ip, route: seq<Ip>, port: BoundPort, v: nat, h: Host, given: BoundPort)
    requires v < |route| <= TOUR_MAXIPS
    requires if h.binded then h.group == Some(Group(MCAST_ADDR, port)) && h.binds == 1 else h.binds == 0
    ensures Receive(route[v], h, Expected(src, route, port, v), given)
         == (AfterVisit(src, route, port, v, h), OutputAt(src, route, port, v))
  {
    PacketsFit(src, route, port, v);
    ProcessMessage(src, route, port, v, h, given);
  }

  lemma PredsGrow(src: Ip, route: seq<Ip>, v: nat, h: Ip)
    requires v < |route|
    ensures Preds(src, route, v + 1, h)
         == Preds(src, route, v, h) + (if route[v] == h then {Pred(src, route, v)} else {})
  {
  }

  /** The visited host joins and pings its predecessor; every other host is as before. */
  lemma HostsAfterVisit(src: Ip, route: seq<Ip>, port: BoundPort, v: nat, ip: Ip, h: Host, h': Host)
    requires v < |route| && HostOk(src, route, port, v, false, ip, h)
    requires ip != route[v] ==> h' == h
    requires ip == route[v] ==> h' == AfterVisit(src, route, port, v, h)
    ensures HostOk(src, route, port, v + 1, v + 1 == |route|, ip, h')
  {
    PredsGrow(src, route, v, ip);
    assert route[..v + 1] == route[..v] + [route[v]];
  }

  /** A delivery, once what the receiver does is known. */
  lemma DeliverBy(st: State, given: BoundPort, h: Host, out: Output)
    requires st.flight.Some?
    requires Receive(st.flight.value.dst, At(st.hosts, st.flight.value.dst), st.flight.value, given) == (h, out)
    ensures var ip, st' := st.flight.value.dst, Deliver(st, given);
      && st'.hosts == st.hosts[ip := h] && st'.down == st.down
      && (out.Forwarded? ==> st'.flight == Some(out.packet) && st'.visited == st.visited + [ip]
                             && st'.hops == st.hops + 1 && st'.ends == st.ends)
      && (out.Announced? ==> st'.flight == None && st'.visited == st.visited + [ip]
                             && st'.hops == st.hops && st'.ends == st.ends + [ip])
  {
  }

  lemma DeliverKeepsInv(src: Ip, route: seq<Ip>, port: BoundPort, st: State, given: BoundPort)
    requires Inv(src, route, port, st) && st.flight.Some?
    ensures At(st.hosts, st.flight.value.dst).touring
    ensures Inv(src, route, port, Deliver(st, given))
    ensures |Deliver(st, given).visited| == |st.visited| + 1
    ensures |Deliver(st, given).visited| < |route| ==> Deliver(st, given).flight.Some?
  {
    VisitNext(src, route, port, st, given);
    VisitKeepsInv(src, route, port, st, Deliver(st, given));
  }

  lemma VisitKeepsInv(src: Ip, route: seq<Ip>, port: BoundPort, st: State, st': State)
    requires Inv(src, route, port, st) && st.flight.Some? && Visits(src, route, port, st, st')
    ensures Inv(src, route, port, st')
  {
    VisitMakesProgress(route, st, st');
    HostsAfterDelivery(src, route, port, |st.visited|, st.hosts, st'.hosts);
  }

  lemma VisitMakesProgress(route: seq<Ip>, st: State, st': State)
    requires ProgressOk(route, st) && st.flight.Some? && Moves(route, st, st')
    ensures ProgressOk(route, st') && st'.down == None && |st'.visited| == |st.visited| + 1
    ensures st'.ends != [] <==> |st'.visited| == |route|
  {
    var v := |st.visited|;
    assert route[..v + 1] == route[..v] + [route[v]];
  }

  /** What a delivery does to the state: the next host of the route is visited, and the message moves on or
      the end is announced. */
  ghost predicate Visits(src: Ip, route: seq<Ip>, port: BoundPort, st: State, st': State)
    requires |st.visited| < |route| <= TOUR_MAXIPS
  {
    var v := |st.visited|;
    && Moves(route, st, st')
    && st'.hosts == st.hosts[route[v] := AfterVisit(src, route, port, v, At(st.hosts, route[v]))]
    && (v + 1 < |route| ==> st'.flight == Some(Expected(src, route, port, v + 1)))
  }

  ghost predicate Moves(route: seq<Ip>, st: State, st': State)
    requires |st.visited| < |route|
  {
    var v := |st.visited|;
    && st'.visited == st.visited + [route[v]] && st'.down == st.down
    && (if v + 1 < |route|
        then st'.flight.Some? && st'.hops == st.hops + 1 && st'.ends == st.ends
        else st'.flight == None && st'.hops == st.hops && st'.ends == st.ends + [route[v]])
  }

  lemma VisitNext(src: Ip, route: seq<Ip>, port: BoundPort, st: State, given: BoundPort)
    requires Inv(src, route, port, st) && st.flight.Some?
    ensures At(st.hosts, st.flight.value.dst).touring
    ensures Visits(src, route, port, st, Deliver(st, given))
  {
    var v := |st.visited|;
    PacketsFit(src, route, port, v);
    var h := At(st.hosts, route[v]);
    assert HostOk(src, route, port, v, false, route[v], h);
    ReceiveExpected(src, route, port, v, h, given);
    DeliverBy(st, given, AfterVisit(src, route, port, v, h), OutputAt(src, route, port, v));
  }

  lemma HostsAfterDelivery(src: Ip, route: seq<Ip>, port: BoundPort, v: nat, hosts: map<Ip, Host>, hosts': map<Ip, Host>)
    requires v < |route|
    requires HostsOk(src, route, port, v, false, None, hosts)
    requires hosts' == hosts[route[v] := AfterVisit(src, route, port, v, At(hosts, route[v]))]
    ensures HostsOk(src, route, port, v + 1, v + 1 == |route|, None, hosts')
  {
    forall ip
      ensures HostOk(src, route, port, v + 1, v + 1 == |route|, ip, At(hosts', ip))
    {
      assert HostOk(src, route, port, v, false, ip, At(hosts, ip));
      HostsAfterVisit(src, route, port, v, ip, At(hosts, ip), At(hosts', ip));
    }
  }

  lemma NextKeepsInv(src: Ip, route: seq<Ip>, port: BoundPort, st: State, s: Step)
    requires Inv(src, route, port, st) && Enabled(st, s)
    ensures Inv(src, route, port, Next(st, s))
  {
    match s
    case DoDeliver(given) => DeliverKeepsInv(src, route, port, st, given);
    case DoLose =>
    case DoFail =>
      PacketsFit(src, route, port, |st.visited|);
      assert forall ip :: ip != st.flight.value.dst ==> At(Next(st, s).hosts, ip) == At(st.hosts, ip);
    case DoHearEnd(ip) =>
      var st' := Next(st, s);
      forall x
        ensures HostOk(src, route, port, |st.visited|, true, x, At(st'.hosts, x))
      {
        assert HostOk(src, route, port, |st.visited|, true, x, At(st.hosts, x));
      }
  }

  lemma {:induction false} RunKeepsInv(src: Ip, route: seq<Ip>, port: BoundPort, st: State, steps: seq<Step>, st': State)
    requires Inv(src, route, port, st) && Run(st, steps, st')
    ensures Inv(src, route, port, st')
    decreases |steps|
  {
    if steps != [] {
      NextKeepsInv(src, route, port, st, steps[0]);
      RunKeepsInv(src, route, port, Next(st, steps[0]), steps[1..], st');
    }
  }

  // ----- What a tour does

  /** In every run, with losses and failures, the visited hosts are a prefix of the route. At most one
      end is announced, by the last host of the route, after every host of the route was visited, by as
      many sends as the route has hosts. */
  lemma TourFollowsRoute(src: Ip, route: seq<Ip>, port: BoundPort, steps: seq<Step>, st: State)
    requires 0 < |route| <= TOUR_MAXIPS && Run(Start(src, route, port), steps, st)
    ensures st.visited <= route
    ensures st.hops <= |route|
    ensures st.ends != [] <==> st.visited == route
    ensures st.ends != [] ==> st.ends == [route[|route| - 1]] && st.hops == |route|
  {
    StartInv(src, route, port);
    RunKeepsInv(src, route, port, Start(src, route, port), steps, st);
    Progressed(route, st);
  }

  lemma Progressed(route: seq<Ip>, st: State)
    requires ProgressOk(route, st)
    ensures st.visited <= route && st.hops <= |route|
    ensures st.ends != [] <==> st.visited == route
    ensures st.ends != [] ==> st.ends == [route[|route| - 1]] && st.hops == |route|
  {
    assert route[..|route|] == route;
  }

  /** In every state of every run the source and every host visited so far, except a host that failed, are
      members of the source's group on the source's port, each having bound once; and the end is announced
      only when every host of the route is a member. */
  lemma MembersBeforeEnd(src: Ip, route: seq<Ip>, port: BoundPort, steps: seq<Step>, st: State, ip: Ip)
    requires 0 < |route| <= TOUR_MAXIPS && Run(Start(src, route, port), steps, st)
    requires (ip == src || ip in st.visited) && Some(ip) != st.down
    ensures At(st.hosts, ip).group == Some(Group(MCAST_ADDR, port)) && At(st.hosts, ip).binds == 1
    ensures st.ends != [] ==> forall x :: x in route ==> At(st.hosts, x).group == Some(Group(MCAST_ADDR, port))
  {
    StartInv(src, route, port);
    RunKeepsInv(src, route, port, Start(src, route, port), steps, st);
    var v := |st.visited|;
    assert HostOk(src, route, port, v, st.ends != [], ip, At(st.hosts, ip));
    if st.ends != [] {
      AllMembers(src, route, port, st);
    }
  }

  lemma AllMembers(src: Ip, route: seq<Ip>, port: BoundPort, st: State)
    requires Inv(src, route, port, st) && st.ends != []
    ensures st.visited == route && st.down == None
    ensures forall x :: x in route ==> At(st.hosts, x).group == Some(Group(MCAST_ADDR, port))
  {
    var v := |st.visited|;
    assert route[..v] == route;
    forall x | x in route
      ensures At(st.hosts, x).group == Some(Group(MCAST_ADDR, port))
    {
      assert HostOk(src, route, port, v, true, x, At(st.hosts, x));
    }
  }

  /** Once any host that did not fail has stopped pinging, the whole route has been visited, every host of
      it is a member and so hears the announcement, and no host failed. */
  lemma NobodyStopsEarly(src: Ip, route: seq<Ip>, port: BoundPort, steps: seq<Step>, st: State, ip: Ip)
    requires 0 < |route| <= TOUR_MAXIPS && Run(Start(src, route, port), steps, st)
    requires Some(ip) != st.down && !At(st.hosts, ip).touring
    ensures st.visited == route && st.down == None
    ensures forall x :: x in route ==> At(st.hosts, x).group == Some(Group(MCAST_ADDR, port))
  {
    StartInv(src, route, port);
    RunKeepsInv(src, route, port, Start(src, route, port), steps, st);
    assert HostOk(src, route, port, |st.visited|, st.ends != [], ip, At(st.hosts, ip));
    AllMembers(src, route, port, st);
  }

  /** In every state of every run a host in its loop pings exactly the distinct hosts that sent it the
      message, with one thread each. */
  lemma PingsAreThePredecessors(src: Ip, route: seq<Ip>, port: BoundPort, steps: seq<Step>, st: State, ip: Ip)
    requires 0 < |route| <= TOUR_MAXIPS && Run(Start(src, route, port), steps, st)
    requires Some(ip) != st.down && At(st.hosts, ip).touring
    ensures Distinct(At(st.hosts, ip).pings)
    ensures |st.visited| <= |route|
    ensures (set x | x in At(st.hosts, ip).pings) == Preds(src, route, |st.visited|, ip)
  {
    StartInv(src, route, port);
    RunKeepsInv(src, route, port, Start(src, route, port), steps, st);
    PingsOf(src, route, port, |st.visited|, st.ends != [], ip, st.down, st.hosts);
  }

  lemma PingsOf(src: Ip, route: seq<Ip>, port: BoundPort, v: nat, ended: bool, ip: Ip, down: Option<Ip>, hosts: map<Ip, Host>)
    requires v <= |route| && HostsOk(src, route, port, v, ended, down, hosts)
    requires Some(ip) != down && At(hosts, ip).touring
    ensures Distinct(At(hosts, ip).pings)
    ensures (set x | x in At(hosts, ip).pings) == Preds(src, route, v, ip)
  {
    assert HostOk(src, route, port, v, ended, ip, At(hosts, ip));
  }

  /** Only the next host of the route can fail with the message, and the tour then stands still there. */
  lemma FailedHostIsOut(src: Ip, route: seq<Ip>, port: BoundPort, steps: seq<Step>, st: State)
    requires 0 < |route| <= TOUR_MAXIPS && Run(Start(src, route, port), steps, st) && st.down.Some?
    ensures st.ends == [] && st.flight == None && st.visited < route
    ensures st.down.value == route[|st.visited|]
  {
    StartInv(src, route, port);
    RunKeepsInv(src, route, port, Start(src, route, port), steps, st);
  }

  /** The state after one delivery for each of the ports that the system would assign, as long as there is a
      message to deliver. */
  function AfterDeliveries(st: State, ports: seq<BoundPort>): State {
    if ports == [] then st
    else
      var k := |ports| - 1;
      var before := AfterDeliveries(st, ports[..k]);
      if before.flight.Some? then Deliver(before, ports[k]) else before
  }

  lemma {:induction false} DeliveriesKeepInv(src: Ip, route: seq<Ip>, port: BoundPort, ports: seq<BoundPort>)
    requires 0 < |route| <= TOUR_MAXIPS && |ports| <= |route|
    ensures var st := AfterDeliveries(Start(src, route, port), ports);
      Inv(src, route, port, st) && |st.visited| == |ports| && (|ports| < |route| ==> CanDeliver(st))
  {
    if ports == [] {
      StartInv(src, route, port);
      DeliverKeepsInv(src, route, port, Start(src, route, port), port);
    } else {
      var k := |ports| - 1;
      DeliveriesKeepInv(src, route, port, ports[..k]);
      DeliverOne(src, route, port, AfterDeliveries(Start(src, route, port), ports[..k]), ports[k]);
    }
  }

  lemma DeliverOne(src: Ip, route: seq<Ip>, port: BoundPort, st: State, given: BoundPort)
    requires Inv(src, route, port, st) && st.flight.Some?
    ensures var st' := Deliver(st, given);
      && Inv(src, route, port, st') && |st'.visited| == |st.visited| + 1
      && (|st'.visited| < |route| ==> CanDeliver(st'))
  {
    DeliverKeepsInv(src, route, port, st, given);
    var st' := Deliver(st, given);
    if st'.flight.Some? {
      DeliverKeepsInv(src, route, port, st', given);
    }
  }

  /** Without losses the tour takes exactly as many deliveries as the route has hosts: each is possible and
      visits the next host, and the last ends the tour with one announcement by the last host. */
  lemma TourCompletes(src: Ip, route: seq<Ip>, port: BoundPort, ports: seq<BoundPort>)
    requires 0 < |route| <= TOUR_MAXIPS && |ports| <= |route|
    ensures var st := AfterDeliveries(Start(src, route, port), ports);
      && st.visited == route[..|ports|]
      && (|ports| < |route| ==> CanDeliver(st) && st.ends == [])
      && (|ports| == |route| ==> st.hops == |route| && st.ends == [route[|route| - 1]] && st.flight == None)
  {
    DeliveriesKeepInv(src, route, port, ports);
  }

  // ----- Consecutive hosts

  /** No accepted list of names makes the message go from a host to itself after the first hop. */
  ghost predicate SelfHopFree(dns: map<string, Ip>) {
    forall names, v :: ValidArgs(names) && Resolves(names, dns) && 1 <= v < |names| ==>
      Route(names, dns)[v - 1] != Route(names, dns)[v]
  }

  /** The check of the arguments rules out such hops exactly when no two names share an address. */
  lemma SelfHopFreeIffInjective(dns: map<string, Ip>)
    ensures SelfHopFree(dns) <==> Injective(dns)
  {
    if !Injective(dns) {
      var a, b :| a in dns && b in dns && dns[a] == dns[b] && a != b;
      var names := [a, b];
      assert ValidArgs(names) && Resolves(names, dns);
      assert Route(names, dns)[1 - 1] == Route(names, dns)[1];
    }
  }

  /** When names resolve injectively, accepted arguments never send the message from a host to itself
      after the first hop, so that no host visited later pings itself. */
  lemma NoSelfHop(names: seq<string>, dns: map<string, Ip>, src: Ip, port: BoundPort, v: nat)
    requires ValidArgs(names) && Resolves(names, dns) && Injective(dns)
    requires 1 <= v < |names|
    ensures var p := Expected(src, Route(names, dns), port, v); p.src != p.dst
  {
    PacketsFit(src, Route(names, dns), port, v);
    assert names[v - 1] != names[v];
  }

  lemma NobodyPingsItself(names: seq<string>, dns: map<string, Ip>, src: Ip, port: BoundPort,
                          steps: seq<Step>, st: State, ip: Ip)
    requires 0 < |names| && ValidArgs(names) && Resolves(names, dns) && Injective(dns)
    requires Run(Start(src, Route(names, dns), port), steps, st)
    requires Some(ip) != st.down && At(st.hosts, ip).touring && ip in At(st.hosts, ip).pings
    ensures ip == src == Route(names, dns)[0]
  {
    var route := Route(names, dns);
    PingsAreThePredecessors(src, route, port, steps, st, ip);
    var v := |st.visited|;
    assert ip in Preds(src, route, v, ip);
    var k :| 0 <= k < v && route[k] == ip && Pred(src, route, k) == ip;
  }
}
