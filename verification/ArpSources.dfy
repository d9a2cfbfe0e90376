/** Where everything in the cache and every answer comes from: over whole runs, a client is only sent the
    resolution of an address it asked for, and an address is only kept if a client asked for it or its
    host asked for one of ours. */
module ArpSources {
  import opened Bytes
  import opened CacheModel
  import opened ArpWire
  import opened ArpSpec
  import opened ArpInvariant
  import opened ArpFrames

  /** The client on the descriptor asks for the address in this step. */
  predicate Asks(s: Step, fd: int, key: SockAddr) {
    s.DoSweep? && fd in s.requests && s.requests[fd].Areq? && s.requests[fd].addr == key
  }

  /** In this step a host with the address asks for the address of one of the devices. */
  predicate Introduces(devices: seq<Device>, s: Step, key: SockAddr) {
    && s.DoFrame?
    && var b := s.frame.payload;
    && |b| <= 58 && ValidPayload(b) && b[9] == 1 && b[7] == 4
    && key == KeyBytes(Spa(b))
    && exists k :: 0 <= k < |devices| && devices[k].ip == Tpa(b)
  }

  /** What clients asked for, by descriptor, and the addresses heard of. */
  datatype Facts = Facts(asked: set<(int, SockAddr)>, keys: set<SockAddr>)

  /** The facts know what a step tells. */
  ghost predicate Knows(devices: seq<Device>, f: Facts, s: Step) {
    && (forall fd, key :: Asks(s, fd, key) ==> (fd, key) in f.asked && key in f.keys)
    && (forall key :: Introduces(devices, s, key) ==> key in f.keys)
  }

  ghost predicate Sourced(f: Facts, d: Daemon) {
    && -1 !in d.open
    && (forall i :: 0 <= i < |d.list| ==> EntrySourced(f, d.list[i]))
    && (forall i :: 0 <= i < |d.log| && d.log[i].Answered? ==> (d.log[i].fd, d.log[i].key) in f.asked)
  }

  predicate EntrySourced(f: Facts, e: Entry) {
    && (e.state.Incomplete? && e.socket != -1 ==> (e.socket, e.ipaddress) in f.asked)
    && (!e.state.Connection? ==> e.ipaddress in f.keys)
  }

  // ----- Each step

  lemma AreqSourced(devices: seq<Device>, f: Facts, d: Daemon, i: nat, r: Request)
    requires Sourced(f, d) && i < |d.list| && d.list[i].state.Connection?
    requires r.Areq? ==> (d.list[i].socket, r.addr) in f.asked && r.addr in f.keys
    ensures Sourced(f, HandleAreq(devices, d, i, r).0)
  {
  }

  lemma DropSourced(fix: Repair, f: Facts, d: Daemon, i: nat)
    requires Sourced(f, d) && i < |d.list| && Drop(fix, d, i).Ok?
    ensures Sourced(f, Drop(fix, d, i).d)
  {
    var d1 := CloseEntry(d, i);
    assert Sourced(f, d1);
  }

  lemma SweepOneSourced(fix: Repair, devices: seq<Device>, f: Facts, d: Daemon, i: nat,
                        readable: set<int>, requests: map<int, Request>)
    requires Sourced(f, d) && i < |d.list| && Knows(devices, f, DoSweep(readable, requests))
    requires SweepOne(fix, devices, d, i, readable, requests).0.Ok?
    ensures Sourced(f, SweepOne(fix, devices, d, i, readable, requests).0.d)
  {
    var e := d.list[i];
    if !e.state.Complete? && e.socket in readable {
      var (d1, keep) := Serve(devices, d, i, requests);
      if e.state.Connection? {
        var r := RequestAt(d, e.socket, requests);
        assert r.Areq? ==> Asks(DoSweep(readable, requests), e.socket, r.addr);
        AreqSourced(devices, f, d, i, r);
      }
      if !keep {
        DropSourced(fix, f, d1, i);
      }
    }
  }

  lemma {:induction false} SweepSourced(fix: Repair, devices: seq<Device>, f: Facts, d: Daemon, i: nat,
                                        readable: set<int>, requests: map<int, Request>)
    requires Sourced(f, d) && Knows(devices, f, DoSweep(readable, requests))
    requires Sweep(fix, devices, d, i, readable, requests).Ok?
    ensures Sourced(f, Sweep(fix, devices, d, i, readable, requests).d)
    decreases |d.list| - i
  {
    if i < |d.list| {
      var (r, unlinked) := SweepOne(fix, devices, d, i, readable, requests);
      SweepOneSourced(fix, devices, f, d, i, readable, requests);
      SweepSourced(fix, devices, f, r.d, if unlinked then i else i + 1, readable, requests);
    }
  }

  lemma CompleteOneSourced(f: Facts, d: Daemon, i: nat, hw: HwAddr)
    requires Sourced(f, d) && i < |d.list| && d.list[i].state.Incomplete?
    ensures Sourced(f, CompleteEntry(d, i, hw))
  {
  }

  lemma {:induction false} CompleteSourced(f: Facts, d: Daemon, i: nat, key: SockAddr, hw: HwAddr)
    requires Sourced(f, d)
    ensures Sourced(f, CompleteFrom(d, i, key, hw))
    decreases |d.list| - i
  {
    if i < |d.list| {
      var e := d.list[i];
      var d1 := d;
      if e.ipaddress == key && e.state.Incomplete? {
        d1 := CompleteEntry(d, i, hw);
        CompleteOneSourced(f, d, i, hw);
      }
      CompleteSourced(f, d1, i + 1, key, hw);
    }
  }

  lemma RequestSourced(devices: seq<Device>, f: Facts, d: Daemon, m: Arp, requester: Mac, src: LinkSource)
    requires Sourced(f, d) && Dispatchable(m) && HandleReq(devices, d, m, requester, src).Ok?
    requires (exists k :: 0 <= k < |devices| && devices[k].ip == m.tpa) && m.protLen == 4 ==> KeyBytes(m.spa) in f.keys
    ensures Sourced(f, HandleReq(devices, d, m, requester, src).d)
  {
    var d' := HandleReq(devices, d, m, requester, src).d;
    if d'.list != d.list {
      KeyIs(m.spa);
      var e := d'.list[0];
      assert EntrySourced(f, e) && d'.list == [e] + d.list;
    }
  }

  lemma FrameSourced(devices: seq<Device>, f: Facts, d: Daemon, g: Frame, src: LinkSource)
    requires Sourced(f, d) && Knows(devices, f, DoFrame(g, src)) && OnFrame(devices, d, g, src).Ok?
    ensures Sourced(f, OnFrame(devices, d, g, src).d)
  {
    ValidPayloadIff(g.payload);
    if ValidPayload(g.payload) {
      var m := Decode(g.payload).value;
      if m.op == ARPOP_REQUEST {
        assert m.protLen == 4 && (exists k :: 0 <= k < |devices| && devices[k].ip == m.tpa)
            ==> Introduces(devices, DoFrame(g, src), KeyBytes(m.spa));
        RequestSourced(devices, f, d, m, g.src, src);
      } else {
        CompleteSourced(f, d, 0, KeyFrom(m.tpa), LearntFromReply(m, src, MacByIfindex(devices, src.ifindex).value));
      }
    }
  }

  lemma NextSourced(fix: Repair, devices: seq<Device>, f: Facts, d: Daemon, s: Step)
    requires Sourced(f, d) && Knows(devices, f, s) && Enabled(d, s) && Next(fix, devices, d, s).Ok?
    ensures Sourced(f, Next(fix, devices, d, s).d)
  {
    match s
    case DoAccept(sfd) =>
    case DoSweep(readable, requests) => SweepSourced(fix, devices, f, d, 0, readable, requests);
    case DoFrame(g, src) => FrameSourced(devices, f, d, g, src);
  }

  // ----- Whole runs

  lemma {:induction false} RunSourced(fix: Repair, devices: seq<Device>, f: Facts, d: Daemon, steps: seq<Step>, d': Daemon)
    requires Sourced(f, d) && Run(fix, devices, d, steps, d')
    requires forall k :: 0 <= k < |steps| ==> Knows(devices, f, steps[k])
    ensures Sourced(f, d')
    decreases |steps|
  {
    if steps != [] {
      NextSourced(fix, devices, f, d, steps[0]);
      RunSourced(fix, devices, f, Next(fix, devices, d, steps[0]).d, steps[1..], d');
    }
  }

  function AskedIn(s: Step): set<(int, SockAddr)> {
    if s.DoSweep? then set fd | fd in s.requests && s.requests[fd].Areq? :: (fd, s.requests[fd].addr) else {}
  }

  function KeysIn(devices: seq<Device>, s: Step): set<SockAddr> {
    match s
    case DoAccept(_) => {}
    case DoSweep(_, requests) => set fd | fd in requests && requests[fd].Areq? :: requests[fd].addr
    case DoFrame(g, _) =>
      if ValidPayload(g.payload) && g.payload[7] == 4 && Introduces(devices, s, KeyBytes(Spa(g.payload)))
      then {KeyBytes(Spa(g.payload))} else {}
  }

  /** What the steps tell. */
  function Told(devices: seq<Device>, steps: seq<Step>): Facts {
    if steps == [] then Facts({}, {})
    else
      var f, s := Told(devices, steps[1..]), steps[0];
      Facts(f.asked + AskedIn(s), f.keys + KeysIn(devices, s))
  }

  lemma StepTold(devices: seq<Device>, s: Step)
    ensures Knows(devices, Facts(AskedIn(s), KeysIn(devices, s)), s)
  {
  }

  lemma {:induction false} ToldKnows(devices: seq<Device>, steps: seq<Step>)
    ensures forall k :: 0 <= k < |steps| ==> Knows(devices, Told(devices, steps), steps[k])
  {
    if steps != [] {
      StepTold(devices, steps[0]);
      ToldKnows(devices, steps[1..]);
      forall k | 0 < k < |steps|
        ensures Knows(devices, Told(devices, steps), steps[k])
      {
        assert steps[k] == steps[1..][k - 1];
      }
    }
  }

  /** And nothing more: every request known was made in some step. */
  lemma {:induction false} WhenAsked(devices: seq<Device>, steps: seq<Step>, fd: int, key: SockAddr) returns (k: nat)
    requires (fd, key) in Told(devices, steps).asked
    ensures k < |steps| && Asks(steps[k], fd, key)
  {
    if (fd, key) in AskedIn(steps[0]) {
      k := 0;
    } else {
      k := WhenAsked(devices, steps[1..], fd, key);
      k := k + 1;
    }
  }

  lemma {:induction false} WhenHeard(devices: seq<Device>, steps: seq<Step>, key: SockAddr) returns (k: nat)
    requires key in Told(devices, steps).keys
    ensures k < |steps| && ((exists fd :: Asks(steps[k], fd, key)) || Introduces(devices, steps[k], key))
  {
    if key in KeysIn(devices, steps[0]) {
      k := 0;
      if steps[0].DoSweep? {
        var fd :| fd in steps[0].requests && steps[0].requests[fd].Areq? && steps[0].requests[fd].addr == key;
        assert Asks(steps[0], fd, key);
      }
    } else {
      k := WhenHeard(devices, steps[1..], key);
      k := k + 1;
    }
  }

  lemma ReachableSourced(fix: Repair, devices: seq<Device>, steps: seq<Step>, d: Daemon)
    requires Run(fix, devices, BOOT, steps, d)
    ensures Sourced(Told(devices, steps), d)
  {
    ToldKnows(devices, steps);
    RunSourced(fix, devices, Told(devices, steps), BOOT, steps, d);
  }

  /** In every run whatever a client is sent is the resolution of an address that was asked for on its
      descriptor. */
  lemma AnswersWhatWasAsked(fix: Repair, devices: seq<Device>, steps: seq<Step>, d: Daemon, i: nat) returns (k: nat)
    requires Run(fix, devices, BOOT, steps, d) && i < |d.log| && d.log[i].Answered?
    ensures k < |steps| && Asks(steps[k], d.log[i].fd, d.log[i].key)
  {
    ReachableSourced(fix, devices, steps, d);
    k := WhenAsked(devices, steps, d.log[i].fd, d.log[i].key);
  }

  /** In every run each waiting or resolved entry is for an address that some client asked for, or whose host
      asked for the address of one of the devices: nothing that is merely overheard is kept. */
  lemma NothingOverheard(fix: Repair, devices: seq<Device>, steps: seq<Step>, d: Daemon, i: nat) returns (k: nat)
    requires Run(fix, devices, BOOT, steps, d) && i < |d.list| && !d.list[i].state.Connection?
    ensures k < |steps|
    ensures (exists fd :: Asks(steps[k], fd, d.list[i].ipaddress)) || Introduces(devices, steps[k], d.list[i].ipaddress)
  {
    ReachableSourced(fix, devices, steps, d);
    assert EntrySourced(Told(devices, steps), d.list[i]);
    k := WhenHeard(devices, steps, d.list[i].ipaddress);
  }
}
