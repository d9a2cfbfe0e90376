/** When a sweep of the code as written writes through freed memory, and whom it forgets, told from the
    list it starts with: what each turn does can be read off the initial list, and then it can be counted
    which entries are gone after which turn. */
module SweepFault {
  import opened CacheModel
  import opened ArpSpec
  import opened ArpInvariant
  import opened SweepPlan
  import ArpFaults

  /** What a sweep starts with. */
  datatype Pass = Pass(devices: seq<Device>, d: Daemon, readable: set<int>, requests: map<int, Request>)
  {
    predicate HasTurn(i: nat)
      requires i < |d.list|
    {
      !d.list[i].state.Complete? && d.list[i].socket in readable
    }

    predicate Resolved(key: SockAddr) {
      exists k :: 0 <= k < |d.list| && d.list[k].ipaddress == key && d.list[k].state.Complete?
    }

    /** What is read from the client: the request in it, if its descriptor is open and there is one. */
    function Asks(i: nat): Request
      requires i < |d.list|
    {
      var fd := d.list[i].socket;
      if fd in d.open && fd in requests then requests[fd] else Unusable
    }

    /** The client has a turn and asks for an IPv4 address. */
    predicate Queries(i: nat)
      requires i < |d.list|
    {
      && HasTurn(i) && d.list[i].state.Connection?
      && Asks(i).Areq? && Asks(i).addr.family == AF_INET
    }

    /** The address it asks for is not resolved, and its entry is given that address. */
    predicate Waits(i: nat)
      requires i < |d.list|
    {
      Queries(i) && !Resolved(Asks(i).addr)
    }

    /** The client is closed and its entry is to be removed: unless it now waits and every broadcast for
        its address succeeded. */
    predicate Drops(i: nat)
      requires i < |d.list|
    {
      HasTurn(i) && !(Waits(i) && Asks(i).reach >= |devices|)
    }

    /** The entry after its turn, if it is left. */
    function After(i: nat): Entry
      requires i < |d.list|
    {
      var e := d.list[i];
      Entry(if Waits(i) then Asks(i).addr else e.ipaddress, if Drops(i) then -1 else e.socket,
            if Waits(i) then Incomplete else e.state, e.hw)
    }

    /** A client that asks for a resolved address is answered, and one that is dropped is closed. */
    function Calls(i: nat): seq<Event>
      requires i < |d.list|
    {
      var fd := d.list[i].socket;
      (if Queries(i) && !Waits(i) then [Answered(fd, Asks(i).addr, Known(d.list, Asks(i).addr))] else [])
      + (if Drops(i) && fd in d.open then [Closed(fd)] else [])
    }

    /** A client that is to wait has its address broadcast on the devices up to the first failure. */
    function Frames(i: nat): seq<Frame>
      requires i < |d.list|
    {
      if !Waits(i) then []
      else Broadcast(if Asks(i).reach < |devices| then devices[..Asks(i).reach] else devices, Asks(i).addr.ip)
    }

    function TurnAt(i: nat): Turn
      requires i < |d.list|
    {
      Turn(After(i), Drops(i), Calls(i), Frames(i))
    }

    /** What the turns of the sweep do, told from the list before the first of them. */
    function Plan(): (pl: Plan)
      ensures |pl| == |d.list|
    {
      PlanUpTo(|d.list|)
    }

    function PlanUpTo(n: nat): (pl: Plan)
      requires n <= |d.list|
      ensures |pl| == n
    {
      if n == 0 then [] else PlanUpTo(n - 1) + [TurnAt(n - 1)]
    }

    /** With a dangling back link, the first entry is unlinked; without one, it is, and so is the entry
        that takes its place. */
    predicate Faults() {
      && |d.list| > 0
      && if d.stale then Gone(Plan(), 0, |d.list|) else Replaced(Plan(), 0, 0)
    }
  }

  /** The hardware address in the first resolved entry for a key. */
  function Known(s: seq<Entry>, key: SockAddr): HwAddr {
    if s == [] then NO_HW
    else if s[0].ipaddress == key && s[0].state.Complete? then s[0].hw
    else Known(s[1..], key)
  }

  /** It is the one that the list resolves the key to. */
  lemma {:induction false} KnownIsBound(s: seq<Entry>, key: SockAddr, hw: HwAddr)
    requires ListInv(s) && Bound(s, key, hw)
    ensures Known(s, key) == hw
  {
    var i :| 0 <= i < |s| && s[i].ipaddress == key && s[i].state.Complete? && s[i].hw == hw;
    if s[0].ipaddress == key && s[0].state.Complete? {
      assert Agree(s[i], s[0]);
    } else {
      assert s[1..][i - 1] == s[i];
      assert Bound(s[1..], key, hw);
      KnownIsBound(s[1..], key, hw);
    }
  }

  lemma PlanAt(p: Pass, j: nat)
    requires j < |p.d.list|
    ensures p.Plan()[j] == p.TurnAt(j)
  {
    PlanUpToAt(p, |p.d.list|, j);
  }

  lemma {:induction false} PlanUpToAt(p: Pass, n: nat, j: nat)
    requires j < n <= |p.d.list|
    ensures p.PlanUpTo(n)[j] == p.TurnAt(j)
  {
    if j < n - 1 {
      PlanUpToAt(p, n - 1, j);
    }
  }

  /** No client is dropped with a resolved address, so a resolved entry stays. */
  lemma {:induction false} NoDropOfResolved(p: Pass, k: nat, t: nat)
    requires ListInv(p.d.list) && k < |p.d.list| && p.d.list[k].state.Complete? && t <= |p.d.list|
    ensures Dropped(p.Plan(), p.d.list[k].ipaddress, t) == 0
    decreases t
  {
    if t > 0 {
      NoDropOfResolved(p, k, t - 1);
      PlanAt(p, t - 1);
      assert Agree(p.d.list[k], p.d.list[t - 1]);
    }
  }

  lemma ResolvedStays(p: Pass, k: nat, t: nat)
    requires ListInv(p.d.list) && k < |p.d.list| && p.d.list[k].state.Complete? && t <= |p.d.list|
    ensures !Gone(p.Plan(), k, t)
  {
    PlanAt(p, k);
    NoDropOfResolved(p, k, t);
  }

  // ----- One turn

  /** Under the invariant removal by value is removal by address. */
  lemma VictimByAddress(s: seq<Entry>, i: nat)
    requires ListInv(s) && i < |s| && !s[i].state.Complete?
    ensures Victim(AS_WRITTEN, s, i) == FindKey(s, s[i].ipaddress)
  {
    var k := FindKey(s, s[i].ipaddress);
    assert EntryOk(s[i]) && EntryOk(s[k]) && Agree(s[k], s[i]);
    assert SameValue(s[k], s[i]);
  }

  /** The entry when its client has been served and not yet dropped. */
  function Served(p: Pass, i: nat): Entry
    requires i < |p.d.list|
  {
    p.After(i).(socket := p.d.list[i].socket)
  }

  lemma ServeEffect(p: Pass, i: nat)
    requires Inv(p.d) && i < |p.d.list| && p.HasTurn(i)
    ensures var (d', keep) := Serve(p.devices, p.d, i, p.requests);
      && keep == !p.Drops(i) && d'.stale == p.d.stale && d'.open == p.d.open
      && d'.list == p.d.list[i := Served(p, i)]
  {
    if p.Queries(i) {
      ResolvedIff(p, p.Asks(i).addr);
    }
    assert p.d.list[i := p.d.list[i]] == p.d.list;
  }

  lemma ServeCalls(p: Pass, i: nat)
    requires Inv(p.d) && i < |p.d.list| && p.HasTurn(i)
    ensures var d' := Serve(p.devices, p.d, i, p.requests).0;
      && d'.log + (if p.Drops(i) && p.d.list[i].socket in p.d.open then [Closed(p.d.list[i].socket)] else [])
         == p.d.log + p.Calls(i)
      && d'.sent == p.d.sent + p.Frames(i)
  {
    if p.Queries(i) {
      ResolvedIff(p, p.Asks(i).addr);
    }
  }

  lemma ServeKeeps(p: Pass, i: nat)
    requires Inv(p.d) && i < |p.d.list| && p.HasTurn(i)
    ensures InvBut(Serve(p.devices, p.d, i, p.requests).0, i)
  {
    if p.d.list[i].state.Connection? {
      AreqKeepsInv(p.devices, p.d, i, p.Asks(i));
    }
  }

  lemma ResolvedIff(p: Pass, key: SockAddr)
    requires ListInv(p.d.list)
    ensures var k := FindKey(p.d.list, key);
      && (p.Resolved(key) <==> k < |p.d.list| && p.d.list[k].state.Complete?)
      && (p.Resolved(key) ==> p.d.list[k].hw == Known(p.d.list, key))
  {
    if p.Resolved(key) {
      var j :| 0 <= j < |p.d.list| && p.d.list[j].ipaddress == key && p.d.list[j].state.Complete?;
      assert Bound(p.d.list, key, p.d.list[j].hw);
      FirstMatchDecides(p.d.list, key);
      KnownIsBound(p.d.list, key, p.d.list[j].hw);
    }
  }

  /** The list after the turn, before anything is unlinked. */
  function Turned(p: Pass, i: nat): seq<Entry>
    requires i < |p.d.list|
  {
    p.d.list[i := p.After(i)]
  }

  /** The effect of a turn in terms of what can be read off the state before it. */
  lemma KeepingTurn(p: Pass, i: nat)
    requires Inv(p.d) && i < |p.d.list| && !p.Drops(i)
    ensures var (r, unlinked) := SweepOne(AS_WRITTEN, p.devices, p.d, i, p.readable, p.requests);
      && !unlinked && r.Ok?
      && r.d.list == Turned(p, i) && r.d.open == p.d.open && r.d.stale == p.d.stale
      && r.d.log == p.d.log + p.Calls(i) && r.d.sent == p.d.sent + p.Frames(i)
  {
    if p.HasTurn(i) {
      ServeEffect(p, i);
      ServeCalls(p, i);
    } else {
      assert p.d.list[i := p.d.list[i]] == p.d.list;
    }
  }

  lemma DroppingTurn(p: Pass, i: nat)
    requires Inv(p.d) && i < |p.d.list| && p.Drops(i)
    ensures var (r, unlinked) := SweepOne(AS_WRITTEN, p.devices, p.d, i, p.readable, p.requests);
      var s := Turned(p, i);
      var k := FindKey(s, p.After(i).ipaddress);
      && unlinked && k <= i
      && (if k == 0 && p.d.stale then r == UseAfterFree else r.Ok?)
      && (r.Ok? ==> r.d.list == Without(s, k) && r.d.open == p.d.open - {p.d.list[i].socket}
                    && r.d.stale == if k == 0 then |p.d.list| > 1 else p.d.stale)
  {
    ServeEffect(p, i);
    ServeKeeps(p, i);
    var d1 := Serve(p.devices, p.d, i, p.requests).0;
    DropEffect(d1, i);
    ClosingServed(p, i);
  }

  lemma ClosingServed(p: Pass, i: nat)
    requires i < |p.d.list| && p.Drops(i)
    ensures var s := p.d.list[i := Served(p, i)];
      && s[i := s[i].(socket := -1)] == Turned(p, i)
      && s[i].socket == p.d.list[i].socket && s[i].ipaddress == p.After(i).ipaddress
  {
  }

  lemma DroppingCalls(p: Pass, i: nat)
    requires Inv(p.d) && i < |p.d.list| && p.Drops(i)
    ensures var r := SweepOne(AS_WRITTEN, p.devices, p.d, i, p.readable, p.requests).0;
      r.Ok? ==> r.d.log == p.d.log + p.Calls(i) && r.d.sent == p.d.sent + p.Frames(i)
  {
    ServeEffect(p, i);
    ServeCalls(p, i);
  }

  lemma DropEffect(d: Daemon, i: nat)
    requires InvBut(d, i)
    ensures var s, e := d.list[i := d.list[i].(socket := -1)], d.list[i];
      var k := FindKey(s, e.ipaddress);
      var r := Drop(AS_WRITTEN, d, i);
      && k <= i
      && (if k == 0 && d.stale then r == UseAfterFree else r.Ok?)
      && (r.Ok? ==> r.d.list == Without(s, k) && r.d.open == d.open - {e.socket}
                    && r.d.stale == if k == 0 then |d.list| > 1 else d.stale)
  {
    CloseKeepsInv(d, i);
    VictimByAddress(CloseEntry(d, i).list, i);
  }

  // ----- The sweep against the plan

  /** After `t` turns the sweep of `p` is in state `c` at index `i`, and `idx` are the initial positions of
      the entries that are left. */
  ghost predicate Sim(p: Pass, pl: Plan, t: nat, c: Daemon, i: nat, idx: seq<nat>) {
    && pl == p.Plan() && Inv(p.d) && Inv(c)
    && t <= |pl| && Increasing(idx) && Members(idx) == Left(pl, t)
    && Entries(p.d.list, pl, t, c.list, i, idx)
    && c.open == p.d.open - ClosedFds(p.d.list, pl, t)
  }

  /** The entries at `idx` of the initial list have become the entries of the list `now`, those before index
      `i` having had their turn. */
  ghost predicate Entries(s: seq<Entry>, pl: Plan, t: nat, now: seq<Entry>, i: nat, idx: seq<nat>)
    requires t <= |pl| == |s|
  {
    && i <= |idx| == |now| && |idx| - i == |pl| - t
    && (forall a :: 0 <= a < i ==> idx[a] < t && now[a] == pl[idx[a]].after)
    && (forall a :: i <= a < |idx| ==> idx[a] == t + (a - i) && now[a] == s[idx[a]])
  }

  /** The descriptors that the first `t` turns close. */
  function ClosedFds(s: seq<Entry>, pl: Plan, t: nat): set<int>
    requires t <= |pl| == |s|
  {
    if t == 0 then {} else ClosedFds(s, pl, t - 1) + if pl[t - 1].drops then {s[t - 1].socket} else {}
  }

  /** A turn closes the descriptor of its own entry only. */
  lemma {:induction false} ClosedInTurn(p: Pass, j: nat, t: nat)
    requires SockInv(p.d.list, p.d.open) && j < |p.d.list| && !p.d.list[j].state.Complete?
    requires p.d.list[j].socket in p.d.open && t <= |p.d.list|
    ensures p.d.list[j].socket in ClosedFds(p.d.list, p.Plan(), t) <==> j < t && p.Drops(j)
    decreases t
  {
    if t > 0 {
      ClosedInTurn(p, j, t - 1);
      PlanAt(p, t - 1);
    }
  }

  /** A sweep before its turn `t`. */
  datatype Progress = Progress(p: Pass, pl: Plan, t: nat, c: Daemon, i: nat, idx: seq<nat>)
  {
    predicate Ended() {
      t >= |pl|
    }

    /** The state as the start of a pass. */
    function Now(): Pass {
      p.(d := c)
    }

    /** The next turn. */
    function One(): (Result, bool)
      requires i < |c.list|
    {
      SweepOne(AS_WRITTEN, p.devices, c, i, p.readable, p.requests)
    }

    /** What the rest of the sweep ends with. */
    function Rest(): Result {
      Sweep(AS_WRITTEN, p.devices, c, i, p.readable, p.requests)
    }

    ghost predicate Faults() {
      Rest() == UseAfterFree
    }

    /** The entry at the head is unlinked by the end. */
    ghost predicate HeadGone() {
      idx != [] && idx[0] < |pl| && Gone(pl, idx[0], |pl|)
    }

    /** The turns to come unlink the head and the entry that takes its place. */
    ghost predicate HeadReplaced() {
      idx != [] && idx[0] < |pl| && Replaced(pl, t, idx[0])
    }

    /** The position of the entry that a dropping turn unlinks. */
    function Found(): nat
      requires i < |c.list| && t < |pl|
    {
      FindKey(Turned(Now(), i), pl[t].after.ipaddress)
    }
  }

  type Stage = s: Progress | Sim(s.p, s.pl, s.t, s.c, s.i, s.idx)
    ghost witness Progress(Pass([], BOOT, {}, map[]), [], 0, BOOT, 0, [])

  lemma StillResolved(s: Stage, key: SockAddr)
    requires s.p.Resolved(key)
    ensures s.Now().Resolved(key) && Known(s.c.list, key) == Known(s.p.d.list, key)
  {
    var Progress(p, pl, t, c, i, idx) := s;
    var k :| 0 <= k < |p.d.list| && p.d.list[k].ipaddress == key && p.d.list[k].state.Complete?;
    ResolvedStays(p, k, t);
    LeftAt(pl, t, idx, k);
    var a :| 0 <= a < |idx| && idx[a] == k;
    PlanAt(p, k);
    assert c.list[a] == p.d.list[k];
    assert Bound(p.d.list, key, p.d.list[k].hw) && Bound(c.list, key, p.d.list[k].hw);
    KnownIsBound(p.d.list, key, p.d.list[k].hw);
    KnownIsBound(c.list, key, p.d.list[k].hw);
  }

  lemma ResolvedBefore(s: Stage, key: SockAddr)
    requires s.Now().Resolved(key)
    ensures s.p.Resolved(key)
  {
    var a :| 0 <= a < |s.c.list| && s.c.list[a].ipaddress == key && s.c.list[a].state.Complete?;
    LeftAt(s.pl, s.t, s.idx, s.idx[a]);
    PlanAt(s.p, s.idx[a]);
    assert s.c.list[a] == s.p.d.list[s.idx[a]];
  }

  lemma SameResolved(s: Stage, key: SockAddr)
    ensures s.p.Resolved(key) <==> s.Now().Resolved(key)
    ensures s.p.Resolved(key) ==> Known(s.c.list, key) == Known(s.p.d.list, key)
  {
    if s.p.Resolved(key) {
      StillResolved(s, key);
    }
    if s.Now().Resolved(key) {
      ResolvedBefore(s, key);
    }
  }

  /** What the entry whose turn it is does can be read off the initial list. */
  lemma SameTurn(s: Stage)
    requires !s.Ended()
    ensures s.i < |s.c.list| && s.idx[s.i] == s.t && s.c.list[s.i] == s.p.d.list[s.t]
    ensures s.pl[s.t] == s.Now().TurnAt(s.i)
  {
    var Progress(p, _, t, c, i, _) := s;
    assert c.list[i] == p.d.list[t];
    PlanAt(p, t);
    if p.HasTurn(t) {
      if p.d.list[t].socket in p.d.open {
        ClosedInTurn(p, t, t);
      }
      assert s.Now().Asks(i) == p.Asks(t);
      if p.Asks(t).Areq? {
        SameResolved(s, p.Asks(t).addr);
      }
    }
  }

  lemma SweepTakesTurn(s: Progress)
    requires s.i < |s.c.list|
    ensures s.Rest() == if s.One().0.Ok? then s.(c := s.One().0.d, i := if s.One().1 then s.i else s.i + 1).Rest() else s.One().0
  {
  }

  /** A turn makes its calls on the client's descriptor and sends its frames. */
  predicate Recorded(s: Progress, s': Progress)
    requires s.t < |s.pl|
  {
    s'.c.log == s.c.log + s.pl[s.t].calls && s'.c.sent == s.c.sent + s.pl[s.t].frames
  }

  /** A turn that drops nobody. */
  lemma KeptStep(s: Stage) returns (s': Stage)
    requires !s.Ended() && !s.pl[s.t].drops
    ensures s' == s.(t := s.t + 1, c := s'.c, i := s.i + 1)
    ensures s'.Rest() == s.Rest() && s'.c.stale == s.c.stale && Recorded(s, s')
  {
    SameTurn(s);
    KeepingTurn(s.Now(), s.i);
    SweepOneKeepsInv(AS_WRITTEN, s.p.devices, s.c, s.i, s.p.readable, s.p.requests);
    s' := KeptSim(s, s.One().0.d);
    SweepTakesTurn(s);
  }

  lemma KeptSim(s: Stage, c': Daemon) returns (s': Stage)
    requires !s.Ended() && !s.pl[s.t].drops && s.i < |s.c.list|
    requires c'.list == s.c.list[s.i := s.pl[s.t].after] && c'.open == s.c.open && Inv(c')
    ensures s' == s.(t := s.t + 1, c := c', i := s.i + 1)
  {
    TurnUnlinksNothing(s.pl, s.t);
    EntriesKept(s.p.d.list, s.pl, s.t, s.c.list, s.i, s.idx);
    s' := s.(t := s.t + 1, c := c', i := s.i + 1);
  }

  lemma EntriesKept(s: seq<Entry>, pl: Plan, t: nat, now: seq<Entry>, i: nat, idx: seq<nat>)
    requires t < |pl| == |s| && i < |now| && Entries(s, pl, t, now, i, idx)
    ensures Entries(s, pl, t + 1, now[i := pl[t].after], i + 1, idx)
  {
  }

  /** The entry found by its address is the one that the count names. */
  lemma DroppedPosition(s: Stage)
    requires !s.Ended() && s.pl[s.t].drops
    ensures s.i < |s.c.list| && s.Found() <= s.i && Left(s.pl, s.t + 1) == Left(s.pl, s.t) - {s.idx[s.Found()]}
  {
    SameTurn(s);
    var list := Turned(s.Now(), s.i);
    assert list[s.i].ipaddress == s.pl[s.t].after.ipaddress;
    assert forall a :: 0 <= a < s.i ==> list[a] == s.c.list[a];
    FirstIsVictim(s.pl, s.t, s.idx, s.Found());
  }

  /** A turn that unlinks the head through a dangling back link. */
  lemma FaultingStep(s: Stage)
    requires !s.Ended() && s.pl[s.t].drops && s.i < |s.c.list| && s.c.stale && s.Found() == 0
    ensures s.Faults()
  {
    SameTurn(s);
    DroppingTurn(s.Now(), s.i);
    SweepTakesTurn(s);
  }

  /** A turn that drops a client without a fault. */
  lemma DroppedStep(s: Stage) returns (s': Stage)
    requires !s.Ended() && s.pl[s.t].drops && s.i < |s.c.list| && !(s.Found() == 0 && s.c.stale)
    ensures s.Found() < |s.idx| && s' == s.(t := s.t + 1, c := s'.c, idx := Without(s.idx, s.Found()))
    ensures s'.Rest() == s.Rest() && Recorded(s, s')
    ensures s'.c.stale == if s.Found() == 0 then |s.idx| > 1 else s.c.stale
  {
    SameTurn(s);
    DroppingTurn(s.Now(), s.i);
    SweepOneKeepsInv(AS_WRITTEN, s.p.devices, s.c, s.i, s.p.readable, s.p.requests);
    DroppingCalls(s.Now(), s.i);
    DroppedPosition(s);
    s' := DroppedSim(s, s.Found(), s.One().0.d);
    SweepTakesTurn(s);
  }

  lemma DroppedSim(s: Stage, k: nat, c': Daemon) returns (s': Stage)
    requires !s.Ended() && s.pl[s.t].drops && s.i < |s.c.list|
    requires k <= s.i && c'.list == Without(s.c.list[s.i := s.pl[s.t].after], k) && c'.open == s.c.open - {s.c.list[s.i].socket} && Inv(c')
    requires Left(s.pl, s.t + 1) == Left(s.pl, s.t) - {s.idx[k]}
    ensures s' == s.(t := s.t + 1, c := c', idx := Without(s.idx, k))
  {
    var Progress(p, pl, t, c, i, idx) := s;
    MembersWithout(idx, k);
    EntriesWithout(p.d.list, pl, t, c.list, i, idx, k);
    CloseOne(p.d.open, p.d.list, pl, t);
    s' := s.(t := t + 1, c := c', idx := Without(idx, k));
  }

  lemma CloseOne(open: set<int>, s: seq<Entry>, pl: Plan, t: nat)
    requires t < |pl| == |s| && pl[t].drops
    ensures open - ClosedFds(s, pl, t + 1) == open - ClosedFds(s, pl, t) - {s[t].socket}
  {
  }

  lemma EntriesWithout(s: seq<Entry>, pl: Plan, t: nat, now: seq<Entry>, i: nat, idx: seq<nat>, k: nat)
    requires t < |pl| == |s| && Entries(s, pl, t, now, i, idx)
    requires k <= i < |now|
    ensures Entries(s, pl, t + 1, Without(now[i := pl[t].after], k), i, Without(idx, k))
  {
    var e := pl[t].after;
    var idx', now' := Without(idx, k), Without(now[i := e], k);
    forall a | 0 <= a < |idx'|
      ensures idx'[a] < |s| && if a < i then idx'[a] < t + 1 && now'[a] == pl[idx'[a]].after
              else idx'[a] == t + 1 + (a - i) && now'[a] == s[idx'[a]]
    {
      var a0 := if a < k then a else a + 1;
      assert now'[a] == now[i := e][a0] && idx'[a] == idx[a0];
    }
  }

  // ----- The exact condition

  lemma HeadIsLeft(s: Stage)
    requires s.idx != []
    ensures s.idx[0] < |s.pl| && !Gone(s.pl, s.idx[0], s.t)
  {
    LeftAt(s.pl, s.t, s.idx, s.idx[0]);
  }

  /** The head is the entry found exactly when the turn unlinks it. */
  lemma AtHeadIff(s: Stage)
    requires !s.Ended() && s.pl[s.t].drops
    ensures s.i < |s.c.list| && s.idx != [] && s.idx[0] < |s.pl|
    ensures s.Found() == 0 <==> Gone(s.pl, s.idx[0], s.t + 1)
  {
    DroppedPosition(s);
    HeadUnlinked(s.pl, s.t, s.idx, s.Found());
  }

  lemma UnlinkingTurn(s: Stage) returns (s': Stage, atHead: bool)
    requires !s.Ended() && s.pl[s.t].drops && s.i < |s.c.list| && s.idx != []
    ensures atHead == (s.Found() == 0)
    ensures if atHead && s.c.stale then s.Faults() else
      && s'.pl == s.pl && s'.p == s.p && s'.t == s.t + 1 && s'.Rest() == s.Rest()
      && (!atHead ==> s'.idx != [] && s'.idx[0] == s.idx[0] && s'.c.stale == s.c.stale)
      && (atHead ==> s'.idx == s.idx[1..] && s'.c.stale == (s'.idx != []))
  {
    atHead := s.Found() == 0;
    if atHead && s.c.stale {
      FaultingStep(s);
      s' := s;
    } else {
      s' := DroppedStep(s);
      assert atHead ==> s'.idx == s.idx[1..];
    }
  }

  /** One turn: nobody is dropped; or an entry other than the head is unlinked; or the head is. */
  lemma OneTurn(s: Stage) returns (s': Stage, atHead: bool)
    requires !s.Ended()
    ensures s.idx != [] && s.idx[0] < |s.pl| && (atHead <==> Gone(s.pl, s.idx[0], s.t + 1))
    ensures atHead && s.c.stale ==> s.Faults()
    ensures !(atHead && s.c.stale) ==>
      && s'.pl == s.pl && s'.p == s.p && s'.t == s.t + 1 && s'.Rest() == s.Rest()
      && (!atHead ==> s'.idx != [] && s'.idx[0] == s.idx[0] && s'.c.stale == s.c.stale)
      && (atHead ==> s'.idx == s.idx[1..] && s'.c.stale == (s'.idx != []))
  {
    if !s.pl[s.t].drops {
      s' := KeptStep(s);
      atHead := false;
      HeadIsLeft(s');
    } else {
      AtHeadIff(s);
      s', atHead := UnlinkingTurn(s);
    }
  }

  lemma EndOfSweep(s: Stage)
    requires s.Ended()
    ensures s.Rest() == Ok(s.c) && !s.HeadReplaced() && !s.HeadGone()
  {
    if s.idx != [] {
      HeadIsLeft(s);
    }
  }

  /** With a dangling back link the rest of the sweep faults exactly when its head is ever unlinked. */
  lemma {:induction false} StaleFaultsIff(s: Stage)
    requires s.c.stale
    ensures s.Faults() <==> s.HeadGone()
    decreases |s.pl| - s.t
  {
    if s.Ended() {
      EndOfSweep(s);
    } else {
      var s', atHead := StaleTurn(s);
      if !atHead {
        StaleFaultsIff(s');
      }
    }
  }

  lemma StaleTurn(s: Stage) returns (s': Stage, atHead: bool)
    requires s.c.stale && !s.Ended()
    ensures if atHead then s.Faults() && s.HeadGone() else
      && s'.c.stale && s'.pl == s.pl && s'.t > s.t
      && (s'.Faults() <==> s.Faults()) && (s'.HeadGone() <==> s.HeadGone())
  {
    s', atHead := OneTurn(s);
    if atHead {
      GoneStays(s.pl, s.idx[0], s.t + 1, |s.pl|);
    } else {
      SameHead(s, s');
    }
  }

  lemma SameHead(s: Progress, s': Progress)
    requires s'.pl == s.pl && s.idx != [] && s'.idx != [] && s'.idx[0] == s.idx[0]
    ensures s'.HeadGone() <==> s.HeadGone()
  {
  }

  /** How a turn changes whether the head is still to be replaced. */
  lemma HeadReplacedStep(s: Stage, s': Stage, atHead: bool)
    requires !s.Ended() && s'.pl == s.pl && s'.t == s.t + 1 && s.idx != [] && s.idx[0] < |s.pl|
    requires atHead <==> Gone(s.pl, s.idx[0], s'.t)
    requires if atHead then s'.idx == s.idx[1..] else s'.idx != [] && s'.idx[0] == s.idx[0]
    ensures s.HeadReplaced() <==> if atHead then s'.HeadGone() else s'.HeadReplaced()
  {
    HeadIsLeft(s);
    if atHead {
      ReplacedNow(s.pl, s.t, s.idx);
    } else {
      ReplacedLater(s.pl, s.t, s.idx[0]);
    }
  }

  /** Without one it faults exactly when the head is unlinked and then the entry that takes its place. */
  lemma {:induction false} FreshFaultsIff(s: Stage)
    requires !s.c.stale
    ensures s.Faults() <==> s.HeadReplaced()
    decreases |s.pl| - s.t
  {
    if s.Ended() {
      EndOfSweep(s);
    } else {
      var s', atHead := OneTurn(s);
      HeadReplacedStep(s, s', atHead);
      if s'.c.stale {
        StaleFaultsIff(s');
      } else {
        FreshFaultsIff(s');
        assert atHead ==> s'.idx == [];
      }
    }
  }

  function Positions(n: nat): (idx: seq<nat>)
    ensures |idx| == n && forall a :: 0 <= a < n ==> idx[a] == a
  {
    seq(n, a => a)
  }

  lemma Start(p: Pass) returns (s: Stage)
    requires Inv(p.d)
    ensures s == Progress(p, p.Plan(), 0, p.d, 0, Positions(|p.d.list|))
  {
    var pl, idx := p.Plan(), Positions(|p.d.list|);
    forall j | 0 <= j < |pl|
      ensures j in idx
    {
      assert idx[j] == j;
    }
    assert Members(idx) == Left(pl, 0);
    s := Progress(p, pl, 0, p.d, 0, idx);
  }

  /** A sweep of the code as written writes through freed memory exactly when the initial list says that it
      unlinks the first entry and, unless the back link of the head dangles already, the entry that takes
      its place. */
  lemma SweepFaultsIff(p: Pass)
    requires Inv(p.d)
    ensures var w := Sweep(AS_WRITTEN, p.devices, p.d, 0, p.readable, p.requests);
      && (w == UseAfterFree <==> p.Faults())
      && (w.Ok? <==> !p.Faults())
  {
    var s := Start(p);
    ArpFaults.SweepAgrees(false, p.devices, p.d, 0, p.readable, p.requests);
    assert |p.d.list| > 0 ==> s.idx[0] == 0;
    if p.d.stale {
      StaleFaultsIff(s);
    } else {
      FreshFaultsIff(s);
    }
  }

  // ----- The whole sweep

  /** A turn of a sweep that does not fault. */
  lemma SoundTurn(s: Stage) returns (s': Stage)
    requires !s.Ended() && s.Rest().Ok?
    ensures s'.pl == s.pl && s'.p == s.p && s'.t == s.t + 1 && s'.Rest() == s.Rest() && Recorded(s, s')
  {
    if !s.pl[s.t].drops {
      s' := KeptStep(s);
    } else {
      DroppedPosition(s);
      if s.Found() == 0 && s.c.stale {
        FaultingStep(s);
        s' := s;
      } else {
        s' := DroppedStep(s);
      }
    }
  }

  /** A sweep that does not fault ends in the state that the plan describes. */
  lemma {:induction false} RunToEnd(s: Stage) returns (end: Stage)
    requires s.Rest().Ok?
    ensures end.p == s.p && end.Ended() && s.Rest() == Ok(end.c)
    ensures RecordedUpTo(s, end)
    decreases |s.pl| - s.t
  {
    if s.Ended() {
      EndOfSweep(s);
      end := s;
    } else {
      var s' := SoundTurn(s);
      end := RunToEnd(s');
      RecordOnward(s, s', end);
    }
  }

  predicate RecordedUpTo(s: Progress, end: Progress) {
    end.c.log == s.c.log + CallsFrom(s.pl, s.t) && end.c.sent == s.c.sent + FramesFrom(s.pl, s.t)
  }

  lemma RecordOnward(s: Progress, s': Progress, end: Progress)
    requires s.t < |s.pl| && Recorded(s, s') && s'.pl == s.pl && s'.t == s.t + 1 && RecordedUpTo(s', end)
    ensures RecordedUpTo(s, end)
  {
  }

  /** What a sweep that does not fault does, read off the list that it starts with: every client that has a
      turn is served and, unless it is to wait, closed, in list order; and the entries that are not gone are
      left as they are after their turns. */
  lemma SweepEffect(p: Pass) returns (idx: seq<nat>)
    requires Inv(p.d) && !p.Faults()
    ensures var r := Sweep(AS_WRITTEN, p.devices, p.d, 0, p.readable, p.requests);
      && r.Ok?
      && r.d.log == p.d.log + CallsFrom(p.Plan(), 0)
      && r.d.sent == p.d.sent + FramesFrom(p.Plan(), 0)
      && (forall fd :: fd in r.d.open <==>
            fd in p.d.open && forall j :: 0 <= j < |p.d.list| && p.Drops(j) ==> p.d.list[j].socket != fd)
      && |idx| == |r.d.list|
      && forall a :: 0 <= a < |idx| ==> idx[a] < |p.d.list| && r.d.list[a] == p.After(idx[a])
    ensures Increasing(idx) && forall j :: 0 <= j < |p.d.list| ==> (j in idx <==> !Gone(p.Plan(), j, |p.d.list|))
  {
    SweepFaultsIff(p);
    var s := Start(p);
    var end := RunToEnd(s);
    idx := end.idx;
    OpenAfter(end);
    forall a | 0 <= a < |idx|
      ensures idx[a] < |p.d.list| && end.c.list[a] == p.After(idx[a])
    {
      EndEntry(end, a);
    }
    forall j | 0 <= j < |p.d.list|
      ensures j in idx <==> !Gone(p.Plan(), j, |p.d.list|)
    {
      LeftAt(end.pl, end.t, idx, j);
    }
  }

  lemma {:induction false} ClosedIff(p: Pass, t: nat, fd: int)
    requires t <= |p.d.list|
    ensures fd in ClosedFds(p.d.list, p.Plan(), t) <==> exists j :: 0 <= j < t && p.Drops(j) && p.d.list[j].socket == fd
    decreases t
  {
    if t > 0 {
      PlanAt(p, t - 1);
      ClosedIff(p, t - 1, fd);
    }
  }

  lemma OpenAfter(end: Stage)
    requires end.Ended()
    ensures var p := end.p;
      forall fd :: fd in end.c.open <==>
        fd in p.d.open && forall j :: 0 <= j < |p.d.list| && p.Drops(j) ==> p.d.list[j].socket != fd
  {
    var p := end.p;
    assert end.c.open == p.d.open - ClosedFds(p.d.list, p.Plan(), |p.d.list|);
    forall fd
      ensures fd in end.c.open <==> fd in p.d.open && forall j :: 0 <= j < |p.d.list| && p.Drops(j) ==> p.d.list[j].socket != fd
    {
      ClosedIff(p, |p.d.list|, fd);
    }
  }

  lemma EndEntry(end: Stage, a: nat)
    requires end.Ended() && a < |end.idx|
    ensures |end.c.list| == |end.idx| && end.idx[a] < |end.p.d.list| && end.c.list[a] == end.p.After(end.idx[a])
  {
    LeftAt(end.pl, end.t, end.idx, end.idx[a]);
    PlanAt(end.p, end.idx[a]);
  }

  /** However many clients ask in one pass, each of them is served: a connected client whose request is there
      to be read is sent the resolution of the address it asks for and closed, or if there is none, and the
      broadcasts succeed, stays open with a request for it sent from every device. */
  lemma AskingClientIsServed(p: Pass, i: nat, addr: SockAddr, reach: nat)
    requires Inv(p.d) && !p.Faults() && i < |p.d.list| && p.d.list[i].state.Connection?
    requires var fd := p.d.list[i].socket;
      fd in p.readable && fd in p.d.open && fd in p.requests && p.requests[fd] == Areq(addr, reach)
    requires addr.family == AF_INET
    ensures var r := Sweep(AS_WRITTEN, p.devices, p.d, 0, p.readable, p.requests);
      var fd := p.d.list[i].socket;
      && r.Ok? && p.d.log <= r.d.log && p.d.sent <= r.d.sent
      && (forall hw :: Bound(p.d.list, addr, hw) ==>
            Answered(fd, addr, hw) in r.d.log[|p.d.log|..] && Closed(fd) in r.d.log[|p.d.log|..] && fd !in r.d.open)
      && ((forall hw :: !Bound(p.d.list, addr, hw)) && reach >= |p.devices| ==>
            fd in r.d.open && forall dev :: dev in p.devices ==> RequestFrame(dev, addr.ip) in r.d.sent[|p.d.sent|..])
  {
    var r := Sweep(AS_WRITTEN, p.devices, p.d, 0, p.readable, p.requests);
    var fd := p.d.list[i].socket;
    SweepFaultsIff(p);
    var s := Start(p);
    var end := RunToEnd(s);
    OpenAtEnd(end, i);
    assert p.Asks(i) == Areq(addr, reach);
    forall hw | Bound(p.d.list, addr, hw)
      ensures Answered(fd, addr, hw) in r.d.log[|p.d.log|..] && Closed(fd) in r.d.log[|p.d.log|..] && fd !in r.d.open
    {
      AnsweredInTurn(p, i, hw);
      PlanAt(p, i);
      CallsContain(p.Plan(), 0, i, Answered(fd, addr, hw));
      CallsContain(p.Plan(), 0, i, Closed(fd));
    }
    if (forall hw :: !Bound(p.d.list, addr, hw)) && reach >= |p.devices| {
      UnboundIsUnresolved(p, addr);
      BroadcastInTurn(p, i);
    }
  }

  lemma AnsweredInTurn(p: Pass, i: nat, hw: HwAddr)
    requires Inv(p.d) && i < |p.d.list| && p.Queries(i) && Bound(p.d.list, p.Asks(i).addr, hw)
    ensures p.Drops(i) && p.d.list[i].socket in p.d.open
    ensures p.Calls(i) == [Answered(p.d.list[i].socket, p.Asks(i).addr, hw), Closed(p.d.list[i].socket)]
  {
    KnownIsBound(p.d.list, p.Asks(i).addr, hw);
  }

  lemma BroadcastInTurn(p: Pass, i: nat)
    requires i < |p.d.list| && p.Waits(i) && p.Asks(i).reach >= |p.devices|
    ensures forall dev :: dev in p.devices ==> RequestFrame(dev, p.Asks(i).addr.ip) in FramesFrom(p.Plan(), 0)
  {
    forall dev | dev in p.devices
      ensures RequestFrame(dev, p.Asks(i).addr.ip) in FramesFrom(p.Plan(), 0)
    {
      var k :| 0 <= k < |p.devices| && p.devices[k] == dev;
      assert p.Frames(i)[k] == RequestFrame(dev, p.Asks(i).addr.ip);
      PlanAt(p, i);
      FramesContain(p.Plan(), 0, i, RequestFrame(dev, p.Asks(i).addr.ip));
    }
  }

  lemma UnboundIsUnresolved(p: Pass, key: SockAddr)
    requires forall hw :: !Bound(p.d.list, key, hw)
    ensures !p.Resolved(key)
  {
    if p.Resolved(key) {
      var k :| 0 <= k < |p.d.list| && p.d.list[k].ipaddress == key && p.d.list[k].state.Complete?;
      assert Bound(p.d.list, key, p.d.list[k].hw);
    }
  }

  // ----- The clients that a sweep forgets

  /** The sweep unlinks the entry of a client that it does not drop. */
  predicate Loses(p: Pass, j: nat)
    requires j < |p.d.list|
  {
    Gone(p.Plan(), j, |p.d.list|) && !p.Drops(j) && p.d.list[j].socket in p.d.open
  }

  /** A client's descriptor is still open at the end exactly when the client was not dropped. */
  lemma OpenAtEnd(end: Stage, j: nat)
    requires end.Ended() && j < |end.p.d.list| && !end.p.d.list[j].state.Complete?
    requires end.p.d.list[j].socket in end.p.d.open
    ensures end.p.d.list[j].socket in end.c.open <==> !end.p.Drops(j)
  {
    ClosedInTurn(end.p, j, end.t);
    assert end.c.open == end.p.d.open - ClosedFds(end.p.d.list, end.pl, end.t);
  }

  lemma OpenBefore(end: Stage, fd: int)
    requires fd in end.c.open
    ensures fd in end.p.d.open
  {
  }

  /** The clients lost are forgotten: open, and held by no entry. */
  lemma LostIsForgotten(p: Pass, end: Stage, j: nat)
    requires end.p == p && end.Ended() && j < |p.d.list| && Loses(p, j)
    ensures ArpFaults.Forgotten(end.c, p.d.list[j].socket)
  {
    var w, idx := end.c, end.idx;
    if p.d.list[j].state.Complete? {
      ResolvedStays(p, j, |p.d.list|);
    }
    OpenAtEnd(end, j);
    LeftAt(end.pl, end.t, idx, j);
    forall a | 0 <= a < |w.list| && !w.list[a].state.Complete?
      ensures w.list[a].socket != p.d.list[j].socket
    {
      assert idx[a] in idx && w.list[a] == end.pl[idx[a]].after;
      LeftAt(end.pl, end.t, idx, idx[a]);
      PlanAt(p, idx[a]);
    }
  }

  /** Nobody else becomes forgotten. */
  lemma OthersAreHeld(p: Pass, end: Stage, fd: int)
    requires end.p == p && end.Ended() && fd in end.c.open && fd in p.d.open && !ArpFaults.Forgotten(p.d, fd)
    requires forall j :: 0 <= j < |p.d.list| && Loses(p, j) ==> p.d.list[j].socket != fd
    ensures ArpFaults.Holds(end.c.list, fd)
  {
    var w, idx := end.c, end.idx;
    var j :| 0 <= j < |p.d.list| && !p.d.list[j].state.Complete? && p.d.list[j].socket == fd;
    OpenAtEnd(end, j);
    PlanAt(p, j);
    LeftAt(end.pl, end.t, idx, j);
    var a :| 0 <= a < |idx| && idx[a] == j;
    assert w.list[a] == p.After(j);
    ArpFaults.HoldsAt(w.list, a);
  }

  /** A sweep that does not fault forgets exactly the clients that it does not drop and whose entry the
      initial list says it unlinks, next to those forgotten before. So it leaves every open descriptor
      accounted for exactly when all were and there is no such client. */
  lemma SweepForgetsIff(p: Pass)
    requires Inv(p.d) && !p.Faults()
    ensures var w := Sweep(AS_WRITTEN, p.devices, p.d, 0, p.readable, p.requests);
      && w.Ok?
      && (forall fd :: ArpFaults.Forgotten(w.d, fd) <==>
            ArpFaults.Forgotten(p.d, fd) || exists j :: 0 <= j < |p.d.list| && Loses(p, j) && p.d.list[j].socket == fd)
      && (ArpFaults.Accounted(w.d.list, w.d.open) <==>
            ArpFaults.Accounted(p.d.list, p.d.open) && forall j :: 0 <= j < |p.d.list| ==> !Loses(p, j))
  {
    SweepFaultsIff(p);
    var s := Start(p);
    var end := RunToEnd(s);
    var w := end.c;
    forall j | 0 <= j < |p.d.list| && Loses(p, j)
      ensures ArpFaults.Forgotten(w, p.d.list[j].socket)
    {
      LostIsForgotten(p, end, j);
    }
    forall fd | ArpFaults.Forgotten(p.d, fd)
      ensures ArpFaults.Forgotten(w, fd)
    {
      ArpFaults.SweepForgets(AS_WRITTEN, p.devices, p.d, 0, p.readable, p.requests, fd);
    }
    forall fd | fd in w.open && !ArpFaults.Forgotten(p.d, fd)
                && forall j :: 0 <= j < |p.d.list| && Loses(p, j) ==> p.d.list[j].socket != fd
      ensures ArpFaults.Holds(w.list, fd)
    {
      OpenBefore(end, fd);
      OthersAreHeld(p, end, fd);
    }
    AccountedIff(p.d);
    AccountedIff(w);
  }

  lemma AccountedIff(d: Daemon)
    ensures ArpFaults.Accounted(d.list, d.open) <==> forall fd :: !ArpFaults.Forgotten(d, fd)
  {
    if ArpFaults.Accounted(d.list, d.open) {
      forall fd
        ensures !ArpFaults.Forgotten(d, fd)
      {
      }
    } else {
      var fd :| fd in d.open && !ArpFaults.Holds(d.list, fd);
      assert ArpFaults.Forgotten(d, fd);
    }
  }

  // ----- Any next step

  /** The next step of every reachable daemon is defined exactly unless `accept` fails while some entry's
      socket is -1, the sweep unlinks the head twice, or a frame does not fit. */
  lemma NextOkIff(devices: seq<Device>, past: seq<Step>, d: Daemon, s: Step)
    requires Run(AS_WRITTEN, devices, BOOT, past, d) && Enabled(d, s)
    ensures Next(AS_WRITTEN, devices, d, s).Ok? <==>
      match s
      case DoAccept(sfd) => ArpFaults.AcceptFits(d, sfd)
      case DoSweep(readable, requests) => !Pass(devices, d, readable, requests).Faults()
      case DoFrame(f, src) => ArpFaults.FrameFits(devices, f.payload, src.ifindex)
  {
    BootInv();
    RunKeepsInv(AS_WRITTEN, devices, BOOT, past, d);
    match s
    case DoAccept(sfd) => AcceptFindsNothing(d, sfd);
    case DoSweep(readable, requests) => SweepFaultsIff(Pass(devices, d, readable, requests));
    case DoFrame(f, src) => ArpFaults.FrameOkIff(devices, d, f, src);
  }
}
