/** Where the code as written leaves defined behaviour, and where its removal by value loses a client:
    the exact conditions, and what the repairs of `ArpSpec.Repair` change. */
module ArpFaults {
  import opened Bytes
  import opened CacheModel
  import opened ArpWire
  import opened ArpSpec
  import opened ArpInvariant

  // ----- The dangling back link of the head

  function WithStale(d: Daemon, stale: bool): Daemon {
    d.(stale := stale)
  }

  lemma ServeIgnoresStale(devices: seq<Device>, d: Daemon, i: nat, requests: map<int, Request>)
    requires i < |d.list|
    ensures var a, b := Serve(devices, d, i, requests), Serve(devices, WithStale(d, false), i, requests);
      b == (WithStale(a.0, false), a.1) && a.0.stale == d.stale
  {
  }

  lemma DropAgrees(byPointer: bool, d: Daemon, i: nat)
    requires i < |d.list|
    ensures
      var w := Drop(Repair(false, byPointer), d, i);
      var r := Drop(Repair(true, byPointer), WithStale(d, false), i);
      && r.Ok? && !r.d.stale
      && (if w.Ok? then WithStale(w.d, false) == r.d else w == UseAfterFree)
  {
    var d1 := CloseEntry(d, i);
    assert CloseEntry(WithStale(d, false), i) == WithStale(d1, false);
  }

  lemma SweepOneAgrees(byPointer: bool, devices: seq<Device>, d: Daemon, i: nat,
                       readable: set<int>, requests: map<int, Request>)
    requires i < |d.list|
    ensures
      var (w, wu) := SweepOne(Repair(false, byPointer), devices, d, i, readable, requests);
      var (r, ru) := SweepOne(Repair(true, byPointer), devices, WithStale(d, false), i, readable, requests);
      && r.Ok? && !r.d.stale && wu == ru
      && (if w.Ok? then WithStale(w.d, false) == r.d else w == UseAfterFree)
  {
    var e := d.list[i];
    if !e.state.Complete? && e.socket in readable {
      ServeIgnoresStale(devices, d, i, requests);
      var (d1, keep) := Serve(devices, d, i, requests);
      if !keep {
        DropAgrees(byPointer, d1, i);
      }
    }
  }

  /** A sweep of the code as written either does what the repaired one does, up to the back link of the
      head, or writes through freed memory; the repaired one is always defined. */
  lemma {:induction false} SweepAgrees(byPointer: bool, devices: seq<Device>, d: Daemon, i: nat,
                                       readable: set<int>, requests: map<int, Request>)
    ensures
      var w := Sweep(Repair(false, byPointer), devices, d, i, readable, requests);
      var r := Sweep(Repair(true, byPointer), devices, WithStale(d, false), i, readable, requests);
      && r.Ok? && !r.d.stale
      && (if w.Ok? then WithStale(w.d, false) == r.d else w == UseAfterFree)
    decreases |d.list| - i
  {
    if i < |d.list| {
      SweepOneAgrees(byPointer, devices, d, i, readable, requests);
      var (w, unlinked) := SweepOne(Repair(false, byPointer), devices, d, i, readable, requests);
      var r := SweepOne(Repair(true, byPointer), devices, WithStale(d, false), i, readable, requests).0;
      var next := if unlinked then i else i + 1;
      if w.Ok? {
        SweepAgrees(byPointer, devices, w.d, next, readable, requests);
      } else {
        SweepAgrees(byPointer, devices, r.d, next, readable, requests);
        assert WithStale(r.d, false) == r.d;
      }
    }
  }

  /** With the head's back link cleared, the next step of a reachable daemon is defined exactly unless
      `accept` fails while some entry's socket is -1, or a frame does not fit. */
  lemma RepairedOkIff(fix: Repair, devices: seq<Device>, past: seq<Step>, d: Daemon, s: Step)
    requires fix.clearPrev && Run(fix, devices, BOOT, past, d) && Enabled(d, s)
    ensures Next(fix, devices, d, s).Ok? <==>
      match s
      case DoAccept(sfd) => AcceptFits(d, sfd)
      case DoSweep(_, _) => true
      case DoFrame(f, src) => FrameFits(devices, f.payload, src.ifindex)
  {
    BootInv();
    RepairedRunStaysSound(fix, devices, BOOT, past, d);
    match s
    case DoAccept(sfd) => AcceptFindsNothing(d, sfd);
    case DoSweep(readable, requests) => RepairedSweep(fix, devices, d, readable, requests);
    case DoFrame(f, src) => FrameOkIff(devices, d, f, src);
  }

  lemma RepairedSweep(fix: Repair, devices: seq<Device>, d: Daemon, readable: set<int>, requests: map<int, Request>)
    requires fix.clearPrev && !d.stale
    ensures var r := Sweep(fix, devices, d, 0, readable, requests); r.Ok? && !r.d.stale
  {
    SweepAgrees(fix.byPointer, devices, d, 0, readable, requests);
    assert fix == Repair(true, fix.byPointer) && WithStale(d, false) == d;
  }

  // ----- Steps that are defined

  /** A failed `accept` finds no entry by its socket. */
  predicate AcceptFits(d: Daemon, sfd: int) {
    sfd != -1 || forall i :: 0 <= i < |d.list| ==> d.list[i].socket != -1
  }

  predicate HasIndex(devices: seq<Device>, index: int) {
    exists k :: 0 <= k < |devices| && devices[k].ifindex == index
  }

  predicate HasIp(devices: seq<Device>, ip: seq<byte>) {
    exists k :: 0 <= k < |devices| && devices[k].ip == ip
  }

  /** What a valid packet's lengths, its target and the interface it came in on have to be. */
  predicate PacketFits(devices: seq<Device>, m: Arp, index: int) {
    if m.op == ARPOP_REQUEST
    then m.protLen == 4 && (HasIp(devices, m.tpa) ==> m.hardLen <= 6 && HasIndex(devices, index))
    else m.hardLen <= 6 && m.protLen <= 12 && HasIndex(devices, index)
  }

  /** The payload fits `struct arp_hdr` and, if it is a valid packet, so do the fields copied from it. */
  predicate FrameFits(devices: seq<Device>, payload: seq<byte>, index: int) {
    && |payload| <= ARP_STRUCTLEN
    && var m := Decode(payload);
       m.Some? && ValidArp(m.value) ==> PacketFits(devices, m.value, index)
  }

  /** A received frame is handled within the buffers, and not through a null hardware address, exactly
      when it fits: whatever the state of the daemon. */
  lemma FrameOkIff(devices: seq<Device>, d: Daemon, f: Frame, src: LinkSource)
    ensures OnFrame(devices, d, f, src).Ok? <==> FrameFits(devices, f.payload, src.ifindex)
  {
    match Decode(f.payload)
    case None =>
    case Some(m) =>
      if |f.payload| <= ARP_STRUCTLEN && ValidArp(m) {
        PacketOkIff(devices, d, m, f.src, src);
      }
  }

  lemma PacketOkIff(devices: seq<Device>, d: Daemon, m: Arp, requester: Mac, src: LinkSource)
    requires Dispatchable(m)
    ensures (if m.op == ARPOP_REQUEST then HandleReq(devices, d, m, requester, src)
             else HandleReply(devices, d, m, src)).Ok?
       <==> PacketFits(devices, m, src.ifindex)
  {
    assert HasIp(devices, m.tpa) <==> IsDestination(devices, m.tpa).Some?;
    assert HasIndex(devices, src.ifindex) <==> MacByIfindex(devices, src.ifindex).Some?;
  }

  lemma FrameStaysSound(devices: seq<Device>, d: Daemon, f: Frame, src: LinkSource)
    requires Inv(d) && !d.stale && OnFrame(devices, d, f, src).Ok?
    ensures !OnFrame(devices, d, f, src).d.stale
  {
    match Decode(f.payload)
    case None =>
    case Some(m) =>
      if ValidArp(m) && m.op != ARPOP_REQUEST {
        CompleteFromClients(d, 0, KeyFrom(m.tpa), LearntFromReply(m, src, MacByIfindex(devices, src.ifindex).value));
      }
  }

  lemma RepairedStaysSound(fix: Repair, devices: seq<Device>, d: Daemon, s: Step)
    requires fix.clearPrev && !d.stale && Inv(d) && Enabled(d, s) && Next(fix, devices, d, s).Ok?
    ensures !Next(fix, devices, d, s).d.stale
  {
    match s
    case DoAccept(_) =>
    case DoSweep(readable, requests) => RepairedSweep(fix, devices, d, readable, requests);
    case DoFrame(f, src) => FrameStaysSound(devices, d, f, src);
  }

  lemma {:induction false} RepairedRunStaysSound(fix: Repair, devices: seq<Device>, d: Daemon, steps: seq<Step>, d': Daemon)
    requires fix.clearPrev && !d.stale && Inv(d) && Run(fix, devices, d, steps, d')
    ensures !d'.stale && Inv(d')
    decreases |steps|
  {
    if steps != [] {
      RepairedStaysSound(fix, devices, d, steps[0]);
      NextKeepsInv(fix, devices, d, steps[0]);
      RepairedRunStaysSound(fix, devices, Next(fix, devices, d, steps[0]).d, steps[1..], d');
    }
  }

  /** Whenever the first two entries are both dropped in one sweep, the code as written faults. */
  lemma DroppingTwoAtHeadFaults(devices: seq<Device>, d: Daemon, readable: set<int>)
    requires |d.list| >= 2
    requires forall i :: 0 <= i < 2 ==> !d.list[i].state.Complete? && d.list[i].socket in readable
    ensures Sweep(AS_WRITTEN, devices, d, 0, readable, map[]) == UseAfterFree
  {
    var d1 := CloseEntry(d, 0);
    assert Victim(AS_WRITTEN, d1.list, 0) == 0;
    if !d.stale {
      var d2 := Remove(AS_WRITTEN, d1, 0).d;
      assert SweepOne(AS_WRITTEN, devices, d, 0, readable, map[]) == (Ok(d2), true);
      assert d2.stale && d2.list[0] == d.list[1];
      assert Victim(AS_WRITTEN, CloseEntry(d2, 0).list, 0) == 0;
      assert SweepOne(AS_WRITTEN, devices, d2, 0, readable, map[]).0 == UseAfterFree;
    }
  }

  // ----- Accounting for client descriptors

  /** Every open client descriptor is the socket of an unresolved entry; with the invariant, the open
      descriptors are then exactly those sockets, which are pairwise distinct. */
  ghost predicate Accounted(s: seq<Entry>, open: set<int>) {
    forall fd :: fd in open ==> Holds(s, fd)
  }

  ghost predicate Holds(s: seq<Entry>, fd: int) {
    exists i :: 0 <= i < |s| && !s[i].state.Complete? && s[i].socket == fd
  }

  lemma HoldsAt(s: seq<Entry>, i: nat)
    requires i < |s| && !s[i].state.Complete?
    ensures Holds(s, s[i].socket)
  {
  }

  /** Dropping the client of entry `i` keeps the accounts exactly when the entry unlinked is the one
      meant, or one whose socket was closed before; otherwise a live client is forgotten. */
  lemma DropAccountedIff(fix: Repair, d: Daemon, i: nat)
    requires Inv(d) && Accounted(d.list, d.open) && i < |d.list| && !d.list[i].state.Complete?
    requires Drop(fix, d, i).Ok?
    ensures var k := Victim(fix, CloseEntry(d, i).list, i);
      var d' := Drop(fix, d, i).d;
      Accounted(d'.list, d'.open) <==> k == i || d.list[k].socket == -1
  {
    var d1 := CloseEntry(d, i);
    var k := Victim(fix, d1.list, i);
    var d' := Drop(fix, d, i).d;
    assert d'.list == Without(d1.list, k) && d'.open == d.open - {d.list[i].socket};
    CloseListInv(d.list, i);
    VictimUnresolved(fix, d1.list, i);
    if k == i || d.list[k].socket == -1 {
      AccountsKept(d.list, d.open, i, k);
    } else {
      ClientForgotten(d.list, d.open, i, k);
    }
  }

  lemma AccountsKept(s: seq<Entry>, open: set<int>, i: nat, k: nat)
    requires SockInv(s, open) && Accounted(s, open) && i < |s| && !s[i].state.Complete?
    requires k < |s| && (k == i || s[k].socket == -1)
    ensures Accounted(Without(s[i := s[i].(socket := -1)], k), open - {s[i].socket})
  {
    var t := s[i := s[i].(socket := -1)];
    forall fd | fd in open - {s[i].socket}
      ensures Holds(Without(t, k), fd)
    {
      var j :| 0 <= j < |s| && !s[j].state.Complete? && s[j].socket == fd;
      assert t[j] == s[j];
      HoldsAt(Without(t, k), if j < k then j else j - 1);
    }
  }

  lemma ClientForgotten(s: seq<Entry>, open: set<int>, i: nat, k: nat)
    requires SockInv(s, open) && i < |s| && !s[i].state.Complete?
    requires k < |s| && k != i && !s[k].state.Complete? && s[k].socket != -1
    ensures !Accounted(Without(s[i := s[i].(socket := -1)], k), open - {s[i].socket})
  {
    var t := s[i := s[i].(socket := -1)];
    var fd := s[k].socket;
    assert fd in open - {s[i].socket};
    forall j | 0 <= j < |s| - 1 && !Without(t, k)[j].state.Complete?
      ensures Without(t, k)[j].socket != fd
    {
      assert Without(t, k)[j] == t[if j < k then j else j + 1];
    }
  }

  lemma CompleteEntryAccounted(d: Daemon, i: nat, hw: HwAddr)
    requires i < |d.list| && d.list[i].state.Incomplete?
    requires SockInv(d.list, d.open) && Accounted(d.list, d.open)
    ensures var d' := CompleteEntry(d, i, hw); Accounted(d'.list, d'.open)
  {
    var d' := CompleteEntry(d, i, hw);
    forall fd | fd in d'.open
      ensures Holds(d'.list, fd)
    {
      var j :| 0 <= j < |d.list| && !d.list[j].state.Complete? && d.list[j].socket == fd;
      assert d'.list[j] == d.list[j];
    }
  }

  lemma {:induction false} CompleteFromAccounted(d: Daemon, i: nat, key: SockAddr, hw: HwAddr)
    requires SockInv(d.list, d.open) && LogInv(d.log, d.open) && Accounted(d.list, d.open)
    ensures var d' := CompleteFrom(d, i, key, hw); Accounted(d'.list, d'.open)
    decreases |d.list| - i
  {
    if i < |d.list| {
      var e := d.list[i];
      var d1 := d;
      if e.ipaddress == key && e.state.Incomplete? {
        d1 := CompleteEntry(d, i, hw);
        CompleteEntryClients(d, i, hw);
        CompleteEntryAccounted(d, i, hw);
      }
      CompleteFromAccounted(d1, i + 1, key, hw);
    }
  }

  lemma PrependAccounted(s: seq<Entry>, open: set<int>, e: Entry, more: set<int>)
    requires Accounted(s, open)
    requires forall fd :: fd in more ==> fd in open || (fd == e.socket && !e.state.Complete?)
    ensures Accounted([e] + s, more)
  {
    var s' := [e] + s;
    forall fd | fd in more
      ensures Holds(s', fd)
    {
      if fd in open {
        var j :| 0 <= j < |s| && !s[j].state.Complete? && s[j].socket == fd;
        assert s'[j + 1] == s[j];
      } else {
        HoldsAt(s', 0);
      }
    }
  }

  lemma PutAccounted(s: seq<Entry>, open: set<int>, i: nat, e: Entry)
    requires Accounted(s, open) && i < |s| && !e.state.Complete? && e.socket == s[i].socket
    ensures Accounted(s[i := e], open)
  {
    forall fd | fd in open
      ensures Holds(s[i := e], fd)
    {
      var j :| 0 <= j < |s| && !s[j].state.Complete? && s[j].socket == fd;
      HoldsAt(s[i := e], j);
    }
  }

  lemma AreqAccounted(devices: seq<Device>, d: Daemon, i: nat, r: Request)
    requires Accounted(d.list, d.open) && i < |d.list| && d.list[i].state.Connection?
    ensures var (d', keep) := HandleAreq(devices, d, i, r);
      Accounted(d'.list, d'.open) && d'.open == d.open && |d'.list| == |d.list|
  {
    if r.Areq? {
      PutAccounted(d.list, d.open, i, d.list[i].(state := Incomplete, ipaddress := r.addr));
    }
  }

  /** Closing and unlinking the entry meant, when the client may just have been answered. */
  lemma DropMeantAccounted(d: Daemon, i: nat)
    requires SockInv(d.list, d.open) && Accounted(d.list, d.open) && i < |d.list| && !d.list[i].state.Complete?
    ensures var d1 := CloseEntry(d, i); Accounted(Without(d1.list, i), d1.open)
  {
    var d1 := CloseEntry(d, i);
    forall fd | fd in d1.open
      ensures Holds(Without(d1.list, i), fd)
    {
      var j :| 0 <= j < |d.list| && !d.list[j].state.Complete? && d.list[j].socket == fd;
      assert d1.list[j] == d.list[j];
      HoldsAt(Without(d1.list, i), if j < i then j else j - 1);
    }
  }

  lemma SweepOneAccounted(fix: Repair, devices: seq<Device>, d: Daemon, i: nat,
                          readable: set<int>, requests: map<int, Request>)
    requires fix.byPointer && Inv(d) && Accounted(d.list, d.open) && i < |d.list|
    requires SweepOne(fix, devices, d, i, readable, requests).0.Ok?
    ensures var d' := SweepOne(fix, devices, d, i, readable, requests).0.d; Accounted(d'.list, d'.open)
  {
    var e := d.list[i];
    if !e.state.Complete? && e.socket in readable {
      var d1 := d;
      if e.state.Connection? {
        var r := RequestAt(d, e.socket, requests);
        AreqKeepsInv(devices, d, i, r);
        AreqAccounted(devices, d, i, r);
        d1 := HandleAreq(devices, d, i, r).0;
      }
      DropMeantAccounted(d1, i);
    }
  }

  lemma {:induction false} SweepAccounted(fix: Repair, devices: seq<Device>, d: Daemon, i: nat,
                                          readable: set<int>, requests: map<int, Request>)
    requires fix.byPointer && Inv(d) && Accounted(d.list, d.open)
    requires Sweep(fix, devices, d, i, readable, requests).Ok?
    ensures var d' := Sweep(fix, devices, d, i, readable, requests).d; Accounted(d'.list, d'.open)
    decreases |d.list| - i
  {
    if i < |d.list| {
      var (r, unlinked) := SweepOne(fix, devices, d, i, readable, requests);
      SweepOneKeepsInv(fix, devices, d, i, readable, requests);
      SweepOneAccounted(fix, devices, d, i, readable, requests);
      SweepAccounted(fix, devices, r.d, if unlinked then i else i + 1, readable, requests);
    }
  }

  lemma NextAccounted(fix: Repair, devices: seq<Device>, d: Daemon, s: Step)
    requires fix.byPointer && Inv(d) && Accounted(d.list, d.open) && Enabled(d, s)
    requires Next(fix, devices, d, s).Ok?
    ensures var d' := Next(fix, devices, d, s).d; Accounted(d'.list, d'.open)
  {
    var d' := Next(fix, devices, d, s).d;
    match s
    case DoAccept(sfd) => PrependAccounted(d.list, d.open, d'.list[0], d'.open);
    case DoSweep(readable, requests) => SweepAccounted(fix, devices, d, 0, readable, requests);
    case DoFrame(f, src) =>
      match Decode(f.payload) {
        case None =>
        case Some(m) =>
          if ValidArp(m) && m.op == ARPOP_REQUEST && |d'.list| > |d.list| {
            PrependAccounted(d.list, d.open, d'.list[0], d.open);
          } else if ValidArp(m) && m.op == ARPOP_REPLY {
            CompleteFromAccounted(d, 0, KeyFrom(m.tpa), LearntFromReply(m, src, MacByIfindex(devices, src.ifindex).value));
          }
      }
  }

  lemma {:induction false} RunAccounted(fix: Repair, devices: seq<Device>, d: Daemon, steps: seq<Step>, d': Daemon)
    requires fix.byPointer && Inv(d) && Accounted(d.list, d.open) && Run(fix, devices, d, steps, d')
    ensures Accounted(d'.list, d'.open)
    decreases |steps|
  {
    if steps != [] {
      NextKeepsInv(fix, devices, d, steps[0]);
      NextAccounted(fix, devices, d, steps[0]);
      RunAccounted(fix, devices, Next(fix, devices, d, steps[0]).d, steps[1..], d');
    }
  }

  /** If removal took out the entry it was given, then in every run the open client descriptors would be
      exactly the sockets of the unresolved entries, each held once. */
  lemma IntendedAccounting(fix: Repair, devices: seq<Device>, steps: seq<Step>, d: Daemon, fd: int)
    requires fix.byPointer && Run(fix, devices, BOOT, steps, d)
    ensures fd in d.open <==> fd != -1 && Holds(d.list, fd)
    ensures SockInv(d.list, d.open)
  {
    BootInv();
    RunKeepsInv(fix, devices, BOOT, steps, d);
    RunAccounted(fix, devices, BOOT, steps, d);
  }

  /** The code as written forgets a client: two clients connect, the first hangs up, and the second is
      unlinked in its place, its descriptor still open. */
  lemma AsWrittenLosesAClient(devices: seq<Device>, c1: int, c2: int) returns (d: Daemon)
    requires 0 < c1 != c2 && c2 > 0
    ensures Run(AS_WRITTEN, devices, BOOT, [DoAccept(c1), DoAccept(c2)], d)
    ensures var r := Next(AS_WRITTEN, devices, d, DoSweep({c1}, map[])); r.Ok? && Forgotten(r.d, c2)
  {
    d := TwoClients(devices, c1, c2);
    var e1, e2 := Entry(UNSET, c1, Connection, NO_HW), Entry(UNSET, c2, Connection, NO_HW);
    var d1 := CloseEntry(d, 1);
    assert d1.list == [e2, e1.(socket := -1)];
    assert SameValue(d1.list[0], d1.list[1]);
    var d2 := Remove(AS_WRITTEN, d1, 1).d;
    assert d2.list == [e1.(socket := -1)];
    assert SweepOne(AS_WRITTEN, devices, d, 0, {c1}, map[]) == (Ok(d), false);
    assert SweepOne(AS_WRITTEN, devices, d, 1, {c1}, map[]) == (Ok(d2), true);
    assert Sweep(AS_WRITTEN, devices, d2, 1, {c1}, map[]) == Ok(d2);
    assert Sweep(AS_WRITTEN, devices, d, 1, {c1}, map[]) == Ok(d2);
    assert Sweep(AS_WRITTEN, devices, d, 0, {c1}, map[]) == Ok(d2);
  }

  // ----- A forgotten client stays forgotten

  /** Open, but the socket of no unresolved entry. */
  ghost predicate Forgotten(d: Daemon, fd: int) {
    fd in d.open && !Holds(d.list, fd)
  }

  /** The calls logged between two states spare a descriptor. */
  predicate Spared(log: seq<Event>, log': seq<Event>, fd: int) {
    log <= log' && forall i :: |log| <= i < |log'| ==> log'[i].fd != fd
  }

  lemma SparedTrans(a: seq<Event>, b: seq<Event>, c: seq<Event>, fd: int)
    requires Spared(a, b, fd) && Spared(b, c, fd)
    ensures Spared(a, c, fd)
  {
  }

  lemma ServeForgets(devices: seq<Device>, d: Daemon, i: nat, requests: map<int, Request>, fd: int)
    requires i < |d.list| && !d.list[i].state.Complete? && Forgotten(d, fd)
    ensures var d' := Serve(devices, d, i, requests).0;
      && Forgotten(d', fd) && Spared(d.log, d'.log, fd)
      && !d'.list[i].state.Complete? && d'.list[i].socket == d.list[i].socket
  {
    HoldsAt(d.list, i);
  }

  lemma DropForgets(fix: Repair, d: Daemon, i: nat, fd: int)
    requires i < |d.list| && !d.list[i].state.Complete? && Forgotten(d, fd) && fd != -1 && Drop(fix, d, i).Ok?
    ensures var d' := Drop(fix, d, i).d; Forgotten(d', fd) && Spared(d.log, d'.log, fd)
  {
    HoldsAt(d.list, i);
    var d1, d' := CloseEntry(d, i), Drop(fix, d, i).d;
    var k := Victim(fix, d1.list, i);
    forall j | 0 <= j < |d'.list| && !d'.list[j].state.Complete?
      ensures d'.list[j].socket != fd
    {
      var j0 := if j < k then j else j + 1;
      assert d'.list[j] == d1.list[j0];
      assert j0 != i ==> d1.list[j0] == d.list[j0];
    }
  }

  lemma {:induction false} SweepForgets(fix: Repair, devices: seq<Device>, d: Daemon, i: nat,
                                        readable: set<int>, requests: map<int, Request>, fd: int)
    requires Forgotten(d, fd) && fd != -1 && Sweep(fix, devices, d, i, readable, requests).Ok?
    ensures var d' := Sweep(fix, devices, d, i, readable, requests).d;
      Forgotten(d', fd) && Spared(d.log, d'.log, fd)
    decreases |d.list| - i
  {
    if i < |d.list| {
      var (r, unlinked) := SweepOne(fix, devices, d, i, readable, requests);
      var e := d.list[i];
      if !e.state.Complete? && e.socket in readable {
        ServeForgets(devices, d, i, requests, fd);
        var d1 := Serve(devices, d, i, requests).0;
        if unlinked {
          DropForgets(fix, d1, i, fd);
          SparedTrans(d.log, d1.log, r.d.log, fd);
        }
      }
      SweepForgets(fix, devices, r.d, if unlinked then i else i + 1, readable, requests, fd);
      SparedTrans(d.log, r.d.log, Sweep(fix, devices, d, i, readable, requests).d.log, fd);
    }
  }

  lemma {:induction false} CompleteForgets(d: Daemon, i: nat, key: SockAddr, hw: HwAddr, fd: int)
    requires Forgotten(d, fd)
    ensures var d' := CompleteFrom(d, i, key, hw); Forgotten(d', fd) && Spared(d.log, d'.log, fd)
    decreases |d.list| - i
  {
    if i < |d.list| {
      var e := d.list[i];
      var d1 := d;
      if e.ipaddress == key && e.state.Incomplete? {
        HoldsAt(d.list, i);
        d1 := CompleteEntry(d, i, hw);
        forall j | 0 <= j < |d1.list| && !d1.list[j].state.Complete?
          ensures d1.list[j].socket != fd
        {
          assert d1.list[j] == d.list[j];
        }
      }
      CompleteForgets(d1, i + 1, key, hw, fd);
      SparedTrans(d.log, d1.log, CompleteFrom(d, i, key, hw).log, fd);
    }
  }

  lemma PrependForgets(s: seq<Entry>, e: Entry, fd: int)
    requires !Holds(s, fd) && (e.state.Complete? || e.socket != fd)
    ensures !Holds([e] + s, fd)
  {
    var s' := [e] + s;
    forall j | 0 <= j < |s'| && !s'[j].state.Complete?
      ensures s'[j].socket != fd
    {
      assert j > 0 ==> s'[j] == s[j - 1];
    }
  }

  lemma NextForgets(fix: Repair, devices: seq<Device>, d: Daemon, s: Step, fd: int)
    requires Inv(d) && Forgotten(d, fd) && Enabled(d, s) && Next(fix, devices, d, s).Ok?
    ensures var d' := Next(fix, devices, d, s).d; Forgotten(d', fd) && Spared(d.log, d'.log, fd)
  {
    var d' := Next(fix, devices, d, s).d;
    match s
    case DoAccept(sfd) => PrependForgets(d.list, d'.list[0], fd);
    case DoSweep(readable, requests) => SweepForgets(fix, devices, d, 0, readable, requests, fd);
    case DoFrame(f, src) => FrameForgets(devices, d, f, src, fd);
  }

  lemma FrameForgets(devices: seq<Device>, d: Daemon, f: Frame, src: LinkSource, fd: int)
    requires Forgotten(d, fd) && OnFrame(devices, d, f, src).Ok?
    ensures var d' := OnFrame(devices, d, f, src).d; Forgotten(d', fd) && Spared(d.log, d'.log, fd)
  {
    var d' := OnFrame(devices, d, f, src).d;
    match Decode(f.payload)
    case None =>
    case Some(m) =>
      if ValidArp(m) && m.op == ARPOP_REQUEST && |d'.list| > |d.list| {
        PrependForgets(d.list, d'.list[0], fd);
      } else if ValidArp(m) && m.op == ARPOP_REPLY {
        CompleteForgets(d, 0, KeyFrom(m.tpa), LearntFromReply(m, src, MacByIfindex(devices, src.ifindex).value), fd);
      }
  }

  /** A client whose entry was unlinked in another's place keeps an open descriptor in every later state
      and is never answered and never closed. */
  lemma {:induction false} ForgottenForever(fix: Repair, devices: seq<Device>, d: Daemon, steps: seq<Step>, d': Daemon, fd: int)
    requires Inv(d) && Forgotten(d, fd) && Run(fix, devices, d, steps, d')
    ensures Forgotten(d', fd) && Spared(d.log, d'.log, fd)
    decreases |steps|
  {
    if steps != [] {
      var d1 := Next(fix, devices, d, steps[0]).d;
      NextKeepsInv(fix, devices, d, steps[0]);
      NextForgets(fix, devices, d, steps[0], fd);
      ForgottenForever(fix, devices, d1, steps[1..], d', fd);
      SparedTrans(d.log, d1.log, d'.log, fd);
    }
  }

  // ----- The failing inputs are reachable

  lemma TwoClients(devices: seq<Device>, c1: int, c2: int) returns (d: Daemon)
    requires 0 < c1 != c2 && c2 > 0
    ensures Run(AS_WRITTEN, devices, BOOT, [DoAccept(c1), DoAccept(c2)], d)
    ensures d.list == [Entry(UNSET, c2, Connection, NO_HW), Entry(UNSET, c1, Connection, NO_HW)]
    ensures d.open == {c1, c2} && !d.stale
  {
    var steps := [DoAccept(c1), DoAccept(c2)];
    var d1 := Next(AS_WRITTEN, devices, BOOT, steps[0]).d;
    d := Next(AS_WRITTEN, devices, d1, steps[1]).d;
    assert steps[1..] == [DoAccept(c2)] && steps[1..][1..] == [];
    assert Run(AS_WRITTEN, devices, d1, steps[1..], d);
  }

  /** Two clients connect and both hang up: the next sweep writes through freed memory. */
  lemma AsWrittenUsesFreedMemory(devices: seq<Device>, c1: int, c2: int) returns (d: Daemon)
    requires 0 < c1 != c2 && c2 > 0
    ensures Run(AS_WRITTEN, devices, BOOT, [DoAccept(c1), DoAccept(c2)], d)
    ensures Next(AS_WRITTEN, devices, d, DoSweep({c1, c2}, map[])) == UseAfterFree
  {
    d := TwoClients(devices, c1, c2);
    DroppingTwoAtHeadFaults(devices, d, {c1, c2});
  }

  /** `accept` fails twice: the second failure turns the list into a cycle. */
  lemma FailingAcceptsMakeACycle(fix: Repair, devices: seq<Device>) returns (d: Daemon)
    ensures Run(fix, devices, BOOT, [DoAccept(-1)], d)
    ensures Enabled(d, DoAccept(-1)) && Next(fix, devices, d, DoAccept(-1)) == CyclicList
  {
    d := Accept(BOOT, -1).d;
    assert [DoAccept(-1)][1..] == [];
    assert d.list[0].socket == -1;
  }

  /** Frames that are the first thing a started daemon receives and take it out of defined behaviour: a
      payload one byte longer than `struct arp_hdr`, a valid request without protocol addresses, and a
      valid reply that comes in on an interface that is not listed. */
  lemma FramesThatFault(fix: Repair, devices: seq<Device>, src: LinkSource) returns (long: Frame, request: Frame, reply: Frame)
    ensures |long.payload| == ARP_STRUCTLEN + 1 && Next(fix, devices, BOOT, DoFrame(long, src)) == OutOfBounds
    ensures |request.payload| <= ARP_STRUCTLEN && Next(fix, devices, BOOT, DoFrame(request, src)) == OutOfBounds
    ensures |reply.payload| <= ARP_STRUCTLEN
    ensures !HasIndex(devices, src.ifindex) ==> Next(fix, devices, BOOT, DoFrame(reply, src)) == NullMac
  {
    long := Frame(BROADCAST, src.addr, Zeros(ARP_STRUCTLEN + 1));
    request := FirstFrame(fix, devices, Blank(0, ARPOP_REQUEST), src);
    reply := FirstFrame(fix, devices, Blank(4, ARPOP_REPLY), src);
  }

  /** A valid packet of zeroed addresses. */
  function Blank(protLen: byte, op: u16): (m: Arp)
    requires protLen <= ARP_MAXPRLEN && (op == ARPOP_REQUEST || op == ARPOP_REPLY)
    ensures Dispatchable(m) && m.hardLen == 6 && m.protLen == protLen && m.op == op
  {
    Built(ARPHRD_ETHER, PF_INET, 6, protLen, op, None, None, None, None)
  }

  /** The first frame is read as the packet put into it. */
  lemma FirstFrame(fix: Repair, devices: seq<Device>, m: Arp, src: LinkSource) returns (f: Frame)
    requires Dispatchable(m) && m.hardLen > 0
    ensures |f.payload| <= ARP_STRUCTLEN
    ensures Next(fix, devices, BOOT, DoFrame(f, src))
         == if m.op == ARPOP_REQUEST then HandleReq(devices, BOOT, m, f.src, src) else HandleReply(devices, BOOT, m, src)
  {
    f := Frame(BROADCAST, src.addr, Encode(m));
    FitsBuffers(m);
    assert Encode(m) + [] == Encode(m);
    WireRoundTrip(m, []);
  }
}
