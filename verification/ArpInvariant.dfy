/** What every step of the daemon keeps, whatever its clients and the network send, until it leaves
    defined behaviour. All results hold for the code as written and for its repairs alike. */
module ArpInvariant {
  import opened Bytes
  import opened CacheModel
  import opened ArpWire
  import opened ArpSpec
  import opened ClientLog

  /** What the state of an entry says about its fields. */
  predicate EntryOk(e: Entry) {
    match e.state
    case Connection => e.ipaddress == UNSET && e.hw == NO_HW
    case Incomplete => e.ipaddress.family == AF_INET && e.hw == NO_HW
    case Complete => e.ipaddress.family == AF_INET && (e.socket == -1 || e.socket == 0)
  }

  /** An address with a resolved entry has no other kind of entry and no other hardware address. */
  predicate Agree(a: Entry, b: Entry) {
    a.ipaddress == b.ipaddress && a.state.Complete? ==> b.state.Complete? && b.hw == a.hw
  }

  predicate ListInv(s: seq<Entry>) {
    && (forall i :: 0 <= i < |s| ==> EntryOk(s[i]))
    && (forall i, j :: 0 <= i < |s| && 0 <= j < |s| ==> Agree(s[i], s[j]))
  }

  /** Sockets of unresolved entries are open and pairwise distinct, apart from closed ones. */
  predicate SockInv(s: seq<Entry>, open: set<int>) {
    && (forall fd :: fd in open ==> fd > 0)
    && (forall i :: 0 <= i < |s| && !s[i].state.Complete? ==> s[i].socket == -1 || s[i].socket in open)
    && (forall i, j :: 0 <= i < j < |s| && !s[i].state.Complete? && !s[j].state.Complete? ==>
          s[i].socket != s[j].socket || s[i].socket == -1)
  }

  ghost predicate LogInv(log: seq<Event>, open: set<int>) {
    && Legal(log)
    && forall fd :: StatusOf(log, fd) == if fd in open then Waiting else Idle
  }

  ghost predicate Inv(d: Daemon) {
    ListInv(d.list) && SockInv(d.list, d.open) && LogInv(d.log, d.open) && (d.stale ==> d.list != [])
  }

  /** The list resolves `key` to `hw`. */
  ghost predicate Bound(s: seq<Entry>, key: SockAddr, hw: HwAddr) {
    exists i :: 0 <= i < |s| && s[i].ipaddress == key && s[i].state.Complete? && s[i].hw == hw
  }

  /** No resolution of `s` is lost in `s'`. */
  ghost predicate Keeps(s: seq<Entry>, s': seq<Entry>) {
    forall i :: 0 <= i < |s| && s[i].state.Complete? ==> exists j :: 0 <= j < |s'| && s'[j] == s[i]
  }

  lemma KeepsTrans(a: seq<Entry>, b: seq<Entry>, c: seq<Entry>)
    requires Keeps(a, b) && Keeps(b, c)
    ensures Keeps(a, c)
  {
    forall i | 0 <= i < |a| && a[i].state.Complete?
      ensures exists k :: 0 <= k < |c| && c[k] == a[i]
    {
      var j :| 0 <= j < |b| && b[j] == a[i];
    }
  }

  // ----- First-match lookup

  /** The first entry found for an address is resolved exactly when any entry for it is, and then it
      holds the one hardware address that the list has for it. */
  lemma FirstMatchDecides(s: seq<Entry>, key: SockAddr)
    requires ListInv(s)
    ensures var k := FindKey(s, key);
      && (k < |s| && s[k].state.Complete? <==> exists hw :: Bound(s, key, hw))
      && forall hw :: Bound(s, key, hw) ==> k < |s| && s[k].hw == hw
  {
    var k := FindKey(s, key);
    if k < |s| && s[k].state.Complete? {
      assert Bound(s, key, s[k].hw);
    }
    forall hw | Bound(s, key, hw)
      ensures k < |s| && s[k].state.Complete? && s[k].hw == hw
    {
      var i :| 0 <= i < |s| && s[i].ipaddress == key && s[i].state.Complete? && s[i].hw == hw;
      assert k < |s|;
      assert Agree(s[i], s[k]);
    }
  }

  // ----- Accepting

  /** A descriptor fresh from `accept` is found at no entry, so no listed node is ever added again;
      only a failed `accept` can do that, exactly when some entry's socket is -1. */
  lemma AcceptFindsNothing(d: Daemon, sfd: int)
    requires Inv(d) && Enabled(d, DoAccept(sfd))
    ensures Accept(d, sfd).Ok? <==> sfd != -1 || forall i :: 0 <= i < |d.list| ==> d.list[i].socket != -1
  {
    var k := FindSocket(d.list, sfd);
    if k < |d.list| {
      assert EntryOk(d.list[k]);
    }
  }

  /** An accepted client gets a zeroed entry with its descriptor at the head of the list, whose links are then
      right; for a failed `accept` there is no client. */
  lemma AcceptEffect(d: Daemon, sfd: int)
    requires Accept(d, sfd).Ok?
    ensures var d' := Accept(d, sfd).d; var zeros := [0, 0, 0, 0, 0, 0, 0, 0];
      && d'.list == [Entry(SockAddr(0, 0, [0, 0, 0, 0], zeros), sfd, Connection, HwAddr(0, 0, 0, zeros, 0, 0, zeros))] + d.list
      && !d'.stale && d'.sent == d.sent
      && d'.open == (if sfd == -1 then d.open else d.open + {sfd})
      && d'.log == (if sfd == -1 then d.log else d.log + [Accepted(sfd)])
  {
    assert Zeros(8) == [0, 0, 0, 0, 0, 0, 0, 0];
  }

  lemma AcceptKeepsInv(d: Daemon, sfd: int)
    requires Inv(d) && Enabled(d, DoAccept(sfd)) && Accept(d, sfd).Ok?
    ensures Inv(Accept(d, sfd).d) && Keeps(d.list, Accept(d, sfd).d.list)
  {
    var d' := Accept(d, sfd).d;
    var e := Entry(UNSET, sfd, Connection, NO_HW);
    assert d'.list == [e] + d.list;
    forall j | 0 <= j < |d.list|
      ensures Agree(d.list[j], e)
    {
      assert EntryOk(d.list[j]);
    }
    PrependKeeps(d.list, e);
    PrependListInv(d.list, e);
    AcceptSockets(d.list, d.open, sfd);
    if sfd != -1 {
      StatusAppend(d.log, Accepted(sfd));
    }
  }

  lemma PrependListInv(s: seq<Entry>, e: Entry)
    requires ListInv(s) && EntryOk(e)
    requires forall j :: 0 <= j < |s| ==> Agree(s[j], e) && Agree(e, s[j])
    ensures ListInv([e] + s)
  {
  }

  lemma AcceptSockets(s: seq<Entry>, open: set<int>, sfd: int)
    requires SockInv(s, open) && (sfd == -1 || (sfd > 0 && sfd !in open))
    ensures SockInv([Entry(UNSET, sfd, Connection, NO_HW)] + s, if sfd == -1 then open else open + {sfd})
  {
  }

  lemma PrependKeeps(s: seq<Entry>, e: Entry)
    ensures Keeps(s, [e] + s)
  {
    forall i | 0 <= i < |s| && s[i].state.Complete?
      ensures exists j :: 0 <= j < |[e] + s| && ([e] + s)[j] == s[i]
    {
      assert ([e] + s)[i + 1] == s[i];
    }
  }

  // ----- The sweep

  lemma PutKeeps(s: seq<Entry>, i: nat, e: Entry)
    requires i < |s| && !s[i].state.Complete?
    ensures Keeps(s, s[i := e])
  {
    var s' := s[i := e];
    forall j | 0 <= j < |s| && s[j].state.Complete?
      ensures exists k :: 0 <= k < |s'| && s'[k] == s[j]
    {
      assert s'[j] == s[j];
    }
  }

  lemma WithoutKeeps(s: seq<Entry>, k: nat)
    requires k < |s| && !s[k].state.Complete?
    ensures Keeps(s, Without(s, k))
  {
    forall i | 0 <= i < |s| && s[i].state.Complete?
      ensures exists j :: 0 <= j < |Without(s, k)| && Without(s, k)[j] == s[i]
    {
      var j := if i < k then i else i - 1;
      assert Without(s, k)[j] == s[i];
    }
  }

  /** The entry unlinked in place of an unresolved one is never a resolved one. */
  lemma VictimUnresolved(fix: Repair, s: seq<Entry>, i: nat)
    requires ListInv(s) && i < |s| && !s[i].state.Complete?
    ensures !s[Victim(fix, s, i)].state.Complete?
  {
    var k := Victim(fix, s, i);
    assert Agree(s[k], s[i]);
  }

  lemma RemoveKeepsInv(fix: Repair, d: Daemon, i: nat)
    requires Inv(d) && i < |d.list| && !d.list[i].state.Complete?
    requires Remove(fix, d, i).Ok?
    ensures var d' := Remove(fix, d, i).d; Inv(d') && Keeps(d.list, d'.list)
  {
    var k := Victim(fix, d.list, i);
    VictimUnresolved(fix, d.list, i);
    WithoutKeeps(d.list, k);
    WithoutListInv(d.list, k);
    WithoutSockInv(d.list, d.open, k);
  }

  lemma WithoutListInv(s: seq<Entry>, k: nat)
    requires ListInv(s) && k < |s|
    ensures ListInv(Without(s, k))
  {
  }

  lemma WithoutSockInv(s: seq<Entry>, open: set<int>, k: nat)
    requires SockInv(s, open) && k < |s|
    ensures SockInv(Without(s, k), open)
  {
  }

  /** The invariant while the client of entry `i` may have been answered but not yet closed. */
  ghost predicate InvBut(d: Daemon, i: nat) {
    && ListInv(d.list) && SockInv(d.list, d.open) && (d.stale ==> d.list != [])
    && i < |d.list| && !d.list[i].state.Complete?
    && Legal(d.log)
    && (forall fd :: fd != d.list[i].socket ==> StatusOf(d.log, fd) == if fd in d.open then Waiting else Idle)
    && (d.list[i].socket in d.open <==> StatusOf(d.log, d.list[i].socket) != Idle)
  }

  lemma CloseKeepsInv(d: Daemon, i: nat)
    requires InvBut(d, i)
    ensures var d' := CloseEntry(d, i); Inv(d') && Keeps(d.list, d'.list)
  {
    var e := d.list[i];
    PutKeeps(d.list, i, e.(socket := -1));
    StatusAppend(d.log, Closed(e.socket));
    CloseListInv(d.list, i);
  }

  lemma CloseListInv(s: seq<Entry>, i: nat)
    requires ListInv(s) && i < |s| && !s[i].state.Complete?
    ensures ListInv(s[i := s[i].(socket := -1)])
  {
    var e := s[i].(socket := -1);
    assert EntryOk(s[i]) && EntryOk(e);
    forall j | 0 <= j < |s|
      ensures Agree(s[j], e) && Agree(e, s[j])
    {
      assert Agree(s[j], s[i]);
    }
  }

  /** An address with no resolved entry may be given to a connected client's entry. */
  lemma AwaitKeepsInv(s: seq<Entry>, i: nat, addr: SockAddr)
    requires ListInv(s) && i < |s| && s[i].state.Connection? && addr.family == AF_INET
    requires var k := FindKey(s, addr); k < |s| ==> !s[k].state.Complete?
    ensures ListInv(s[i := s[i].(state := Incomplete, ipaddress := addr)])
  {
    var e := s[i].(state := Incomplete, ipaddress := addr);
    FirstMatchDecides(s, addr);
    assert EntryOk(s[i]) && EntryOk(e);
    forall j | 0 <= j < |s|
      ensures Agree(s[j], e)
    {
      if s[j].ipaddress == addr && s[j].state.Complete? {
        assert Bound(s, addr, s[j].hw);
      }
    }
  }

  lemma AwaitKeepsSockets(s: seq<Entry>, open: set<int>, i: nat, addr: SockAddr)
    requires SockInv(s, open) && i < |s| && s[i].state.Connection?
    ensures SockInv(s[i := s[i].(state := Incomplete, ipaddress := addr)], open)
  {
  }

  lemma AnswerKeepsBut(d: Daemon, i: nat, key: SockAddr, hw: HwAddr)
    requires Inv(d) && i < |d.list| && !d.list[i].state.Complete?
    ensures InvBut(Answer(d, d.list[i].socket, key, hw), i)
  {
    StatusAppend(d.log, Answered(d.list[i].socket, key, hw));
  }

  lemma AwaitStep(d: Daemon, i: nat, addr: SockAddr, sent: seq<Frame>)
    requires Inv(d) && i < |d.list| && d.list[i].state.Connection? && addr.family == AF_INET
    requires var k := FindKey(d.list, addr); k < |d.list| ==> !d.list[k].state.Complete?
    ensures var d' := Put(d, i, d.list[i].(state := Incomplete, ipaddress := addr)).(sent := sent);
      Inv(d') && InvBut(d', i) && Keeps(d.list, d'.list)
  {
    AwaitKeepsInv(d.list, i, addr);
    AwaitKeepsSockets(d.list, d.open, i, addr);
    PutKeeps(d.list, i, d.list[i].(state := Incomplete, ipaddress := addr));
  }

  lemma AreqKeepsInv(devices: seq<Device>, d: Daemon, i: nat, r: Request)
    requires Inv(d) && i < |d.list| && d.list[i].state.Connection?
    ensures var (d', keep) := HandleAreq(devices, d, i, r);
      && InvBut(d', i) && Keeps(d.list, d'.list)
      && (keep ==> Inv(d'))
  {
    if r.Areq? && r.addr.family == AF_INET {
      var k := FindKey(d.list, r.addr);
      if k < |d.list| && d.list[k].state.Complete? {
        AnswerKeepsBut(d, i, r.addr, d.list[k].hw);
      } else {
        AwaitStep(d, i, r.addr, HandleAreq(devices, d, i, r).0.sent);
      }
    }
  }

  lemma SweepOneKeepsInv(fix: Repair, devices: seq<Device>, d: Daemon, i: nat,
                         readable: set<int>, requests: map<int, Request>)
    requires Inv(d) && i < |d.list|
    requires SweepOne(fix, devices, d, i, readable, requests).0.Ok?
    ensures var d' := SweepOne(fix, devices, d, i, readable, requests).0.d;
      Inv(d') && Keeps(d.list, d'.list)
  {
    var e := d.list[i];
    if !e.state.Complete? && e.socket in readable {
      var d1, keep := d, false;
      if e.state.Connection? {
        var r := RequestAt(d, e.socket, requests);
        AreqKeepsInv(devices, d, i, r);
        d1, keep := HandleAreq(devices, d, i, r).0, HandleAreq(devices, d, i, r).1;
      }
      if !keep {
        CloseKeepsInv(d1, i);
        var d2 := CloseEntry(d1, i);
        RemoveKeepsInv(fix, d2, i);
        KeepsTrans(d.list, d1.list, d2.list);
        KeepsTrans(d.list, d2.list, Remove(fix, d2, i).d.list);
      }
    }
  }

  lemma {:induction false} SweepKeepsInv(fix: Repair, devices: seq<Device>, d: Daemon, i: nat,
                                         readable: set<int>, requests: map<int, Request>)
    requires Inv(d) && Sweep(fix, devices, d, i, readable, requests).Ok?
    ensures var d' := Sweep(fix, devices, d, i, readable, requests).d;
      Inv(d') && Keeps(d.list, d'.list)
    decreases |d.list| - i
  {
    if i < |d.list| {
      var (r, unlinked) := SweepOne(fix, devices, d, i, readable, requests);
      SweepOneKeepsInv(fix, devices, d, i, readable, requests);
      SweepKeepsInv(fix, devices, r.d, if unlinked then i else i + 1, readable, requests);
      KeepsTrans(d.list, r.d.list, Sweep(fix, devices, d, i, readable, requests).d.list);
    }
  }

  // ----- Frames

  lemma ReqKeepsInv(devices: seq<Device>, d: Daemon, m: Arp, requester: Mac, src: LinkSource)
    requires Inv(d) && Dispatchable(m) && HandleReq(devices, d, m, requester, src).Ok?
    ensures var d' := HandleReq(devices, d, m, requester, src).d;
      Inv(d') && Keeps(d.list, d'.list)
  {
    var d' := HandleReq(devices, d, m, requester, src).d;
    if |d'.list| > |d.list| {
      var e := ReverseEntry(m, src, MacByIfindex(devices, src.ifindex).value);
      assert d'.list == [e] + d.list;
      PrependKeeps(d.list, e);
      PrependListInv(d.list, e);
      ReverseSockets(d.list, d.open, e);
    }
  }

  lemma ReverseSockets(s: seq<Entry>, open: set<int>, e: Entry)
    requires SockInv(s, open) && e.state.Complete?
    ensures SockInv([e] + s, open)
  {
  }

  /** What the loop of `handle_reply` has made of the list: exactly the waiting entries of the key, from
      index `i` on, are resolved, and all to the same value. */
  predicate ReplyEffect(s: seq<Entry>, s': seq<Entry>, i: nat, key: SockAddr, hw: HwAddr) {
    && |s'| == |s|
    && forall j :: 0 <= j < |s| ==>
         s'[j] == if i <= j && s[j].ipaddress == key && s[j].state.Incomplete?
                  then Entry(key, -1, Complete, hw) else s[j]
  }

  lemma {:induction false} CompleteFromEffect(d: Daemon, i: nat, key: SockAddr, hw: HwAddr)
    ensures ReplyEffect(d.list, CompleteFrom(d, i, key, hw).list, i, key, hw)
    decreases |d.list| - i
  {
    if i < |d.list| {
      var e := d.list[i];
      CompleteFromEffect(if e.ipaddress == key && e.state.Incomplete? then CompleteEntry(d, i, hw) else d, i + 1, key, hw);
    }
  }

  lemma ReplyEffectListInv(s: seq<Entry>, s': seq<Entry>, key: SockAddr, hw: HwAddr)
    requires ListInv(s) && key.family == AF_INET && ReplyEffect(s, s', 0, key, hw)
    ensures ListInv(s') && Keeps(s, s')
  {
    forall i, j | 0 <= i < |s| && 0 <= j < |s|
      ensures EntryOk(s'[i]) && Agree(s'[i], s'[j])
    {
      assert EntryOk(s[i]) && EntryOk(s[j]) && Agree(s[i], s[j]) && Agree(s[j], s[i]);
    }
  }

  /** Descriptors through the loop of `handle_reply`. */
  lemma {:induction false} CompleteFromClients(d: Daemon, i: nat, key: SockAddr, hw: HwAddr)
    requires SockInv(d.list, d.open) && LogInv(d.log, d.open)
    ensures var d' := CompleteFrom(d, i, key, hw);
      SockInv(d'.list, d'.open) && LogInv(d'.log, d'.open) && d'.stale == d.stale && d'.sent == d.sent
    decreases |d.list| - i
  {
    if i < |d.list| {
      var e := d.list[i];
      var d1 := d;
      if e.ipaddress == key && e.state.Incomplete? {
        d1 := CompleteEntry(d, i, hw);
        CompleteEntryClients(d, i, hw);
      }
      CompleteFromClients(d1, i + 1, key, hw);
    }
  }

  lemma CompleteEntryClients(d: Daemon, i: nat, hw: HwAddr)
    requires i < |d.list| && d.list[i].state.Incomplete?
    requires SockInv(d.list, d.open) && LogInv(d.log, d.open)
    ensures var d' := CompleteEntry(d, i, hw);
      SockInv(d'.list, d'.open) && LogInv(d'.log, d'.open) && d'.stale == d.stale && d'.sent == d.sent
  {
    var e := d.list[i];
    if e.socket in d.open {
      var ev := Answered(e.socket, e.ipaddress, hw);
      StatusAppend(d.log, ev);
      StatusAppend(d.log + [ev], Closed(e.socket));
    }
  }

  lemma ReplyKeepsInv(devices: seq<Device>, d: Daemon, m: Arp, src: LinkSource)
    requires Inv(d) && Dispatchable(m) && HandleReply(devices, d, m, src).Ok?
    ensures var d' := HandleReply(devices, d, m, src).d;
      Inv(d') && Keeps(d.list, d'.list)
  {
    var out := MacByIfindex(devices, src.ifindex).value;
    var key, hw := KeyFrom(m.tpa), LearntFromReply(m, src, out);
    CompleteFromEffect(d, 0, key, hw);
    CompleteFromClients(d, 0, key, hw);
    ReplyEffectListInv(d.list, CompleteFrom(d, 0, key, hw).list, key, hw);
  }

  // ----- Whole runs

  lemma NextKeepsInv(fix: Repair, devices: seq<Device>, d: Daemon, s: Step)
    requires Inv(d) && Enabled(d, s) && Next(fix, devices, d, s).Ok?
    ensures var d' := Next(fix, devices, d, s).d; Inv(d') && Keeps(d.list, d'.list)
  {
    match s
    case DoAccept(sfd) => AcceptKeepsInv(d, sfd);
    case DoSweep(readable, requests) => SweepKeepsInv(fix, devices, d, 0, readable, requests);
    case DoFrame(f, src) =>
      match Decode(f.payload) {
        case None =>
        case Some(m) =>
          if ValidArp(m) {
            if m.op == ARPOP_REQUEST {
              ReqKeepsInv(devices, d, m, f.src, src);
            } else {
              ReplyKeepsInv(devices, d, m, src);
            }
          }
      }
  }

  /** The invariant holds in every state of every run, and no resolution is ever lost. */
  lemma {:induction false} RunKeepsInv(fix: Repair, devices: seq<Device>, d: Daemon, steps: seq<Step>, d': Daemon)
    requires Inv(d) && Run(fix, devices, d, steps, d')
    ensures Inv(d') && Keeps(d.list, d'.list)
    decreases |steps|
  {
    if steps != [] {
      var d1 := Next(fix, devices, d, steps[0]).d;
      NextKeepsInv(fix, devices, d, steps[0]);
      RunKeepsInv(fix, devices, d1, steps[1..], d');
      KeepsTrans(d.list, d1.list, d'.list);
    }
  }

  lemma BootInv()
    ensures Inv(BOOT)
  {
  }

  /** Once a reachable daemon resolves an address, every later state resolves it to the same hardware
      address, and the first-match lookup returns it. */
  lemma ResolutionIsStable(fix: Repair, devices: seq<Device>, past: seq<Step>, d: Daemon,
                           future: seq<Step>, d': Daemon, key: SockAddr, hw: HwAddr)
    requires Run(fix, devices, BOOT, past, d) && Bound(d.list, key, hw)
    requires Run(fix, devices, d, future, d')
    ensures Bound(d'.list, key, hw)
    ensures var k := FindKey(d'.list, key); k < |d'.list| && d'.list[k].state.Complete? && d'.list[k].hw == hw
  {
    BootInv();
    RunKeepsInv(fix, devices, BOOT, past, d);
    RunKeepsInv(fix, devices, d, future, d');
    BoundIsKept(d.list, d'.list, key, hw);
    FirstMatchDecides(d'.list, key);
  }

  lemma BoundIsKept(s: seq<Entry>, s': seq<Entry>, key: SockAddr, hw: HwAddr)
    requires Keeps(s, s') && Bound(s, key, hw)
    ensures Bound(s', key, hw)
  {
    var i :| 0 <= i < |s| && s[i].ipaddress == key && s[i].state.Complete? && s[i].hw == hw;
    var j :| 0 <= j < |s'| && s'[j] == s[i];
  }

  /** In every reachable state no address has both a waiting and a resolved entry, and its resolved
      entries all hold the same hardware address. */
  lemma ReachableListsAgree(fix: Repair, devices: seq<Device>, steps: seq<Step>, d: Daemon, i: nat, j: nat)
    requires Run(fix, devices, BOOT, steps, d) && i < |d.list| && j < |d.list|
    requires d.list[i].ipaddress == d.list[j].ipaddress && d.list[i].state.Complete?
    ensures d.list[j].state.Complete? && d.list[j].hw == d.list[i].hw
  {
    BootInv();
    RunKeepsInv(fix, devices, BOOT, steps, d);
    assert Agree(d.list[i], d.list[j]);
  }

  /** In every run each accepted client is sent at most one hardware address, and none after its close. */
  lemma ClientsAnsweredOnce(fix: Repair, devices: seq<Device>, steps: seq<Step>, d: Daemon, fd: int, i: nat, j: nat)
    requires Run(fix, devices, BOOT, steps, d) && i < j < |d.log|
    requires d.log[i].fd == fd && !d.log[i].Accepted?
    requires d.log[j].fd == fd && d.log[j].Answered?
    ensures exists k :: i < k < j && d.log[k] == Accepted(fd)
  {
    BootInv();
    RunKeepsInv(fix, devices, BOOT, steps, d);
    OneAnswerPerAccept(d.log, fd, i, j);
  }

  /** In every reachable state the socket lookup after a successful `accept` finds nothing, so that no
      listed node is added a second time. */
  lemma NoNodeAddedTwice(fix: Repair, devices: seq<Device>, steps: seq<Step>, d: Daemon, sfd: int)
    requires Run(fix, devices, BOOT, steps, d) && sfd > 0 && sfd !in d.open
    ensures FindSocket(d.list, sfd) == |d.list| && Accept(d, sfd).Ok?
  {
    BootInv();
    RunKeepsInv(fix, devices, BOOT, steps, d);
    AcceptFindsNothing(d, sfd);
  }

  // ----- One reply

  /** A reply resolves every waiting entry of its address to one value and touches nothing else. */
  lemma ReplyResolvesAll(devices: seq<Device>, d: Daemon, m: Arp, src: LinkSource)
    requires Inv(d) && Dispatchable(m) && HandleReply(devices, d, m, src).Ok?
    ensures var d' := HandleReply(devices, d, m, src).d;
      && |d'.list| == |d.list| && d'.sent == d.sent
      && (forall j :: 0 <= j < |d.list| && d.list[j].ipaddress != KeyFrom(m.tpa) ==> d'.list[j] == d.list[j])
      && (forall j :: 0 <= j < |d.list| && d.list[j].state != Incomplete ==> d'.list[j] == d.list[j])
      && (forall j :: 0 <= j < |d.list| && d'.list[j].ipaddress == KeyFrom(m.tpa) ==> d'.list[j].state.Complete?)
  {
    var out := MacByIfindex(devices, src.ifindex).value;
    var key, hw := KeyFrom(m.tpa), LearntFromReply(m, src, out);
    CompleteFromEffect(d, 0, key, hw);
    CompleteFromClients(d, 0, key, hw);
    assert forall j :: 0 <= j < |d.list| ==> EntryOk(d.list[j]);
  }

  /** The clients that a reply answers and closes, in list order. */
  function Answers(s: seq<Entry>, open: set<int>, i: nat, key: SockAddr, hw: HwAddr): seq<Event>
    decreases |s| - i
  {
    if i >= |s| then []
    else if s[i].ipaddress == key && s[i].state.Incomplete? && s[i].socket in open
    then [Answered(s[i].socket, key, hw), Closed(s[i].socket)] + Answers(s, open, i + 1, key, hw)
    else Answers(s, open, i + 1, key, hw)
  }

  lemma {:induction false} AnswersDependOn(s: seq<Entry>, open: set<int>, t: seq<Entry>, open': set<int>,
                                          i: nat, key: SockAddr, hw: HwAddr)
    requires |s| == |t|
    requires forall j :: i <= j < |s| ==> s[j] == t[j]
    requires forall j :: i <= j < |s| && s[j].state.Incomplete? ==> (s[j].socket in open <==> s[j].socket in open')
    ensures Answers(s, open, i, key, hw) == Answers(t, open', i, key, hw)
    decreases |s| - i
  {
    if i < |s| {
      AnswersDependOn(s, open, t, open', i + 1, key, hw);
    }
  }

  /** Every waiting client of the address with an open socket gets the value once and is closed; nobody
      else is sent anything. */
  lemma {:induction false} CompleteFromLog(d: Daemon, i: nat, key: SockAddr, hw: HwAddr)
    requires SockInv(d.list, d.open) && LogInv(d.log, d.open)
    ensures CompleteFrom(d, i, key, hw).log == d.log + Answers(d.list, d.open, i, key, hw)
    decreases |d.list| - i
  {
    if i < |d.list| {
      var e := d.list[i];
      if e.ipaddress == key && e.state.Incomplete? {
        var d1 := CompleteEntry(d, i, hw);
        CompleteEntryClients(d, i, hw);
        CompleteFromLog(d1, i + 1, key, hw);
        AnswersDependOn(d.list, d.open, d1.list, d1.open, i + 1, key, hw);
      } else {
        CompleteFromLog(d, i + 1, key, hw);
      }
    }
  }

  lemma ReplyAnswersEveryClient(devices: seq<Device>, d: Daemon, m: Arp, src: LinkSource)
    requires Inv(d) && Dispatchable(m) && HandleReply(devices, d, m, src).Ok?
    ensures var hw := LearntFromReply(m, src, MacByIfindex(devices, src.ifindex).value);
      HandleReply(devices, d, m, src).d.log == d.log + Answers(d.list, d.open, 0, KeyFrom(m.tpa), hw)
  {
    CompleteFromLog(d, 0, KeyFrom(m.tpa), LearntFromReply(m, src, MacByIfindex(devices, src.ifindex).value));
  }

  lemma {:induction false} NothingWaiting(d: Daemon, i: nat, key: SockAddr, hw: HwAddr)
    requires forall j :: i <= j < |d.list| && d.list[j].ipaddress == key ==> !d.list[j].state.Incomplete?
    ensures CompleteFrom(d, i, key, hw) == d
    decreases |d.list| - i
  {
    if i < |d.list| {
      NothingWaiting(d, i + 1, key, hw);
    }
  }

  /** Processing a reply for the same address again, even one with another answer, changes nothing. */
  lemma SecondReplyIsIdle(devices: seq<Device>, d: Daemon, m: Arp, src: LinkSource, m2: Arp, src2: LinkSource)
    requires Inv(d) && Dispatchable(m) && HandleReply(devices, d, m, src).Ok?
    requires Dispatchable(m2) && m2.tpa == m.tpa
    ensures var d' := HandleReply(devices, d, m, src).d;
      HandleReply(devices, d', m2, src2).Ok? ==> HandleReply(devices, d', m2, src2).d == d'
  {
    ReplyResolvesAll(devices, d, m, src);
    var d' := HandleReply(devices, d, m, src).d;
    if HandleReply(devices, d', m2, src2).Ok? {
      NothingWaiting(d', 0, KeyFrom(m.tpa), LearntFromReply(m2, src2, MacByIfindex(devices, src2.ifindex).value));
    }
  }
}
