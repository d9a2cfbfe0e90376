/** What the turns of a sweep do to the list, counted.

    Removal by value takes the first entry with the address of the one to be dropped. So the m-th entry
    that is dropped with an address unlinks the m-th entry that has this address after its turn. */
module SweepPlan {
  import opened CacheModel
  import opened ArpSpec

  /** What a turn does: the entry afterwards, whether its client is dropped and so an entry with its address
      unlinked, the calls on the client's descriptor, and the frames sent. */
  datatype Turn = Turn(after: Entry, drops: bool, calls: seq<Event>, frames: seq<Frame>)

  /** The turns of the listed entries, in order. */
  type Plan = seq<Turn>

  /** How many of the first `t` entries have an address after their turn. */
  function Labelled(pl: Plan, key: SockAddr, t: nat): nat
    requires t <= |pl|
  {
    if t == 0 then 0 else Labelled(pl, key, t - 1) + if pl[t - 1].after.ipaddress == key then 1 else 0
  }

  /** How many of the first `t` turns drop a client with an address. */
  function Dropped(pl: Plan, key: SockAddr, t: nat): nat
    requires t <= |pl|
  {
    if t == 0 then 0 else Dropped(pl, key, t - 1) + if pl[t - 1].drops && pl[t - 1].after.ipaddress == key then 1 else 0
  }

  /** Entry `j` is unlinked by the first `t` turns. */
  predicate Gone(pl: Plan, j: nat, t: nat)
    requires j < |pl| && t <= |pl|
  {
    Labelled(pl, pl[j].after.ipaddress, j) < Dropped(pl, pl[j].after.ipaddress, t)
  }

  predicate GoneBetween(pl: Plan, h0: nat, h: nat, t: nat)
    requires h < |pl| && t <= |pl|
  {
    forall k :: h0 < k < h ==> Gone(pl, k, t)
  }

  /** Turn `u` unlinks entry `h0`, `h` is the first entry after it that is still there, and some later
      turn unlinks `h`. */
  predicate Second(pl: Plan, h0: nat, u: nat, h: nat)
    requires h0 < |pl| && u < |pl| && h < |pl|
  {
    && h0 < h && !Gone(pl, h0, u) && Gone(pl, h0, u + 1)
    && GoneBetween(pl, h0, h, u + 1)
    && !Gone(pl, h, u + 1) && Gone(pl, h, |pl|)
  }

  /** The turns from `t` on unlink the entry `h0` and then the one that follows it. */
  predicate Replaced(pl: Plan, t: nat, h0: nat)
    requires h0 < |pl|
  {
    exists u, h :: t <= u < |pl| && 0 <= h < |pl| && Second(pl, h0, u, h)
  }

  /** The calls and the frames of the turns from `t` on. */
  function CallsFrom(pl: Plan, t: nat): seq<Event>
    decreases |pl| - t
  {
    if t >= |pl| then [] else pl[t].calls + CallsFrom(pl, t + 1)
  }

  function FramesFrom(pl: Plan, t: nat): seq<Frame>
    decreases |pl| - t
  {
    if t >= |pl| then [] else pl[t].frames + FramesFrom(pl, t + 1)
  }

  lemma {:induction false} CallsContain(pl: Plan, t: nat, j: nat, ev: Event)
    requires t <= j < |pl| && ev in pl[j].calls
    ensures ev in CallsFrom(pl, t)
    decreases j - t
  {
    if t < j {
      CallsContain(pl, t + 1, j, ev);
    }
  }

  lemma {:induction false} FramesContain(pl: Plan, t: nat, j: nat, f: Frame)
    requires t <= j < |pl| && f in pl[j].frames
    ensures f in FramesFrom(pl, t)
    decreases j - t
  {
    if t < j {
      FramesContain(pl, t + 1, j, f);
    }
  }

  // ----- Counting

  lemma {:induction false} LabelledGrows(pl: Plan, key: SockAddr, i: nat, j: nat)
    requires i < j <= |pl|
    ensures Labelled(pl, key, i) <= Labelled(pl, key, j)
    ensures pl[i].after.ipaddress == key ==> Labelled(pl, key, i) < Labelled(pl, key, j)
    decreases j
  {
    if i + 1 < j {
      LabelledGrows(pl, key, i, j - 1);
    }
  }

  lemma {:induction false} DroppedGrows(pl: Plan, key: SockAddr, t: nat, u: nat)
    requires t <= u <= |pl|
    ensures Dropped(pl, key, t) <= Dropped(pl, key, u)
    decreases u
  {
    if t < u {
      DroppedGrows(pl, key, t, u - 1);
    }
  }

  lemma GoneStays(pl: Plan, j: nat, t: nat, u: nat)
    requires j < |pl| && t <= u <= |pl| && Gone(pl, j, t)
    ensures Gone(pl, j, u)
  {
    DroppedGrows(pl, pl[j].after.ipaddress, t, u);
  }

  /** An entry is unlinked by one turn only. */
  lemma OnlyOnce(pl: Plan, j: nat, t: nat, u: nat)
    requires j < |pl| && t <= u < |pl| && Gone(pl, j, t + 1) && !Gone(pl, j, u)
    ensures u == t
  {
    if t < u {
      GoneStays(pl, j, t + 1, u);
    }
  }

  /** Every number below a count is the rank of an entry counted. */
  lemma {:induction false} EntryOfRank(pl: Plan, key: SockAddr, r: nat, t: nat) returns (j: nat)
    requires t <= |pl| && r < Labelled(pl, key, t)
    ensures j < t && pl[j].after.ipaddress == key && Labelled(pl, key, j) == r
    decreases t
  {
    if r < Labelled(pl, key, t - 1) {
      j := EntryOfRank(pl, key, r, t - 1);
    } else {
      j := t - 1;
    }
  }

  // ----- The entries that are left

  /** The entries that are left after `t` turns. */
  ghost function Left(pl: Plan, t: nat): set<nat>
    requires t <= |pl|
  {
    set j: nat | j < |pl| && !Gone(pl, j, t)
  }

  /** The first entry with the dropped address that is still there is the one whose rank is the number of
      earlier drops, and it is the only one the turn unlinks. */
  lemma TurnUnlinks(pl: Plan, t: nat, v: nat)
    requires v <= t < |pl| && pl[t].drops && pl[v].after.ipaddress == pl[t].after.ipaddress && !Gone(pl, v, t)
    requires forall j :: 0 <= j < v && pl[j].after.ipaddress == pl[t].after.ipaddress ==> Gone(pl, j, t)
    ensures Left(pl, t + 1) == Left(pl, t) - {v}
  {
    var key := pl[t].after.ipaddress;
    var r := Dropped(pl, key, t);
    if Labelled(pl, key, v) > r {
      var j := EntryOfRank(pl, key, r, v);
    }
    forall j | 0 <= j < |pl| && pl[j].after.ipaddress == key && j != v
      ensures Labelled(pl, key, j) != r
    {
      LabelledGrows(pl, key, if j < v then j else v, if j < v then v else j);
    }
  }

  lemma TurnUnlinksNothing(pl: Plan, t: nat)
    requires t < |pl| && !pl[t].drops
    ensures Left(pl, t + 1) == Left(pl, t)
  {
  }

  ghost predicate Increasing(idx: seq<nat>) {
    forall a, b :: 0 <= a < b < |idx| ==> idx[a] < idx[b]
  }

  ghost function Members(idx: seq<nat>): set<nat> {
    set j | j in idx
  }

  lemma LeftAt(pl: Plan, t: nat, idx: seq<nat>, j: nat)
    requires t <= |pl| && Members(idx) == Left(pl, t)
    ensures j in idx <==> j < |pl| && !Gone(pl, j, t)
  {
    assert j in Members(idx) <==> j in Left(pl, t);
  }

  lemma MembersWithout(idx: seq<nat>, k: nat)
    requires Increasing(idx) && k < |idx|
    ensures Increasing(Without(idx, k)) && Members(Without(idx, k)) == Members(idx) - {idx[k]}
  {
    var r := Without(idx, k);
    forall j | j in Members(idx) - {idx[k]}
      ensures j in r
    {
      var a :| 0 <= a < |idx| && idx[a] == j;
      assert r[if a < k then a else a - 1] == j;
    }
  }

  /** The first entry left that has the dropped address is the one that the count names. */
  lemma FirstIsVictim(pl: Plan, t: nat, idx: seq<nat>, k: nat)
    requires t < |pl| && pl[t].drops && Increasing(idx) && Members(idx) == Left(pl, t)
    requires k < |idx| && idx[k] <= t && pl[idx[k]].after.ipaddress == pl[t].after.ipaddress
    requires forall a :: 0 <= a < k ==> pl[idx[a]].after.ipaddress != pl[t].after.ipaddress
    ensures Left(pl, t + 1) == Left(pl, t) - {idx[k]}
  {
    var v := idx[k];
    LeftAt(pl, t, idx, v);
    forall j | 0 <= j < v && pl[j].after.ipaddress == pl[t].after.ipaddress
      ensures Gone(pl, j, t)
    {
      assert j !in idx;
      LeftAt(pl, t, idx, j);
    }
    TurnUnlinks(pl, t, v);
  }

  lemma HeadUnlinked(pl: Plan, t: nat, idx: seq<nat>, k: nat)
    requires t < |pl| && k < |idx| && Increasing(idx)
    requires Members(idx) == Left(pl, t) && Left(pl, t + 1) == Left(pl, t) - {idx[k]}
    ensures idx[0] < |pl| && (Gone(pl, idx[0], t + 1) <==> k == 0)
  {
    LeftAt(pl, t, idx, idx[0]);
    assert idx[0] in Left(pl, t + 1) <==> k > 0;
  }

  // ----- The entry that takes the place of the head

  /** The turn that unlinks the head leaves `idx[1]` at the head. */
  lemma ReplacedNow(pl: Plan, t: nat, idx: seq<nat>)
    requires t < |pl| && idx != [] && Increasing(idx)
    requires idx[0] < |pl| && !Gone(pl, idx[0], t) && Gone(pl, idx[0], t + 1)
    requires Members(idx[1..]) == Left(pl, t + 1)
    ensures Replaced(pl, t, idx[0]) <==> |idx| > 1 && idx[1] < |pl| && Gone(pl, idx[1], |pl|)
  {
    if |idx| > 1 {
      assert idx[1] == idx[1..][0];
      LeftAt(pl, t + 1, idx[1..], idx[1]);
    }
    if Replaced(pl, t, idx[0]) {
      var u, h :| t <= u < |pl| && 0 <= h < |pl| && Second(pl, idx[0], u, h);
      OnlyOnce(pl, idx[0], t, u);
      LeftAt(pl, t + 1, idx[1..], h);
      AfterHead(idx, h);
      assert h == idx[1];
    }
    if |idx| > 1 && Gone(pl, idx[1], |pl|) {
      var t' := t + 1;
      forall k: nat | idx[0] < k < idx[1]
        ensures Gone(pl, k, t')
      {
        AfterHead(idx, k);
        LeftAt(pl, t + 1, idx[1..], k);
      }
      assert GoneBetween(pl, idx[0], idx[1], t + 1);
      assert Second(pl, idx[0], t, idx[1]);
    }
  }

  lemma AfterHead(idx: seq<nat>, j: nat)
    requires idx != [] && Increasing(idx)
    ensures j in idx[1..] ==> |idx| > 1 && idx[0] < idx[1] <= j
  {
    if j in idx[1..] {
      var a :| 0 <= a < |idx| - 1 && idx[1..][a] == j;
      assert idx[a + 1] == j;
    }
  }

  /** A turn that leaves the head in place does not matter. */
  lemma ReplacedLater(pl: Plan, t: nat, h0: nat)
    requires t < |pl| && h0 < |pl| && !Gone(pl, h0, t + 1)
    ensures Replaced(pl, t, h0) <==> Replaced(pl, t + 1, h0)
  {
    if Replaced(pl, t, h0) {
      var u, h :| t <= u < |pl| && 0 <= h < |pl| && Second(pl, h0, u, h);
      assert u != t;
    }
  }
}
