/** The doubly linked list of cache.c, pointer by pointer, proved against the sequence it represents. */
module CacheList {
  import opened CacheModel

  class Node {
    var entry: Entry
    var next: Node?
    var prev: Node?

    /** `calloc` followed by filling in the entry. */
    constructor (e: Entry)
      ensures entry == e && next == null && prev == null
    {
      entry, next, prev := e, null, null;
    }
  }

  /** What a call of `removeFromCache` amounts to. */
  datatype Outcome = NotFound | Removed | UseAfterFree

  ghost predicate Distinct(ns: seq<Node>) {
    forall i, j :: 0 <= i < j < |ns| ==> ns[i] != ns[j]
  }

  /** Every node leads to the one after it, the last one nowhere. */
  ghost predicate NextLinked(ns: seq<Node>)
    reads ns
  {
    forall i {:trigger ns[i].next} :: 0 <= i < |ns| ==> ns[i].next == if i + 1 < |ns| then ns[i + 1] else null
  }

  /** Every node but the first leads back to the one before it. */
  ghost predicate PrevLinked(ns: seq<Node>)
    reads ns
  {
    forall i {:trigger ns[i].prev} :: 0 < i < |ns| ==> ns[i].prev == ns[i - 1]
  }

  /** Bypassing an inner node keeps the forward links of the rest. */
  lemma NextBypassed(ns: seq<Node>, i: nat)
    requires 0 < i < |ns|
    requires forall j {:trigger ns[j].next} :: 0 <= j < |ns| && j != i - 1 ==>
               ns[j].next == if j + 1 < |ns| then ns[j + 1] else null
    requires ns[i - 1].next == if i + 1 < |ns| then ns[i + 1] else null
    ensures NextLinked(Without(ns, i))
  {
    var r := Without(ns, i);
    forall j | 0 <= j < |r|
      ensures r[j].next == if j + 1 < |r| then r[j + 1] else null
    {
      assert r[j] == ns[if j < i then j else j + 1];
    }
  }

  /** And the back links. */
  lemma PrevBypassed(ns: seq<Node>, i: nat)
    requires 0 < i < |ns|
    requires forall j {:trigger ns[j].prev} :: 0 < j < |ns| && j != i + 1 ==> ns[j].prev == ns[j - 1]
    requires i + 1 < |ns| ==> ns[i + 1].prev == ns[i - 1]
    ensures PrevLinked(Without(ns, i))
  {
    var r := Without(ns, i);
    forall j | 0 < j < |r|
      ensures r[j].prev == r[j - 1]
    {
      assert r[j] == ns[if j < i then j else j + 1];
    }
  }

  lemma DistinctWithout(ns: seq<Node>, i: nat)
    requires Distinct(ns) && i < |ns|
    ensures Distinct(Without(ns, i)) && ns[i] !in Without(ns, i)
  {
  }

  /** A new node in front of a linked list. */
  lemma Prepended(ns: seq<Node>, e: Node)
    requires NextLinked(ns) && PrevLinked(ns)
    requires e.next == if ns == [] then null else ns[0]
    requires ns != [] ==> ns[0].prev == e
    ensures NextLinked([e] + ns) && PrevLinked([e] + ns)
  {
    var r := [e] + ns;
    forall j | 0 < j < |r|
      ensures r[j].prev == r[j - 1] && r[j].next == if j + 1 < |r| then r[j + 1] else null
    {
      assert r[j] == ns[j - 1];
    }
  }

  class Cache {
    var head: Node?
    /** The nodes handed back to the allocator. */
    var freed: set<Node>
    /** The listed nodes from the head on, and the entries they hold. */
    ghost var nodes: seq<Node>
    ghost var model: seq<Entry>

    /** The list is well formed, except that the back link of the head may point to a freed node. */
    ghost predicate Valid()
      reads this, nodes
    {
      && |model| == |nodes|
      && (forall i :: 0 <= i < |nodes| ==> nodes[i].entry == model[i])
      && Distinct(nodes)
      && (forall i :: 0 <= i < |nodes| ==> nodes[i] !in freed)
      && head == (if nodes == [] then null else nodes[0])
      && NextLinked(nodes)
      && PrevLinked(nodes)
      && (nodes != [] && nodes[0].prev != null ==> nodes[0].prev in freed)
    }

    /** The head's back link is a dangling pointer. */
    ghost predicate Stale()
      reads this, nodes
    {
      nodes != [] && nodes[0].prev != null
    }

    constructor ()
      ensures Valid() && !Stale() && nodes == [] && model == [] && freed == {}
    {
      head, freed, nodes, model := null, {}, [], [];
    }

    /** Walking from the head comes back to the head after visiting `nodes[0..k]`. */
    ghost predicate CycleThrough(k: nat)
      reads this, nodes
    {
      && k < |nodes|
      && head == nodes[k] && nodes[k].next == nodes[0]
      && forall i {:trigger nodes[i].next} :: 0 <= i < k ==> nodes[i].next == nodes[i + 1]
    }

    /** `addToCache`. A new node is prepended and every link is right afterwards, the head's back link
        included. A node that is already listed closes a cycle instead. */
    method AddToCache(entry: Node)
      requires Valid() && entry !in freed
      modifies this, entry, nodes
      ensures freed == old(freed)
      ensures entry !in old(nodes) ==>
        && Valid() && !Stale()
        && nodes == [entry] + old(nodes)
        && model == [entry.entry] + old(model)
        && entry.entry == old(entry.entry)
      ensures forall k :: 0 <= k < |old(nodes)| && old(nodes)[k] == entry ==>
        nodes == old(nodes) && CycleThrough(k)
    {
      LinkFront(entry);
      if entry !in nodes {
        Prepended(nodes, entry);
        assert Distinct([entry] + nodes);
        nodes, model := [entry] + nodes, [entry.entry] + model;
        assert Valid();
      } else {
        forall k | 0 <= k < |nodes| && nodes[k] == entry
          ensures CycleThrough(k)
        {
        }
      }
    }

    /** The pointer assignments of `addToCache`. */
    method LinkFront(entry: Node)
      requires Valid()
      modifies this`head, entry`next, entry`prev, nodes`prev
      ensures head == entry && entry.next == old(head)
      ensures forall i :: 0 <= i < |nodes| && nodes[i] != entry ==> nodes[i].next == old(nodes[i].next)
      ensures entry !in nodes ==>
        && NextLinked(nodes) && PrevLinked(nodes)
        && entry.prev == null && (nodes != [] ==> nodes[0].prev == entry)
    {
      if head != null {
        entry.next := head;
        entry.prev := null;
        head.prev := entry;
      } else {
        entry.next := null;
        entry.prev := null;
      }
      head := entry;
    }

    /** Taking one node out and freeing it (cache.c:65-74). */
    method Unlink(node: Node, ghost i: nat)
      requires Valid() && i < |nodes| && nodes[i] == node
      requires i == 0 ==> !Stale()
      modifies this, nodes`next, nodes`prev
      ensures Valid()
      ensures nodes == Without(old(nodes), i) && model == Without(old(model), i)
      ensures freed == old(freed) + {node}
      ensures Stale() == (if i == 0 then |nodes| > 0 else old(Stale()))
    {
      if node.prev == null {
        UnlinkHead(node);
      } else {
        UnlinkInner(node, i);
      }
    }

    method UnlinkHead(node: Node)
      requires Valid() && nodes != [] && nodes[0] == node && !Stale()
      modifies this
      ensures Valid()
      ensures nodes == Without(old(nodes), 0) && model == Without(old(model), 0)
      ensures freed == old(freed) + {node} && Stale() == (|nodes| > 0)
    {
      head := node.next;
      freed := freed + {node};
      nodes, model := Without(nodes, 0), Without(model, 0);
    }

    method UnlinkInner(node: Node, ghost i: nat)
      requires Valid() && 0 < i < |nodes| && nodes[i] == node
      modifies this, nodes`next, nodes`prev
      ensures Valid()
      ensures nodes == Without(old(nodes), i) && model == Without(old(model), i)
      ensures freed == old(freed) + {node} && Stale() == old(Stale())
    {
      Bypass(node, i);
      DistinctWithout(nodes, i);
      freed := freed + {node};
      nodes, model := Without(nodes, i), Without(model, i);
    }

    /** Linking the neighbours of an inner node to each other. */
    method Bypass(node: Node, ghost i: nat)
      requires Valid() && 0 < i < |nodes| && nodes[i] == node
      modifies nodes`next, nodes`prev
      ensures NextLinked(Without(nodes, i)) && PrevLinked(Without(nodes, i))
      ensures nodes[0].prev == old(nodes[0].prev)
    {
      node.prev.next := node.next;
      if node.next != null {
        node.next.prev := node.prev;
      }
      NextBypassed(nodes, i);
      PrevBypassed(nodes, i);
    }

    /** `removeFromCache`: unlinks the first node with the same value. The head's successor keeps its
        back link to the freed node; a second removal at the head then goes through that pointer. */
    method RemoveFromCache(entry: Node) returns (r: Outcome)
      requires Valid()
      modifies this, nodes
      ensures var k := FindValue(old(model), old(entry.entry));
        if k == |old(model)| then
          r == NotFound && Valid() && Unchanged(old(nodes), old(model), old(freed)) && Stale() == old(Stale())
        else if k == 0 && old(Stale()) then
          r == UseAfterFree && Unchanged(old(nodes), old(model), old(freed))
        else
          && r == Removed && Valid()
          && nodes == Without(old(nodes), k) && model == Without(old(model), k)
          && freed == old(freed) + {old(nodes)[k]}
          && Stale() == (if k == 0 then |nodes| > 0 else old(Stale()))
    {
      var node := head;
      ghost var i := 0;
      while node != null
        invariant 0 <= i <= |nodes|
        invariant node == if i < |nodes| then nodes[i] else null
        invariant forall j :: 0 <= j < i ==> !SameValue(model[j], entry.entry)
        decreases |nodes| - i
      {
        if node == entry || SameValue(node.entry, entry.entry) {
          assert i == FindValue(model, entry.entry);
          if node.prev in freed {
            return UseAfterFree;
          }
          Unlink(node, i);
          return Removed;
        } else {
          node := node.next;
          i := i + 1;
        }
      }
      return NotFound;
    }

    ghost predicate Unchanged(ns: seq<Node>, m: seq<Entry>, f: set<Node>)
      reads this
    {
      nodes == ns && model == m && freed == f
    }

    /** The node at an index, null past the end. */
    ghost function At(k: nat): Node?
      reads this
    {
      if k < |nodes| then nodes[k] else null
    }

    /** `getFromCache`. */
    method GetFromCache(entry: Node) returns (found: Node?)
      requires Valid()
      ensures found == At(FindValue(model, entry.entry))
    {
      found := null;
      var node := head;
      ghost var i := 0;
      while node != null
        invariant 0 <= i <= |nodes| && node == At(i)
        invariant forall j :: 0 <= j < i ==> !SameValue(model[j], entry.entry)
        decreases |nodes| - i
      {
        if node == entry || SameValue(node.entry, entry.entry) {
          return node;
        }
        node, i := node.next, i + 1;
      }
    }

    /** `getCacheBySocket`. */
    method GetCacheBySocket(sock: int) returns (found: Node?)
      requires Valid()
      ensures found == At(FindSocket(model, sock))
    {
      found := null;
      var node := head;
      ghost var i := 0;
      while node != null
        invariant 0 <= i <= |nodes| && node == At(i)
        invariant forall j :: 0 <= j < i ==> model[j].socket != sock
        decreases |nodes| - i
      {
        if node.entry.socket == sock {
          return node;
        }
        node, i := node.next, i + 1;
      }
    }

    /** `getCacheByIpAddr`. */
    method GetCacheByIpAddr(ipaddress: SockAddr) returns (found: Node?)
      requires Valid()
      ensures found == At(FindKey(model, ipaddress))
    {
      found := null;
      var node := head;
      ghost var i := 0;
      while node != null
        invariant 0 <= i <= |nodes| && node == At(i)
        invariant forall j :: 0 <= j < i ==> model[j].ipaddress != ipaddress
        decreases |nodes| - i
      {
        if node.entry.ipaddress == ipaddress {
          return node;
        }
        node, i := node.next, i + 1;
      }
    }

    /** Assigning fields of a listed node. */
    method SetEntry(node: Node, e: Entry, ghost i: nat)
      requires Valid() && i < |nodes| && nodes[i] == node
      modifies this`model, node`entry
      ensures Valid() && Stale() == old(Stale())
      ensures model == old(model)[i := e]
    {
      node.entry := e;
      model := model[i := e];
    }

    /** `updateCache`: only the hardware type of the first same entry changes. */
    method UpdateCache(entry: Node) returns (success: bool)
      requires Valid()
      requires forall i :: 0 <= i < |model| ==> |model[i].hw.addr| == |entry.entry.hw.addr|
      modifies this`model, nodes`entry
      ensures Valid() && Stale() == old(Stale())
      ensures var k, e := FindValue(old(model), old(entry.entry)), old(entry.entry);
        && success == (k < |old(model)|)
        && model == if success
                    then old(model)[k := old(model)[k].(hw := old(model)[k].hw.(hatype := e.hw.hatype))]
                    else old(model)
    {
      var e := entry.entry;
      var node := head;
      ghost var i := 0;
      while node != null
        invariant 0 <= i <= |nodes| && node == At(i)
        invariant forall j :: 0 <= j < i ==> !SameValue(model[j], e)
        decreases |nodes| - i
      {
        if node == entry || SameValue(node.entry, e) {
          UpdateChangesOnlyHatype(node.entry, e);
          SetEntry(node, Updated(node.entry, e), i);
          return true;
        }
        node, i := node.next, i + 1;
      }
      return false;
    }
  }

  /** After a head removal the next addition restores the full invariant. */
  method HeadRemovalThenAdd(cache: Cache, entry: Node)
    requires cache.Valid() && !cache.Stale() && |cache.nodes| >= 2
    requires entry !in cache.nodes && entry !in cache.freed
    modifies cache, cache.nodes, entry
    ensures cache.Valid() && !cache.Stale()
    ensures cache.nodes == [entry] + old(cache.nodes)[1..]
  {
    var first := cache.head;
    var r := cache.RemoveFromCache(first);
    assert cache.Stale();
    cache.AddToCache(entry);
  }

  /** Without an addition in between, the removal of the new head goes through freed memory. */
  method TwoHeadRemovals(cache: Cache) returns (r1: Outcome, r2: Outcome)
    requires cache.Valid() && !cache.Stale() && |cache.nodes| >= 2
    modifies cache, cache.nodes
    ensures r1 == Removed && r2 == UseAfterFree
  {
    r1 := cache.RemoveFromCache(cache.head);
    r2 := cache.RemoveFromCache(cache.head);
  }
}
