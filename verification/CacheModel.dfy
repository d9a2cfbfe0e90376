/** The values a cache entry holds (cache.h, api.h) and the first-match searches of cache.c on a
    sequence of entries. */
module CacheModel {
  import opened Bytes

  /** A `struct sockaddr`, compared by the program as sixteen bytes. */
  datatype SockAddr = SockAddr(family: nat, port: nat, ip: Ip, zero: seq<byte>)

  /** The reply handed to a client, a `struct hwaddr`. */
  datatype HwAddr = HwAddr(
    ifindex: int, ifhatype: nat, ifhalen: nat, ifaddr: seq<byte>,
    hatype: nat, halen: nat, addr: seq<byte>)

  datatype State = Connection | Incomplete | Complete

  datatype Entry = Entry(ipaddress: SockAddr, socket: int, state: State, hw: HwAddr)

  /** What `calloc` leaves in the address and in the hardware address. */
  const UNSET := SockAddr(0, 0, [0, 0, 0, 0], Zeros(8))
  const NO_HW := HwAddr(0, 0, 0, Zeros(8), 0, 0, Zeros(8))

  /** The bytes `memcmp` looks at. */
  function Prefix(s: seq<byte>, n: nat): seq<byte> {
    if n <= |s| then s[..n] else s
  }

  /** `isSameCache`: only the length of the second entry's address is consulted. Two equal pointers
      are always the same value, so the pointer test of the source adds nothing. */
  predicate SameValue(c1: Entry, c2: Entry) {
    && c1.hw.ifindex == c2.hw.ifindex
    && Prefix(c1.hw.addr, c2.hw.halen) == Prefix(c2.hw.addr, c2.hw.halen)
    && c1.ipaddress == c2.ipaddress
  }

  /** Index of the first entry that satisfies `p`, or the length of the list. */
  function FirstIndex(s: seq<Entry>, p: Entry -> bool): (k: nat)
    ensures k <= |s|
    ensures k < |s| ==> p(s[k])
    ensures forall j :: 0 <= j < k ==> !p(s[j])
  {
    if s == [] then 0
    else if p(s[0]) then 0
    else
      var r := FirstIndex(s[1..], p);
      assert forall j :: 1 <= j < 1 + r ==> s[j] == s[1..][j - 1];
      1 + r
  }

  function FindValue(s: seq<Entry>, c: Entry): (k: nat)
    ensures k <= |s|
    ensures k < |s| ==> SameValue(s[k], c)
    ensures forall j :: 0 <= j < k ==> !SameValue(s[j], c)
  {
    FirstIndex(s, (e: Entry) => SameValue(e, c))
  }

  function FindKey(s: seq<Entry>, key: SockAddr): (k: nat)
    ensures k <= |s|
    ensures k < |s| ==> s[k].ipaddress == key
    ensures forall j :: 0 <= j < k ==> s[j].ipaddress != key
  {
    FirstIndex(s, (e: Entry) => e.ipaddress == key)
  }

  function FindSocket(s: seq<Entry>, fd: int): (k: nat)
    ensures k <= |s|
    ensures k < |s| ==> s[k].socket == fd
    ensures forall j :: 0 <= j < k ==> s[j].socket != fd
  {
    FirstIndex(s, (e: Entry) => e.socket == fd)
  }

  function Without<T>(s: seq<T>, k: nat): (r: seq<T>)
    requires k < |s|
    ensures |r| == |s| - 1
    ensures forall i :: 0 <= i < k ==> r[i] == s[i]
    ensures forall i :: k <= i < |r| ==> r[i] == s[i + 1]
  {
    s[..k] + s[k + 1..]
  }

  /** The effect of `updateCache` on the entry it finds. */
  function Updated(node: Entry, from: Entry): Entry {
    Entry(from.ipaddress, node.socket, node.state,
          node.hw.(ifindex := from.hw.ifindex, hatype := from.hw.hatype,
                   addr := Overwrite(node.hw.addr, Prefix(from.hw.addr, from.hw.halen))))
  }

  function Overwrite(dst: seq<byte>, src: seq<byte>): (r: seq<byte>) {
    if |src| <= |dst| then src + dst[|src|..] else src
  }

  /** Because it is applied to an entry that is already the same, an update can change nothing but the
      hardware type. */
  lemma UpdateChangesOnlyHatype(node: Entry, from: Entry)
    requires SameValue(node, from) && |node.hw.addr| == |from.hw.addr|
    ensures Updated(node, from) == node.(hw := node.hw.(hatype := from.hw.hatype))
  {
    var p := Prefix(from.hw.addr, from.hw.halen);
    assert node.hw.addr == p + node.hw.addr[|p|..];
  }

  /** `isSameCache` is not symmetric. */
  lemma SameValueIsNotSymmetric()
    ensures exists c1, c2 :: SameValue(c1, c2) && !SameValue(c2, c1)
  {
    var blank := Entry(UNSET, -1, Connection, NO_HW);
    var other := blank.(hw := NO_HW.(halen := 6, addr := [1, 0, 0, 0, 0, 0, 0, 0]));
    assert other.hw.addr[..6][0] != blank.hw.addr[..6][0];
    assert SameValue(other, blank) && !SameValue(blank, other);
  }

  /** The order of the arguments matters exactly for entries that agree on everything up to the shorter of
      the two address lengths and differ before the longer one. */
  lemma SameValueSymmetricIff(c1: Entry, c2: Entry)
    requires |c1.hw.addr| == |c2.hw.addr| && c1.hw.halen <= |c1.hw.addr| && c2.hw.halen <= |c2.hw.addr|
    ensures SameValue(c1, c2) <==>
      && c1.hw.ifindex == c2.hw.ifindex && c1.ipaddress == c2.ipaddress
      && forall i :: 0 <= i < c2.hw.halen ==> c1.hw.addr[i] == c2.hw.addr[i]
    ensures var lo := if c1.hw.halen < c2.hw.halen then c1.hw.halen else c2.hw.halen;
      var hi := if c1.hw.halen < c2.hw.halen then c2.hw.halen else c1.hw.halen;
      (SameValue(c1, c2) <==> SameValue(c2, c1)) <==>
        !(&& c1.hw.ifindex == c2.hw.ifindex && c1.ipaddress == c2.ipaddress
          && c1.hw.addr[..lo] == c2.hw.addr[..lo] && c1.hw.addr[..hi] != c2.hw.addr[..hi])
  {
    var lo := if c1.hw.halen < c2.hw.halen then c1.hw.halen else c2.hw.halen;
    var hi := if c1.hw.halen < c2.hw.halen then c2.hw.halen else c1.hw.halen;
    assert c1.hw.addr[..hi][..lo] == c1.hw.addr[..lo] && c2.hw.addr[..hi][..lo] == c2.hw.addr[..lo];
  }
}
