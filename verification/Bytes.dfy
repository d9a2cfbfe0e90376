/** Machine-level values shared by the models: bytes, 16-bit words, the C `short`,
    IPv4 and Ethernet addresses, and the conversions the programs apply to them. */
module Bytes {

  type byte = x: int | 0 <= x < 0x100
  type u16 = x: int | 0 <= x < 0x1_0000
  type short = x: int | -0x8000 <= x < 0x8000

  /** The four bytes of an `in_addr`, in memory (network) order. */
  type Ip = s: seq<byte> | |s| == 4 witness [0, 0, 0, 0]

  /** The six bytes of an Ethernet hardware address. */
  type Mac = s: seq<byte> | |s| == 6 witness [0, 0, 0, 0, 0, 0]

  datatype Option<+T> = None | Some(value: T)

  function Zeros(n: nat): (s: seq<byte>)
    ensures |s| == n && forall i :: 0 <= i < n ==> s[i] == 0
  {
    seq(n, _ => 0)
  }

  /** A zeroed 8-byte field into which `s` was copied, as `sll_addr` is filled. */
  function Pad8(s: seq<byte>): (r: seq<byte>)
    requires |s| <= 8
    ensures |r| == 8 && s <= r
  {
    s + Zeros(8 - |s|)
  }

  /** A zeroed field of `n` bytes into which `s`, or as much of it as fits, was copied. */
  function Fit(s: seq<byte>, n: nat): (r: seq<byte>)
    ensures |r| == n && forall i :: 0 <= i < n ==> r[i] == if i < |s| then s[i] else 0
  {
    if |s| >= n then s[..n] else s + Zeros(n - |s|)
  }

  /** Two bytes in network order. */
  function Net16(x: u16): (b: seq<byte>)
    ensures |b| == 2
  {
    [x / 0x100, x % 0x100]
  }

  function Host16(hi: byte, lo: byte): (x: u16)
    ensures Net16(x) == [hi, lo]
  {
    0x100 * hi + lo
  }

  function Swap16(x: u16): u16 {
    0x100 * (x % 0x100) + x / 0x100
  }

  /** `htons` and `ntohs` on the little-endian hosts the programs run on. */
  function Htons(x: u16): u16 {
    Swap16(x)
  }

  lemma SwapTwice(x: u16)
    ensures Swap16(Swap16(x)) == x
  {
    var hi, lo := x / 0x100, x % 0x100;
    assert Swap16(x) / 0x100 == lo && Swap16(x) % 0x100 == hi;
  }

  /** Conversion of an integer to `uint16_t` and to `short`: keep 16 bits, and read them as two's
      complement for the latter. */
  function ToU16(v: int): u16 {
    if 0 <= v < 0x1_0000 then v else v % 0x1_0000
  }

  function ToShort(v: int): short {
    AsShort(ToU16(v))
  }

  function AsShort(x: u16): short {
    if x < 0x8000 then x else x - 0x1_0000
  }

  function AsU16(x: short): (r: u16)
    ensures AsShort(r) == x
  {
    if x < 0 then x + 0x1_0000 else x
  }
}
