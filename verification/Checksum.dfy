/** The Internet checksum of ping.c, `in_cksum`, against one's-complement arithmetic
    (sections 1 and 2 of RFC 1071). */
module Checksum {
  import opened Bytes

  datatype Endian = Little | Big

  const WRAP := 0x1_0000_0000

  /** The longest message, in bytes, whose word sum fits the 32-bit accumulator. */
  const MAX_LEN := 131074

  /** The value a host reads from the two bytes `a`, `b` of memory. */
  function Word(e: Endian, a: byte, b: byte): (w: u16)
    ensures w == 0 <==> a == 0 && b == 0
  {
    match e
    case Little => a + 0x100 * b
    case Big => 0x100 * a + b
  }

  /** The two bytes of memory a host writes for `w`. */
  function Bytes2(e: Endian, w: u16): (p: (byte, byte))
    ensures Word(e, p.0, p.1) == w
  {
    match e
    case Little => (w % 0x100, w / 0x100)
    case Big => (w / 0x100, w % 0x100)
  }

  /** The 16-bit words of a message; an odd last byte is completed by a zero byte. */
  function Words(e: Endian, m: seq<byte>): (ws: seq<u16>)
    ensures |ws| == (|m| + 1) / 2
  {
    if |m| == 0 then []
    else if |m| == 1 then [Word(e, m[0], 0)]
    else [Word(e, m[0], m[1])] + Words(e, m[2..])
  }

  function Sum(ws: seq<u16>): (s: nat)
    ensures s <= 0xFFFF * |ws|
  {
    if ws == [] then 0 else ws[0] + Sum(ws[1..])
  }

  function MsgSum(e: Endian, m: seq<byte>): (s: nat) {
    Sum(Words(e, m))
  }

  /** The two folds, the complement and the truncation at the end of `in_cksum`. */
  function Finish(sum: nat): (r: u16)
    requires sum < WRAP
  {
    var s1 := sum / 0x1_0000 + sum % 0x1_0000;
    var s2 := s1 + s1 / 0x1_0000;
    0xFFFF - s2 % 0x1_0000
  }

  /** What `in_cksum` returns, with the accumulator's wrap-around. */
  function Cksum(e: Endian, m: seq<byte>): (r: u16) {
    Finish(MsgSum(e, m) % WRAP)
  }

  lemma WrapAdd(acc: nat, w: nat, rest: nat)
    ensures ((acc + w) % WRAP + rest) % WRAP == (acc + (w + rest)) % WRAP
  {
    var t := acc + w;
    assert t == WRAP * (t / WRAP) + t % WRAP;
    assert t + rest == WRAP * (t / WRAP) + (t % WRAP + rest);
  }

  lemma MsgSumStep(e: Endian, m: seq<byte>, w: nat)
    requires w + 2 <= |m|
    ensures MsgSum(e, m[w..]) == Word(e, m[w], m[w + 1]) + MsgSum(e, m[w + 2..])
  {
    assert m[w..][2..] == m[w + 2..];
    assert Words(e, m[w..])[1..] == Words(e, m[w + 2..]);
  }

  lemma MsgSumEnd(e: Endian, m: seq<byte>, w: nat)
    requires w <= |m| <= w + 1
    ensures MsgSum(e, m[w..]) == if w < |m| then Word(e, m[w], 0) else 0
  {
    assert Words(e, m[w..]) == if w < |m| then [Word(e, m[w], 0)] else [];
  }

  method InCksum(e: Endian, m: seq<byte>) returns (answer: u16)
    ensures answer == Cksum(e, m)
  {
    var nleft, sum, w := |m|, 0, 0;
    assert m[0..] == m;
    while nleft > 1
      invariant 0 <= nleft && w + nleft == |m|
      invariant 0 <= sum < WRAP
      invariant (sum + MsgSum(e, m[w..])) % WRAP == MsgSum(e, m) % WRAP
    {
      var x := Word(e, m[w], m[w + 1]);
      MsgSumStep(e, m, w);
      WrapAdd(sum, x, MsgSum(e, m[w + 2..]));
      sum := (sum + x) % WRAP;
      w, nleft := w + 2, nleft - 2;
    }
    MsgSumEnd(e, m, w);
    if nleft == 1 {
      sum := (sum + Word(e, m[w], 0)) % WRAP;
    }
    assert sum == MsgSum(e, m) % WRAP;
    answer := Fold(sum);
    TwoFoldsSuffice(sum);
  }

  /** Adding the carries back in, twice, and complementing (ping.c:221-225): the complement of the
      one's-complement value of the accumulator. */
  method Fold(acc: nat) returns (answer: u16)
    requires acc < WRAP
    ensures answer == 0xFFFF - Canon(acc)
  {
    var sum := acc / 0x1_0000 + acc % 0x1_0000;
    sum := sum + sum / 0x1_0000;
    answer := 0xFFFF - sum % 0x1_0000;
    TwoFoldsSuffice(acc);
  }

  // ----- One's-complement arithmetic

  /** One's-complement addition: add, and add the carry out back in. */
  function OnesAdd(a: u16, b: u16): (r: u16) {
    if a + b < 0x1_0000 then a + b else a + b - 0xFFFF
  }

  /** The one's-complement sum of RFC 1071. */
  function OnesSum(ws: seq<u16>): (r: u16) {
    if ws == [] then 0 else OnesAdd(ws[0], OnesSum(ws[1..]))
  }

  /** The representative of a natural number in one's-complement: 0 for 0 only, else its residue
      modulo 65535 taken in 1..65535. */
  function Canon(n: nat): (r: u16)
    ensures n == 0 <==> r == 0
  {
    if n == 0 then 0 else 1 + (n - 1) % 0xFFFF
  }

  /** `Canon` is determined by congruence modulo 65535 and by being non-zero. */
  lemma CanonUnique(n: nat, r: u16, k: int)
    requires n == r + 0xFFFF * k
    requires n == 0 <==> r == 0
    ensures Canon(n) == r
  {
    if r != 0 {
      assert n - 1 == (r - 1) + 0xFFFF * k;
      assert (n - 1) % 0xFFFF == r - 1;
    }
  }

  lemma CanonMod(n: nat)
    ensures Canon(n) % 0xFFFF == n % 0xFFFF
  {
    var k := CanonShift(n);
  }

  lemma CanonShift(n: nat) returns (k: nat)
    ensures n == Canon(n) + 0xFFFF * k
  {
    k := if n == 0 then 0 else (n - 1) / 0xFFFF;
  }

  lemma OnesAddCanon(w: u16, n: nat)
    ensures OnesAdd(w, Canon(n)) == Canon(w + n)
  {
    var k := CanonShift(n);
    CanonUnique(w + n, OnesAdd(w, Canon(n)), if w + Canon(n) < 0x1_0000 then k else k + 1);
  }

  lemma {:induction false} OnesSumIsCanon(ws: seq<u16>)
    ensures OnesSum(ws) == Canon(Sum(ws))
  {
    if ws != [] {
      OnesSumIsCanon(ws[1..]);
      OnesAddCanon(ws[0], Sum(ws[1..]));
    }
  }

  /** Two folds always suffice: on every 32-bit sum they leave exactly its one's-complement value. */
  lemma TwoFoldsSuffice(sum: nat)
    requires sum < WRAP
    ensures Finish(sum) == 0xFFFF - Canon(sum)
  {
    var hi, lo := sum / 0x1_0000, sum % 0x1_0000;
    var s1 := hi + lo;
    var r := 0xFFFF - Finish(sum);
    if s1 < 0x1_0000 {
      assert s1 / 0x1_0000 == 0;
      CanonUnique(sum, r, hi);
    } else {
      assert s1 / 0x1_0000 == 1;
      assert r == s1 - 0xFFFF;
      CanonUnique(sum, r, hi + 1);
    }
  }

  /** No message of up to 131074 bytes overflows the accumulator. */
  lemma NoOverflow(e: Endian, m: seq<byte>)
    requires |m| <= MAX_LEN
    ensures MsgSum(e, m) < WRAP
  {
    assert |Words(e, m)| <= 65537;
    assert MsgSum(e, m) <= 0xFFFF * |Words(e, m)| <= 0xFFFF * 65537;
  }

  /** `in_cksum` is the complement of the one's-complement sum of the message's words. */
  lemma CksumIsComplementOfOnesSum(e: Endian, m: seq<byte>)
    requires |m| <= MAX_LEN
    ensures 0xFFFF - Cksum(e, m) == OnesSum(Words(e, m))
    ensures (0xFFFF - Cksum(e, m)) % 0xFFFF == MsgSum(e, m) % 0xFFFF
    ensures Cksum(e, m) == 0xFFFF <==> forall i :: 0 <= i < |m| ==> m[i] == 0
  {
    CksumIsCanon(e, m);
    OnesSumIsCanon(Words(e, m));
    CanonMod(MsgSum(e, m));
    ZeroSum(e, m);
  }

  lemma CksumIsCanon(e: Endian, m: seq<byte>)
    requires |m| <= MAX_LEN
    ensures Cksum(e, m) == 0xFFFF - Canon(MsgSum(e, m))
  {
    NoOverflow(e, m);
    FinishUnwrapped(MsgSum(e, m));
  }

  lemma FinishUnwrapped(sum: nat)
    requires sum < WRAP
    ensures Finish(sum % WRAP) == 0xFFFF - Canon(sum)
  {
    assert sum % WRAP == sum;
    TwoFoldsSuffice(sum);
  }

  lemma {:induction false} ZeroSum(e: Endian, m: seq<byte>)
    ensures MsgSum(e, m) == 0 <==> forall i :: 0 <= i < |m| ==> m[i] == 0
  {
    if |m| >= 2 {
      ZeroSum(e, m[2..]);
      assert Words(e, m)[1..] == Words(e, m[2..]);
      assert forall i :: 2 <= i < |m| ==> m[i] == m[2..][i - 2];
    }
  }

  // ----- The bound is exact

  function AllOnes(n: nat): (m: seq<byte>)
    ensures |m| == n
  {
    seq(n, _ => 0xFF)
  }

  lemma {:induction false} AllOnesSum(e: Endian, n: nat)
    ensures MsgSum(e, AllOnes(2 * n)) == 0xFFFF * n
  {
    if n > 0 {
      AllOnesSum(e, n - 1);
      assert AllOnes(2 * n)[2..] == AllOnes(2 * (n - 1));
      assert Words(e, AllOnes(2 * n))[1..] == Words(e, AllOnes(2 * (n - 1)));
    } else {
      assert AllOnes(0) == [];
    }
  }

  lemma {:induction false} SumPrefix(e: Endian, m: seq<byte>, last: byte)
    requires |m| % 2 == 0
    ensures MsgSum(e, m + [last]) == MsgSum(e, m) + Word(e, last, 0)
  {
    if m == [] {
      assert m + [last] == [last];
      assert Words(e, m + [last]) == [Word(e, last, 0)];
    } else {
      SumPrefix(e, m[2..], last);
      assert (m + [last])[2..] == m[2..] + [last];
      assert Words(e, m + [last])[1..] == Words(e, m[2..] + [last]);
      assert Words(e, m)[1..] == Words(e, m[2..]);
    }
  }

  lemma {:induction false} ZerosAfter(e: Endian, m: seq<byte>, k: nat)
    requires |m| % 2 == 0
    ensures MsgSum(e, m + Zeros(k)) == MsgSum(e, m)
  {
    if m == [] {
      assert m + Zeros(k) == Zeros(k);
      ZeroSum(e, Zeros(k));
      assert Words(e, m) == [];
    } else {
      ZerosAfter(e, m[2..], k);
      assert (m + Zeros(k))[2..] == m[2..] + Zeros(k);
      assert Words(e, m + Zeros(k))[1..] == Words(e, m[2..] + Zeros(k));
      assert Words(e, m)[1..] == Words(e, m[2..]);
    }
  }

  /** The carry lost in an overflow always shows: 2^32 is 1 modulo 65535. */
  lemma LostCarry(s: nat)
    requires WRAP <= s < 2 * WRAP
    ensures 0xFFFF - Finish(s % WRAP) != Canon(s)
  {
    var low := s - WRAP;
    assert s % WRAP == low;
    TwoFoldsSuffice(low);
    var r := Canon(low);
    var k := CanonShift(low);
    assert WRAP == 0xFFFF * 65537 + 1;
    if r < 0xFFFF {
      CanonUnique(s, r + 1, k + 65537);
    } else {
      CanonUnique(s, 1, k + 65538);
    }
  }

  /** Up to twice the bound the result is right exactly when the word sum fits the accumulator. */
  lemma RightIffFits(e: Endian, m: seq<byte>)
    requires |m| <= 2 * MAX_LEN
    ensures 0xFFFF - Cksum(e, m) == OnesSum(Words(e, m)) <==> MsgSum(e, m) < WRAP
  {
    OnesSumIsCanon(Words(e, m));
    SumBelow(Words(e, m));
    CanonIffFits(MsgSum(e, m));
  }

  lemma SumBelow(ws: seq<u16>)
    requires |ws| <= MAX_LEN
    ensures Sum(ws) < 2 * WRAP
  {
    assert Sum(ws) <= 0xFFFF * |ws| <= 0xFFFF * MAX_LEN;
  }

  lemma CanonIffFits(s: nat)
    requires s < 2 * WRAP
    ensures 0xFFFF - Finish(s % WRAP) == Canon(s) <==> s < WRAP
  {
    if s < WRAP {
      FinishUnwrapped(s);
    } else {
      LostCarry(s);
    }
  }

  /** A message of length `n` that overflows the accumulator. */
  function Overflowing(n: nat): (m: seq<byte>)
    requires n > MAX_LEN
    ensures |m| == n
  {
    if n == MAX_LEN + 1 then AllOnes(n) else AllOnes(MAX_LEN + 2) + Zeros(n - MAX_LEN - 2)
  }

  /** The bound is exact: every greater length has a message that overflows and gets a wrong checksum. */
  lemma OverflowBeyondBound(e: Endian, n: nat)
    requires n > MAX_LEN
    ensures MsgSum(e, Overflowing(n)) >= WRAP
    ensures 0xFFFF - Cksum(e, Overflowing(n)) != OnesSum(Words(e, Overflowing(n)))
  {
    var m := Overflowing(n);
    OverflowingSum(e, n, (MAX_LEN + 2) / 2);
    OnesSumIsCanon(Words(e, m));
    CanonIffFits(MsgSum(e, m));
  }

  lemma OverflowingSum(e: Endian, n: nat, h: nat)
    requires n > MAX_LEN && 2 * h == MAX_LEN + 2
    ensures WRAP <= MsgSum(e, Overflowing(n)) < 2 * WRAP
  {
    if n == MAX_LEN + 1 {
      AllOnesSum(e, h - 1);
      assert Overflowing(n) == AllOnes(2 * (h - 1)) + [0xFF];
      SumPrefix(e, AllOnes(2 * (h - 1)), 0xFF);
    } else {
      AllOnesSum(e, h);
      ZerosAfter(e, AllOnes(2 * h), n - 2 * h);
    }
  }

  // ----- Byte order (section 2(B) of RFC 1071)

  lemma {:induction false} SwapSum(m: seq<byte>) returns (k: int)
    ensures 0x100 * MsgSum(Little, m) == MsgSum(Big, m) + 0xFFFF * k
  {
    if |m| == 0 {
      k := 0;
    } else if |m| == 1 {
      assert m[0..] == m;
      MsgSumEnd(Little, m, 0);
      MsgSumEnd(Big, m, 0);
      k := 0;
    } else {
      var k' := SwapSum(m[2..]);
      assert Words(Little, m)[1..] == Words(Little, m[2..]);
      assert Words(Big, m)[1..] == Words(Big, m[2..]);
      k := k' + m[1];
    }
  }

  /** A little-endian and a big-endian host compute byte-swapped values for every message, of odd
      length too, and so leave the same two bytes in memory when they store the result. */
  lemma ByteOrderIndependent(m: seq<byte>)
    requires |m| <= MAX_LEN
    ensures Cksum(Big, m) == Swap16(Cksum(Little, m))
    ensures Bytes2(Big, Cksum(Big, m)) == Bytes2(Little, Cksum(Little, m))
  {
    CksumIsCanon(Little, m);
    CksumIsCanon(Big, m);
    var k := SwapSum(m);
    ZeroSum(Little, m);
    ZeroSum(Big, m);
    SwapCanon(MsgSum(Little, m), MsgSum(Big, m), k);
    SwapComplement(Canon(MsgSum(Little, m)));
  }

  lemma SwapComplement(c: u16)
    ensures Swap16(0xFFFF - c) == 0xFFFF - Swap16(c)
    ensures Bytes2(Big, 0xFFFF - Swap16(c)) == Bytes2(Little, 0xFFFF - c)
  {
    var hi, lo := c / 0x100, c % 0x100;
    assert (0xFFFF - c) / 0x100 == 0xFF - hi && (0xFFFF - c) % 0x100 == 0xFF - lo;
    assert 0xFFFF - Swap16(c) == 0x100 * (0xFF - lo) + (0xFF - hi);
  }

  lemma SwapCanon(little: nat, big: nat, k: int)
    requires 0x100 * little == big + 0xFFFF * k
    requires little == 0 <==> big == 0
    ensures Canon(big) == Swap16(Canon(little))
  {
    var c := Canon(little);
    var j := CanonShift(little);
    assert 0x100 * c == Swap16(c) + 0xFFFF * (c / 0x100);
    CanonUnique(big, Swap16(c), c / 0x100 + 0x100 * j - k);
  }

  /** The message with the two bytes of every word exchanged. */
  function SwapPairs(m: seq<byte>): (r: seq<byte>)
    requires |m| % 2 == 0
    ensures |r| == |m|
  {
    if m == [] then [] else [m[1], m[0]] + SwapPairs(m[2..])
  }

  function Other(e: Endian): Endian {
    if e == Little then Big else Little
  }

  lemma {:induction false} SwapPairsWords(e: Endian, m: seq<byte>)
    requires |m| % 2 == 0
    ensures Words(e, SwapPairs(m)) == Words(Other(e), m)
  {
    if m != [] {
      SwapPairsWords(e, m[2..]);
      assert SwapPairs(m)[2..] == SwapPairs(m[2..]);
    }
  }

  /** Byte-swapping every word of an even-length message byte-swaps the checksum. */
  lemma SwappedMessage(e: Endian, m: seq<byte>)
    requires |m| % 2 == 0 && |m| <= MAX_LEN
    ensures Cksum(e, SwapPairs(m)) == Swap16(Cksum(e, m))
  {
    SwapPairsWords(e, m);
    ByteOrderIndependent(m);
    SwapTwice(Cksum(Little, m));
  }

  // ----- Permutation

  lemma {:induction false} SumRemove(ws: seq<u16>, i: nat)
    requires i < |ws|
    ensures Sum(ws) == ws[i] + Sum(ws[..i] + ws[i + 1..])
  {
    if i == 0 {
      assert ws[..0] + ws[1..] == ws[1..];
    } else {
      SumRemove(ws[1..], i - 1);
      var rest := ws[..i] + ws[i + 1..];
      assert rest[1..] == ws[1..][..i - 1] + ws[1..][i..];
    }
  }

  lemma WithoutOne(b: seq<u16>, i: nat)
    requires i < |b|
    ensures multiset(b[..i] + b[i + 1..]) == multiset(b) - multiset{b[i]}
  {
    assert b == b[..i] + [b[i]] + b[i + 1..];
  }

  /** Taking the first word of `a` out of a permutation of `a`. */
  lemma TakeFirst(a: seq<u16>, b: seq<u16>) returns (i: nat)
    requires a != [] && multiset(a) == multiset(b)
    ensures i < |b| && b[i] == a[0]
    ensures multiset(a[1..]) == multiset(b[..i] + b[i + 1..])
  {
    assert a[0] in multiset(a);
    assert a[0] in b;
    i :| 0 <= i < |b| && b[i] == a[0];
    WithoutOne(b, i);
    assert a[..0] + a[1..] == a[1..];
    WithoutOne(a, 0);
  }

  lemma {:induction false} SumPermuted(a: seq<u16>, b: seq<u16>)
    requires multiset(a) == multiset(b)
    ensures Sum(a) == Sum(b)
    decreases |a|
  {
    if a == [] {
      assert |multiset(b)| == 0;
    } else {
      var i := TakeFirst(a, b);
      SumRemove(b, i);
      SumPermuted(a[1..], b[..i] + b[i + 1..]);
    }
  }

  /** Any permutation of the words leaves the checksum unchanged. */
  lemma OrderIndependent(e: Endian, m: seq<byte>, m': seq<byte>)
    requires multiset(Words(e, m)) == multiset(Words(e, m'))
    ensures Cksum(e, m) == Cksum(e, m')
  {
    SumPermuted(Words(e, m), Words(e, m'));
  }

  // ----- The checksum field and the receiver's check

  /** The message after a host stores the word `w` at byte offset `at`. */
  function Store(e: Endian, m: seq<byte>, at: nat, w: u16): (r: seq<byte>)
    requires at + 1 < |m|
    ensures |r| == |m|
  {
    m[at := Bytes2(e, w).0][at + 1 := Bytes2(e, w).1]
  }

  function Load(e: Endian, m: seq<byte>, at: nat): (w: u16)
    requires at + 1 < |m|
  {
    Word(e, m[at], m[at + 1])
  }

  lemma {:induction false} StoreSum(e: Endian, m: seq<byte>, at: nat, w: u16)
    requires at % 2 == 0 && at + 1 < |m|
    ensures MsgSum(e, Store(e, m, at, w)) + Load(e, m, at) == MsgSum(e, m) + w
  {
    var r := Store(e, m, at, w);
    assert Words(e, m)[1..] == Words(e, m[2..]);
    assert Words(e, r)[1..] == Words(e, r[2..]);
    if at == 0 {
      assert r[2..] == m[2..];
    } else {
      StoreSum(e, m[2..], at - 2, w);
      assert r[2..] == Store(e, m[2..], at - 2, w);
    }
  }

  /** The test the receiver applies (ping.c:180). */
  predicate Accepted(e: Endian, m: seq<byte>) {
    Cksum(e, m) == 0
  }

  lemma AcceptedIff(e: Endian, m: seq<byte>)
    requires |m| <= MAX_LEN
    ensures Accepted(e, m) <==> MsgSum(e, m) != 0 && MsgSum(e, m) % 0xFFFF == 0
  {
    CksumIsCanon(e, m);
    CanonMod(MsgSum(e, m));
  }

  /** Storing the checksum of a message in its zeroed checksum field makes the check accept it, on a
      host of either byte order. */
  lemma ChecksumRoundTrip(e: Endian, receiver: Endian, m: seq<byte>, at: nat)
    requires at % 2 == 0 && at + 1 < |m| <= MAX_LEN
    requires m[at] == 0 && m[at + 1] == 0
    ensures Accepted(receiver, Store(e, m, at, Cksum(e, m)))
  {
    var c := Cksum(e, m);
    var r := Store(e, m, at, c);
    StoreSum(e, m, at, c);
    CksumIsCanon(e, m);
    AcceptedIff(e, r);
    Complemented(MsgSum(e, m));
    ByteOrderIndependent(r);
  }

  lemma Complemented(n: nat)
    ensures (n + (0xFFFF - Canon(n))) % 0xFFFF == 0 && n + (0xFFFF - Canon(n)) != 0
  {
    var k := CanonShift(n);
    assert n + (0xFFFF - Canon(n)) == 0xFFFF * (k + 1);
  }

  lemma WordsCongruent(n: nat, n': nat, v: u16, w: u16)
    requires n % 0xFFFF == 0 && n' + v == n + w
    ensures n' % 0xFFFF == 0 <==> w == v || (v == 0 && w == 0xFFFF) || (v == 0xFFFF && w == 0)
  {
    var k := n / 0xFFFF;
    assert n' == 0xFFFF * k + (w - v);
    assert n' % 0xFFFF == (w - v) % 0xFFFF;
  }

  /** Replacing one word of an accepted message is noticed, exactly unless the word is the same, or
      one of 0x0000 and 0xFFFF replaces the other in a message that keeps a non-zero word. */
  lemma SingleWordChange(e: Endian, m: seq<byte>, at: nat, w: u16)
    requires |m| <= MAX_LEN && Accepted(e, m)
    requires at % 2 == 0 && at + 1 < |m|
    ensures var m' := Store(e, m, at, w); var v := Load(e, m, at);
            Accepted(e, m') <==>
              || w == v
              || (v == 0 && w == 0xFFFF)
              || (v == 0xFFFF && w == 0 && exists i :: 0 <= i < |m'| && m'[i] != 0)
  {
    var m' := Store(e, m, at, w);
    var v := Load(e, m, at);
    StoreSum(e, m, at, w);
    AcceptedIff(e, m);
    AcceptedIff(e, m');
    ZeroSum(e, m');
    WordsCongruent(MsgSum(e, m), MsgSum(e, m'), v, w);
  }
}
