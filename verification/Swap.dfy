/** Arrays of z-octet elements with every element reversed: what the swaps must compute. */
module Elements {
  import opened Bytes

  /** A whole number of elements of size z. */
  predicate Whole(z: nat, len: nat) {
    len == 0 || (0 < z <= len && Whole(z, len - z))
  }

  /** The place of an octet when every element is reversed. */
  function Mirror(z: nat, i: nat): nat
    requires z > 0
  {
    if i < z then z - 1 - i else z + Mirror(z, i - z)
  }

  lemma {:induction false} MirrorBelow(z: nat, len: nat, i: nat)
    requires Whole(z, len) && i < len
    ensures Mirror(z, i) < len
  {
    if i >= z {
      MirrorBelow(z, len - z, i - z);
    }
  }

  lemma {:induction false} MirrorTwice(z: nat, i: nat)
    requires z > 0
    ensures Mirror(z, Mirror(z, i)) == i
  {
    if i >= z {
      MirrorTwice(z, i - z);
    }
  }

  /** Whole elements in front only move the mirrored place along. */
  lemma {:induction false} MirrorShift(z: nat, k: nat, i: nat)
    requires Whole(z, k) && z > 0
    ensures Mirror(z, k + i) == k + Mirror(z, i)
  {
    if k > 0 {
      MirrorShift(z, k - z, i);
    }
  }

  /** Every element reversed. */
  function Exchange<T>(z: nat, s: seq<T>): (r: seq<T>)
    requires Whole(z, |s|)
    ensures |r| == |s|
  {
    seq(|s|, i requires 0 <= i < |s| => MirrorBelow(z, |s|, i); s[Mirror(z, i)])
  }

  function Put<T>(m: seq<T>, p: nat, s: seq<T>): (r: seq<T>)
    requires p + |s| <= |m|
    ensures |r| == |m|
  {
    seq(|m|, k requires 0 <= k < |m| => if p <= k < p + |s| then s[k - p] else m[k])
  }

  predicate InMemory<T>(z: nat, m: seq<T>, orig: nat, target: nat, len: nat) {
    Whole(z, len) && orig + len <= |m| && target + len <= |m|
  }

  /** What swapping the len octets at orig into those at target makes of memory m. */
  function Swapped<T>(z: nat, m: seq<T>, orig: nat, target: nat, len: nat): (r: seq<T>)
    requires InMemory(z, m, orig, target, len)
    ensures |r| == |m|
  {
    Put(m, target, Exchange(z, m[orig..orig + len]))
  }

  /** The simple loop: one element after the other. */
  function OneByOne<T>(z: nat, m: seq<T>, orig: nat, target: nat, len: nat): (r: seq<T>)
    requires InMemory(z, m, orig, target, len)
    ensures |r| == |m|
    decreases len
  {
    if len == 0 then m
    else OneByOne(z, Put(m, target, Reversed(m[orig..orig + z])), orig + z, target + z, len - z)
  }

  /** A forward copy reads nothing it has already overwritten. */
  predicate Forward(orig: nat, target: nat, len: nat) {
    target <= orig || orig + len <= target
  }

  lemma {:induction false} WholeSum(z: nat, k: nat, j: nat)
    requires Whole(z, k) && Whole(z, j)
    ensures Whole(z, k + j)
  {
    if k > 0 {
      WholeSum(z, k - z, j);
    }
  }

  lemma {:induction false} WholeDifference(z: nat, k: nat, j: nat)
    requires Whole(z, k) && Whole(z, k + j)
    ensures Whole(z, j)
  {
    if k > 0 {
      WholeDifference(z, k - z, j);
    }
  }

  lemma {:induction false} WholeFiner(z: nat, y: nat, p: nat)
    requires Whole(z, y) && Whole(y, p)
    ensures Whole(z, p)
  {
    if p > 0 {
      WholeFiner(z, y, p - y);
      WholeSum(z, p - y, y);
    }
  }

  lemma {:induction false} WholeTimes(z: nat, n: nat)
    requires z > 0
    ensures Whole(z, z * n)
  {
    if n > 0 {
      assert z * n == z * (n - 1) + z;
      WholeTimes(z, n - 1);
    }
  }

  lemma ExchangeConcat<T>(z: nat, a: seq<T>, b: seq<T>)
    requires Whole(z, |a|) && Whole(z, |b|)
    ensures Whole(z, |a + b|) && Exchange(z, a + b) == Exchange(z, a) + Exchange(z, b)
  {
    WholeSum(z, |a|, |b|);
    forall i | 0 <= i < |a|
      ensures Exchange(z, a + b)[i] == Exchange(z, a)[i]
    {
      MirrorBelow(z, |a|, i);
    }
    forall i | 0 <= i < |b|
      ensures Exchange(z, a + b)[|a| + i] == Exchange(z, b)[i]
    {
      MirrorShift(z, |a|, i);
      MirrorBelow(z, |b|, i);
    }
  }

  lemma ExchangeTwice<T>(z: nat, s: seq<T>)
    requires Whole(z, |s|)
    ensures Exchange(z, Exchange(z, s)) == s
  {
    forall i | 0 <= i < |s|
      ensures Exchange(z, Exchange(z, s))[i] == s[i]
    {
      MirrorBelow(z, |s|, i);
      MirrorTwice(z, i);
    }
  }

  lemma PutTwice<T>(m: seq<T>, p: nat, a: seq<T>, b: seq<T>)
    requires p + |a| + |b| <= |m|
    ensures Put(Put(m, p, a), p + |a|, b) == Put(m, p, a + b)
  {
  }

  lemma PutElsewhere<T>(m: seq<T>, p: nat, a: seq<T>, from: nat, to: nat)
    requires p + |a| <= |m| && from <= to <= |m|
    requires to <= p || p + |a| <= from
    ensures Put(m, p, a)[from..to] == m[from..to]
  {
  }

  lemma PutPut<T>(m: seq<T>, p: nat, a: seq<T>, b: seq<T>)
    requires p + |a| <= |m| && |a| == |b|
    ensures Put(Put(m, p, a), p, b) == Put(m, p, b)
    ensures Put(m, p, a)[p..p + |a|] == a
    ensures Put(m, p, m[p..p + |a|]) == m
  {
  }

  /** Swapping k octets and then the next j is swapping k + j. */
  lemma SwappedInTwo<T>(z: nat, m: seq<T>, orig: nat, target: nat, k: nat, j: nat)
    requires Whole(z, k) && Whole(z, j) && Forward(orig, target, k + j)
    requires orig + k + j <= |m| && target + k + j <= |m|
    ensures Whole(z, k + j)
    ensures Swapped(z, Swapped(z, m, orig, target, k), orig + k, target + k, j)
         == Swapped(z, m, orig, target, k + j)
  {
    var a, b := m[orig..orig + k], m[orig + k..orig + k + j];
    assert m[orig..orig + (k + j)] == a + b;
    ExchangeConcat(z, a, b);
    var x, y := Exchange(z, a), Exchange(z, b);
    SwappedBehind(z, m, orig, target, k, j, x, y);
    PutTwice(m, target, x, y);
  }

  /** The same, for the memory after both. */
  lemma SwappedOn<T>(z: nat, was: seq<T>, now: seq<T>, orig: nat, target: nat, k: nat, j: nat, total: nat)
    requires Whole(z, k) && Whole(z, j) && total == k + j && Forward(orig, target, total)
    requires orig + total <= |was| && target + total <= |was|
    requires now == Swapped(z, Swapped(z, was, orig, target, k), orig + k, target + k, j)
    ensures Whole(z, total) && now == Swapped(z, was, orig, target, total)
  {
    SwappedInTwo(z, was, orig, target, k, j);
  }

  /** What has been written so far leaves the elements still to be read alone. */
  lemma SwappedBehind<T>(z: nat, m: seq<T>, orig: nat, target: nat, k: nat, j: nat, x: seq<T>, y: seq<T>)
    requires Whole(z, j) && Forward(orig, target, k + j) && |x| == k
    requires orig + k + j <= |m| && target + k + j <= |m|
    requires y == Exchange(z, m[orig + k..orig + k + j])
    ensures Swapped(z, Put(m, target, x), orig + k, target + k, j) == Put(Put(m, target, x), target + k, y)
  {
    PutElsewhere(m, target, x, orig + k, orig + k + j);
  }

  lemma SwappedNone<T>(z: nat, m: seq<T>, orig: nat, target: nat)
    requires orig <= |m| && target <= |m|
    ensures Whole(z, 0) && Swapped(z, m, orig, target, 0) == m
  {
  }

  lemma ExchangeOne<T>(z: nat, s: seq<T>)
    requires 0 < z == |s|
    ensures Whole(z, z) && Exchange(z, s) == Reversed(s)
  {
  }

  lemma {:induction false} OneByOneIsSwapped<T>(z: nat, m: seq<T>, orig: nat, target: nat, len: nat)
    requires InMemory(z, m, orig, target, len) && Forward(orig, target, len)
    ensures OneByOne(z, m, orig, target, len) == Swapped(z, m, orig, target, len)
    decreases len
  {
    if len == 0 {
      assert Put(m, target, []) == m;
    } else {
      ExchangeOne(z, m[orig..orig + z]);
      OneByOneIsSwapped(z, Swapped(z, m, orig, target, z), orig + z, target + z, len - z);
      SwappedInTwo(z, m, orig, target, z, len - z);
    }
  }

  /** Octet j of the element at e comes from the mirrored place of that element. */
  lemma ExchangeAt<T>(z: nat, s: seq<T>, e: nat, j: nat)
    requires Whole(z, |s|) && Whole(z, e) && e < |s| && j < z
    ensures e + z <= |s| && Exchange(z, s)[e + j] == s[e + (z - 1 - j)]
  {
    WholeDifference(z, e, |s| - e);
    assert e + z <= |s|;
    MirrorShift(z, e, j);
    assert Mirror(z, e + j) == e + (z - 1 - j);
  }

  lemma SwappedAt<T>(z: nat, m: seq<T>, orig: nat, target: nat, len: nat, e: nat, j: nat)
    requires InMemory(z, m, orig, target, len) && Whole(z, e) && e < len && j < z
    ensures e + z <= len
    ensures Swapped(z, m, orig, target, len)[target + e + j] == m[orig + e + (z - 1 - j)]
  {
    ExchangeAt(z, m[orig..orig + len], e, j);
  }

  /** Nothing outside the target changes. */
  lemma SwappedOutside<T>(z: nat, m: seq<T>, orig: nat, target: nat, len: nat, k: nat)
    requires InMemory(z, m, orig, target, len) && k < |m| && !(target <= k < target + len)
    ensures Swapped(z, m, orig, target, len)[k] == m[k]
  {
  }

  /** Swapping there and back restores the origin. */
  lemma SelfInverse<T>(z: nat, m: seq<T>, orig: nat, target: nat, len: nat)
    requires InMemory(z, m, orig, target, len)
    ensures Swapped(z, Swapped(z, m, orig, target, len), target, orig, len)
         == Put(Swapped(z, m, orig, target, len), orig, m[orig..orig + len])
  {
    var s := m[orig..orig + len];
    var t := Exchange(z, s);
    ExchangeTwice(z, s);
    PutPut(m, target, t, t);
    assert Swapped(z, m, orig, target, len)[target..target + len] == t;
  }

  /** Swapping in place twice restores the whole memory. */
  lemma SelfInverseInPlace<T>(z: nat, m: seq<T>, at: nat, len: nat)
    requires InMemory(z, m, at, at, len)
    ensures Swapped(z, Swapped(z, m, at, at, len), at, at, len) == m
  {
    SelfInverse(z, m, at, at, len);
    var s := m[at..at + len];
    PutPut(m, at, Exchange(z, s), s);
    PutPut(m, at, s, s);
  }
}

/**
 * RDR::swap_2_array and RDR::swap_4_array (Types.cpp, Types.inl): the generic 64- and
 * 32-bit mask-and-shift forms, on either byte order, over one flat memory whose
 * indices are the addresses.  Loads and stores demand an aligned address.
 */
module ByteSwaps {
  import opened Bytes
  import opened Elements

  type Byte = bv8

  // ---- machine words: b0 is the least significant octet

  function Join2(b1: Byte, b0: Byte): bv16 {
    ((b1 as bv16) << 8) | (b0 as bv16)
  }
  function Join4(b3: Byte, b2: Byte, b1: Byte, b0: Byte): bv32 {
    ((b3 as bv32) << 24) | ((b2 as bv32) << 16) | ((b1 as bv32) << 8) | (b0 as bv32)
  }
  function Join8(b7: Byte, b6: Byte, b5: Byte, b4: Byte, b3: Byte, b2: Byte, b1: Byte, b0: Byte): bv64 {
    ((b7 as bv64) << 56) | ((b6 as bv64) << 48) | ((b5 as bv64) << 40) | ((b4 as bv64) << 32) |
    ((b3 as bv64) << 24) | ((b2 as bv64) << 16) | ((b1 as bv64) << 8) | (b0 as bv64)
  }
  function Split2(w: bv16): seq<Byte> {
    [(w & 0xff) as Byte, (w >> 8) as Byte]
  }
  function Split4(w: bv32): seq<Byte> {
    [(w & 0xff) as Byte, ((w >> 8) & 0xff) as Byte, ((w >> 16) & 0xff) as Byte, (w >> 24) as Byte]
  }
  function Split8(w: bv64): seq<Byte> {
    [(w & 0xff) as Byte, ((w >> 8) & 0xff) as Byte, ((w >> 16) & 0xff) as Byte, ((w >> 24) & 0xff) as Byte,
     ((w >> 32) & 0xff) as Byte, ((w >> 40) & 0xff) as Byte, ((w >> 48) & 0xff) as Byte, (w >> 56) as Byte]
  }

  lemma SplitJoin2(b1: Byte, b0: Byte)
    ensures Split2(Join2(b1, b0)) == [b0, b1]
  {}
  lemma SplitJoin4(b3: Byte, b2: Byte, b1: Byte, b0: Byte)
    ensures Split4(Join4(b3, b2, b1, b0)) == [b0, b1, b2, b3]
  {}
  lemma SplitJoin8(b7: Byte, b6: Byte, b5: Byte, b4: Byte, b3: Byte, b2: Byte, b1: Byte, b0: Byte)
    ensures Split8(Join8(b7, b6, b5, b4, b3, b2, b1, b0)) == [b0, b1, b2, b3, b4, b5, b6, b7]
  {}

  // ---- the word expressions of the two swaps

  function Reverse16(a: bv16): bv16 { (a << 8) | (a >> 8) }
  function Reverse32(a: bv32): bv32 {
    (a << 24) | ((a & 0xff00) << 8) | ((a & 0xff0000) >> 8) | (a >> 24)
  }
  function Pairs32(a: bv32): bv32 { ((a & 0x00ff00ff) << 8) | ((a & 0xff00ff00) >> 8) }
  function Pairs64(a: bv64): bv64 {
    ((a & 0x00ff00ff00ff00ff) << 8) | ((a & 0xff00ff00ff00ff00) >> 8)
  }
  function Quads64(a: bv64): bv64 {
    ((a & 0x000000ff000000ff) << 24) | ((a & 0x0000ff000000ff00) << 8) |
    ((a & 0x00ff000000ff0000) >> 8) | ((a & 0xff000000ff000000) >> 24)
  }

  lemma Reverse16Join(b1: Byte, b0: Byte)
    ensures Reverse16(Join2(b1, b0)) == Join2(b0, b1)
  {}
  lemma Reverse32Join(b3: Byte, b2: Byte, b1: Byte, b0: Byte)
    ensures Reverse32(Join4(b3, b2, b1, b0)) == Join4(b0, b1, b2, b3)
  {}
  lemma Pairs32Join(b3: Byte, b2: Byte, b1: Byte, b0: Byte)
    ensures Pairs32(Join4(b3, b2, b1, b0)) == Join4(b2, b3, b0, b1)
  {}
  lemma Pairs64Join(b7: Byte, b6: Byte, b5: Byte, b4: Byte, b3: Byte, b2: Byte, b1: Byte, b0: Byte)
    ensures Pairs64(Join8(b7, b6, b5, b4, b3, b2, b1, b0)) == Join8(b6, b7, b4, b5, b2, b3, b0, b1)
  {}
  lemma Quads64Join(b7: Byte, b6: Byte, b5: Byte, b4: Byte, b3: Byte, b2: Byte, b1: Byte, b0: Byte)
    ensures Quads64(Join8(b7, b6, b5, b4, b3, b2, b1, b0)) == Join8(b4, b5, b6, b7, b0, b1, b2, b3)
  {}

  // ---- words in memory order

  function Word2(le: bool, s: seq<Byte>): bv16
    requires |s| == 2
  {
    if le then Join2(s[1], s[0]) else Join2(s[0], s[1])
  }
  function Word4(le: bool, s: seq<Byte>): bv32
    requires |s| == 4
  {
    if le then Join4(s[3], s[2], s[1], s[0]) else Join4(s[0], s[1], s[2], s[3])
  }
  function Word8(le: bool, s: seq<Byte>): bv64
    requires |s| == 8
  {
    if le then Join8(s[7], s[6], s[5], s[4], s[3], s[2], s[1], s[0])
    else Join8(s[0], s[1], s[2], s[3], s[4], s[5], s[6], s[7])
  }
  function Octets2(le: bool, w: bv16): seq<Byte> { if le then Split2(w) else Reversed(Split2(w)) }
  function Octets4(le: bool, w: bv32): seq<Byte> { if le then Split4(w) else Reversed(Split4(w)) }
  function Octets8(le: bool, w: bv64): seq<Byte> { if le then Split8(w) else Reversed(Split8(w)) }

  lemma Stored2(le: bool, s: seq<Byte>)
    requires |s| == 2
    ensures Octets2(le, Word2(le, s)) == s
  {
    if le { SplitJoin2(s[1], s[0]); } else { SplitJoin2(s[0], s[1]); }
  }
  lemma Stored4(le: bool, s: seq<Byte>)
    requires |s| == 4
    ensures Octets4(le, Word4(le, s)) == s
  {
    if le { SplitJoin4(s[3], s[2], s[1], s[0]); } else { SplitJoin4(s[0], s[1], s[2], s[3]); }
  }
  lemma Stored8(le: bool, s: seq<Byte>)
    requires |s| == 8
    ensures Octets8(le, Word8(le, s)) == s
  {
    if le { SplitJoin8(s[7], s[6], s[5], s[4], s[3], s[2], s[1], s[0]); }
    else { SplitJoin8(s[0], s[1], s[2], s[3], s[4], s[5], s[6], s[7]); }
  }

  /** In memory order the word expressions exchange the octets of every element. */
  lemma Reverse16Words(le: bool, s: seq<Byte>)
    requires |s| == 2
    ensures Reverse16(Word2(le, s)) == Word2(le, Exchange(2, s))
  {
    ExchangeTwo(s);
    if le { Reverse16Join(s[1], s[0]); } else { Reverse16Join(s[0], s[1]); }
  }
  lemma Reverse32Words(le: bool, s: seq<Byte>)
    requires |s| == 4
    ensures Reverse32(Word4(le, s)) == Word4(le, Exchange(4, s))
  {
    ExchangeFour(s);
    if le { Reverse32Join(s[3], s[2], s[1], s[0]); } else { Reverse32Join(s[0], s[1], s[2], s[3]); }
  }
  lemma Pairs32Words(le: bool, s: seq<Byte>)
    requires |s| == 4
    ensures Pairs32(Word4(le, s)) == Word4(le, Exchange(2, s))
  {
    PairsOfFour(s);
    if le { Pairs32Join(s[3], s[2], s[1], s[0]); } else { Pairs32Join(s[0], s[1], s[2], s[3]); }
  }
  lemma Pairs64Words(le: bool, s: seq<Byte>)
    requires |s| == 8
    ensures Pairs64(Word8(le, s)) == Word8(le, Exchange(2, s))
  {
    PairsOfEight(s);
    if le { Pairs64Join(s[7], s[6], s[5], s[4], s[3], s[2], s[1], s[0]); }
    else { Pairs64Join(s[0], s[1], s[2], s[3], s[4], s[5], s[6], s[7]); }
  }
  lemma Quads64Words(le: bool, s: seq<Byte>)
    requires |s| == 8
    ensures Quads64(Word8(le, s)) == Word8(le, Exchange(4, s))
  {
    QuadsOfEight(s);
    if le { Quads64Join(s[7], s[6], s[5], s[4], s[3], s[2], s[1], s[0]); }
    else { Quads64Join(s[0], s[1], s[2], s[3], s[4], s[5], s[6], s[7]); }
  }

  lemma ExchangeTwo(s: seq<Byte>)
    requires |s| == 2
    ensures Exchange(2, s) == [s[1], s[0]]
  {
    ExchangeOne(2, s);
  }
  lemma ExchangeFour(s: seq<Byte>)
    requires |s| == 4
    ensures Exchange(4, s) == [s[3], s[2], s[1], s[0]]
  {
    ExchangeOne(4, s);
  }
  lemma PairsOfFour(s: seq<Byte>)
    requires |s| == 4
    ensures Exchange(2, s) == [s[1], s[0], s[3], s[2]]
  {
    assert s == s[..2] + s[2..];
    ExchangeConcat(2, s[..2], s[2..]);
    ExchangeTwo(s[..2]);
    ExchangeTwo(s[2..]);
  }
  lemma PairsOfEight(s: seq<Byte>)
    requires |s| == 8
    ensures Exchange(2, s) == [s[1], s[0], s[3], s[2], s[5], s[4], s[7], s[6]]
  {
    assert s == s[..4] + s[4..];
    ExchangeConcat(2, s[..4], s[4..]);
    PairsOfFour(s[..4]);
    PairsOfFour(s[4..]);
  }
  lemma QuadsOfEight(s: seq<Byte>)
    requires |s| == 8
    ensures Exchange(4, s) == [s[3], s[2], s[1], s[0], s[7], s[6], s[5], s[4]]
  {
    assert s == s[..4] + s[4..];
    ExchangeConcat(4, s[..4], s[4..]);
    ExchangeFour(s[..4]);
    ExchangeFour(s[4..]);
  }

  // ---- cutting a word for narrower stores, most significant part first

  function Halves32(a: bv32): (bv16, bv16) { ((a >> 16) as bv16, (a & 0xffff) as bv16) }
  function Halves64(a: bv64): (bv32, bv32) { ((a >> 32) as bv32, (a & 0xffffffff) as bv32) }
  function Quarters64(a: bv64): (bv16, bv16, bv16, bv16) {
    ((a >> 48) as bv16, ((a >> 32) & 0xffff) as bv16, ((a >> 16) & 0xffff) as bv16, (a & 0xffff) as bv16)
  }

  lemma Halves32Join(b3: Byte, b2: Byte, b1: Byte, b0: Byte)
    ensures Halves32(Join4(b3, b2, b1, b0)) == (Join2(b3, b2), Join2(b1, b0))
  {}
  lemma Halves64Join(b7: Byte, b6: Byte, b5: Byte, b4: Byte, b3: Byte, b2: Byte, b1: Byte, b0: Byte)
    ensures Halves64(Join8(b7, b6, b5, b4, b3, b2, b1, b0)) == (Join4(b7, b6, b5, b4), Join4(b3, b2, b1, b0))
  {}
  lemma Quarters64Join(b7: Byte, b6: Byte, b5: Byte, b4: Byte, b3: Byte, b2: Byte, b1: Byte, b0: Byte)
    ensures Quarters64(Join8(b7, b6, b5, b4, b3, b2, b1, b0))
         == (Join2(b7, b6), Join2(b5, b4), Join2(b3, b2), Join2(b1, b0))
  {}

  lemma Halves32Words(le: bool, s: seq<Byte>)
    requires |s| == 4
    ensures var (x, y) := (Word2(le, s[..2]), Word2(le, s[2..]));
            Halves32(Word4(le, s)) == if le then (y, x) else (x, y)
  {
    if le { Halves32Join(s[3], s[2], s[1], s[0]); } else { Halves32Join(s[0], s[1], s[2], s[3]); }
  }
  lemma Halves64Words(le: bool, s: seq<Byte>)
    requires |s| == 8
    ensures var (x, y) := (Word4(le, s[..4]), Word4(le, s[4..]));
            Halves64(Word8(le, s)) == if le then (y, x) else (x, y)
  {
    if le { Halves64Join(s[7], s[6], s[5], s[4], s[3], s[2], s[1], s[0]); }
    else { Halves64Join(s[0], s[1], s[2], s[3], s[4], s[5], s[6], s[7]); }
  }
  lemma Quarters64Words(le: bool, s: seq<Byte>)
    requires |s| == 8
    ensures var (w, x, y, z) := (Word2(le, s[..2]), Word2(le, s[2..4]), Word2(le, s[4..6]), Word2(le, s[6..]));
            Quarters64(Word8(le, s)) == if le then (z, y, x, w) else (w, x, y, z)
  {
    if le { Quarters64Join(s[7], s[6], s[5], s[4], s[3], s[2], s[1], s[0]); }
    else { Quarters64Join(s[0], s[1], s[2], s[3], s[4], s[5], s[6], s[7]); }
  }

  // ---- memory

  /** A store of one word; the machine demands a multiple of its size. */
  method Store(mem: array<Byte>, p: nat, s: seq<Byte>)
    requires |s| > 0 && Whole(|s|, p) && p + |s| <= mem.Length
    modifies mem
    ensures mem[..] == Put(old(mem[..]), p, s)
  {
    forall i | 0 <= i < |s| {
      mem[p + i] := s[i];
    }
  }

  /** A load of one word of the given size. */
  function Load(mem: array<Byte>, p: nat, size: nat): (s: seq<Byte>)
    requires size > 0 && Whole(size, p) && p + size <= mem.Length
    reads mem
    ensures |s| == size
  {
    mem[p..p + size]
  }

  method StoreTwo(mem: array<Byte>, p: nat, a: seq<Byte>, b: seq<Byte>)
    requires |a| > 0 && |a| == |b| && Whole(|a|, p) && p + |a| + |b| <= mem.Length
    modifies mem
    ensures mem[..] == Put(old(mem[..]), p, a + b)
  {
    Store(mem, p, a);
    WholeSum(|a|, p, |a|);
    Store(mem, p + |a|, b);
    PutTwice(old(mem[..]), p, a, b);
  }

  /** RDR::swap_2 */
  method Swap2(le: bool, mem: array<Byte>, orig: nat, target: nat)
    requires Whole(2, orig) && Whole(2, target) && orig + 2 <= mem.Length && target + 2 <= mem.Length
    modifies mem
    ensures mem[..] == Swapped(2, old(mem[..]), orig, target, 2)
  {
    ghost var s := mem[orig..orig + 2];
    var word := Word2(le, Load(mem, orig, 2));
    Reverse16Words(le, s);
    Stored2(le, Exchange(2, s));
    Store(mem, target, Octets2(le, Reverse16(word)));
  }

  /** RDR::swap_4 */
  method Swap4(le: bool, mem: array<Byte>, orig: nat, target: nat)
    requires Whole(4, orig) && Whole(4, target) && orig + 4 <= mem.Length && target + 4 <= mem.Length
    modifies mem
    ensures mem[..] == Swapped(4, old(mem[..]), orig, target, 4)
  {
    ghost var s := mem[orig..orig + 4];
    var word := Word4(le, Load(mem, orig, 4));
    Reverse32Words(le, s);
    Stored4(le, Exchange(4, s));
    Store(mem, target, Octets4(le, Reverse32(word)));
  }

  method StoreFour(mem: array<Byte>, p: nat, a: seq<Byte>, b: seq<Byte>, c: seq<Byte>, d: seq<Byte>)
    requires |a| == |b| == |c| == |d| && |a| > 0 && Whole(|a|, p) && p + 4 * |a| <= mem.Length
    modifies mem
    ensures mem[..] == Put(old(mem[..]), p, (a + b) + (c + d))
  {
    var z := |a|;
    StoreTwo(mem, p, a, b);
    WholeSum(z, p, z);
    WholeSum(z, p + z, z);
    StoreTwo(mem, p + 2 * z, c, d);
    PutTwice(old(mem[..]), p, a + b, c + d);
  }

  /** The octets stored piecewise, low address first. */
  lemma QuarterOctets(le: bool, s: seq<Byte>)
    requires |s| == 8
    ensures var (b1, b2, b3, b4) := Quarters64(Word8(le, s));
      var (o1, o2, o3, o4) := (Octets2(le, b1), Octets2(le, b2), Octets2(le, b3), Octets2(le, b4));
      s == if le then (o4 + o3) + (o2 + o1) else (o1 + o2) + (o3 + o4)
  {
    Quarters64Words(le, s);
    Stored2(le, s[..2]);
    Stored2(le, s[2..4]);
    Stored2(le, s[4..6]);
    Stored2(le, s[6..]);
    assert s == (s[..2] + s[2..4]) + (s[4..6] + s[6..]);
  }
  lemma Half32Octets(le: bool, s: seq<Byte>)
    requires |s| == 4
    ensures var (c1, c2) := Halves32(Word4(le, s));
      s == if le then Octets2(le, c2) + Octets2(le, c1) else Octets2(le, c1) + Octets2(le, c2)
  {
    Halves32Words(le, s);
    Stored2(le, s[..2]);
    Stored2(le, s[2..]);
    assert s == s[..2] + s[2..];
  }
  lemma Half64Octets(le: bool, s: seq<Byte>)
    requires |s| == 8
    ensures var (c1, c2) := Halves64(Word8(le, s));
      s == if le then Octets4(le, c2) + Octets4(le, c1) else Octets4(le, c1) + Octets4(le, c2)
  {
    Halves64Words(le, s);
    Stored4(le, s[..4]);
    Stored4(le, s[4..]);
    assert s == s[..4] + s[4..];
  }

  /** Four 2-octet elements through one 64-bit word. */
  method PairsBy64(le: bool, whole: bool, mem: array<Byte>, orig: nat, target: nat)
    requires Whole(8, orig) && Whole(2, target) && (whole ==> Whole(8, target))
    requires orig + 8 <= mem.Length && target + 8 <= mem.Length
    modifies mem
    ensures Whole(2, 8) && mem[..] == Swapped(2, old(mem[..]), orig, target, 8)
  {
    ghost var s := mem[orig..orig + 8];
    assert Whole(2, 8);
    var a := Pairs64(Word8(le, Load(mem, orig, 8)));
    Pairs64Words(le, s);
    if whole {
      Stored8(le, Exchange(2, s));
      Store(mem, target, Octets8(le, a));
    } else {
      StoreQuarters(le, mem, target, a, Exchange(2, s));
    }
  }

  method StoreQuarters(le: bool, mem: array<Byte>, target: nat, a: bv64, ghost s: seq<Byte>)
    requires |s| == 8 && a == Word8(le, s) && Whole(2, target) && target + 8 <= mem.Length
    modifies mem
    ensures mem[..] == Put(old(mem[..]), target, s)
  {
    QuarterOctets(le, s);
    var (b1, b2, b3, b4) := Quarters64(a);
    if le {
      StoreFour(mem, target, Octets2(le, b4), Octets2(le, b3), Octets2(le, b2), Octets2(le, b1));
    } else {
      StoreFour(mem, target, Octets2(le, b1), Octets2(le, b2), Octets2(le, b3), Octets2(le, b4));
    }
  }

  method StoreHalves32(le: bool, mem: array<Byte>, target: nat, a: bv32, b: bv32, ghost s: seq<Byte>,
                       ghost t: seq<Byte>)
    requires |s| == |t| == 4 && a == Word4(le, s) && b == Word4(le, t)
    requires Whole(2, target) && target + 8 <= mem.Length
    modifies mem
    ensures mem[..] == Put(old(mem[..]), target, s + t)
  {
    Half32Octets(le, s);
    Half32Octets(le, t);
    var (c1, c2) := Halves32(a);
    var (c3, c4) := Halves32(b);
    if le {
      StoreFour(mem, target, Octets2(le, c2), Octets2(le, c1), Octets2(le, c4), Octets2(le, c3));
    } else {
      StoreFour(mem, target, Octets2(le, c1), Octets2(le, c2), Octets2(le, c3), Octets2(le, c4));
    }
  }

  method StoreHalves64(le: bool, mem: array<Byte>, target: nat, a: bv64, b: bv64, ghost s: seq<Byte>,
                       ghost t: seq<Byte>)
    requires |s| == |t| == 8 && a == Word8(le, s) && b == Word8(le, t)
    requires Whole(4, target) && target + 16 <= mem.Length
    modifies mem
    ensures mem[..] == Put(old(mem[..]), target, s + t)
  {
    Half64Octets(le, s);
    Half64Octets(le, t);
    var (c1, c2) := Halves64(a);
    var (c3, c4) := Halves64(b);
    if le {
      StoreFour(mem, target, Octets4(le, c2), Octets4(le, c1), Octets4(le, c4), Octets4(le, c3));
    } else {
      StoreFour(mem, target, Octets4(le, c1), Octets4(le, c2), Octets4(le, c3), Octets4(le, c4));
    }
  }

  /** Four 2-octet elements through two 32-bit words, both loaded before the first store. */
  method PairsBy32(le: bool, whole: bool, mem: array<Byte>, orig: nat, target: nat)
    requires Whole(4, orig) && Whole(2, target) && (whole ==> Whole(4, target))
    requires orig + 8 <= mem.Length && target + 8 <= mem.Length
    modifies mem
    ensures Whole(2, 8) && mem[..] == Swapped(2, old(mem[..]), orig, target, 8)
  {
    ghost var s, t := mem[orig..orig + 4], mem[orig + 4..orig + 8];
    assert mem[orig..orig + 8] == s + t;
    assert Whole(2, 8);
    ExchangeConcat(2, s, t);
    var a := Pairs32(Word4(le, Load(mem, orig, 4)));
    var b := Pairs32(Word4(le, Load(mem, orig + 4, 4)));
    Pairs32Words(le, s);
    Pairs32Words(le, t);
    if whole {
      Stored4(le, Exchange(2, s));
      Stored4(le, Exchange(2, t));
      StoreTwo(mem, target, Octets4(le, a), Octets4(le, b));
    } else {
      StoreHalves32(le, mem, target, a, b, Exchange(2, s), Exchange(2, t));
    }
  }

  /** Four 4-octet elements through two 64-bit words. */
  method QuadsBy64(le: bool, whole: bool, mem: array<Byte>, orig: nat, target: nat)
    requires Whole(8, orig) && Whole(4, target) && (whole ==> Whole(8, target))
    requires orig + 16 <= mem.Length && target + 16 <= mem.Length
    modifies mem
    ensures Whole(4, 16) && mem[..] == Swapped(4, old(mem[..]), orig, target, 16)
  {
    ghost var s, t := mem[orig..orig + 8], mem[orig + 8..orig + 16];
    assert mem[orig..orig + 16] == s + t;
    assert Whole(4, 16);
    ExchangeConcat(4, s, t);
    var a := Quads64(Word8(le, Load(mem, orig, 8)));
    var b := Quads64(Word8(le, Load(mem, orig + 8, 8)));
    Quads64Words(le, s);
    Quads64Words(le, t);
    if whole {
      Stored8(le, Exchange(4, s));
      Stored8(le, Exchange(4, t));
      StoreTwo(mem, target, Octets8(le, a), Octets8(le, b));
    } else {
      StoreHalves64(le, mem, target, a, b, Exchange(4, s), Exchange(4, t));
    }
  }

  /** Four 4-octet elements through four 32-bit words. */
  method QuadsBy32(le: bool, mem: array<Byte>, orig: nat, target: nat)
    requires Whole(4, orig) && Whole(4, target)
    requires orig + 16 <= mem.Length && target + 16 <= mem.Length
    modifies mem
    ensures Whole(4, 16) && mem[..] == Swapped(4, old(mem[..]), orig, target, 16)
  {
    ghost var s, t := mem[orig..orig + 4], mem[orig + 4..orig + 8];
    ghost var u, v := mem[orig + 8..orig + 12], mem[orig + 12..orig + 16];
    assert mem[orig..orig + 16] == (s + t) + (u + v);
    assert Whole(4, 16);
    ExchangeConcat(4, s, t);
    ExchangeConcat(4, u, v);
    ExchangeConcat(4, s + t, u + v);
    var a := Reverse32(Word4(le, Load(mem, orig, 4)));
    var b := Reverse32(Word4(le, Load(mem, orig + 4, 4)));
    var c := Reverse32(Word4(le, Load(mem, orig + 8, 4)));
    var d := Reverse32(Word4(le, Load(mem, orig + 12, 4)));
    Reversed4(le, s);
    Reversed4(le, t);
    Reversed4(le, u);
    Reversed4(le, v);
    StoreFour(mem, target, Octets4(le, a), Octets4(le, b), Octets4(le, c), Octets4(le, d));
  }

  lemma Reversed4(le: bool, s: seq<Byte>)
    requires |s| == 4
    ensures Octets4(le, Reverse32(Word4(le, s))) == Exchange(4, s)
  {
    Reverse32Words(le, s);
    Stored4(le, Exchange(4, s));
  }

  // ---- whole arrays

  /** The first multiple of a at or above p. */
  function AlignUp(p: nat, a: nat): (r: nat)
    requires a > 0
    ensures p <= r < p + a && Whole(a, r)
  {
    if p == 0 then 0 else if p <= a then a else AlignUp(p - a, a) + a
  }

  /** A multiple of the coarser size at or above a multiple of the finer is a whole way off. */
  lemma WholeAbove(z: nat, y: nat, p: nat, r: nat)
    requires Whole(z, p) && Whole(y, r) && Whole(z, y) && p <= r
    ensures Whole(z, r - p) && Whole(z, r)
  {
    WholeFiner(z, y, r);
    WholeDifference(z, p, r - p);
  }

  /** Aligned for the loads of a machine with 64-bit or with 32-bit words. */
  predicate Aligned(wide: bool, p: nat) { Whole(if wide then 8 else 4, p) }

  lemma AlignedStep(wide: bool, p: nat)
    requires Aligned(wide, p)
    ensures Aligned(wide, p + 8) && Aligned(wide, p + 16) && Whole(4, p) && Whole(2, p)
  {
    var w := if wide then 8 else 4;
    assert Whole(4, 8) && Whole(2, 4) && Whole(2, 8);
    WholeSum(w, p, 8);
    WholeSum(w, p + 8, 8);
    WholeFiner(4, w, p);
    WholeFiner(2, w, p);
  }

  /** Elements of swap_2_array handled one at a time until orig is aligned for word loads. */
  method Head2(wide: bool, le: bool, mem: array<Byte>, orig: nat, target: nat, n: nat) returns (k: nat)
    requires n > 0 && Whole(2, orig) && Whole(2, target) && Forward(orig, target, 2 * n)
    requires orig + 2 * n <= mem.Length && target + 2 * n <= mem.Length
    modifies mem
    ensures k <= n && (k < n ==> Aligned(wide, orig + 2 * k)) && Whole(2, target + 2 * k)
    ensures Whole(2, 2 * k) && mem[..] == Swapped(2, old(mem[..]), orig, target, 2 * k)
  {
    var end := AlignUp(orig, 4);
    WholeAbove(2, 4, orig, end);
    if wide {
      k := Head2Loop(le, mem, orig, target, n);
    } else if orig != end {
      // an if, not a loop: an even address misses a multiple of 4 by 2 only
      Swap2(le, mem, orig, target);
      k := 1;
    } else {
      SwappedNone(2, mem[..], orig, target);
      k := 0;
    }
  }

  method Head2Loop(le: bool, mem: array<Byte>, orig: nat, target: nat, n: nat) returns (k: nat)
    requires Whole(2, orig) && Whole(2, target) && Forward(orig, target, 2 * n)
    requires orig + 2 * n <= mem.Length && target + 2 * n <= mem.Length
    modifies mem
    ensures k <= n && (k < n ==> Whole(8, orig + 2 * k)) && Whole(2, target + 2 * k)
    ensures Whole(2, 2 * k) && mem[..] == Swapped(2, old(mem[..]), orig, target, 2 * k)
  {
    ghost var was := mem[..];
    SwappedNone(2, was, orig, target);
    var end := AlignUp(orig, 8);
    WholeAbove(2, 8, orig, end);
    var o, t := orig, target;
    k := 0;
    while o < end && k < n
      invariant k <= n && o == orig + 2 * k <= end && t == target + 2 * k
      invariant Whole(2, o) && Whole(2, t) && Whole(2, end - o)
      invariant Whole(2, 2 * k) && mem[..] == Swapped(2, was, orig, target, 2 * k)
    {
      SwapNext2(le, mem, orig, target, 2 * k, was);
      o, t, k := o + 2, t + 2, k + 1;
    }
  }

  lemma BlockStep2(wide: bool, whole: bool, o: nat, t: nat)
    requires Aligned(wide, o) && Whole(2, t) && (whole ==> Aligned(wide, t))
    ensures Aligned(wide, o + 8) && Whole(2, t + 8) && (whole ==> Aligned(wide, t + 8))
  {
    AlignedStep(wide, o);
    WholeSum(2, t, 8);
    if whole { AlignedStep(wide, t); }
  }

  /** The next four elements, by whatever words the machine has. */
  method Block2(wide: bool, le: bool, whole: bool, mem: array<Byte>, o: nat, t: nat)
    requires Aligned(wide, o) && Whole(2, t) && (whole ==> Aligned(wide, t))
    requires o + 8 <= mem.Length && t + 8 <= mem.Length
    modifies mem
    ensures Whole(2, 8) && mem[..] == Swapped(2, old(mem[..]), o, t, 8)
    ensures Aligned(wide, o + 8) && Whole(2, t + 8) && (whole ==> Aligned(wide, t + 8))
  {
    BlockStep2(wide, whole, o, t);
    if wide {
      PairsBy64(le, whole, mem, o, t);
    } else {
      PairsBy32(le, whole, mem, o, t);
    }
  }

  /** The same, behind the blocks already swapped. */
  method NextBlock2(wide: bool, le: bool, whole: bool, mem: array<Byte>, orig: nat, target: nat, done: nat,
                    ghost was: seq<Byte>)
    requires Aligned(wide, orig + done) && Whole(2, target + done) && (whole ==> Aligned(wide, target + done))
    requires Whole(2, done) && Forward(orig, target, done + 8) && |was| == mem.Length
    requires orig + done + 8 <= mem.Length && target + done + 8 <= mem.Length
    requires mem[..] == Swapped(2, was, orig, target, done)
    modifies mem
    ensures Whole(2, done + 8) && mem[..] == Swapped(2, was, orig, target, done + 8)
    ensures Aligned(wide, orig + done + 8) && Whole(2, target + done + 8)
    ensures whole ==> Aligned(wide, target + done + 8)
  {
    Block2(wide, le, whole, mem, orig + done, target + done);
    SwappedInTwo(2, was, orig, target, done, 8);
  }

  /** Blocks of four elements, orig being aligned for word loads. */
  method Blocks2(wide: bool, le: bool, mem: array<Byte>, orig: nat, target: nat, len: nat)
    requires Aligned(wide, orig) && Whole(2, target) && Whole(8, len) && Forward(orig, target, len)
    requires orig + len <= mem.Length && target + len <= mem.Length
    modifies mem
    ensures Whole(2, len) && mem[..] == Swapped(2, old(mem[..]), orig, target, len)
  {
    ghost var was := mem[..];
    SwappedNone(2, was, orig, target);
    var whole := target == AlignUp(target, if wide then 8 else 4);
    var o, t, end := orig, target, orig + len;
    var done := 0;
    while o < end
      invariant o == orig + done <= end && t == target + done && Whole(8, end - o)
      invariant Aligned(wide, o) && Whole(2, t) && (whole ==> Aligned(wide, t))
      invariant Whole(2, done) && mem[..] == Swapped(2, was, orig, target, done)
    {
      NextBlock2(wide, le, whole, mem, orig, target, done, was);
      o, t, done := o + 8, t + 8, done + 8;
    }
  }

  /** The last n % 4 elements: a switch that falls through. */
  method Tail2(le: bool, mem: array<Byte>, orig: nat, target: nat, n: nat)
    requires n < 4 && Whole(2, orig) && Whole(2, target) && Forward(orig, target, 2 * n)
    requires orig + 2 * n <= mem.Length && target + 2 * n <= mem.Length
    modifies mem
    ensures Whole(2, 2 * n) && mem[..] == Swapped(2, old(mem[..]), orig, target, 2 * n)
  {
    if n == 0 {
      SwappedNone(2, mem[..], orig, target);
      return;
    }
    ghost var was := mem[..];
    Swap2(le, mem, orig, target);
    if n >= 2 {
      SwapNext2(le, mem, orig, target, 2, was);
    }
    if n == 3 {
      SwapNext2(le, mem, orig, target, 4, was);
    }
  }

  /** One more element behind those already swapped. */
  method SwapNext2(le: bool, mem: array<Byte>, orig: nat, target: nat, done: nat, ghost was: seq<Byte>)
    requires Whole(2, orig + done) && Whole(2, target + done) && Whole(2, done) && Forward(orig, target, done + 2)
    requires orig + done + 2 <= mem.Length && target + done + 2 <= mem.Length && |was| == mem.Length
    requires mem[..] == Swapped(2, was, orig, target, done)
    modifies mem
    ensures Whole(2, done + 2) && mem[..] == Swapped(2, was, orig, target, done + 2)
  {
    Swap2(le, mem, orig + done, target + done);
    SwappedInTwo(2, was, orig, target, done, 2);
  }

  lemma BulkIsWhole(n: nat)
    ensures n % 4 <= n && Whole(8, 2 * (n - n % 4)) && Whole(16, 4 * (n - n % 4))
  {
    WholeTimes(8, n / 4);
    WholeTimes(16, n / 4);
    assert n - n % 4 == 4 * (n / 4);
  }

  /** What follows the head: whole blocks of four elements, then the tail. */
  method Rest2(wide: bool, le: bool, mem: array<Byte>, orig: nat, target: nat, n: nat)
    requires Aligned(wide, orig) && Whole(2, target) && Forward(orig, target, 2 * n)
    requires orig + 2 * n <= mem.Length && target + 2 * n <= mem.Length
    modifies mem
    ensures Whole(2, 2 * n) && mem[..] == Swapped(2, old(mem[..]), orig, target, 2 * n)
  {
    var bulk, left := 2 * (n - n % 4), n % 4;
    ghost var was := mem[..];
    BulkIsWhole(n);
    Blocks2(wide, le, mem, orig, target, bulk);
    AlignedStep(wide, orig);
    WholeSum(2, orig, bulk);
    WholeSum(2, target, bulk);
    Tail2(le, mem, orig + bulk, target + bulk, left);
    SwappedOn(2, was, mem[..], orig, target, bulk, 2 * left, 2 * n);
  }

  /** RDR::swap_2_array */
  method Swap2Array(wide: bool, le: bool, mem: array<Byte>, orig: nat, target: nat, n: nat)
    requires n > 0 && Whole(2, orig) && Whole(2, target) && Forward(orig, target, 2 * n)
    requires orig + 2 * n <= mem.Length && target + 2 * n <= mem.Length
    modifies mem
    ensures Whole(2, 2 * n) && mem[..] == Swapped(2, old(mem[..]), orig, target, 2 * n)
  {
    ghost var was := mem[..];
    var k := Head2(wide, le, mem, orig, target, n);
    if k == n {
      return;
    }
    Finish2(wide, le, mem, orig, target, 2 * k, n - k, 2 * n, was);
  }

  /** The n elements behind those the head has swapped. */
  method Finish2(wide: bool, le: bool, mem: array<Byte>, orig: nat, target: nat, done: nat, n: nat,
                 ghost total: nat, ghost was: seq<Byte>)
    requires Aligned(wide, orig + done) && Whole(2, target + done) && Whole(2, done) && total == done + 2 * n
    requires Forward(orig, target, total) && orig + total <= mem.Length && target + total <= mem.Length
    requires |was| == mem.Length && mem[..] == Swapped(2, was, orig, target, done)
    modifies mem
    ensures Whole(2, total) && mem[..] == Swapped(2, was, orig, target, total)
  {
    Rest2(wide, le, mem, orig + done, target + done, n);
    SwappedOn(2, was, mem[..], orig, target, done, 2 * n, total);
  }

  /** One element of swap_4_array at most, and only on 64-bit machines. */
  method Head4(wide: bool, le: bool, mem: array<Byte>, orig: nat, target: nat) returns (k: nat)
    requires Whole(4, orig) && Whole(4, target) && orig + 4 <= mem.Length && target + 4 <= mem.Length
    modifies mem
    ensures k <= 1 && Aligned(wide, orig + 4 * k) && Whole(4, target + 4 * k)
    ensures Whole(4, 4 * k) && mem[..] == Swapped(4, old(mem[..]), orig, target, 4 * k)
  {
    k := 0;
    ghost var was := mem[..];
    SwappedNone(4, was, orig, target);
    var end := AlignUp(orig, 8);
    WholeAbove(4, 8, orig, end);
    if wide && orig != end {
      Swap4(le, mem, orig, target);
      k := 1;
    }
  }

  lemma BlockStep4(wide: bool, whole: bool, o: nat, t: nat)
    requires Aligned(wide, o) && Whole(4, t) && (whole ==> Whole(8, t))
    ensures Aligned(wide, o + 16) && Whole(4, t + 16) && (whole ==> Whole(8, t + 16))
  {
    AlignedStep(wide, o);
    WholeSum(4, t, 16);
    if whole { WholeSum(8, t, 16); }
  }

  /** The next four elements, by whatever words the machine has. */
  method Block4(wide: bool, le: bool, whole: bool, mem: array<Byte>, o: nat, t: nat)
    requires Aligned(wide, o) && Whole(4, t) && (whole ==> Whole(8, t))
    requires o + 16 <= mem.Length && t + 16 <= mem.Length
    modifies mem
    ensures Whole(4, 16) && mem[..] == Swapped(4, old(mem[..]), o, t, 16)
    ensures Aligned(wide, o + 16) && Whole(4, t + 16) && (whole ==> Whole(8, t + 16))
  {
    BlockStep4(wide, whole, o, t);
    if wide {
      QuadsBy64(le, whole, mem, o, t);
    } else {
      QuadsBy32(le, mem, o, t);
    }
  }

  /** The same, behind the blocks already swapped. */
  method NextBlock4(wide: bool, le: bool, whole: bool, mem: array<Byte>, orig: nat, target: nat, done: nat,
                    ghost was: seq<Byte>)
    requires Aligned(wide, orig + done) && Whole(4, target + done) && (whole ==> Whole(8, target + done))
    requires Whole(4, done) && Forward(orig, target, done + 16) && |was| == mem.Length
    requires orig + done + 16 <= mem.Length && target + done + 16 <= mem.Length
    requires mem[..] == Swapped(4, was, orig, target, done)
    modifies mem
    ensures Whole(4, done + 16) && mem[..] == Swapped(4, was, orig, target, done + 16)
    ensures Aligned(wide, orig + done + 16) && Whole(4, target + done + 16) && (whole ==> Whole(8, target + done + 16))
  {
    Block4(wide, le, whole, mem, orig + done, target + done);
    SwappedInTwo(4, was, orig, target, done, 16);
  }

  /** Blocks of four elements, orig being aligned for word loads. */
  method Blocks4(wide: bool, le: bool, mem: array<Byte>, orig: nat, target: nat, len: nat)
    requires Aligned(wide, orig) && Whole(4, target) && Whole(16, len) && Forward(orig, target, len)
    requires orig + len <= mem.Length && target + len <= mem.Length
    modifies mem
    ensures Whole(4, len) && mem[..] == Swapped(4, old(mem[..]), orig, target, len)
  {
    ghost var was := mem[..];
    SwappedNone(4, was, orig, target);
    var whole := target == AlignUp(target, 8);
    var o, t, end := orig, target, orig + len;
    var done := 0;
    while o < end
      invariant o == orig + done <= end && t == target + done && Whole(16, end - o)
      invariant Aligned(wide, o) && Whole(4, t) && (whole ==> Whole(8, t))
      invariant Whole(4, done) && mem[..] == Swapped(4, was, orig, target, done)
    {
      NextBlock4(wide, le, whole, mem, orig, target, done, was);
      o, t, done := o + 16, t + 16, done + 16;
    }
  }

  method Tail4(le: bool, mem: array<Byte>, orig: nat, target: nat, n: nat)
    requires n < 4 && Whole(4, orig) && Whole(4, target) && Forward(orig, target, 4 * n)
    requires orig + 4 * n <= mem.Length && target + 4 * n <= mem.Length
    modifies mem
    ensures Whole(4, 4 * n) && mem[..] == Swapped(4, old(mem[..]), orig, target, 4 * n)
  {
    if n == 0 {
      SwappedNone(4, mem[..], orig, target);
      return;
    }
    ghost var was := mem[..];
    Swap4(le, mem, orig, target);
    if n >= 2 {
      SwapNext4(le, mem, orig, target, 4, was);
    }
    if n == 3 {
      SwapNext4(le, mem, orig, target, 8, was);
    }
  }

  /** One more element behind those already swapped. */
  method SwapNext4(le: bool, mem: array<Byte>, orig: nat, target: nat, done: nat, ghost was: seq<Byte>)
    requires Whole(4, orig + done) && Whole(4, target + done) && Whole(4, done) && Forward(orig, target, done + 4)
    requires orig + done + 4 <= mem.Length && target + done + 4 <= mem.Length && |was| == mem.Length
    requires mem[..] == Swapped(4, was, orig, target, done)
    modifies mem
    ensures Whole(4, done + 4) && mem[..] == Swapped(4, was, orig, target, done + 4)
  {
    Swap4(le, mem, orig + done, target + done);
    SwappedInTwo(4, was, orig, target, done, 4);
  }

  /** What follows the head: whole blocks of four elements, then the tail. */
  method Rest4(wide: bool, le: bool, mem: array<Byte>, orig: nat, target: nat, n: nat)
    requires Aligned(wide, orig) && Whole(4, target) && Forward(orig, target, 4 * n)
    requires orig + 4 * n <= mem.Length && target + 4 * n <= mem.Length
    modifies mem
    ensures Whole(4, 4 * n) && mem[..] == Swapped(4, old(mem[..]), orig, target, 4 * n)
  {
    var bulk, left := 4 * (n - n % 4), n % 4;
    ghost var was := mem[..];
    BulkIsWhole(n);
    Blocks4(wide, le, mem, orig, target, bulk);
    AlignedStep(wide, orig);
    WholeSum(4, orig, bulk);
    WholeSum(4, target, bulk);
    Tail4(le, mem, orig + bulk, target + bulk, left);
    SwappedOn(4, was, mem[..], orig, target, bulk, 4 * left, 4 * n);
  }

  /** RDR::swap_4_array */
  method Swap4Array(wide: bool, le: bool, mem: array<Byte>, orig: nat, target: nat, n: nat)
    requires n > 0 && Whole(4, orig) && Whole(4, target) && Forward(orig, target, 4 * n)
    requires orig + 4 * n <= mem.Length && target + 4 * n <= mem.Length
    modifies mem
    ensures Whole(4, 4 * n) && mem[..] == Swapped(4, old(mem[..]), orig, target, 4 * n)
  {
    ghost var was := mem[..];
    var k := Head4(wide, le, mem, orig, target);
    if k == n {
      return;
    }
    Finish4(wide, le, mem, orig, target, 4 * k, n - k, 4 * n, was);
  }

  /** The n elements behind those the head has swapped. */
  method Finish4(wide: bool, le: bool, mem: array<Byte>, orig: nat, target: nat, done: nat, n: nat,
                 ghost total: nat, ghost was: seq<Byte>)
    requires Aligned(wide, orig + done) && Whole(4, target + done) && Whole(4, done) && total == done + 4 * n
    requires Forward(orig, target, total) && orig + total <= mem.Length && target + total <= mem.Length
    requires |was| == mem.Length && mem[..] == Swapped(4, was, orig, target, done)
    modifies mem
    ensures Whole(4, total) && mem[..] == Swapped(4, was, orig, target, total)
  {
    Rest4(wide, le, mem, orig + done, target + done, n);
    SwappedOn(4, was, mem[..], orig, target, done, 4 * n, total);
  }
}
