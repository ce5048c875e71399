// Bytes, fixed-width little-endian words, and what it means for two buffers to
// hold the same bytes at two places.
module Bytes {

  type byte = b: int | 0 <= b < 256

  // Descriptor numbers, pids and errnos are `i32` in the source; file handles,
  // names and paths are raw bytes.
  type Handle = seq<byte>
  type Name = seq<byte>
  type Path = seq<byte>

  const TWO_31: int := 0x8000_0000
  const TWO_32: int := 0x1_0000_0000

  predicate IsI32(n: int) {
    -TWO_31 <= n < TWO_31
  }

  function Pow256(width: nat): (p: nat)
    ensures p >= 1
  {
    if width == 0 then 1 else 256 * Pow256(width - 1)
  }

  function LeValue(s: seq<byte>): (n: nat)
    ensures n < Pow256(|s|)
  {
    if |s| == 0 then 0 else s[0] + 256 * LeValue(s[1..])
  }

  function LeBytes(n: nat, width: nat): (s: seq<byte>)
    ensures |s| == width
  {
    if width == 0 then [] else [n % 256] + LeBytes(n / 256, width - 1)
  }

  lemma {:induction false} LeRoundTrip(n: nat, width: nat)
    requires n < Pow256(width)
    ensures LeValue(LeBytes(n, width)) == n
  {
    if width != 0 {
      LeRoundTrip(n / 256, width - 1);
      assert LeBytes(n, width)[1..] == LeBytes(n / 256, width - 1);
    }
  }

  // The same statement for the widths the wire formats use, with the bounds
  // written as numbers.
  lemma WordRoundTrips(n: nat)
    ensures n < 0x1_0000 ==> LeValue(LeBytes(n, 2)) == n
    ensures n < TWO_32 ==> LeValue(LeBytes(n, 4)) == n
    ensures n < TWO_32 * TWO_32 ==> LeValue(LeBytes(n, 8)) == n
  {
    PowersAreWords();
    if n < 0x1_0000 {
      LeRoundTrip(n, 2);
    }
    if n < TWO_32 {
      LeRoundTrip(n, 4);
    }
    if n < TWO_32 * TWO_32 {
      LeRoundTrip(n, 8);
    }
  }

  lemma PowersAreWords()
    ensures Pow256(2) == 0x1_0000
    ensures Pow256(4) == TWO_32
    ensures Pow256(8) == TWO_32 * TWO_32
  {
    assert Pow256(1) == 256;
    assert Pow256(3) == 0x100_0000;
    assert Pow256(5) == 0x100_0000_0000;
    assert Pow256(6) == 0x1_0000_0000_0000;
    assert Pow256(7) == 0x100_0000_0000_0000;
  }

  // The first byte counts least.
  lemma WordsAreLittleEndian(s: seq<byte>)
    ensures |s| == 2 ==> LeValue(s) == s[0] as int + 0x100 * (s[1] as int)
    ensures |s| == 4 ==>
      LeValue(s) == s[0] as int + 0x100 * (s[1] as int) + 0x1_0000 * (s[2] as int) + 0x100_0000 * (s[3] as int)
    ensures |s| == 8 ==> LeValue(s) == LeValue(s[0..4]) + TWO_32 * LeValue(s[4..8])
  {
    hide LeValue, Pow256;
    PowersAreWords();
    if |s| == 2 {
      ValueStep(s, s[0], s[1..]);
      ValueOfOne(s[1..]);
    } else if |s| == 4 {
      ValueStep(s, s[0], s[1..]);
      ValueStep(s[1..], s[1], s[2..]);
      ValueStep(s[2..], s[2], s[3..]);
      ValueOfOne(s[3..]);
    } else if |s| == 8 {
      ValueAppends(s[0..4], s[4..8]);
      assert s == s[0..4] + s[4..8];
    }
  }

  lemma ValueStep(s: seq<byte>, first: byte, rest: seq<byte>)
    requires |s| != 0 && s[0] == first && s[1..] == rest
    ensures LeValue(s) == first + 0x100 * LeValue(rest)
  {
  }

  lemma ValueOfOne(s: seq<byte>)
    requires |s| == 1
    ensures LeValue(s) == s[0]
  {
    assert s[1..] == [];
  }

  lemma {:induction false} ValueAppends(a: seq<byte>, b: seq<byte>)
    ensures LeValue(a + b) == LeValue(a) + Pow256(|a|) * LeValue(b)
  {
    if |a| == 0 {
      assert a + b == b;
    } else {
      ValueAppends(a[1..], b);
      assert (a + b)[1..] == a[1..] + b;
      ValueStep(a + b, a[0], a[1..] + b);
      ValueStep(a, a[0], a[1..]);
      TimesIsAssociative(0x100, Pow256(|a| - 1), LeValue(b));
    }
  }

  lemma TimesIsAssociative(x: int, y: int, z: int)
    ensures x * (y * z) == (x * y) * z
  {
  }

  // `u32 as i32` and back.
  function AsI32(u: nat): (i: int)
    requires u < TWO_32
    ensures IsI32(i)
  {
    if u < TWO_31 then u else u - TWO_32
  }

  function AsU32(i: int): (u: nat)
    requires IsI32(i)
    ensures u < TWO_32 && AsI32(u) == i
  {
    if i < 0 then i + TWO_32 else i
  }

  // `n` bytes of `b` from `at` on are the `n` bytes of `c` from `to` on.
  ghost predicate SameBytes(b: seq<byte>, at: nat, c: seq<byte>, to: nat, n: nat) {
    && at + n <= |b|
    && to + n <= |c|
    && b[at..at + n] == c[to..to + n]
  }

  lemma SameWithin(b: seq<byte>, at: nat, c: seq<byte>, to: nat, n: nat, skip: nat, m: nat)
    requires SameBytes(b, at, c, to, n)
    requires skip + m <= n
    ensures SameBytes(b, at + skip, c, to + skip, m)
  {
    SliceOfSlice(b, at, n, skip, m);
    SliceOfSlice(c, to, n, skip, m);
  }

  lemma SliceOfSlice(b: seq<byte>, at: nat, n: nat, skip: nat, m: nat)
    requires at + n <= |b| && skip + m <= n
    ensures b[at..at + n][skip..skip + m] == b[at + skip..at + skip + m]
  {
    var left, right := b[at..at + n][skip..skip + m], b[at + skip..at + skip + m];
    forall k | 0 <= k < m
      ensures left[k] == right[k]
    {
      assert left[k] == b[at..at + n][skip + k] == b[at + (skip + k)];
    }
    assert left == right;
  }

  lemma SameByteAt(b: seq<byte>, at: nat, c: seq<byte>, to: nat, n: nat, k: nat)
    requires SameBytes(b, at, c, to, n)
    requires k < n
    ensures b[at + k] == c[to + k]
  {
    assert b[at + k] == b[at..at + n][k];
    assert c[to + k] == c[to..to + n][k];
  }
}
